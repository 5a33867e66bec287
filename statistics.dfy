/**
 * `getStatistics` of db/index.js: one pass over the listed records that tracks the first
 * longest name, the earliest and latest creation and the last modification, plus the
 * number of distinct names in the collection.
 */
module Statistics {
  import opened Wrappers
  import opened Records

  const NoRecordsMessage := "No records to analyze"

  /** The summary object: the degenerate one for an empty collection, or the full one. */
  datatype Stats =
    | NoRecords(totalRecords: nat, message: string)
    | Summary(totalRecords: nat, lastModified: Time, longestName: string, longestNameLength: nat,
              earliestRecord: Time, latestRecord: Time, uniqueNames: nat)

  /** `collection.distinct('name')`: the name values present in the collection. */
  function DistinctNames(docs: seq<Doc>): (names: set<string>) {
    set d | d in docs && d.name.Some? :: d.name.value
  }

  /** Record `k` has a longest name, and every record before it has a strictly shorter one. */
  ghost predicate IsFirstLongest(rs: seq<Record>, k: int) {
    0 <= k < |rs| &&
    (forall j :: 0 <= j < |rs| ==> |rs[j].name| <= |rs[k].name|) &&
    (forall j :: 0 <= j < k ==> |rs[j].name| < |rs[k].name|)
  }

  ghost predicate IsEarliestCreation(rs: seq<Record>, t: Time) {
    (exists j :: 0 <= j < |rs| && rs[j].createdAt == t) &&
    forall j :: 0 <= j < |rs| ==> t <= rs[j].createdAt
  }

  ghost predicate IsLatestCreation(rs: seq<Record>, t: Time) {
    (exists j :: 0 <= j < |rs| && rs[j].createdAt == t) &&
    forall j :: 0 <= j < |rs| ==> rs[j].createdAt <= t
  }

  ghost predicate IsLastModification(rs: seq<Record>, t: Time) {
    (exists j :: 0 <= j < |rs| && rs[j].updatedAt == t) &&
    forall j :: 0 <= j < |rs| ==> rs[j].updatedAt <= t
  }

  /**
   * `getStatistics()` over the collection `docs`, listed at time `now`: the degenerate
   * summary exactly when the collection is empty; otherwise the record count, the first
   * longest name, the extreme creation times, the latest update time and the number of
   * distinct names.
   */
  method GetStatistics(docs: seq<Doc>, now: Time) returns (s: Stats)
    ensures docs == [] <==> s == NoRecords(0, NoRecordsMessage)
    ensures docs != [] ==> s.Summary?
    ensures s.Summary? ==>
      var rs := ListRecords(docs, now);
      && s.totalRecords == |docs|
      && (exists k :: IsFirstLongest(rs, k) && s.longestName == rs[k].name && s.longestNameLength == |rs[k].name|)
      && IsEarliestCreation(rs, s.earliestRecord)
      && IsLatestCreation(rs, s.latestRecord)
      && s.earliestRecord <= s.latestRecord
      && IsLastModification(rs, s.lastModified)
      && ((forall j :: 0 <= j < |rs| ==> rs[j].createdAt <= rs[j].updatedAt) ==> s.latestRecord <= s.lastModified)
      && s.uniqueNames == |DistinctNames(docs)|
  {
    var records := ListRecords(docs, now);
    if |records| == 0 {
      return NoRecords(0, NoRecordsMessage);
    }
    var longestName, longestNameLength := "", 0;
    var earliestDate: Option<Time> := None;
    var latestDate: Option<Time> := None;
    var lastModified: Option<Time> := None;
    ghost var k, e, l, m := 0, 0, 0, 0;
    for i := 0 to |records|
      invariant longestNameLength == |longestName| && k < |records|
      invariant forall j :: 0 <= j < i ==> |records[j].name| <= longestNameLength
      invariant forall j :: 0 <= j < k ==> |records[j].name| < longestNameLength
      invariant longestNameLength > 0 ==> k < i && records[k].name == longestName
      invariant i == 0 ==> earliestDate.None? && latestDate.None? && lastModified.None?
      invariant i > 0 ==> earliestDate.Some? && e < i && records[e].createdAt == earliestDate.value
      invariant i > 0 ==> forall j :: 0 <= j < i ==> earliestDate.value <= records[j].createdAt
      invariant i > 0 ==> latestDate.Some? && l < i && records[l].createdAt == latestDate.value
      invariant i > 0 ==> forall j :: 0 <= j < i ==> records[j].createdAt <= latestDate.value
      invariant i > 0 ==> lastModified.Some? && m < i && records[m].updatedAt == lastModified.value
      invariant i > 0 ==> forall j :: 0 <= j < i ==> records[j].updatedAt <= lastModified.value
    {
      var record := records[i];
      if |record.name| > longestNameLength {
        longestNameLength, longestName := |record.name|, record.name;
        k := i;
      }
      // Every listed record has a creation and an update time, so both guards of the source hold.
      var creationDate := record.createdAt;
      if earliestDate.None? || creationDate < earliestDate.value {
        earliestDate, e := Some(creationDate), i;
      }
      if latestDate.None? || creationDate > latestDate.value {
        latestDate, l := Some(creationDate), i;
      }
      var modDate := record.updatedAt;
      if lastModified.None? || modDate > lastModified.value {
        lastModified, m := Some(modDate), i;
      }
    }
    assert IsFirstLongest(records, k) && records[k].name == longestName;
    var uniqueNames := |DistinctNames(docs)|;
    s := Summary(|records|, lastModified.value, longestName, longestNameLength,
                 earliestDate.value, latestDate.value, uniqueNames);
  }

  /** There are never more distinct names than documents, and at least one if any document has a name. */
  lemma {:induction false} DistinctNamesBound(docs: seq<Doc>)
    ensures |DistinctNames(docs)| <= |docs|
    ensures (exists d :: d in docs && d.name.Some?) ==> |DistinctNames(docs)| >= 1
  {
    if docs != [] {
      var init, last := docs[..|docs| - 1], docs[|docs| - 1];
      DistinctNamesBound(init);
      assert docs == init + [last];
      var extra: set<string> := if last.name.Some? then {last.name.value} else {};
      assert DistinctNames(docs) == DistinctNames(init) + extra;
      if d :| d in docs && d.name.Some? {
        assert d.name.value in DistinctNames(docs);
      }
    }
  }
}
