/**
 * The read-only queries of db/index.js that return documents: `searchRecords` (a filter)
 * and `sortRecords` (a permutation ordered by one field). Both work on the documents
 * the backend returns, in collection order.
 */
module Queries {
  import opened Wrappers
  import opened Text
  import opened Records

  // ---------------------------------------------------------------- search

  /** The pattern `searchRecords` sends: `keyword.toLowerCase().trim()`. */
  function SearchTerm(keyword: string): (term: string) {
    Trim(Lower(keyword))
  }

  /**
   * `{field: {$regex: term, $options: 'i'}}` read as a literal pattern: the field is present
   * and contains `term` ignoring ASCII case (`term` is lower-case already).
   */
  predicate FieldMatches(f: Option<string>, term: string) {
    f.Some? && Contains(Lower(f.value), term)
  }

  /** The `$or` of the two field conditions. */
  predicate Matches(d: Doc, term: string) {
    FieldMatches(d.name, term) || FieldMatches(d.value, term)
  }

  /** `a` is `b` with some elements left out, the rest in the same order. */
  predicate IsSubsequence(a: seq<Doc>, b: seq<Doc>) {
    if a == [] then true
    else if b == [] then false
    else if a[0] == b[0] then IsSubsequence(a[1..], b[1..])
    else IsSubsequence(a, b[1..])
  }

  /** The documents of `docs` that match `term`, in collection order. */
  function Filter(docs: seq<Doc>, term: string): (r: seq<Doc>)
    ensures forall d :: d in r <==> d in docs && Matches(d, term)
    ensures IsSubsequence(r, docs)
  {
    if docs == [] then []
    else if Matches(docs[0], term) then [docs[0]] + Filter(docs[1..], term)
    else
      var r := Filter(docs[1..], term);
      assert r != [] ==> r[0] != docs[0];
      r
  }

  /**
   * `searchRecords(keyword)`: exactly the documents whose name or value contains the
   * lower-cased, trimmed keyword ignoring case, in collection order.
   */
  function SearchRecords(docs: seq<Doc>, keyword: string): (r: seq<Doc>)
    ensures forall d :: d in r <==> d in docs && Matches(d, SearchTerm(keyword))
    ensures IsSubsequence(r, docs)
  {
    Filter(docs, SearchTerm(keyword))
  }

  /** The empty pattern matches every document with a name or a value present. */
  lemma {:induction false} FilterEmptyTerm(docs: seq<Doc>)
    requires forall d :: d in docs ==> d.name.Some? || d.value.Some?
    ensures Filter(docs, []) == docs
  {
    if docs != [] {
      var d := docs[0];
      assert d in docs;
      if d.name.Some? { ContainsEmpty(Lower(d.name.value)); } else { ContainsEmpty(Lower(d.value.value)); }
      FilterEmptyTerm(docs[1..]);
      assert [d] + docs[1..] == docs;
    }
  }

  /**
   * A keyword that is empty or whitespace only is sent as the empty pattern and so returns
   * every document that has a name or a value, that is every document the store wrote.
   */
  lemma BlankKeywordMatchesAll(docs: seq<Doc>, keyword: string)
    requires AllWhitespace(keyword)
    requires forall d :: d in docs ==> d.name.Some? || d.value.Some?
    ensures SearchRecords(docs, keyword) == docs
  {
    LowerWhitespace(keyword);
    assert SearchTerm(keyword) == [];
    FilterEmptyTerm(docs);
  }

  /** A document whose name contains the trimmed keyword, in any mix of letter case, is found. */
  lemma KeywordInNameIsFound(docs: seq<Doc>, d: Doc, keyword: string)
    requires d in docs && d.name.Some?
    requires Contains(Lower(d.name.value), Lower(Trim(keyword)))
    ensures d in SearchRecords(docs, keyword)
  {
    TrimLowerCommute(keyword);
  }

  /** A document whose value contains the trimmed keyword literally is found. */
  lemma KeywordInValueIsFound(docs: seq<Doc>, d: Doc, keyword: string)
    requires d in docs && d.value.Some?
    requires Contains(d.value.value, Trim(keyword))
    ensures d in SearchRecords(docs, keyword)
  {
    ContainsLower(d.value.value, Trim(keyword));
    TrimLowerCommute(keyword);
  }

  // ---------------------------------------------------------------- sort

  /** The value `.sort({[field]: 1})` compares: a missing field, a number or a string. */
  datatype Key = Missing | Number(n: nat) | Chars(s: string)

  function OptChars(f: Option<string>): (k: Key) {
    if f.Some? then Chars(f.value) else Missing
  }

  function OptNumber(f: Option<Time>): (k: Key) {
    if f.Some? then Number(f.value) else Missing
  }

  /**
   * The key of a document for a sort field name, passed through as given: `_id`, `name`,
   * `value`, `createdAt` and `updatedAt` are document fields; any other name (including
   * `id`) is missing from every document.
   */
  function FieldKey(d: Doc, field: string): (k: Key) {
    if field == "_id" then Number(d.id)
    else if field == "name" then OptChars(d.name)
    else if field == "value" then OptChars(d.value)
    else if field == "createdAt" then OptNumber(d.createdAt)
    else if field == "updatedAt" then OptNumber(d.updatedAt)
    else Missing
  }

  /** Binary string order, character by character; a prefix comes first. */
  predicate LexLeq(a: string, b: string) {
    if a == [] then true
    else if b == [] then false
    else if a[0] != b[0] then a[0] < b[0]
    else LexLeq(a[1..], b[1..])
  }

  /** The backend's ascending order on keys: missing first, then numbers, then strings. */
  predicate KeyLeq(a: Key, b: Key) {
    match (a, b)
    case (Missing, _) => true
    case (_, Missing) => false
    case (Number(x), Number(y)) => x <= y
    case (Number(_), Chars(_)) => true
    case (Chars(_), Number(_)) => false
    case (Chars(x), Chars(y)) => LexLeq(x, y)
  }

  lemma {:induction false} LexLeqTotal(a: string, b: string)
    ensures LexLeq(a, b) || LexLeq(b, a)
  {
    if a != [] && b != [] && a[0] == b[0] {
      LexLeqTotal(a[1..], b[1..]);
    }
  }

  lemma {:induction false} LexLeqTransitive(a: string, b: string, c: string)
    requires LexLeq(a, b) && LexLeq(b, c)
    ensures LexLeq(a, c)
  {
    if a != [] && b != [] && c != [] && a[0] == b[0] == c[0] {
      LexLeqTransitive(a[1..], b[1..], c[1..]);
    }
  }

  lemma {:induction false} LexLeqAntisymmetric(a: string, b: string)
    requires LexLeq(a, b) && LexLeq(b, a)
    ensures a == b
  {
    if a != [] && b != [] {
      LexLeqAntisymmetric(a[1..], b[1..]);
      assert a == [a[0]] + a[1..] && b == [b[0]] + b[1..];
    }
  }

  /** The key order is a total order. */
  lemma KeyLeqTotalOrder(a: Key, b: Key, c: Key)
    ensures KeyLeq(a, b) || KeyLeq(b, a)
    ensures KeyLeq(a, b) && KeyLeq(b, c) ==> KeyLeq(a, c)
    ensures KeyLeq(a, b) && KeyLeq(b, a) ==> a == b
  {
    if a.Chars? && b.Chars? {
      LexLeqTotal(a.s, b.s);
      if LexLeq(a.s, b.s) && LexLeq(b.s, a.s) { LexLeqAntisymmetric(a.s, b.s); }
      if c.Chars? && LexLeq(a.s, b.s) && LexLeq(b.s, c.s) { LexLeqTransitive(a.s, b.s, c.s); }
    }
  }

  /** `a` may come before `b` in the result of a sort on `field`, ascending or descending. */
  predicate InOrder(a: Doc, b: Doc, field: string, ascending: bool) {
    if ascending then KeyLeq(FieldKey(a, field), FieldKey(b, field))
    else KeyLeq(FieldKey(b, field), FieldKey(a, field))
  }

  lemma InOrderTotalPreorder(a: Doc, b: Doc, c: Doc, field: string, ascending: bool)
    ensures InOrder(a, b, field, ascending) || InOrder(b, a, field, ascending)
    ensures InOrder(a, b, field, ascending) && InOrder(b, c, field, ascending) ==> InOrder(a, c, field, ascending)
  {
    var ka, kb, kc := FieldKey(a, field), FieldKey(b, field), FieldKey(c, field);
    KeyLeqTotalOrder(ka, kb, kc);
    KeyLeqTotalOrder(kc, kb, ka);
  }

  ghost predicate SortedBy(s: seq<Doc>, field: string, ascending: bool) {
    forall i, j :: 0 <= i < j < |s| ==> InOrder(s[i], s[j], field, ascending)
  }

  /** A sorted sequence stays sorted with an element in front that may precede all of it. */
  lemma ConsSorted(h: Doc, s: seq<Doc>, field: string, ascending: bool)
    requires SortedBy(s, field, ascending)
    requires forall y :: y in s ==> InOrder(h, y, field, ascending)
    ensures SortedBy([h] + s, field, ascending)
  {
    var r := [h] + s;
    forall i, j | 0 <= i < j < |r| ensures InOrder(r[i], r[j], field, ascending) {
      if i == 0 {
        assert r[j] == s[j - 1] && s[j - 1] in s;
      } else {
        assert r[i] == s[i - 1] && r[j] == s[j - 1];
      }
    }
  }

  /** Puts `x` in front of the first element it may precede, behind the ones it may not. */
  function Insert(x: Doc, s: seq<Doc>, field: string, ascending: bool): (r: seq<Doc>)
    requires SortedBy(s, field, ascending)
    ensures multiset(r) == multiset(s) + multiset{x}
    ensures SortedBy(r, field, ascending)
  {
    if s == [] then [x]
    else if InOrder(x, s[0], field, ascending) then
      InsertFront(x, s, field, ascending);
      [x] + s
    else
      var rest := Insert(x, s[1..], field, ascending);
      InsertBehind(x, s, rest, field, ascending);
      [s[0]] + rest
  }

  lemma InsertFront(x: Doc, s: seq<Doc>, field: string, ascending: bool)
    requires SortedBy(s, field, ascending)
    requires s != [] && InOrder(x, s[0], field, ascending)
    ensures SortedBy([x] + s, field, ascending)
    ensures multiset([x] + s) == multiset(s) + multiset{x}
  {
    forall y | y in s ensures InOrder(x, y, field, ascending) {
      var j :| 0 <= j < |s| && s[j] == y;
      InOrderTotalPreorder(x, s[0], s[j], field, ascending);
    }
    ConsSorted(x, s, field, ascending);
  }

  lemma InsertBehind(x: Doc, s: seq<Doc>, rest: seq<Doc>, field: string, ascending: bool)
    requires SortedBy(s, field, ascending)
    requires s != [] && !InOrder(x, s[0], field, ascending)
    requires SortedBy(rest, field, ascending)
    requires multiset(rest) == multiset(s[1..]) + multiset{x}
    ensures SortedBy([s[0]] + rest, field, ascending)
    ensures multiset([s[0]] + rest) == multiset(s) + multiset{x}
  {
    forall y | y in rest ensures InOrder(s[0], y, field, ascending) {
      assert y in multiset(rest);
      if y == x {
        InOrderTotalPreorder(x, s[0], s[0], field, ascending);
      } else {
        assert y in s[1..];
        var j :| 0 <= j < |s[1..]| && s[1..][j] == y;
        assert s[j + 1] == y;
      }
    }
    ConsSorted(s[0], rest, field, ascending);
    assert s == [s[0]] + s[1..];
  }

  /** Insertion sort; elements that compare equal keep their collection order. */
  function SortBy(docs: seq<Doc>, field: string, ascending: bool): (r: seq<Doc>)
    ensures multiset(r) == multiset(docs)
    ensures SortedBy(r, field, ascending)
  {
    if docs == [] then []
    else
      assert docs == [docs[0]] + docs[1..];
      Insert(docs[0], SortBy(docs[1..], field, ascending), field, ascending)
  }

  /**
   * `sortRecords(field, order)`: every document of the collection, each once, ordered by
   * `field` ascending when `order` is exactly `"asc"` and descending for any other order.
   */
  function SortRecords(docs: seq<Doc>, field: string, order: string): (r: seq<Doc>)
    ensures multiset(r) == multiset(docs) && |r| == |docs|
    ensures order == "asc" ==>
      forall i, j :: 0 <= i < j < |r| ==> KeyLeq(FieldKey(r[i], field), FieldKey(r[j], field))
    ensures order != "asc" ==>
      forall i, j :: 0 <= i < j < |r| ==> KeyLeq(FieldKey(r[j], field), FieldKey(r[i], field))
  {
    var r := SortBy(docs, field, order == "asc");
    assert |r| == |multiset(r)| == |multiset(docs)| == |docs|;
    r
  }

  // ---------------------------------------------------------------- ascending versus descending

  function Reverse(s: seq<Doc>): (r: seq<Doc>)
    ensures |r| == |s| && multiset(r) == multiset(s)
    ensures forall i :: 0 <= i < |s| ==> r[i] == s[|s| - 1 - i]
  {
    if s == [] then [] else
      var r := Reverse(s[1..]) + [s[0]];
      assert s == [s[0]] + s[1..];
      r
  }

  /** Documents that agree on the key of `field` are the same document. */
  ghost predicate DistinctKeys(docs: seq<Doc>, field: string) {
    forall a, b :: a in docs && b in docs && FieldKey(a, field) == FieldKey(b, field) ==> a == b
  }

  lemma ReverseSorted(s: seq<Doc>, field: string)
    requires SortedBy(s, field, false)
    ensures SortedBy(Reverse(s), field, true)
  {
  }

  /** With distinct keys there is only one sorted arrangement of a collection. */
  lemma {:induction false} SortedUnique(a: seq<Doc>, b: seq<Doc>, field: string)
    requires multiset(a) == multiset(b) && DistinctKeys(a, field)
    requires SortedBy(a, field, true) && SortedBy(b, field, true)
    ensures a == b
  {
    if a == [] {
      assert |b| == |multiset(b)| == 0;
    } else {
      assert |b| == |multiset(b)| == |a|;
      SortedHeads(a, b, field);
      assert a == [a[0]] + a[1..] && b == [b[0]] + b[1..];
      assert multiset(a[1..]) == multiset(a) - multiset{a[0]};
      assert multiset(b[1..]) == multiset(b) - multiset{b[0]};
      DistinctKeysSubset(a, a[1..], field);
      SortedTail(a, field);
      SortedTail(b, field);
      SortedUnique(a[1..], b[1..], field);
    }
  }

  lemma SortedTail(s: seq<Doc>, field: string)
    requires s != [] && SortedBy(s, field, true)
    ensures SortedBy(s[1..], field, true)
  {
    forall i, j | 0 <= i < j < |s| - 1 ensures InOrder(s[1..][i], s[1..][j], field, true) {
      assert s[1..][i] == s[i + 1] && s[1..][j] == s[j + 1];
    }
  }

  lemma DistinctKeysSubset(s: seq<Doc>, t: seq<Doc>, field: string)
    requires DistinctKeys(s, field)
    requires multiset(t) <= multiset(s)
    ensures DistinctKeys(t, field)
  {
    forall x, y | x in t && y in t && FieldKey(x, field) == FieldKey(y, field) ensures x == y {
      assert x in multiset(t) && y in multiset(t);
      assert x in s && y in s;
    }
  }

  /** Two sorted arrangements of the same collection with distinct keys start alike. */
  lemma SortedHeads(a: seq<Doc>, b: seq<Doc>, field: string)
    requires multiset(a) == multiset(b) && DistinctKeys(a, field)
    requires SortedBy(a, field, true) && SortedBy(b, field, true)
    requires a != [] && b != []
    ensures a[0] == b[0]
  {
    assert a[0] in multiset(b) && b[0] in multiset(a);
    var i :| 0 <= i < |a| && a[i] == b[0];
    var j :| 0 <= j < |b| && b[j] == a[0];
    var ka, kb := FieldKey(a[0], field), FieldKey(b[0], field);
    assert KeyLeq(ka, kb) by {
      if i > 0 { assert InOrder(a[0], a[i], field, true); } else { KeyLeqTotalOrder(ka, ka, ka); }
    }
    assert KeyLeq(kb, ka) by {
      if j > 0 { assert InOrder(b[0], b[j], field, true); } else { KeyLeqTotalOrder(kb, kb, kb); }
    }
    KeyLeqTotalOrder(ka, kb, kb);
    assert a[0] in a && b[0] in a;
  }

  /**
   * When no two documents share a key, `sortRecords(field, 'desc')` is the exact reverse of
   * `sortRecords(field, 'asc')`.
   */
  lemma DescendingIsReversedAscending(docs: seq<Doc>, field: string)
    requires DistinctKeys(docs, field)
    ensures SortRecords(docs, field, "desc") == Reverse(SortRecords(docs, field, "asc"))
  {
    var asc, desc := SortRecords(docs, field, "asc"), SortRecords(docs, field, "desc");
    ReverseSorted(desc, field);
    var rd := Reverse(desc);
    DistinctKeysSubset(docs, rd, field);
    SortedUnique(rd, asc, field);
    assert Reverse(rd) == desc;
  }

  /** Ids are unique, so sorting by `_id` descending reverses sorting by `_id` ascending. */
  lemma DescendingByIdIsReversedAscending(docs: seq<Doc>)
    requires UniqueIds(docs)
    ensures SortRecords(docs, "_id", "desc") == Reverse(SortRecords(docs, "_id", "asc"))
  {
    forall a, b | a in docs && b in docs && FieldKey(a, "_id") == FieldKey(b, "_id") ensures a == b {
      var i :| 0 <= i < |docs| && docs[i] == a;
      var j :| 0 <= j < |docs| && docs[j] == b;
      assert !(i < j) && !(j < i);
    }
    DescendingIsReversedAscending(docs, "_id");
  }
}
