/**
 * `getAllRecordsForExport` of db/index.js: the listed records together with their
 * fixed-format text rendering, one seven-line block per record.
 */
module Export {
  import opened Text
  import opened Records

  /** `c.repeat(n)`. */
  function Repeat(c: char, n: nat): (r: string)
    ensures |r| == n && forall i :: 0 <= i < n ==> r[i] == c
  {
    if n == 0 then [] else Repeat(c, n - 1) + [c]
  }

  /** The separator rule closing each block: forty dashes. */
  function Rule(): (r: string) {
    Repeat('-', 40)
  }

  /**
   * The seven lines of the block of the record at 1-based position `index`, each with its
   * line break. A listed record always has both timestamps, so the `'N/A'` fallbacks of
   * the source are never taken.
   */
  function BlockLines(index: nat, r: Record): (ls: seq<string>)
    ensures |ls| == 7
  {
    [Line("Record #", Decimal(index)),
     Line("  ID: ", Decimal(r.id)),
     Line("  Name: ", r.name),
     Line("  Value: ", r.value),
     Line("  Created: ", Decimal(r.createdAt)),
     Line("  Last Updated: ", Decimal(r.updatedAt)),
     Rule() + "\n"]
  }

  /** One line of a block: a fixed prefix, the field's text and a line break. */
  function Line(prefix: string, text: string): (l: string) {
    prefix + text + "\n"
  }

  /** The concatenation of `parts`, left to right. */
  function Join(parts: seq<string>): (s: string) {
    if parts == [] then "" else Join(parts[..|parts| - 1]) + parts[|parts| - 1]
  }

  function Block(index: nat, r: Record): (b: string) {
    Join(BlockLines(index, r))
  }

  /** The export text of `rs`: the blocks of its records, numbered from 1, in list order. */
  function FormatAll(rs: seq<Record>): (text: string) {
    if rs == [] then "" else FormatAll(rs[..|rs| - 1]) + Block(|rs|, rs[|rs| - 1])
  }

  /**
   * `getAllRecordsForExport()` on the collection `docs`, listed at time `now`: the list
   * unchanged, and its export text, built by appending each record's block in turn.
   */
  method GetAllRecordsForExport(docs: seq<Doc>, now: Time) returns (records: seq<Record>, formatted: string)
    ensures records == ListRecords(docs, now)
    ensures formatted == FormatAll(records)
    ensures docs == [] ==> formatted == ""
  {
    records := ListRecords(docs, now);
    formatted := "";
    for index := 0 to |records|
      invariant formatted == FormatAll(records[..index])
    {
      var record := records[index];
      ghost var before := formatted;
      formatted := formatted + Line("Record #", Decimal(index + 1));
      formatted := formatted + Line("  ID: ", Decimal(record.id));
      formatted := formatted + Line("  Name: ", record.name);
      formatted := formatted + Line("  Value: ", record.value);
      formatted := formatted + Line("  Created: ", Decimal(record.createdAt));
      formatted := formatted + Line("  Last Updated: ", Decimal(record.updatedAt));
      formatted := formatted + (Repeat('-', 40) + "\n");
      AppendBlock(before, index + 1, record);
      assert records[..index + 1][..index] == records[..index];
    }
    assert records[..|records|] == records;
  }

  /**
   * The export of a prefix of the list is a prefix of the export, and the block of the
   * record at position `k` (numbered `k + 1`) follows it immediately.
   */
  lemma FormatPrefix(rs: seq<Record>, k: nat)
    requires k < |rs|
    ensures var p := FormatAll(rs[..k]);
      var b := Block(k + 1, rs[k]);
      |p| + |b| <= |FormatAll(rs)| && FormatAll(rs)[..|p| + |b|] == p + b
  {
    FormatStep(rs, k);
    FormatPrefixOf(rs, k + 1);
    PrefixChain(FormatAll(rs), FormatAll(rs[..k + 1]), FormatAll(rs[..k]), Block(k + 1, rs[k]));
  }

  lemma {:induction false} FormatPrefixOf(rs: seq<Record>, k: nat)
    requires k <= |rs|
    ensures |FormatAll(rs[..k])| <= |FormatAll(rs)|
    ensures FormatAll(rs)[..|FormatAll(rs[..k])|] == FormatAll(rs[..k])
    decreases |rs| - k
  {
    if k == |rs| {
      assert rs[..k] == rs;
    } else {
      FormatPrefixOf(rs, k + 1);
      FormatStep(rs, k);
      PrefixChain(FormatAll(rs), FormatAll(rs[..k + 1]), FormatAll(rs[..k]), Block(k + 1, rs[k]));
    }
  }

  /** Exporting one more record appends its block. */
  lemma FormatStep(rs: seq<Record>, k: nat)
    requires k < |rs|
    ensures FormatAll(rs[..k + 1]) == FormatAll(rs[..k]) + Block(k + 1, rs[k])
  {
    assert rs[..k + 1][..k] == rs[..k];
  }

  /** A prefix `p` of a prefix `q == p + b` of `f` is a prefix of `f`, and so is `p + b`. */
  lemma PrefixChain(f: string, q: string, p: string, b: string)
    requires q == p + b && |q| <= |f| && f[..|q|] == q
    ensures |p| + |b| <= |f| && f[..|p|] == p && f[..|p| + |b|] == p + b
  {
    assert f[..|p|] == f[..|q|][..|p|];
  }

  lemma {:induction false} JoinPrefixOf(parts: seq<string>, k: nat)
    requires k <= |parts|
    ensures |Join(parts[..k])| <= |Join(parts)|
    ensures Join(parts)[..|Join(parts[..k])|] == Join(parts[..k])
    decreases |parts| - k
  {
    if k == |parts| {
      assert parts[..k] == parts;
    } else {
      JoinPrefixOf(parts, k + 1);
      assert parts[..k + 1][..k] == parts[..k];
      var p, q, f := Join(parts[..k]), Join(parts[..k + 1]), Join(parts);
      assert q == p + parts[k];
      assert q[..|p|] == p;
      assert f[..|p|] == f[..|q|][..|p|];
    }
  }

  /** Every block opens with its 1-based number and closes with the forty-dash rule. */
  lemma BlockFrame(index: nat, r: Record)
    ensures var b, head, tail := Block(index, r), "Record #" + Decimal(index) + "\n", Rule() + "\n";
      |head| + |tail| <= |b| && b[..|head|] == head && b[|b| - |tail|..] == tail
  {
    var ls := BlockLines(index, r);
    JoinPrefixOf(ls, 1);
    assert ls[..1][..0] == [];
    assert Join(ls[..1]) == ls[0];
    JoinPrefixOf(ls[..6], 1);
    assert ls[..6][..1] == ls[..1];
    assert ls[..7] == ls;
    assert Join(ls) == Join(ls[..6]) + ls[6];
  }

  predicate NoNewline(s: string) {
    forall i :: 0 <= i < |s| ==> s[i] != '\n'
  }

  /** Appending the seven lines one by one, as the export loop does, appends the block. */
  lemma AppendBlock(before: string, index: nat, r: Record)
    ensures before + Line("Record #", Decimal(index)) + Line("  ID: ", Decimal(r.id))
      + Line("  Name: ", r.name) + Line("  Value: ", r.value)
      + Line("  Created: ", Decimal(r.createdAt)) + Line("  Last Updated: ", Decimal(r.updatedAt))
      + (Repeat('-', 40) + "\n")
      == before + Block(index, r)
  {
    var ls := BlockLines(index, r);
    AppendSeven(before, ls);
  }

  lemma AppendSeven(before: string, ls: seq<string>)
    requires |ls| == 7
    ensures before + ls[0] + ls[1] + ls[2] + ls[3] + ls[4] + ls[5] + ls[6] == before + Join(ls)
  {
    JoinNone(before, ls);
    JoinStep(before + ls[0], before, ls, 0);
    JoinStep(before + ls[0] + ls[1], before, ls, 1);
    JoinStep(before + ls[0] + ls[1] + ls[2], before, ls, 2);
    JoinStep(before + ls[0] + ls[1] + ls[2] + ls[3], before, ls, 3);
    JoinStep(before + ls[0] + ls[1] + ls[2] + ls[3] + ls[4], before, ls, 4);
    JoinStep(before + ls[0] + ls[1] + ls[2] + ls[3] + ls[4] + ls[5], before, ls, 5);
    JoinStep(before + ls[0] + ls[1] + ls[2] + ls[3] + ls[4] + ls[5] + ls[6], before, ls, 6);
    assert ls[..7] == ls;
  }

  lemma JoinNone(before: string, parts: seq<string>)
    ensures before == before + Join(parts[..0])
  {
    assert parts[..0] == [];
  }

  /** Appending the next part to `before` followed by the parts so far. */
  lemma JoinStep(cur: string, before: string, parts: seq<string>, k: nat)
    requires k < |parts| && cur == before + Join(parts[..k]) + parts[k]
    ensures cur == before + Join(parts[..k + 1])
  {
    assert parts[..k + 1][..k] == parts[..k];
  }

  lemma {:induction false} JoinCount(parts: seq<string>, c: char)
    requires forall i :: 0 <= i < |parts| ==> Count(parts[i], c) == 1
    ensures Count(Join(parts), c) == |parts|
  {
    if parts != [] {
      JoinCount(parts[..|parts| - 1], c);
      CountConcat(Join(parts[..|parts| - 1]), parts[|parts| - 1], c);
    }
  }

  /** A single-line string followed by a line break is one line. */
  lemma LineCount(s: string)
    requires NoNewline(s)
    ensures Count(s + "\n", '\n') == 1
  {
    CountAbsent(s, '\n');
    CountConcat(s, "\n", '\n');
    assert "\n"[..0] == [];
  }

  /** A line made of two single-line pieces is one line. */
  lemma TextLine(prefix: string, text: string)
    requires NoNewline(prefix) && NoNewline(text)
    ensures Count(Line(prefix, text), '\n') == 1
  {
    assert NoNewline(prefix + text);
    LineCount(prefix + text);
  }

  lemma NumberLine(prefix: string, n: nat)
    requires NoNewline(prefix)
    ensures Count(Line(prefix, Decimal(n)), '\n') == 1
  {
    assert NoNewline(Decimal(n));
    TextLine(prefix, Decimal(n));
  }

  /** Line `k` of a block holds exactly one line break when the name and value are single-line. */
  lemma BlockLineSingle(index: nat, r: Record, k: nat)
    requires NoNewline(r.name) && NoNewline(r.value) && k < 7
    ensures Count(BlockLines(index, r)[k], '\n') == 1
  {
    if k < 2 {
      HeadLineSingle(index, r, k);
    } else if k < 4 {
      FieldLineSingle(index, r, k);
    } else {
      TailLineSingle(index, r, k);
    }
  }

  lemma HeadLineSingle(index: nat, r: Record, k: nat)
    requires k < 2
    ensures Count(BlockLines(index, r)[k], '\n') == 1
  {
    if k == 0 {
      NumberLine("Record #", index);
    } else {
      NumberLine("  ID: ", r.id);
    }
  }

  lemma FieldLineSingle(index: nat, r: Record, k: nat)
    requires NoNewline(r.name) && NoNewline(r.value) && 2 <= k < 4
    ensures Count(BlockLines(index, r)[k], '\n') == 1
  {
    if k == 2 {
      TextLine("  Name: ", r.name);
    } else {
      TextLine("  Value: ", r.value);
    }
  }

  lemma TailLineSingle(index: nat, r: Record, k: nat)
    requires 4 <= k < 7
    ensures Count(BlockLines(index, r)[k], '\n') == 1
  {
    if k == 4 {
      NumberLine("  Created: ", r.createdAt);
    } else if k == 5 {
      NumberLine("  Last Updated: ", r.updatedAt);
    } else {
      LineCount(Rule());
    }
  }

  /** A block spans exactly seven lines when the name and value are single-line. */
  lemma BlockLineCount(index: nat, r: Record)
    requires NoNewline(r.name) && NoNewline(r.value)
    ensures Count(Block(index, r), '\n') == 7
  {
    var ls := BlockLines(index, r);
    forall i | 0 <= i < |ls| ensures Count(ls[i], '\n') == 1 {
      BlockLineSingle(index, r, i);
    }
    JoinCount(ls, '\n');
  }

  /** The export of records with single-line names and values has seven lines per record. */
  lemma {:induction false} FormatLines(rs: seq<Record>)
    requires forall r :: r in rs ==> NoNewline(r.name) && NoNewline(r.value)
    ensures Count(FormatAll(rs), '\n') == 7 * |rs|
  {
    if rs != [] {
      var init, last := rs[..|rs| - 1], rs[|rs| - 1];
      assert forall r :: r in init ==> r in rs;
      FormatLines(init);
      BlockLineCount(|rs|, last);
      CountConcat(FormatAll(init), Block(|rs|, last), '\n');
    }
  }
}
