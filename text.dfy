/**
 * The string operations the store relies on: JavaScript's `String.prototype.trim`,
 * ASCII lower-casing (`toLowerCase` restricted to ASCII letters), substring search,
 * decimal rendering of naturals and character counting.
 */
module Text {

  /** The characters `trim` removes: ECMAScript WhiteSpace and LineTerminator code points. */
  predicate IsWhitespace(c: char) {
    var n := c as int;
    n == 0x09 || n == 0x0A || n == 0x0B || n == 0x0C || n == 0x0D || n == 0x20 ||
    n == 0xA0 || n == 0x1680 || (0x2000 <= n <= 0x200A) || n == 0x2028 || n == 0x2029 ||
    n == 0x202F || n == 0x205F || n == 0x3000 || n == 0xFEFF
  }

  predicate AllWhitespace(s: string) {
    forall i :: 0 <= i < |s| ==> IsWhitespace(s[i])
  }

  /** Drops leading whitespace: the result is the longest suffix of `s` that does not start with whitespace. */
  function TrimStart(s: string): (r: string)
    ensures |r| <= |s| && r == s[|s| - |r|..]
    ensures AllWhitespace(s[..|s| - |r|])
    ensures r != [] ==> !IsWhitespace(r[0])
  {
    if s != [] && IsWhitespace(s[0]) then
      var r := TrimStart(s[1..]);
      assert s[1..][..|s| - 1 - |r|] == s[1..|s| - |r|];
      r
    else
      s
  }

  /** Drops trailing whitespace: the result is the longest prefix of `s` that does not end with whitespace. */
  function TrimEnd(s: string): (r: string)
    ensures |r| <= |s| && r == s[..|r|]
    ensures AllWhitespace(s[|r|..])
    ensures r != [] ==> !IsWhitespace(r[|r| - 1])
  {
    if s != [] && IsWhitespace(s[|s| - 1]) then
      var r := TrimEnd(s[..|s| - 1]);
      assert s[..|s| - 1][..|r|] == s[..|r|];
      assert s[|r|..] == s[..|s| - 1][|r|..] + [s[|s| - 1]];
      r
    else
      s
  }

  /**
   * `r` is what is left of `s` once whitespace is cut from both ends at offset `i`:
   * an infix of `s` preceded and followed only by whitespace, and itself neither
   * starting nor ending with whitespace.
   */
  ghost predicate IsTrimAt(s: string, r: string, i: int) {
    0 <= i <= |s| - |r| && r == s[i..i + |r|] &&
    AllWhitespace(s[..i]) && AllWhitespace(s[i + |r|..]) &&
    (r != [] ==> !IsWhitespace(r[0]) && !IsWhitespace(r[|r| - 1]))
  }

  /** `s.trim()`: `s` without whitespace at either end. */
  function Trim(s: string): (r: string)
    ensures exists i :: IsTrimAt(s, r, i)
    ensures r == [] <==> AllWhitespace(s)
  {
    var t := TrimStart(s);
    var r := TrimEnd(t);
    TrimSplit(s, t, r);
    TrimAtEmpty(s, r, |s| - |t|);
    r
  }

  /** Cutting the leading then the trailing whitespace leaves a trim of `s` at the length of the lead. */
  lemma TrimSplit(s: string, t: string, r: string)
    requires |t| <= |s| && t == s[|s| - |t|..] && AllWhitespace(s[..|s| - |t|])
    requires t != [] ==> !IsWhitespace(t[0])
    requires |r| <= |t| && r == t[..|r|] && AllWhitespace(t[|r|..])
    requires r != [] ==> !IsWhitespace(r[|r| - 1])
    ensures IsTrimAt(s, r, |s| - |t|)
  {
    var i := |s| - |t|;
    assert r == s[i..i + |r|];
    assert t[|r|..] == s[i + |r|..];
  }

  /** A trim is empty exactly when the whole string is whitespace. */
  lemma TrimAtEmpty(s: string, r: string, i: int)
    requires IsTrimAt(s, r, i)
    ensures r == [] <==> AllWhitespace(s)
  {
    if r == [] {
      assert s == s[..i] + s[i..];
    } else {
      assert s[i] == r[0];
    }
  }

  /** There is only one way to cut whitespace from both ends, so `Trim` is characterised by `IsTrimAt`. */
  lemma TrimAtUnique(s: string, r1: string, i1: int, r2: string, i2: int)
    requires IsTrimAt(s, r1, i1) && IsTrimAt(s, r2, i2)
    ensures r1 == r2
  {
    TrimAtSpans(s, r1, i1);
    TrimAtSpans(s, r2, i2);
  }

  /** `IsTrimAt` spelled out position by position. */
  lemma TrimAtSpans(s: string, r: string, i: int)
    requires IsTrimAt(s, r, i)
    ensures forall k :: 0 <= k < i ==> IsWhitespace(s[k])
    ensures forall k :: i + |r| <= k < |s| ==> IsWhitespace(s[k])
    ensures forall k :: i <= k < i + |r| ==> s[k] == r[k - i]
  {
    forall k | 0 <= k < i ensures IsWhitespace(s[k]) {
      assert s[..i][k] == s[k];
    }
    forall k | i + |r| <= k < |s| ensures IsWhitespace(s[k]) {
      assert s[i + |r|..][k - i - |r|] == s[k];
    }
  }

  /** Trimming twice is trimming once. */
  lemma TrimIdempotent(s: string)
    ensures Trim(Trim(s)) == Trim(s)
  {
    var r := Trim(s);
    TrimOfTrimmed(r);
  }

  /** A string whose ends are not whitespace is its own trim. */
  lemma TrimOfTrimmed(s: string)
    requires s != [] ==> !IsWhitespace(s[0]) && !IsWhitespace(s[|s| - 1])
    ensures Trim(s) == s
  {
    assert s[..0] == [] && s[|s|..] == [] && s[0..|s|] == s;
    assert IsTrimAt(s, s, 0);
    var i :| IsTrimAt(s, Trim(s), i);
    TrimAtUnique(s, s, 0, Trim(s), i);
  }

  /** ASCII `toLowerCase` of one character. */
  function LowerChar(c: char): (l: char) {
    if 'A' <= c <= 'Z' then (c as int + 32) as char else c
  }

  /** `s.toLowerCase()` with ASCII case folding, character by character. */
  function Lower(s: string): (r: string)
    ensures |r| == |s|
  {
    seq(|s|, i requires 0 <= i < |s| => LowerChar(s[i]))
  }

  /** ASCII lower-casing never turns a character into whitespace or whitespace into something else. */
  lemma LowerChar_Whitespace(c: char)
    ensures IsWhitespace(LowerChar(c)) <==> IsWhitespace(c)
  {
  }

  /** Lower-casing and trimming commute, so `keyword.toLowerCase().trim()` is the lower-cased trim of `keyword`. */
  lemma TrimLowerCommute(s: string)
    ensures Trim(Lower(s)) == Lower(Trim(s))
  {
    var r := Trim(s);
    var i :| IsTrimAt(s, r, i);
    LowerTrimAt(s, r, i);
    var l := Lower(s);
    var j :| IsTrimAt(l, Trim(l), j);
    TrimAtUnique(l, Lower(r), i, Trim(l), j);
  }

  lemma LowerTrimAt(s: string, r: string, i: int)
    requires IsTrimAt(s, r, i)
    ensures IsTrimAt(Lower(s), Lower(r), i)
  {
    var l, lr := Lower(s), Lower(r);
    var e := i + |r|;
    assert lr == l[i..e] by { LowerSlice(s, i, e); }
    assert AllWhitespace(l[..i]) by {
      LowerSlice(s, 0, i);
      assert s[0..i] == s[..i] && l[0..i] == l[..i];
      LowerWhitespace(s[..i]);
    }
    assert AllWhitespace(l[e..]) by {
      LowerSlice(s, e, |s|);
      assert s[e..|s|] == s[e..] && l[e..|s|] == l[e..];
      LowerWhitespace(s[e..]);
    }
    if r != [] {
      LowerChar_Whitespace(r[0]);
      LowerChar_Whitespace(r[|r| - 1]);
    }
  }

  lemma LowerSlice(s: string, a: nat, b: nat)
    requires a <= b <= |s|
    ensures Lower(s)[a..b] == Lower(s[a..b])
  {
  }

  lemma LowerWhitespace(s: string)
    requires AllWhitespace(s)
    ensures AllWhitespace(Lower(s))
  {
    forall k | 0 <= k < |s| ensures IsWhitespace(Lower(s)[k]) {
      LowerChar_Whitespace(s[k]);
    }
  }

  /** `t` occurs in `s` at some position. */
  predicate Contains(s: string, t: string) {
    exists i :: 0 <= i <= |s| - |t| && OccursAt(s, t, i)
  }

  predicate OccursAt(s: string, t: string, i: nat)
    requires i <= |s| - |t|
  {
    s[i..i + |t|] == t
  }

  /** The empty string occurs in every string (what an empty `$regex` pattern matches). */
  lemma ContainsEmpty(s: string)
    ensures Contains(s, [])
  {
    assert OccursAt(s, [], 0);
  }

  /** An occurrence of `t` in `s` survives lower-casing both. */
  lemma ContainsLower(s: string, t: string)
    requires Contains(s, t)
    ensures Contains(Lower(s), Lower(t))
  {
    var i :| 0 <= i <= |s| - |t| && OccursAt(s, t, i);
    assert Lower(s)[i..i + |t|] == Lower(t);
    assert OccursAt(Lower(s), Lower(t), i);
  }

  function Digit(d: nat): char
    requires d < 10
  {
    "0123456789"[d]
  }

  predicate IsDigit(c: char) {
    '0' <= c <= '9'
  }

  /** The decimal rendering of `n`, as `String(n)` gives it: non-empty and made of digits only. */
  function Decimal(n: nat): (r: string)
    ensures r != []
    ensures forall i :: 0 <= i < |r| ==> IsDigit(r[i])
  {
    if n < 10 then [Digit(n)] else Decimal(n / 10) + [Digit(n % 10)]
  }

  /** The number of occurrences of `c` in `s`. */
  function Count(s: string, c: char): (n: nat) {
    if s == [] then 0 else Count(s[..|s| - 1], c) + (if s[|s| - 1] == c then 1 else 0)
  }

  lemma {:induction false} CountConcat(a: string, b: string, c: char)
    ensures Count(a + b, c) == Count(a, c) + Count(b, c)
  {
    if b == [] {
      assert a + b == a;
    } else {
      var ab := a + b;
      assert ab[..|ab| - 1] == a + b[..|b| - 1];
      assert ab[|ab| - 1] == b[|b| - 1];
      assert Count(ab, c) == Count(ab[..|ab| - 1], c) + (if ab[|ab| - 1] == c then 1 else 0);
      CountConcat(a, b[..|b| - 1], c);
    }
  }

  lemma {:induction false} CountAbsent(s: string, c: char)
    requires forall i :: 0 <= i < |s| ==> s[i] != c
    ensures Count(s, c) == 0
  {
    if s != [] {
      CountAbsent(s[..|s| - 1], c);
    }
  }
}
