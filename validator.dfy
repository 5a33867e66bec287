/**
 * The record validator of db/record.js: a candidate's `name` and `value` must each be
 * a string that is not blank once trimmed; the name is checked first.
 */
module Validator {
  import opened Text

  /** The JavaScript values a candidate's field may hold (`NaN` is not modelled). */
  datatype JsValue = Undefined | Null | Bool(b: bool) | Number(n: int) | Str(s: string) | Object

  /** JavaScript truthiness: `undefined`, `null`, `false`, `0` and `""` are falsy. */
  predicate Falsy(v: JsValue) {
    v.Undefined? || v.Null? || v == Bool(false) || v == Number(0) || v == Str("")
  }

  /** A candidate record: the object passed to `validateRecord`. */
  datatype Candidate = Candidate(name: JsValue, value: JsValue)

  datatype ValidationError = NameRequired | ValueRequired

  /** Whether `validateRecord` returns normally or throws, and which error it throws. */
  datatype Outcome = Pass | Fail(error: ValidationError)

  /** The guard of one field, as written: `!v || typeof v !== 'string' || v.trim() === ''`. */
  predicate Rejected(v: JsValue) {
    Falsy(v) || !v.Str? || Trim(v.s) == ""
  }

  /** The field holds a string with at least one character that is not whitespace. */
  predicate HasText(v: JsValue) {
    v.Str? && exists k :: 0 <= k < |v.s| && !IsWhitespace(v.s[k])
  }

  /** The guard of a field fires exactly when the field holds no text. */
  lemma RejectedIffBlank(v: JsValue)
    ensures Rejected(v) <==> !HasText(v)
  {
    if v.Str? {
      assert Trim(v.s) == "" <==> AllWhitespace(v.s);
    }
  }

  /**
   * `validateRecord(record)`: passes exactly when both fields hold text; otherwise throws
   * the name error when the name is missing, not a string or blank, and the value error
   * only when the name is acceptable. The candidate itself is never changed.
   */
  function ValidateRecord(c: Candidate): (r: Outcome)
    ensures r == Pass <==> HasText(c.name) && HasText(c.value)
    ensures r == Fail(NameRequired) <==> !HasText(c.name)
    ensures r == Fail(ValueRequired) <==> HasText(c.name) && !HasText(c.value)
  {
    RejectedIffBlank(c.name);
    RejectedIffBlank(c.value);
    if Rejected(c.name) then Fail(NameRequired)
    else if Rejected(c.value) then Fail(ValueRequired)
    else Pass
  }
}
