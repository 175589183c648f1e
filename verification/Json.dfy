/**
  JSON values as every component of the repository sees them after decoding.

  Objects are maps, so two values that differ only in the order of their keys are
  equal.  A number is identified with the text its runtime prints for it; the
  text also decides whether Python holds it as an `int` or as a `float`.
 */
module JsonModel {
  import opened Digits

  datatype Json =
    | Null
    | Bool(truth: bool)
    | Num(literal: NumberText)
    | Str(text: string)
    | Arr(items: seq<Json>)
    | Obj(fields: map<string, Json>)

  predicate IsNumberChar(c: char) {
    IsDigitChar(c) || c in "+-.eE"
  }

  function DropDigits(s: string): (rest: string)
    ensures |rest| <= |s|
  {
    if s != "" && IsDigitChar(s[0]) then DropDigits(s[1..]) else s
  }

  predicate ExponentOk(s: string) {
    s == "" ||
    (s[0] in "eE" &&
     var digits := if |s| > 1 && s[1] in "+-" then s[2..] else s[1..];
     digits != "" && DropDigits(digits) == "")
  }

  predicate FractionOk(s: string) {
    if s != "" && s[0] == '.' then
      |DropDigits(s[1..])| < |s| - 1 && ExponentOk(DropDigits(s[1..]))
    else
      ExponentOk(s)
  }

  /** The number grammar of RFC 8259, section 6. */
  predicate IsJsonNumber(t: string) {
    (forall i :: 0 <= i < |t| ==> IsNumberChar(t[i])) &&
    var u := if t != "" && t[0] == '-' then t[1..] else t;
    var rest := DropDigits(u);
    |rest| < |u| && (u[0] == '0' ==> |rest| == |u| - 1) && FractionOk(rest)
  }

  /** The three tokens Python's `json` module prints and reads beyond the grammar. */
  const PYTHON_SPECIALS: seq<string> := ["NaN", "Infinity", "-Infinity"]

  predicate IsNumberText(t: string) {
    IsJsonNumber(t) || t in PYTHON_SPECIALS
  }

  type NumberText = t: string | IsNumberText(t) witness ZeroText()

  function ZeroText(): (t: string)
    ensures IsNumberText(t) && IsJsonNumber(t)
  {
    assert DropDigits("0") == "" by {
      assert "0"[1..] == "";
    }
    "0"
  }

  /** Python's `type(value)` for a decoded number. */
  predicate IsIntText(t: NumberText) {
    forall i :: 0 <= i < |t| ==> IsDigitChar(t[i]) || t[i] == '-'
  }
}
