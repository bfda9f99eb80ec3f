/**
 * Numbers as the sentence parser reads them: runs of ASCII digits (`\d+`),
 * the decimal literal `\d+\.\d+`, and Python's `float()` on the plain
 * decimal notation, computed exactly as a `real`.
 */
module Numeric {
  import opened Wrappers
  import opened Text

  function DigitValue(c: char): (d: nat)
    requires IsDigit(c)
    ensures d < 10
  {
    c as int - '0' as int
  }

  /** The number a run of decimal digits denotes (most significant digit first). */
  function DigitsValue(s: string): nat
    requires AllDigits(s)
  {
    if s == [] then 0 else DigitsValue(s[..|s| - 1]) * 10 + DigitValue(s[|s| - 1])
  }

  function Pow10(n: nat): (p: nat)
    ensures p >= 1
  {
    if n == 0 then 1 else 10 * Pow10(n - 1)
  }

  /** `n` digits denote less than `10^n`. */
  lemma {:induction false} DigitsBound(s: string)
    requires AllDigits(s)
    ensures DigitsValue(s) < Pow10(|s|)
  {
    if s != [] {
      var init := s[..|s| - 1];
      assert AllDigits(init);
      DigitsBound(init);
      assert DigitsValue(s) == DigitsValue(init) * 10 + DigitValue(s[|s| - 1]);
      assert Pow10(|s|) == 10 * Pow10(|init|);
    }
  }

  /** The value of the digits after a decimal point: a fraction in [0, 1). */
  function Fraction(s: string): (f: real)
    requires AllDigits(s)
    ensures 0.0 <= f < 1.0
  {
    DigitsBound(s);
    FractionBelowOne(DigitsValue(s), Pow10(|s|));
    DigitsValue(s) as real / Pow10(|s|) as real
  }

  lemma FractionBelowOne(d: nat, p: nat)
    requires d < p
    ensures 0.0 <= d as real / p as real < 1.0
  {
  }

  /** The length of the longest run of digits at the start of `s` (a greedy `\d*`). */
  function ScanDigits(s: string): (n: nat)
    ensures n <= |s| && AllDigits(s[..n])
    ensures n < |s| ==> !IsDigit(s[n])
  {
    if |s| > 0 && IsDigit(s[0]) then
      var n := 1 + ScanDigits(s[1..]);
      assert s[..n] == [s[0]] + s[1..][..n - 1];
      n
    else 0
  }

  /** A run of digits that stops before a non-digit (or the end) is what `ScanDigits` finds. */
  lemma {:induction false} ScanDigitsAt(s: string, p: nat)
    requires p <= |s| && AllDigits(s[..p])
    requires p < |s| ==> !IsDigit(s[p])
    ensures ScanDigits(s) == p
  {
    if p > 0 {
      assert IsDigit(s[..p][0]);
      assert s[1..][..p - 1] == s[..p][1..];
      ScanDigitsAt(s[1..], p - 1);
    }
  }

  /** The regular expression `\d+` matches all of `f`. */
  predicate IsInteger(f: string) { |f| > 0 && AllDigits(f) }

  /** The regular expression `\d+\.\d+` matches all of `f`. */
  predicate IsDecimalLit(f: string) {
    exists p :: 0 < p < |f| - 1 && f[p] == '.' && AllDigits(f[..p]) && AllDigits(f[p + 1..])
  }

  /** The value of a decimal literal: its integer part plus its fraction. */
  function DecimalValue(f: string): (v: real)
    requires IsDecimalLit(f)
    ensures v >= 0.0
  {
    var p := IndexOf(f, '.');
    DotIsFirstDot(f);
    DigitsValue(f[..p]) as real + Fraction(f[p + 1..])
  }

  lemma DotIsFirstDot(f: string)
    requires IsDecimalLit(f)
    ensures var p := IndexOf(f, '.'); 0 < p < |f| - 1 && AllDigits(f[..p]) && AllDigits(f[p + 1..])
  {
    var p :| 0 < p < |f| - 1 && f[p] == '.' && AllDigits(f[..p]) && AllDigits(f[p + 1..]);
    assert forall i :: 0 <= i < p ==> IsDigit(f[..p][i]) && f[i] != '.';
    IndexOfAt(f, '.', p);
  }

  /**
   * Python's `float(s)` on the plain decimal notation: an optional sign, then
   * digits with at most one decimal point and at least one digit. `None` stands
   * for the `ValueError` it raises on any other text.
   */
  function ToFloat(s: string): (r: Option<real>)
    ensures s == [] ==> r.None?
    ensures r.Some? && s[0] == '-' ==> r.value <= 0.0
    ensures r.Some? && s[0] != '-' ==> r.value >= 0.0
  {
    if |s| > 0 && (s[0] == '+' || s[0] == '-') then
      match Unsigned(s[1..])
      case None => None
      case Some(v) => Some(if s[0] == '-' then -v else v)
    else Unsigned(s)
  }

  function Unsigned(s: string): (r: Option<real>)
    ensures r.Some? ==> r.value >= 0.0
  {
    var a := ScanDigits(s);
    if a == |s| then
      if a > 0 then Some(DigitsValue(s) as real) else None
    else if s[a] != '.' then None
    else
      var rest := s[a + 1..];
      var b := ScanDigits(rest);
      if b != |rest| || (a == 0 && b == 0) then None
      else Some(DigitsValue(s[..a]) as real + Fraction(rest))
  }

  /** `float()` never raises on text matched by `\d+\.\d+`, and yields the literal's value. */
  lemma DecimalLitToFloat(f: string)
    requires IsDecimalLit(f)
    ensures ToFloat(f) == Some(DecimalValue(f))
  {
    DotIsFirstDot(f);
    var p := IndexOf(f, '.');
    assert IsDigit(f[..p][0]);
    ScanDigitsAt(f, p);
    var rest := f[p + 1..];
    ScanDigitsAt(rest, |rest|);
  }

  lemma ExampleDigits()
    ensures AllDigits("4916") && DigitsValue("4916") == 4916
    ensures AllDigits("45") && Fraction("45") == 0.45
  {
    assert "4916"[..3] == "491";
    assert "491"[..2] == "49";
    assert "49"[..1] == "4";
    assert "45"[..1] == "4";
    assert "4"[..0] == "";
    assert Pow10(2) == 100;
  }

  /** A packed latitude as receivers send it, 4916.45 (49 degrees 16.45 minutes), is read exactly. */
  lemma ExampleLatitudeValue()
    ensures ToFloat("4916.45") == Some(4916.45)
  {
    var f := "4916.45";
    assert f[4] == '.' && f[..4] == "4916" && f[5..] == "45";
    ExampleDigits();
    assert IsDecimalLit(f);
    DecimalLitToFloat(f);
    assert IndexOf(f, '.') == 4 by { IndexOfAt(f, '.', 4); }
  }
}
