/** Reading decimal numbers out of cell text: the direct numeric parse
    (what `pd.to_numeric(..., errors="coerce")` does to one textual cell,
    on a plain decimal grammar) and the leading-number extraction of
    rank_order.py, `^\s*([0-9]+(?:\.[0-9]+)?)` followed by a parse. */
module Decimals {
  import opened Results
  import opened Strings

  /** The regular-expression class `[0-9]`. */
  predicate IsDigit(c: char) {
    '0' <= c <= '9'
  }

  predicate AllDigits(s: string) {
    forall i | 0 <= i < |s| :: IsDigit(s[i])
  }

  function DigitValue(c: char): (d: nat)
    requires IsDigit(c)
    ensures d <= 9
  {
    c as int - '0' as int
  }

  function DigitChar(d: nat): (c: char)
    requires d <= 9
    ensures IsDigit(c) && DigitValue(c) == d
  {
    ('0' as int + d) as char
  }

  /** Length of the longest all-digit prefix of `s` (the greedy `[0-9]*`). */
  function DigitRun(s: string): (k: nat)
    ensures k <= |s| && AllDigits(s[..k])
    ensures k < |s| ==> !IsDigit(s[k])
  {
    if |s| > 0 && IsDigit(s[0]) then 1 + DigitRun(s[1..]) else 0
  }

  /** The value of a string of decimal digits, most significant first. */
  function NatValue(s: string): nat
    requires AllDigits(s)
  {
    if s == [] then 0 else 10 * NatValue(s[..|s| - 1]) + DigitValue(s[|s| - 1])
  }

  /** The value of the digits after a decimal point. */
  function FracValue(s: string): (v: real)
    requires AllDigits(s)
    ensures 0.0 <= v < 1.0
  {
    if s == [] then 0.0 else (DigitValue(s[0]) as real + FracValue(s[1..])) / 10.0
  }

  function Signed(negative: bool, v: real): real {
    if negative then -v else v
  }

  /** `str(n)` for a natural number `n`. */
  function DecimalString(n: nat): (s: string)
    ensures s != [] && AllDigits(s)
  {
    if n < 10 then [DigitChar(n)] else DecimalString(n / 10) + [DigitChar(n % 10)]
  }

  /** The direct numeric parse of one cell's text: surrounding whitespace,
      an optional sign, then digits with an optional fractional part and at
      least one digit in all; anything else is missing. */
  function ParseNumber(s: string): Option<real> {
    var t := Strip(s);
    var negative := |t| > 0 && t[0] == '-';
    var body := if |t| > 0 && (t[0] == '-' || t[0] == '+') then t[1..] else t;
    var k := DigitRun(body);
    if k == |body| then
      if k == 0 then None else Some(Signed(negative, NatValue(body[..k]) as real))
    else if body[k] == '.' && |body| >= 2 && DigitRun(body[k + 1..]) == |body| - k - 1 then
      var frac := body[k + 1..];
      assert frac == frac[..DigitRun(frac)];
      Some(Signed(negative, NatValue(body[..k]) as real + FracValue(frac)))
    else
      None
  }

  /** `^\s*([0-9]+(?:\.[0-9]+)?)` then a parse of the captured group: the
      leading number of a text such as "5 - strongly agree". */
  function ExtractLeadingNumber(t: string): (r: Option<real>)
    ensures r.Some? ==> r.value >= 0.0
  {
    LeadingNumber(TrimStart(t))
  }

  /** The number at the very front of `u`: a digit run, then optionally a
      point and a second digit run. */
  function LeadingNumber(u: string): (r: Option<real>)
    ensures r.Some? ==> r.value >= 0.0
  {
    var k := DigitRun(u);
    if k == 0 then
      None
    else
      var m := if k < |u| && u[k] == '.' then DigitRun(u[k + 1..]) else 0;
      if m > 0 then
        assert u[k + 1..k + 1 + m] == u[k + 1..][..m];
        Some(NatValue(u[..k]) as real + FracValue(u[k + 1..k + 1 + m]))
      else
        Some(NatValue(u[..k]) as real)
  }

  // ---------------------------------------------------------------------

  lemma AllDigitsRun(s: string)
    requires AllDigits(s)
    ensures DigitRun(s) == |s|
  {
  }

  /** The digit run stops where the digits stop. */
  lemma {:induction false} DigitRunConcat(d: string, rest: string)
    requires AllDigits(d) && (rest == [] || !IsDigit(rest[0]))
    ensures DigitRun(d + rest) == |d|
    decreases |d|
  {
    if d == [] {
      assert d + rest == rest;
    } else {
      assert (d + rest)[1..] == d[1..] + rest;
      DigitRunConcat(d[1..], rest);
    }
  }

  /** Reading back `str(n)` gives `n`. */
  lemma {:induction false} NatValueOfDecimalString(n: nat)
    ensures NatValue(DecimalString(n)) == n
  {
    if n >= 10 {
      var s := DecimalString(n);
      assert s[..|s| - 1] == DecimalString(n / 10);
      NatValueOfDecimalString(n / 10);
    }
  }

  /** A cell holding an integer as text parses directly to that integer. */
  lemma ParseDecimalString(n: nat)
    ensures ParseNumber(DecimalString(n)) == Some(n as real)
  {
    var s := DecimalString(n);
    assert !IsSpace(s[0]) && !IsSpace(s[|s| - 1]);
    StripOfStripped(s);
    AllDigitsRun(s);
    assert s[..|s|] == s;
    NatValueOfDecimalString(n);
  }

  /** Leading whitespace and a digit run `d` followed by neither a digit
      nor a point: extraction reads `d` as a whole number ("  05 - agree"
      reads as 5). */
  lemma ExtractAfterWhole(p: string, d: string, rest: string)
    requires AllSpace(p) && d != [] && AllDigits(d)
    requires rest == [] || (!IsDigit(rest[0]) && rest[0] != '.')
    ensures ExtractLeadingNumber(p + d + rest) == Some(NatValue(d) as real)
  {
    var u := d + rest;
    assert u[0] == d[0] && !IsSpace(u[0]);
    assert p + d + rest == p + u;
    TrimStartPadded(p, u);
    WholeRead(d, rest);
    ReadsWhole(u, |d|, d);
  }

  /** The run of `d + rest` when `rest` starts with neither a digit nor a
      point. */
  lemma WholeRead(d: string, rest: string)
    requires d != [] && AllDigits(d)
    requires rest == [] || (!IsDigit(rest[0]) && rest[0] != '.')
    ensures var u := d + rest;
      DigitRun(u) == |d| && AllDigits(u[..|d|]) && u[..|d|] == d
      && (|d| == |u| || u[|d|] != '.')
  {
    DigitRunConcat(d, rest);
    assert (d + rest)[..|d|] == d;
  }

  /** The leading integer of "5 - strongly agree" and the like is extracted
      whatever follows it, as long as the number itself ends there. */
  lemma ExtractAfterNumber(n: nat, rest: string)
    requires rest == [] || (!IsDigit(rest[0]) && rest[0] != '.')
    ensures ExtractLeadingNumber(DecimalString(n) + rest) == Some(n as real)
  {
    var d := DecimalString(n);
    assert [] + d + rest == d + rest;
    ExtractAfterWhole([], d, rest);
    NatValueOfDecimalString(n);
  }

  /** Leading whitespace, a digit run `d`, a point and a second digit run
      `f`: extraction reads `d` and `f` as the integer and fractional parts,
      whatever non-digit follows them ("3.5 - good" reads as 3.5). */
  lemma ExtractAfterDecimal(p: string, d: string, f: string, rest: string)
    requires AllSpace(p) && d != [] && AllDigits(d) && f != [] && AllDigits(f)
    requires rest == [] || !IsDigit(rest[0])
    ensures ExtractLeadingNumber(p + d + "." + f + rest)
      == Some(NatValue(d) as real + FracValue(f))
  {
    var tail := "." + (f + rest);
    var u := d + tail;
    Regroup5(p, d, ".", f, rest);
    TrimStartPadded(p, u);
    IntegerRead(d, tail);
    assert u[|d|] == tail[0] == '.';
    assert u[|d| + 1..] == tail[1..] == f + rest;
    ReadsFraction(u, d, f, rest);
  }

  /** The number read from a text `u` that starts with the digit run `d`,
      a point, the digit run `f` and then a non-digit. */
  lemma ReadsFraction(u: string, d: string, f: string, rest: string)
    requires AllDigits(d) && AllDigits(f) && d != [] && f != []
    requires rest == [] || !IsDigit(rest[0])
    requires DigitRun(u) == |d| < |u| && u[|d|] == '.'
    requires u[..|d|] == d && u[|d| + 1..] == f + rest
    ensures LeadingNumber(u) == Some(NatValue(d) as real + FracValue(f))
  {
    FractionRead(u, |d| + 1, f, rest);
    ReadsRuns(u, |d|, |f|, d, f);
  }

  /** The number read from a text `u` whose first `k` characters, `whole`,
      are digits, followed by a point and exactly `m > 0` further digits,
      `frac`. */
  lemma ReadsRuns(u: string, k: nat, m: nat, whole: string, frac: string)
    requires DigitRun(u) == k > 0 && k < |u| && u[k] == '.'
    requires k + 1 + m <= |u| && DigitRun(u[k + 1..]) == m > 0
    requires AllDigits(u[..k]) && AllDigits(u[k + 1..k + 1 + m])
    requires whole == u[..k] && frac == u[k + 1..k + 1 + m]
    ensures LeadingNumber(u) == Some(NatValue(whole) as real + FracValue(frac))
  {
    assert u[k + 1..k + 1 + m] == u[k + 1..][..m];
  }

  /** The digit run `d` read at the front of `d + tail`. */
  lemma IntegerRead(d: string, tail: string)
    requires AllDigits(d) && tail != [] && !IsDigit(tail[0])
    ensures DigitRun(d + tail) == |d| && (d + tail)[..|d|] == d
    ensures AllDigits((d + tail)[..|d|])
  {
    DigitRunConcat(d, tail);
  }

  /** The digit run `f` read at index `i` of a text whose suffix there is
      `f + rest`. */
  lemma FractionRead(u: string, i: nat, f: string, rest: string)
    requires i <= |u| && u[i..] == f + rest && AllDigits(f)
    requires rest == [] || !IsDigit(rest[0])
    ensures DigitRun(u[i..]) == |f|
    ensures i + |f| <= |u| && u[i..i + |f|] == f && AllDigits(u[i..i + |f|])
  {
    DigitRunConcat(f, rest);
    assert u[i..i + |f|] == u[i..][..|f|];
  }

  /** A point with no digit after it ends the number: "4." reads as 4. */
  lemma ExtractAfterPoint(p: string, d: string, rest: string)
    requires AllSpace(p) && d != [] && AllDigits(d)
    requires rest == [] || !IsDigit(rest[0])
    ensures ExtractLeadingNumber(p + d + "." + rest) == Some(NatValue(d) as real)
  {
    var u := d + ("." + rest);
    Regroup(p, d, ".", rest);
    TrimStartPadded(p, u);
    PointRead(d, rest);
    ReadsWhole(u, |d|, d);
  }

  /** A label such as "4.5 - good" reads as its leading decimal. */
  lemma FractionalLabelExtracted()
    ensures ExtractLeadingNumber("4.5 - good") == Some(4.5)
  {
    LabelParts();
    ExtractAfterDecimal([], "4", "5", " - good");
  }

  lemma LabelParts()
    ensures [] + "4" + "." + "5" + " - good" == "4.5 - good"
    ensures NatValue("4") as real + FracValue("5") == 4.5
  {
    assert NatValue("4") == 4;
  }

  /** The runs of `d + "." + rest` when `rest` starts with no digit. */
  lemma PointRead(d: string, rest: string)
    requires d != [] && AllDigits(d)
    requires rest == [] || !IsDigit(rest[0])
    ensures var u := d + ("." + rest);
      DigitRun(u) == |d| && AllDigits(u[..|d|]) && u[..|d|] == d
      && u[|d|] == '.' && DigitRun(u[|d| + 1..]) == 0
  {
    var tail := "." + rest;
    var u := d + tail;
    IntegerRead(d, tail);
    assert u[|d|] == tail[0] == '.';
    assert u[|d| + 1..] == tail[1..] == rest;
    DigitRunConcat([], rest);
    assert [] + rest == rest;
  }

  /** The number read from a text `u` whose first `k` characters, `whole`,
      are digits, with no point-and-digits after them. */
  lemma ReadsWhole(u: string, k: nat, whole: string)
    requires DigitRun(u) == k > 0 && AllDigits(u[..k]) && whole == u[..k]
    requires k == |u| || u[k] != '.' || DigitRun(u[k + 1..]) == 0
    ensures LeadingNumber(u) == Some(NatValue(whole) as real)
  {
  }

  lemma Regroup(a: string, b: string, c: string, d: string)
    ensures a + b + c + d == a + (b + (c + d))
  {
  }

  lemma Regroup5(a: string, b: string, c: string, d: string, e: string)
    ensures a + b + c + d + e == a + (b + (c + (d + e)))
  {
  }

  /** A text whose first non-blank character is not a digit holds no
      leading number. */
  lemma ExtractWithoutNumber(p: string, rest: string)
    requires AllSpace(p)
    requires rest == [] || (!IsDigit(rest[0]) && !IsSpace(rest[0]))
    ensures ExtractLeadingNumber(p + rest).None?
  {
    TrimStartPadded(p, rest);
    DigitRunConcat([], rest);
    assert [] + rest == rest;
  }

  /** On a stripped text that starts with a digit, extraction finds exactly
      the number the direct parse reads. */
  lemma ExtractAgreesWithParse(t: string, v: real)
    requires Stripped(t) && t != [] && IsDigit(t[0])
    requires ParseNumber(t) == Some(v)
    ensures ExtractLeadingNumber(t) == Some(v)
  {
    StripOfStripped(t);
    assert TrimStart(t) == t;
    var k := DigitRun(t);
    if k < |t| {
      var frac := t[k + 1..];
      assert DigitRun(frac) == |frac|;
      assert t[k + 1..k + 1 + |frac|] == frac;
      if frac == [] {
        assert FracValue(frac) == 0.0;
      }
    } else {
      assert t[..k] == t;
    }
  }
}
