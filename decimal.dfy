/**
 Decimal text: Python's `str` of a non-negative integer, and the numeric
 parsing that `pd.to_numeric(..., errors="coerce")` applies to text cells and
 to the year column names of the WEO sheet.
 */
module Decimal {
  import opened Options
  import opened Cells

  predicate IsDigit(c: char)
  {
    '0' <= c <= '9'
  }

  predicate AllDigits(s: string)
  {
    forall i :: 0 <= i < |s| ==> IsDigit(s[i])
  }

  function DigitChar(d: nat): (c: char)
    requires d < 10
    ensures IsDigit(c) && c as int - '0' as int == d
  {
    ('0' as int + d) as char
  }

  /** Python's `str(n)` for n >= 0: decimal digits, no leading zero. */
  function ShowNat(n: nat): (s: string)
    ensures |s| > 0 && AllDigits(s)
    ensures s[0] == '0' ==> n == 0 && |s| == 1
    decreases n
  {
    if n < 10 then [DigitChar(n)] else ShowNat(n / 10) + [DigitChar(n % 10)]
  }

  /** The value of a digit string, most significant digit first ("" is 0). */
  function DigitsValue(s: string): nat
    requires AllDigits(s)
  {
    if |s| == 0 then 0
    else DigitsValue(s[..|s| - 1]) * 10 + (s[|s| - 1] as int - '0' as int)
  }

  /** A non-empty run of digits as a natural number. */
  function ParseNat(s: string): (r: Option<nat>)
    ensures r.Some? <==> |s| > 0 && AllDigits(s)
  {
    if |s| > 0 && AllDigits(s) then Some(DigitsValue(s)) else None
  }

  lemma {:induction false} DigitsValueShowNat(n: nat)
    ensures DigitsValue(ShowNat(n)) == n
    decreases n
  {
    if n >= 10 {
      DigitsValueShowNat(n / 10);
      var s := ShowNat(n);
      assert s[..|s| - 1] == ShowNat(n / 10);
    }
  }

  /** Printing then parsing a natural number gives it back. */
  lemma ParseShowNat(n: nat)
    ensures ParseNat(ShowNat(n)) == Some(n)
  {
    DigitsValueShowNat(n);
  }

  /** Different numbers print differently. */
  lemma ShowNatInjective(m: nat, n: nat)
    requires ShowNat(m) == ShowNat(n)
    ensures m == n
  {
    ParseShowNat(m);
    ParseShowNat(n);
  }

  /** Position of the first '.', or |s| when there is none. */
  function DotIndex(s: string): (k: nat)
    ensures k <= |s|
    ensures k < |s| ==> s[k] == '.'
    ensures forall i :: 0 <= i < k ==> s[i] != '.'
  {
    if |s| == 0 then 0 else if s[0] == '.' then 0 else 1 + DotIndex(s[1..])
  }

  /** An unsigned decimal: digits, optionally a point and more digits, with at
      least one digit in all. */
  function ParseUnsigned(s: string): Option<real>
  {
    var k := DotIndex(s);
    var whole := s[..k];
    var frac := if k < |s| then s[k + 1..] else "";
    if AllDigits(whole) && AllDigits(frac) && |whole| + |frac| > 0 then
      Some(DecimalValue(whole, frac))
    else None
  }

  /** The value of `whole.frac`. */
  function DecimalValue(whole: string, frac: string): real
    requires AllDigits(whole) && AllDigits(frac)
  {
    DigitsValue(whole) as real + DigitsValue(frac) as real / Pow10(|frac|) as real
  }

  /** Numeric coercion of a text cell: an optionally signed decimal number,
      anything else is missing. */
  function ParseNum(s: string): Cell
  {
    var signed := |s| > 0 && (s[0] == '-' || s[0] == '+');
    match ParseUnsigned(if signed then s[1..] else s)
    case None => Missing
    case Some(x) => Num(if signed && s[0] == '-' then -x else x)
  }

  lemma {:induction false} DotIndexOfDigits(s: string)
    requires AllDigits(s)
    ensures DotIndex(s) == |s|
  {
    if |s| > 0 {
      DotIndexOfDigits(s[1..]);
    }
  }

  /** The fraction digits are worth less than one whole unit, so `whole.frac`
      lies between `whole` and `whole + 1`. */
  lemma DecimalValueBetween(whole: string, frac: string)
    requires AllDigits(whole) && AllDigits(frac)
    ensures DigitsValue(whole) as real <= DecimalValue(whole, frac) < DigitsValue(whole) as real + 1.0
  {
    DigitsBelowPow10(frac);
    var d, p := DigitsValue(frac) as real, Pow10(|frac|) as real;
    QuotientBelowOne(d, p);
  }

  lemma QuotientBelowOne(d: real, p: real)
    requires 0.0 <= d < p
    ensures 0.0 <= d / p < 1.0
  {
    assert d / p * p == d;
  }

  /** n digits are worth less than 10^n. */
  lemma {:induction false} DigitsBelowPow10(s: string)
    requires AllDigits(s)
    ensures DigitsValue(s) < Pow10(|s|)
  {
    if |s| > 0 {
      var init := s[..|s| - 1];
      assert AllDigits(init);
      DigitsBelowPow10(init);
      assert DigitsValue(init) + 1 <= Pow10(|init|);
      assert DigitsValue(s) < (DigitsValue(init) + 1) * 10;
    }
  }

  lemma DecimalValueWhole(w: string)
    requires AllDigits(w)
    ensures DecimalValue(w, "") == DigitsValue(w) as real
  {
    assert DigitsValue("") == 0;
  }

  lemma ParseUnsignedDigits(s: string)
    requires |s| > 0 && AllDigits(s)
    ensures ParseUnsigned(s) == Some(DigitsValue(s) as real)
  {
    DotIndexOfDigits(s);
    assert s[..DotIndex(s)] == s;
    DecimalValueWhole(s);
  }

  /** The text of a natural number parses to that number. */
  lemma ParseNumShowNat(n: nat)
    ensures ParseNum(ShowNat(n)) == Num(n as real)
  {
    var s := ShowNat(n);
    ParseUnsignedDigits(s);
    DigitsValueShowNat(n);
  }

  /** `s.replace(",", "")`. */
  function StripCommas(s: string): (r: string)
    ensures ',' !in r
    ensures |r| <= |s|
    ensures ',' !in s ==> r == s
  {
    if |s| == 0 then ""
    else (if s[0] == ',' then "" else [s[0]]) + StripCommas(s[1..])
  }

  /** Stripping the commas keeps every other character, in order. */
  lemma {:induction false} StripCommasKeeps(s: string, t: string)
    requires ',' !in t
    ensures StripCommas(s + t) == StripCommas(s) + t
  {
    if |s| > 0 {
      assert (s + t)[1..] == s[1..] + t;
      StripCommasKeeps(s[1..], t);
    }
  }
}
