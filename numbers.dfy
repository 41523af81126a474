/**
 * A decimal-number reader standing in for Python's float() on the hours
 * column: an optional sign, then digits with at most one decimal point and at
 * least one digit. The value is an exact real (no floating-point rounding).
 */
module Numbers {
  import opened Wrappers
  import opened Text

  /** Position of the first occurrence of c in s, or |s| when there is none. */
  function IndexOf(s: string, c: char): (k: nat)
    ensures k <= |s|
    ensures k < |s| ==> s[k] == c
  {
    if s == [] then 0
    else if s[0] == c then 0
    else 1 + IndexOf(s[1..], c)
  }

  /** No occurrence of c comes before the one IndexOf finds. */
  lemma {:induction false} IndexOfFirst(s: string, c: char, i: nat)
    requires i < IndexOf(s, c)
    ensures s[i] != c
  {
    if i > 0 {
      IndexOfFirst(s[1..], c, i - 1);
    }
  }

  /** The value of the digits after a decimal point: "25" means 0.25. */
  function FractionValue(s: string): (v: real)
    requires AllDigits(s)
    ensures 0.0 <= v < 1.0
  {
    if s == [] then 0.0
    else (DigitValue(s[0]) as real + FractionValue(s[1..])) / 10.0
  }

  /** An unsigned decimal: digits, or digits '.' digits with at least one digit on some side. */
  function ParseUnsigned(s: string): (r: Option<real>)
    ensures r.Some? ==> r.value >= 0.0
    ensures r.Some? ==> s != []
  {
    var k := IndexOf(s, '.');
    if k == |s| then
      if s != [] && AllDigits(s) then Some(DigitsValue(s) as real) else None
    else
      var whole, frac := s[..k], s[k + 1..];
      if (whole != [] || frac != []) && AllDigits(whole) && AllDigits(frac)
      then Some(DigitsValue(whole) as real + FractionValue(frac))
      else None
  }

  /** float() on an already stripped field: None where Python raises ValueError. */
  function ParseDecimal(s: string): (r: Option<real>)
    ensures s == [] ==> r.None?
    ensures r.Some? && r.value < 0.0 ==> s[0] == '-'
  {
    if s != [] && s[0] == '-' then
      match ParseUnsigned(s[1..])
      case Some(v) => Some(-v)
      case None => None
    else if s != [] && s[0] == '+' then ParseUnsigned(s[1..])
    else ParseUnsigned(s)
  }

  lemma {:induction false} DigitsHaveNoPoint(s: string)
    requires AllDigits(s)
    ensures IndexOf(s, '.') == |s|
  {
    if s != [] {
      assert !IsDigit('.');
      DigitsHaveNoPoint(s[1..]);
    }
  }

  /** Reading back the decimal rendering of a whole number gives that number. */
  lemma ParseNatRendering(n: nat)
    ensures ParseDecimal(NatToString(n)) == Some(n as real)
  {
    var s := NatToString(n);
    DigitsHaveNoPoint(s);
  }

  /** A minus sign in front of a whole number reads as its negation. */
  lemma ParseNegatedNatRendering(n: nat)
    ensures ParseDecimal("-" + NatToString(n)) == Some(-(n as real))
  {
    var s := NatToString(n);
    assert ("-" + s)[1..] == s;
    DigitsHaveNoPoint(s);
  }
}
