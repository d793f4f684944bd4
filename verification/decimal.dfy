/** Decimal rendering of the component index in a generated bind line (C# `{i}` on an int). */
module Decimal {
  import opened Wrappers

  predicate IsDigit(c: char) {
    '0' <= c <= '9'
  }

  function DigitChar(d: nat): (c: char)
    requires d < 10
    ensures IsDigit(c) && c as int - '0' as int == d
  {
    (d + '0' as int) as char
  }

  function DigitValue(c: char): nat
    requires IsDigit(c)
  {
    c as int - '0' as int
  }

  /** The shortest decimal numeral of `n`. */
  function DecimalString(n: nat): (r: string)
    ensures |r| > 0 && forall c :: c in r ==> IsDigit(c)
    decreases n
  {
    if n < 10 then [DigitChar(n)] else DecimalString(n / 10) + [DigitChar(n % 10)]
  }

  /** Reads a non-empty run of decimal digits; anything else is rejected. */
  function ParseDecimal(s: string): (r: Option<nat>)
    ensures r.Some? ==> |s| > 0 && forall c :: c in s ==> IsDigit(c)
    decreases |s|
  {
    if |s| == 0 || !IsDigit(s[|s| - 1]) then None
    else if |s| == 1 then Some(DigitValue(s[0]))
    else match ParseDecimal(s[..|s| - 1])
      case None => None
      case Some(v) => Some(10 * v + DigitValue(s[|s| - 1]))
  }

  /** Rendering then reading an index gives the index back. */
  lemma {:induction false} ParseDecimalString(n: nat)
    ensures ParseDecimal(DecimalString(n)) == Some(n)
    decreases n
  {
    var s := DecimalString(n);
    if n < 10 {
      assert s == [DigitChar(n)];
    } else {
      ParseDecimalString(n / 10);
      var h := DecimalString(n / 10);
      assert s == h + [DigitChar(n % 10)];
      assert s[..|s| - 1] == h;
      assert |s| > 1;
    }
  }
}
