/** Decimal rendering of unsigned integers (Rust's `usize::to_string`) and
    the parser that inverts it. */
module Decimal {
  import opened Wrappers

  predicate IsDigit(c: char) {
    '0' <= c <= '9'
  }

  predicate AllDigits(s: string) {
    forall i | 0 <= i < |s| :: IsDigit(s[i])
  }

  function DigitValue(c: char): (d: nat)
    requires IsDigit(c)
    ensures d < 10
  {
    c as int - '0' as int
  }

  function DigitChar(d: nat): (c: char)
    requires d < 10
    ensures IsDigit(c) && DigitValue(c) == d
  {
    (d + '0' as int) as char
  }

  /** The decimal form of `n`: digits only, no sign, no leading zero */
  function FromNat(n: nat): (s: string)
    ensures |s| > 0 && AllDigits(s)
    ensures s[0] == '0' <==> n == 0
    decreases n
  {
    if n < 10 then [DigitChar(n)] else FromNat(n / 10) + [DigitChar(n % 10)]
  }

  /** Value of a string of decimal digits, most significant first */
  function DigitsValue(s: string): nat
    requires AllDigits(s)
    decreases |s|
  {
    if |s| == 0 then 0 else 10 * DigitsValue(s[..|s| - 1]) + DigitValue(s[|s| - 1])
  }

  /** Parses a non-empty string of decimal digits */
  function Parse(s: string): (r: Option<nat>)
    ensures r.Some? <==> |s| > 0 && AllDigits(s)
  {
    if |s| > 0 && AllDigits(s) then Some(DigitsValue(s)) else None
  }

  /** Rendering a number and parsing it back yields the number */
  lemma {:induction false} ParseFromNat(n: nat)
    ensures Parse(FromNat(n)) == Some(n)
  {
    var t := FromNat(n);
    if n < 10 {
      assert t[..|t| - 1] == [];
      assert DigitsValue(t) == 10 * DigitsValue([]) + DigitValue(t[0]);
    } else {
      var s := FromNat(n / 10);
      ParseFromNat(n / 10);
      assert t[..|t| - 1] == s;
    }
  }

  /** Distinct numbers render to distinct strings */
  lemma FromNatInjective(a: nat, b: nat)
    requires FromNat(a) == FromNat(b)
    ensures a == b
  {
    ParseFromNat(a);
    ParseFromNat(b);
  }
}
