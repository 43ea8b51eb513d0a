/** Numbers in decimal digits. */
module Decimals {
  predicate IsAsciiDigit(c: char) { '0' <= c <= '9' }

  predicate AllAsciiDigits(digits: string) {
    forall i :: 0 <= i < |digits| ==> IsAsciiDigit(digits[i])
  }

  /** The number that digits stand for. */
  function Ordinal(digits: string): nat
    requires AllAsciiDigits(digits)
  {
    if digits == "" then 0
    else 10 * Ordinal(digits[..|digits| - 1]) + (digits[|digits| - 1] as int - '0' as int)
  }

  function Digit(n: nat): char
    requires n < 10
  {
    ('0' as int + n) as char
  }

  /** A number without leading zeros. */
  function Decimal(n: nat): (digits: string)
    ensures digits != "" && AllAsciiDigits(digits)
    ensures n > 0 ==> digits[0] != '0'
    ensures n == 0 ==> digits == "0"
  {
    if n < 10 then [Digit(n)] else Decimal(n / 10) + [Digit(n % 10)]
  }

  lemma {:induction false} OrdinalOfDecimal(n: nat)
    ensures Ordinal(Decimal(n)) == n
  {
    var digits := Decimal(n);
    if n < 10 {
      assert digits[..0] == "";
    } else {
      OrdinalOfDecimal(n / 10);
      assert digits[..|digits| - 1] == Decimal(n / 10);
    }
  }

  /** Digits without a leading zero are printed back. */
  lemma {:induction false} DecimalOfOrdinal(digits: string)
    requires AllAsciiDigits(digits) && digits != "" && (|digits| > 1 ==> digits[0] != '0')
    ensures Decimal(Ordinal(digits)) == digits
    ensures |digits| > 1 ==> Ordinal(digits) >= 10
  {
    var n := |digits| - 1;
    assert digits == digits[..n] + [digits[n]];
    if n == 0 {
      assert Ordinal(digits[..0]) == 0;
    } else {
      DecimalOfOrdinal(digits[..n]);
      FirstDigit(digits[..n]);
    }
  }

  lemma {:induction false} FirstDigit(digits: string)
    requires AllAsciiDigits(digits) && digits != "" && digits[0] != '0'
    ensures Ordinal(digits) >= 1
  {
    if |digits| > 1 {
      FirstDigit(digits[..|digits| - 1]);
    }
  }
}
