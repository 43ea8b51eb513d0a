/** Rates: a count over a denominator, and zero when there is nothing to count. */
module Rates {

  function Ratio(part: nat, whole: nat): real {
    if whole == 0 then 0.0 else part as real / whole as real
  }

  lemma ScaledLess(x: real, y: real, k: real)
    requires k > 0.0
    ensures x <= y <==> x * k <= y * k
    ensures x == y <==> x * k == y * k
  {
  }

  lemma RatioTimesWhole(part: nat, whole: nat)
    requires whole > 0
    ensures Ratio(part, whole) * whole as real == part as real
  {
  }

  /** A rate compares with a number as its count does with that share of the denominator. */
  lemma RatioCompares(part: nat, whole: nat, x: real)
    requires whole > 0
    ensures Ratio(part, whole) <= x <==> part as real <= x * whole as real
    ensures x <= Ratio(part, whole) <==> x * whole as real <= part as real
  {
    RatioTimesWhole(part, whole);
    ScaledLess(Ratio(part, whole), x, whole as real);
    ScaledLess(x, Ratio(part, whole), whole as real);
  }

  lemma RatioBounds(part: nat, whole: nat)
    requires part <= whole
    ensures 0.0 <= Ratio(part, whole) <= 1.0
    ensures whole > 0 ==> (Ratio(part, whole) == 1.0 <==> part == whole)
  {
    if whole > 0 {
      RatioCompares(part, whole, 1.0);
      RatioCompares(part, whole, 0.0);
    }
  }

  function Min(a: real, b: real): real { if a <= b then a else b }
  function Max(a: real, b: real): real { if a <= b then b else a }

  /** A pooled rate lies between the two rates it pools. Where one denominator is zero
      the count is zero too, and its rate is reported as zero. */
  lemma PooledRate(a: nat, b: nat, c: nat, d: nat)
    requires a <= b && c <= d
    ensures Min(Ratio(a, b), Ratio(c, d)) <= Ratio(a + c, b + d) <= Max(Ratio(a, b), Ratio(c, d))
  {
    var low, high := Min(Ratio(a, b), Ratio(c, d)), Max(Ratio(a, b), Ratio(c, d));
    RatioBounds(a, b);
    RatioBounds(c, d);
    if b > 0 && d > 0 {
      RatioCompares(a, b, low);
      RatioCompares(c, d, low);
      RatioCompares(a, b, high);
      RatioCompares(c, d, high);
      RatioCompares(a + c, b + d, low);
      RatioCompares(a + c, b + d, high);
      Distribute(low, b, d);
      Distribute(high, b, d);
    }
  }

  lemma Distribute(x: real, b: nat, d: nat)
    ensures x * (b + d) as real == x * b as real + x * d as real
  {
  }
}
