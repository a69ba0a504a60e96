/** Decimal writing of natural numbers. */
module Decimals {
  import opened Bytes

  predicate IsDigit(b: Byte) {
    48 <= b <= 57
  }

  ghost function Pow10(n: nat): nat {
    if n == 0 then 1 else 10 * Pow10(n - 1)
  }

  lemma Pow10Values()
    ensures Pow10(18) == 1_000_000_000_000_000_000
    ensures Pow10(19) == 10_000_000_000_000_000_000
    ensures Pow10(20) == 100_000_000_000_000_000_000
  {
    assert Pow10(6) == 1_000_000;
    assert Pow10(12) == 1_000_000_000_000 by { assert Pow10(9) == 1_000_000_000; }
    assert Pow10(15) == 1_000_000_000_000_000;
    assert Pow10(18) == 1_000_000_000_000_000_000;
  }

  lemma {:induction false} Pow10Monotone(a: nat, b: nat)
    requires a <= b
    ensures 0 < Pow10(a) <= Pow10(b)
  {
    if b == 0 {
    } else if a < b {
      Pow10Monotone(a, b - 1);
    } else {
      Pow10Monotone(a - 1, b - 1);
    }
  }

  /** `std::to_chars` on a non-negative number: the shortest decimal. */
  function NatDecimal(n: nat): (d: Bytes)
    ensures 0 < |d|
    ensures forall i :: 0 <= i < |d| ==> IsDigit(d[i])
    ensures d[0] == 48 <==> n == 0
  {
    if n < 10 then [48 + n] else NatDecimal(n / 10) + [48 + n % 10]
  }

  lemma {:induction false} NatDecimalLength(n: nat, k: nat)
    requires 0 < k
    ensures |NatDecimal(n)| <= k <==> n < Pow10(k)
  {
    if n < 10 {
      Pow10Monotone(1, k);
    } else if k == 1 {
      assert Pow10(1) == 10 * Pow10(0) == 10;
    } else {
      NatDecimalLength(n / 10, k - 1);
    }
  }
}
