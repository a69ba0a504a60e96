/** Decimal numbers of bencode: the overflow-checked digit reader and the integer writer. */
module BencodeDigits {
  import opened Bytes
  import opened Decimals

  /** PastEnd is no error of the source: there the code reads beyond the input, which is undefined. */
  datatype Error = EndOfInput | SyntaxError | IntegerOverflow | IntegerUnderflow | DuplicateKey | PastEnd

  /** A decoder's outcome: a value and the position after it, or an error and the offset reported with it. */
  datatype Result<+T> = Ok(value: T, next: nat) | Err(error: Error, offset: nat)

  /** The two integer types that are decoded: `long long` for integers, `size_t` for string lengths. */
  datatype IntType = LongLong | SizeT

  function Max(t: IntType): int {
    if t.LongLong? then 0x7fff_ffff_ffff_ffff else 0xffff_ffff_ffff_ffff
  }

  function Min(t: IntType): int {
    if t.LongLong? then -0x8000_0000_0000_0000 else 0
  }

  /** `std::numeric_limits<Integer>::digits10`. */
  function Digits10(t: IntType): nat {
    if t.LongLong? then 18 else 19
  }

  ghost predicate InRange(t: IntType, v: int) {
    Min(t) <= v <= Max(t)
  }

  /** C++ division and remainder by 10 round towards zero. */
  function DivTen(x: int): int {
    if x >= 0 then x / 10 else -(-x / 10)
  }

  function ModTen(x: int): int {
    x - 10 * DivTen(x)
  }

  function DigitValue(b: Byte): int {
    b as int - 48
  }

  /** The product with a sign of 1 or -1. */
  function Signed(sgn: int, x: int): int {
    if sgn == 1 then x else -x
  }

  // ---------------------------------------------------------------- specification

  /** Length of the run of digits that starts at p. */
  ghost function DigitRun(s: Bytes, p: nat): (n: nat)
    requires p <= |s|
    ensures p + n <= |s|
    ensures forall i :: p <= i < p + n ==> IsDigit(s[i])
    ensures p + n < |s| ==> !IsDigit(s[p + n])
    decreases |s| - p
  {
    if p == |s| || !IsDigit(s[p]) then 0 else 1 + DigitRun(s, p + 1)
  }

  /** The number written by the n bytes at p. */
  ghost function Decimal(s: Bytes, p: nat, n: nat): int
    requires p + n <= |s|
  {
    if n == 0 then 0 else Decimal(s, p, n - 1) * 10 + DigitValue(s[p + n - 1])
  }

  ghost function RangeError(sgn: int): Error {
    if sgn == 1 then IntegerOverflow else IntegerUnderflow
  }

  /**
   * What reading a number at p amounts to: the run of digits is the number, it must be followed by
   * something, and at most Digits10 + 1 digits with a value in range are accepted. An empty run is 0.
   */
  ghost function Number(s: Bytes, p: nat, sgn: int, t: IntType): (r: Result<int>)
    requires p <= |s|
    requires sgn == 1 || sgn == -1
    ensures r.Ok? ==> r.next < |s| && !IsDigit(s[r.next]) && r.next == p + DigitRun(s, p)
    ensures r.Ok? ==> r.value == Signed(sgn, Decimal(s, p, DigitRun(s, p)))
    ensures r.Err? ==> p <= r.offset <= |s|
  {
    var n := DigitRun(s, p);
    var d := Digits10(t);
    if n <= d then
      if p + n == |s| then Err(EndOfInput, p + n) else Ok(Signed(sgn, Decimal(s, p, n)), p + n)
    else if !InRange(t, Signed(sgn, Decimal(s, p, d + 1))) then
      Err(RangeError(sgn), p + d + 1)
    else if p + d + 1 == |s| then
      Err(EndOfInput, p + d + 1)
    else if n > d + 1 then
      Err(RangeError(sgn), p + d + 1)
    else
      Ok(Signed(sgn, Decimal(s, p, n)), p + n)
  }

  // ---------------------------------------------------------------- the reader

  /** `check_over_underflow`: true when appending the (signed) digit would leave the type's range. */
  predicate LeavesRange(value: int, digit: int, sgn: int, t: IntType) {
    if sgn == 1 then
      value > Max(t) / 10 || (value == Max(t) / 10 && digit > Max(t) % 10)
    else
      value < DivTen(Min(t)) || (value == DivTen(Min(t)) && digit < ModTen(Min(t)))
  }

  /** The bound tests say exactly whether `value * 10 + digit` fits, without computing it. */
  lemma {:induction false} LeavesRangeExact(value: int, digit: int, sgn: int, t: IntType)
    requires sgn == 1 || (sgn == -1 && t.LongLong?)
    requires 0 <= Signed(sgn, value) && 0 <= Signed(sgn, digit) <= 9
    ensures LeavesRange(value, digit, sgn, t) <==> !InRange(t, value * 10 + digit)
  {
  }

  lemma {:induction false} DecimalBound(s: Bytes, p: nat, n: nat)
    requires p + n <= |s|
    requires forall i :: p <= i < p + n ==> IsDigit(s[i])
    ensures 0 <= Decimal(s, p, n) < Pow10(n)
  {
    if n == 0 {
    } else {
      DecimalBound(s, p, n - 1);
    }
  }

  /** A run of digits is followed by a non-digit or the end; scanning n digits of it leaves the rest. */
  lemma {:induction false} DigitRunAtLeast(s: Bytes, p: nat, n: nat)
    requires p + n <= |s|
    requires forall i :: p <= i < p + n ==> IsDigit(s[i])
    ensures DigitRun(s, p) == n + DigitRun(s, p + n)
    decreases n
  {
    if n == 0 {
    } else {
      DigitRunAtLeast(s, p + 1, n - 1);
    }
  }

  /** A number of at most Digits10 digits is in range, whatever the digits are. */
  lemma ShortNumberInRange(s: Bytes, p: nat, n: nat, sgn: int, t: IntType)
    requires p + n <= |s| && n <= Digits10(t)
    requires forall i :: p <= i < p + n ==> IsDigit(s[i])
    requires sgn == 1 || (sgn == -1 && t.LongLong?)
    ensures 0 <= Decimal(s, p, n) && InRange(t, Signed(sgn, Decimal(s, p, n)))
  {
    DecimalBound(s, p, n);
    Pow10Monotone(n, Digits10(t));
    Pow10Values();
  }

  /** What the outcome is once the first n bytes have been seen to be digits. */
  lemma NumberSeen(s: Bytes, p: nat, n: nat, sgn: int, t: IntType)
    requires p + n <= |s| && n <= Digits10(t) + 1
    requires forall i :: p <= i < p + n ==> IsDigit(s[i])
    requires sgn == 1 || (sgn == -1 && t.LongLong?)
    ensures n <= Digits10(t) ==> 0 <= Decimal(s, p, n) && InRange(t, Signed(sgn, Decimal(s, p, n)))
    ensures n == Digits10(t) + 1 && !InRange(t, Signed(sgn, Decimal(s, p, n))) ==>
              Number(s, p, sgn, t) == Err(RangeError(sgn), p + n)
    ensures InRange(t, Signed(sgn, Decimal(s, p, n))) ==>
              && (p + n == |s| ==> Number(s, p, sgn, t) == Err(EndOfInput, p + n))
              && (p + n < |s| && !IsDigit(s[p + n]) ==>
                    Number(s, p, sgn, t) == Ok(Signed(sgn, Decimal(s, p, n)), p + n))
              && (p + n < |s| && IsDigit(s[p + n]) && n == Digits10(t) + 1 ==>
                    Number(s, p, sgn, t) == Err(RangeError(sgn), p + n))
  {
    DigitRunAtLeast(s, p, n);
    if n <= Digits10(t) {
      ShortNumberInRange(s, p, n, sgn, t);
    }
  }

  /** One step of the accumulation, and the range test that guards its last step. */
  lemma AppendDigit(s: Bytes, p: nat, n: nat, sgn: int, t: IntType)
    requires p + n < |s| && n <= Digits10(t)
    requires forall i :: p <= i <= p + n ==> IsDigit(s[i])
    requires sgn == 1 || (sgn == -1 && t.LongLong?)
    ensures var value, digit := Signed(sgn, Decimal(s, p, n)), DigitValue(s[p + n]) * sgn;
            && value * 10 + digit == Signed(sgn, Decimal(s, p, n + 1))
            && (LeavesRange(value, digit, sgn, t) <==> !InRange(t, Signed(sgn, Decimal(s, p, n + 1))))
  {
    ShortNumberInRange(s, p, n, sgn, t);
    LeavesRangeExact(Signed(sgn, Decimal(s, p, n)), DigitValue(s[p + n]) * sgn, sgn, t);
  }

  /**
   * Reads as many digits as are certain to fit without a test, then one more with a test, and
   * rejects any further digit. Every intermediate value stays inside the type's range.
   */
  method DecodeDigits(s: Bytes, start: nat, sgn: int, t: IntType) returns (r: Result<int>)
    requires start <= |s|
    requires sgn == 1 || (sgn == -1 && t.LongLong?)
    ensures r == Number(s, start, sgn, t)
  {
    var begin := start;
    var value := 0;
    for i := 0 to Digits10(t)
      invariant begin == start + i <= |s|
      invariant forall k :: start <= k < begin ==> IsDigit(s[k])
      invariant value == Signed(sgn, Decimal(s, start, i))
      invariant InRange(t, value)
    {
      NumberSeen(s, start, i, sgn, t);
      if begin == |s| {
        return Err(EndOfInput, begin);
      }
      if !IsDigit(s[begin]) {
        return Ok(value, begin);
      }
      AppendDigit(s, start, i, sgn, t);
      NumberSeen(s, start, i + 1, sgn, t);
      value := value * 10 + DigitValue(s[begin]) * sgn;
      begin := begin + 1;
    }
    NumberSeen(s, start, Digits10(t), sgn, t);
    if begin == |s| {
      return Err(EndOfInput, begin);
    }
    if IsDigit(s[begin]) {
      AppendDigit(s, start, Digits10(t), sgn, t);
      NumberSeen(s, start, Digits10(t) + 1, sgn, t);
      var digit := DigitValue(s[begin]) * sgn;
      begin := begin + 1;
      if LeavesRange(value, digit, sgn, t) {
        return Err(if sgn == 1 then IntegerOverflow else IntegerUnderflow, begin);
      }
      value := value * 10 + digit;
    }
    if begin == |s| {
      return Err(EndOfInput, begin);
    }
    if IsDigit(s[begin]) {
      return Err(if sgn == 1 then IntegerOverflow else IntegerUnderflow, begin);
    }
    return Ok(value, begin);
  }

  // ---------------------------------------------------------------- exactness

  lemma {:induction false} DecimalAtLeast(s: Bytes, p: nat, n: nat)
    requires 0 < n && p + n <= |s|
    requires forall i :: p <= i < p + n ==> IsDigit(s[i])
    requires s[p] != 48
    ensures Pow10(n - 1) <= Decimal(s, p, n)
  {
    if n == 1 {
      assert Decimal(s, p, 0) == 0;
    } else {
      DecimalAtLeast(s, p, n - 1);
    }
  }

  /** Every number returned is in range, and is the signed decimal that stands in the text. */
  lemma NumberSound(s: Bytes, p: nat, sgn: int, t: IntType)
    requires p <= |s|
    requires sgn == 1 || (sgn == -1 && t.LongLong?)
    ensures var r := Number(s, p, sgn, t);
            r.Ok? ==> InRange(t, r.value) && r.value == Signed(sgn, Decimal(s, p, DigitRun(s, p)))
  {
    hide Decimal, DigitRun;
    var n := DigitRun(s, p);
    if n <= Digits10(t) {
      ShortNumberInRange(s, p, n, sgn, t);
    }
  }

  /**
   * A number is accepted exactly when something follows it, it has at most 19 digits (20 for a length), and it
   * fits 64 bits; no digits at all are zero.
   */
  lemma NumberAccepted(s: Bytes, p: nat)
    requires p <= |s|
    ensures var n := DigitRun(s, p);
            var v := Decimal(s, p, n);
            && (forall i :: p <= i < p + n ==> 48 <= s[i] <= 57) && (p + n < |s| ==> !(48 <= s[p + n] <= 57))
            && (Number(s, p, 1, LongLong).Ok? <==> p + n < |s| && n <= 19 && v <= 0x7fff_ffff_ffff_ffff)
            && (Number(s, p, -1, LongLong).Ok? <==> p + n < |s| && n <= 19 && v <= 0x8000_0000_0000_0000)
            && (Number(s, p, 1, SizeT).Ok? <==> p + n < |s| && n <= 20 && v <= 0xffff_ffff_ffff_ffff)
            && (Number(s, p, 1, LongLong).Ok? ==> Number(s, p, 1, LongLong) == Ok(v, p + n))
            && (Number(s, p, -1, LongLong).Ok? ==> Number(s, p, -1, LongLong) == Ok(-v, p + n))
            && (Number(s, p, 1, SizeT).Ok? ==> Number(s, p, 1, SizeT) == Ok(v, p + n))
  {
    AcceptedAs(s, p, 1, LongLong);
    AcceptedAs(s, p, -1, LongLong);
    AcceptedAs(s, p, 1, SizeT);
    DecimalBound(s, p, DigitRun(s, p));
    hide Number, Decimal, DigitRun;
  }

  lemma AcceptedAs(s: Bytes, p: nat, sgn: int, t: IntType)
    requires p <= |s|
    requires sgn == 1 || (sgn == -1 && t.LongLong?)
    ensures var n := DigitRun(s, p);
            Number(s, p, sgn, t).Ok? <==>
            p + n < |s| && n <= Digits10(t) + 1 && InRange(t, Signed(sgn, Decimal(s, p, n)))
  {
    hide Decimal, DigitRun;
    var n := DigitRun(s, p);
    if n <= Digits10(t) + 1 {
      NumberSeen(s, p, n, sgn, t);
    }
  }

  lemma LongNumberOutOfRange(s: Bytes, p: nat, n: nat, sgn: int, t: IntType)
    requires p + n <= |s| && Digits10(t) + 1 < n
    requires forall i :: p <= i < p + n ==> IsDigit(s[i])
    requires s[p] != 48
    ensures !InRange(t, Signed(sgn, Decimal(s, p, n)))
  {
    hide Decimal, Pow10;
    DecimalAtLeast(s, p, n);
    Pow10Monotone(Digits10(t) + 1, n - 1);
    Pow10Values();
    if t == LongLong {
      assert Pow10(19) > 0x8000_0000_0000_0000;
    } else {
      assert Pow10(20) > 0xffff_ffff_ffff_ffff;
    }
  }

  /**
   * A run of digits without leading zeros that is followed by something is accepted exactly when
   * the number fits the type, up to and including the type's two bounds.
   */
  lemma NumberExact(s: Bytes, p: nat, sgn: int, t: IntType)
    requires p <= |s|
    requires sgn == 1 || (sgn == -1 && t.LongLong?)
    requires var n := DigitRun(s, p);
             0 < n && p + n < |s| && (n == 1 || s[p] != 48)
    ensures Number(s, p, sgn, t).Ok? <==> InRange(t, Signed(sgn, Decimal(s, p, DigitRun(s, p))))
  {
    hide Number, InRange, Decimal, DigitRun, Signed;
    var n := DigitRun(s, p);
    if n <= Digits10(t) + 1 {
      NumberSeen(s, p, n, sgn, t);
    } else {
      NumberSeen(s, p, Digits10(t) + 1, sgn, t);
      LongNumberOutOfRange(s, p, n, sgn, t);
    }
  }

  // ---------------------------------------------------------------- the writer

  function IntDecimal(v: int): Bytes {
    if v < 0 then [45] + NatDecimal(-v) else NatDecimal(v)
  }

  /** The stack buffer of digits10 + 2 characters is always large enough for the number written. */
  lemma WriteIntegerFits(v: int, t: IntType)
    requires InRange(t, v)
    ensures |IntDecimal(v)| <= Digits10(t) + 2
  {
    Pow10Values();
    NatDecimalLength(if v < 0 then -v else v, Digits10(t) + 1);
  }

  lemma {:induction false} DecimalOfNatDecimal(s: Bytes, p: nat, n: nat)
    requires At(s, p, NatDecimal(n))
    ensures Decimal(s, p, |NatDecimal(n)|) == n
  {
    var d := NatDecimal(n);
    assert s[p + (|d| - 1)] == d[|d| - 1];
    if n < 10 {
      assert Decimal(s, p, 0) == 0;
    } else {
      AtConcat(s, p, NatDecimal(n / 10), [48 + n % 10]);
      DecimalOfNatDecimal(s, p, n / 10);
    }
  }

  lemma {:induction false} NatDecimalOfDecimal(s: Bytes, p: nat, n: nat)
    requires 0 < n && p + n <= |s|
    requires forall i :: p <= i < p + n ==> IsDigit(s[i])
    requires n == 1 || s[p] != 48
    ensures Decimal(s, p, n) >= 0
    ensures NatDecimal(Decimal(s, p, n)) == s[p..p + n]
  {
    DecimalBound(s, p, n - 1);
    if n == 1 {
      assert Decimal(s, p, 0) == 0;
      assert s[p..p + 1] == [s[p]];
    } else {
      DecimalAtLeast(s, p, n - 1);
      Pow10Monotone(0, n - 2);
      NatDecimalOfDecimal(s, p, n - 1);
      var high, low := Decimal(s, p, n - 1), DigitValue(s[p + n - 1]);
      assert (high * 10 + low) / 10 == high && (high * 10 + low) % 10 == low;
      assert s[p..p + n] == s[p..p + n - 1] + [s[p + n - 1]];
    }
  }

  /** Writing a number in range and reading it back, whatever non-digit follows it. */
  lemma NumberRoundTrip(s: Bytes, p: nat, n: nat, sgn: int, t: IntType)
    requires At(s, p, NatDecimal(n))
    requires p + |NatDecimal(n)| < |s| && !IsDigit(s[p + |NatDecimal(n)|])
    requires sgn == 1 || (sgn == -1 && t.LongLong?)
    requires InRange(t, Signed(sgn, n))
    ensures DigitRun(s, p) == |NatDecimal(n)|
    ensures Number(s, p, sgn, t) == Ok(Signed(sgn, n), p + |NatDecimal(n)|)
    ensures |NatDecimal(n)| == 1 || s[p] != 48
  {
    var d := NatDecimal(n);
    forall i | p <= i < p + |d| ensures IsDigit(s[i]) {
      assert s[p + (i - p)] == d[i - p];
    }
    DigitRunAtLeast(s, p, |d|);
    DecimalOfNatDecimal(s, p, n);
    assert s[p + 0] == d[0];
    if n == 0 {
      assert d == [48];
    }
    NumberExact(s, p, sgn, t);
  }
}
