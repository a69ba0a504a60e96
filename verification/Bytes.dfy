/** Bytes, and slices of a byte string seen as "the text e stands at position p of s". */
module Bytes {

  type Byte = x: int | 0 <= x < 256

  type Bytes = seq<Byte>

  const U32: nat := 0x1_0000_0000
  const U64: nat := 0x1_0000_0000_0000_0000

  type uint32 = x: nat | x < U32
  type uint64 = x: nat | x < U64

  datatype Option<+T> = None | Some(value: T)

  function Zeros(n: nat): (z: Bytes)
    ensures |z| == n
    ensures forall i :: 0 <= i < n ==> z[i] == 0
  {
    seq(n, _ => 0)
  }

  /** A text as bytes. */
  function Ascii(text: string): (b: Bytes)
    ensures |b| == |text| && forall i :: 0 <= i < |b| ==> b[i] == text[i] as int % 256
  {
    seq(|text|, i requires 0 <= i < |text| => text[i] as int % 256)
  }

  lemma Associative<T>(a: seq<T>, b: seq<T>, c: seq<T>)
    ensures a + b + c == a + (b + c)
  {
  }

  /** What stands in the rest of a text, seen from its beginning. */
  lemma Later(d: Bytes, bs: nat, from: nat)
    requires bs + from <= |d|
    ensures d[bs..][from..] == d[bs + from..]
    ensures bs + from + bs <= |d| ==> d[bs..][from..from + bs] == d[bs + from..bs + from + bs]
  {
  }

  /** The text e stands in s at position p. */
  ghost predicate At(s: Bytes, p: nat, e: Bytes) {
    p + |e| <= |s| && forall i :: 0 <= i < |e| ==> s[p + i] == e[i]
  }

  lemma AtSlice(s: Bytes, p: nat, e: Bytes)
    ensures At(s, p, e) <==> p + |e| <= |s| && s[p..p + |e|] == e
  {
    if p + |e| <= |s| {
      forall i | 0 <= i < |e| && s[p..p + |e|] == e ensures s[p + i] == e[i] {
        assert s[p..p + |e|][i] == s[p + i];
      }
    }
  }

  lemma AtConcat(s: Bytes, p: nat, a: Bytes, b: Bytes)
    ensures At(s, p, a + b) <==> At(s, p, a) && At(s, p + |a|, b)
  {
    if At(s, p, a + b) {
      assert forall i :: 0 <= i < |a| ==> a[i] == (a + b)[i];
      assert forall i :: 0 <= i < |b| ==> b[i] == (a + b)[|a| + i];
    }
    if At(s, p, a) && At(s, p + |a|, b) {
      forall i | 0 <= i < |a + b| ensures s[p + i] == (a + b)[i] {
        if i >= |a| {
          assert s[p + |a| + (i - |a|)] == b[i - |a|];
        }
      }
    }
  }

  /** A text in brackets: what stands between them. */
  lemma AtBracketed(s: Bytes, p: nat, open: Byte, body: Bytes, close: Byte)
    requires At(s, p, [open] + body + [close])
    ensures p + 1 + |body| < |s| && s[p] == open && s[p + 1 + |body|] == close
    ensures At(s, p + 1, body) && At(s, p + 1, body + [close])
  {
    AtConcat(s, p, [open] + body, [close]);
    AtConcat(s, p, [open], body);
    AtConcat(s, p + 1, body, [close]);
    assert ([open] + body)[0] == open;
    assert s[p + 1 + |body| + 0] == [close][0];
  }

  lemma AtLast(s: Bytes, p: nat, body: Bytes, close: Byte)
    requires At(s, p, body + [close])
    ensures p + |body| < |s| && s[p + |body|] == close
  {
    assert (body + [close])[|body|] == close;
  }

  /** A text of two parts and a closing byte: the parts, and what remains after the first. */
  lemma AtParts(s: Bytes, p: nat, a: Bytes, b: Bytes, close: Byte)
    requires At(s, p, a + b + [close])
    ensures At(s, p, a) && At(s, p + |a|, b + [close])
  {
    AtConcat(s, p, a + b, [close]);
    AtConcat(s, p, a, b);
    AtConcat(s, p + |a|, b, [close]);
  }

  // ---------------------------------------------------------------- numbers as bytes

  ghost function Pow256(n: nat): nat {
    if n == 0 then 1 else 256 * Pow256(n - 1)
  }

  lemma Pow256Values()
    ensures Pow256(4) == U32 && Pow256(8) == U64
  {
    assert Pow256(4) == U32;
  }

  /** x as n bytes, most significant first. */
  function BigEndian(x: nat, n: nat): (b: Bytes)
    ensures |b| == n
  {
    if n == 0 then [] else BigEndian(x / 256, n - 1) + [x % 256]
  }

  function FromBigEndian(b: Bytes): nat {
    if b == [] then 0 else 256 * FromBigEndian(b[..|b| - 1]) + b[|b| - 1]
  }

  lemma {:induction false} BigEndianValue(x: nat, n: nat)
    requires x < Pow256(n)
    ensures FromBigEndian(BigEndian(x, n)) == x
  {
    if n > 0 {
      BigEndianValue(x / 256, n - 1);
      assert BigEndian(x, n)[..n - 1] == BigEndian(x / 256, n - 1);
    }
  }

  lemma {:induction false} FromBigEndianBound(b: Bytes)
    ensures FromBigEndian(b) < Pow256(|b|)
  {
    if b != [] {
      FromBigEndianBound(b[..|b| - 1]);
    }
  }

  /** x as n bytes, least significant first. */
  function LittleEndian(x: nat, n: nat): (b: Bytes)
    ensures |b| == n
  {
    if n == 0 then [] else [x % 256] + LittleEndian(x / 256, n - 1)
  }

  function FromLittleEndian(b: Bytes): nat {
    if b == [] then 0 else b[0] + 256 * FromLittleEndian(b[1..])
  }

  /** `native_to_big` and `big_to_native` of a 32-bit number on a little-endian host. */
  function Swap32(x: uint32): uint32 {
    x % 256 * 0x100_0000 + x / 0x100 % 256 * 0x1_0000 + x / 0x1_0000 % 256 * 0x100 + x / 0x100_0000
  }

  lemma {:induction false} TimesLess(a: nat, b: nat, d: nat)
    requires a < b
    ensures a * d + d <= b * d
  {
    if a + 1 < b {
      TimesLess(a, b - 1, d);
    }
  }

  lemma Quotient(x: nat, q: nat, r: nat, d: nat)
    requires x == q * d + r && r < d
    ensures x / d == q && x % d == r
  {
    var k := x / d;
    assert x == k * d + x % d;
    if q < k {
      TimesLess(q, k, d);
    } else if k < q {
      TimesLess(k, q, d);
    }
  }

  lemma QuotientTwice(x: nat, d: nat)
    requires d > 0
    ensures x / 256 / d == x / (256 * d)
  {
    var q, r := x / 256 / d, x / 256 % d;
    assert x / 256 == q * d + r;
    assert x == 256 * (q * d + r) + x % 256;
    assert q * (256 * d) == 256 * (q * d);
    Quotient(x, q, 256 * r + x % 256, 256 * d);
  }

  /** Byte number i, counted from the least significant one, in either order. */
  lemma {:induction false} ByteOfNumber(x: nat, n: nat, i: nat)
    requires i < n
    ensures Pow256(i) > 0
    ensures BigEndian(x, n)[n - 1 - i] == LittleEndian(x, n)[i] == x / Pow256(i) % 256
  {
    if i > 0 {
      ByteOfNumber(x / 256, n - 1, i - 1);
      QuotientTwice(x, Pow256(i - 1));
    }
  }

  lemma BigEndian4(x: uint32)
    ensures BigEndian(x, 4) == [x / 0x100_0000, x / 0x1_0000 % 256, x / 0x100 % 256, x % 256]
  {
    assert BigEndian(x / 0x100_0000 / 256, 0) == [];
    assert BigEndian(x / 0x1_0000 / 256, 1) == [x / 0x100_0000 % 256];
    assert x / 256 / 256 == x / 0x1_0000 && x / 0x1_0000 / 256 == x / 0x100_0000;
    assert BigEndian(x / 256 / 256, 2) == BigEndian(x / 0x100_0000, 1) + [x / 0x1_0000 % 256];
    assert BigEndian(x / 256, 3) == BigEndian(x / 256 / 256, 2) + [x / 256 % 256];
  }

  lemma LittleEndian4(x: uint32)
    ensures LittleEndian(x, 4) == [x % 256, x / 0x100 % 256, x / 0x1_0000 % 256, x / 0x100_0000]
  {
    assert x / 256 / 256 == x / 0x1_0000 && x / 0x1_0000 / 256 == x / 0x100_0000;
    assert LittleEndian(x / 0x100_0000, 1) == [x / 0x100_0000 % 256] + LittleEndian(x / 0x100_0000 / 256, 0);
    assert LittleEndian(x / 0x1_0000, 2) == [x / 0x1_0000 % 256] + LittleEndian(x / 0x100_0000, 1);
    assert LittleEndian(x / 256, 3) == [x / 256 % 256] + LittleEndian(x / 0x1_0000, 2);
  }

  /** A number that is byte-swapped and then written low byte first comes out high byte first. */
  lemma SwappedIsBigEndian(x: uint32)
    ensures LittleEndian(Swap32(x), 4) == BigEndian(x, 4)
  {
    hide BigEndian, LittleEndian;
    BigEndian4(x);
    LittleEndian4(Swap32(x));
    SwapArithmetic(x % 256, x / 0x100 % 256, x / 0x1_0000 % 256, x / 0x100_0000);
    var b0, b1, b2, b3 := x % 256, x / 0x100 % 256, x / 0x1_0000 % 256, x / 0x100_0000;
    SplitArithmetic(b3, b2, b1, b0);
  }

  lemma SplitArithmetic(b0: Byte, b1: Byte, b2: Byte, b3: Byte)
    ensures var x := b0 + 256 * b1 + 0x1_0000 * b2 + 0x100_0000 * b3;
            x % 256 == b0 && x / 0x100 % 256 == b1 && x / 0x1_0000 % 256 == b2 && x / 0x100_0000 == b3
  {
    var x := b0 + 256 * b1 + 0x1_0000 * b2 + 0x100_0000 * b3;
    assert x / 256 == b1 + 256 * b2 + 0x1_0000 * b3;
    assert x / 0x1_0000 == b2 + 256 * b3;
  }

  /** Reading four bytes low byte first and swapping the number reads it high byte first. */
  lemma SwappedFromLittleEndian(b: Bytes)
    requires |b| == 4
    ensures FromLittleEndian(b) < U32 && Swap32(FromLittleEndian(b)) == FromBigEndian(b) < U32
  {
    var b0: int, b1: int, b2: int, b3: int := b[0], b[1], b[2], b[3];
    assert FromLittleEndian(b) == b0 + 256 * b1 + 0x1_0000 * b2 + 0x100_0000 * b3 by {
      FromLittleEndian4(b);
    }
    assert FromBigEndian(b) == b3 + 256 * b2 + 0x1_0000 * b1 + 0x100_0000 * b0 by {
      FromBigEndian4(b);
    }
    SwapArithmetic(b0, b1, b2, b3);
  }

  lemma FromLittleEndian4(b: Bytes)
    requires |b| == 4
    ensures FromLittleEndian(b) == b[0] as int + 256 * b[1] as int + 0x1_0000 * b[2] as int + 0x100_0000 * b[3] as int
  {
    assert b[1..][1..] == b[2..] && b[2..][1..] == b[3..] && b[3..][1..] == [];
    assert FromLittleEndian(b[3..]) == b[3];
    assert FromLittleEndian(b[2..]) == b[2] + 256 * FromLittleEndian(b[3..]);
    assert FromLittleEndian(b[1..]) == b[1] + 256 * FromLittleEndian(b[2..]);
  }

  lemma FromBigEndian4(b: Bytes)
    requires |b| == 4
    ensures FromBigEndian(b) == b[3] as int + 256 * b[2] as int + 0x1_0000 * b[1] as int + 0x100_0000 * b[0] as int
  {
    assert b[..3][..2] == b[..2] && b[..2][..1] == b[..1] && b[..1][..0] == [];
    assert FromBigEndian(b[..1]) == b[0];
    assert FromBigEndian(b[..2]) == b[1] + 256 * FromBigEndian(b[..1]);
    assert FromBigEndian(b[..3]) == b[2] + 256 * FromBigEndian(b[..2]);
  }

  lemma SwapArithmetic(b0: Byte, b1: Byte, b2: Byte, b3: Byte)
    ensures var x := b0 + 256 * b1 + 0x1_0000 * b2 + 0x100_0000 * b3;
            0 <= x < U32 && Swap32(x) == b3 + 256 * b2 + 0x1_0000 * b1 + 0x100_0000 * b0
  {
    var x := b0 + 256 * b1 + 0x1_0000 * b2 + 0x100_0000 * b3;
    assert x % 256 == b0 && x / 256 == b1 + 256 * b2 + 0x1_0000 * b3;
    assert x / 256 % 256 == b1 && x / 0x1_0000 == b2 + 256 * b3;
    assert x / 0x1_0000 % 256 == b2 && x / 0x100_0000 == b3;
  }
}
