/** The header that cSHAKE absorbs first (sections 2.3 and 3.3 of NIST SP 800-185). */
module Cshake {
  import opened Bytes
  import opened Absorb
  import opened MerkleDamgard
  import opened Shake
  import opened Xof

  // ---------------------------------------------------------------- integer encodings

  /** How many bytes a number needs, at least one. */
  ghost function ByteLength(x: nat): (n: nat)
    ensures n > 0
    ensures x < Pow256(n)
    ensures n > 1 ==> x >= Pow256(n - 1)
    decreases x
  {
    if x < 256 then 1 else 1 + ByteLength(x / 256)
  }

  lemma {:induction false} ByteLengthLeast(x: nat, k: nat)
    requires x < Pow256(k) && 0 < k
    ensures ByteLength(x) <= k
    decreases x
  {
    assert Pow256(1) == 256 * Pow256(0) == 256;
    if x >= 256 {
      ByteLengthLeast(x / 256, k - 1);
    }
  }

  ghost function LeftEncoded(x: nat): Bytes
    requires ByteLength(x) < 256
  {
    [ByteLength(x)] + BigEndian(x, ByteLength(x))
  }

  ghost function RightEncoded(x: nat): Bytes
    requires ByteLength(x) < 256
  {
    BigEndian(x, ByteLength(x)) + [ByteLength(x)]
  }

  /** The K12 variant encodes zero in no bytes at all. */
  ghost function RightEncodedK12(x: nat): Bytes
    requires ByteLength(x) < 256
  {
    if x == 0 then [0] else RightEncoded(x)
  }

  lemma {:induction false} Pow256Order(a: nat, b: nat)
    requires a <= b
    ensures 0 < Pow256(a) <= Pow256(b)
  {
    if b > 0 {
      if a < b {
        Pow256Order(a, b - 1);
      } else {
        Pow256Order(a - 1, b - 1);
      }
    }
  }

  /** Every size_t has at most eight bytes. */
  lemma SizeBytes(x: uint64)
    ensures ByteLength(x) <= 8
  {
    Pow256AtLeast(8);
    ByteLengthLeast(x, 8);
  }

  /** The encodings are self-delimiting from their side, and decode to the number. */
  lemma {:induction false} LeftDecodes(x: uint64, rest: Bytes)
    ensures ByteLength(x) <= 8
    ensures var s := LeftEncoded(x) + rest;
            && s[0] == ByteLength(x) && FromBigEndian(s[1..1 + s[0]]) == x && s[1 + s[0]..] == rest
  {
    SizeBytes(x);
    var n := ByteLength(x);
    var s := LeftEncoded(x) + rest;
    BigEndianValue(x, n);
    assert s[1..1 + n] == BigEndian(x, n);
  }

  lemma {:induction false} RightDecodes(x: uint64, before: Bytes)
    ensures ByteLength(x) <= 8
    ensures var s := before + RightEncoded(x);
            var n := s[|s| - 1];
            && n == ByteLength(x) && FromBigEndian(s[|s| - 1 - n..|s| - 1]) == x && s[..|s| - 1 - n] == before
  {
    SizeBytes(x);
    var n := ByteLength(x);
    var s := before + RightEncoded(x);
    BigEndianValue(x, n);
    assert s[|s| - 1 - n..|s| - 1] == BigEndian(x, n);
  }

  /** Two different encodings never begin two equal texts. */
  lemma LeftPrefixFree(x: uint64, y: uint64, a: Bytes, b: Bytes)
    requires ByteLength(x) < 256 && ByteLength(y) < 256
    requires LeftEncoded(x) + a == LeftEncoded(y) + b
    ensures x == y && a == b
  {
    LeftDecodes(x, a);
    LeftDecodes(y, b);
  }

  /** Shifting right by whole bytes. */
  ghost function Shifted(x: nat, i: nat): nat {
    if i == 0 then x else Shifted(x / 256, i - 1)
  }

  lemma {:induction false} ShiftedStep(x: nat, i: nat)
    ensures Shifted(x, i + 1) == Shifted(x, i) / 256
  {
    if i > 0 {
      ShiftedStep(x / 256, i - 1);
    } else {
      assert Shifted(x, 1) == Shifted(x / 256, 0);
    }
  }

  lemma {:induction false} BigEndianAt(x: nat, n: nat, i: nat)
    requires i < n
    ensures BigEndian(x, n)[n - 1 - i] == Shifted(x, i) % 256
  {
    if i > 0 {
      BigEndianAt(x / 256, n - 1, i - 1);
    }
  }

  /** The number of significant bytes, counted with a loop of shifts. */
  method CountBytes(num: uint64) returns (n: Byte)
    ensures 1 <= n <= 8 && n == ByteLength(num)
  {
    SizeBytes(num);
    n := 1;
    var tmp := num;
    tmp := tmp / 256;
    while tmp != 0
      invariant 1 <= n <= 8
      invariant tmp == 0 ==> ByteLength(num) == n
      invariant tmp != 0 ==> ByteLength(num) == n + ByteLength(tmp)
      decreases tmp
    {
      n := n + 1;
      tmp := tmp / 256;
    }
  }

  method LeftEncode(num: uint64, buf: array<Byte>) returns (result: nat)
    requires 9 <= buf.Length
    modifies buf
    ensures ByteLength(num) <= 8
    ensures result == |LeftEncoded(num)| && buf[..result] == LeftEncoded(num)
  {
    var n := CountBytes(num);
    buf[0] := n;
    result := n + 1;
    var i, k, shifted := 0, n, num;
    while k > 0
      invariant 0 <= k <= n && i == n - k
      invariant buf[0] == n && shifted == Shifted(num, i)
      invariant forall j :: k < j <= n ==> buf[j] == BigEndian(num, n)[j - 1]
    {
      BigEndianAt(num, n, i);
      ShiftedStep(num, i);
      buf[k] := shifted % 256;
      shifted := shifted / 256;
      k := k - 1;
      i := i + 1;
    }
  }

  method RightEncode(num: uint64, buf: array<Byte>, k12: bool) returns (result: nat)
    requires 9 <= buf.Length
    modifies buf
    ensures ByteLength(num) <= 8
    ensures var e := if k12 then RightEncodedK12(num) else RightEncoded(num); result == |e| && buf[..result] == e
  {
    var n := CountBytes(num);
    if k12 && num == 0 {
      n := 0;
    }
    buf[n] := n;
    result := n + 1;
    var i, k, shifted := 0, n, num;
    while k > 0
      invariant 0 <= k <= n && i == n - k
      invariant buf[n] == n && shifted == Shifted(num, i)
      invariant forall j :: k <= j < n ==> buf[j] == BigEndian(num, n)[j]
    {
      BigEndianAt(num, n, i);
      ShiftedStep(num, i);
      k := k - 1;
      buf[k] := shifted % 256;
      shifted := shifted / 256;
      i := i + 1;
    }
    assert buf[..n] == BigEndian(num, n);
  }

  // ---------------------------------------------------------------- the header

  /** A string with its bit length before it. */
  ghost function EncodedString(s: Bytes): Bytes
    requires |s| < LIMIT
  {
    SizeBytes(8 * |s|);
    LeftEncoded(8 * |s|) + s
  }

  ghost function Unpadded(name: Bytes, custom: Bytes, r: uint64): Bytes
    requires |name| < LIMIT && |custom| < LIMIT
  {
    SizeBytes(r);
    LeftEncoded(r) + EncodedString(name) + EncodedString(custom)
  }

  /** How many zeros `init` adds: at least one, and up to a whole block. */
  function Gap(n: nat, r: nat): (k: nat)
    requires 0 < r
    ensures 0 < k <= r
  {
    r - n % r
  }

  /** What `init` absorbs: zeros are added up to the next block boundary, even when there is one already. */
  ghost function Header(name: Bytes, custom: Bytes, r: uint64): Bytes
    requires |name| < LIMIT && |custom| < LIMIT && 0 < r
  {
    var x := Unpadded(name, custom, r);
    x + Zeros(Gap(|x|, r))
  }

  /** bytepad of section 2.3.3 of SP 800-185: zeros up to a block boundary, none if there is one. */
  ghost function BytePad(name: Bytes, custom: Bytes, r: uint64): Bytes
    requires |name| < LIMIT && |custom| < LIMIT && 0 < r
  {
    var x := Unpadded(name, custom, r);
    x + Zeros(ZeroCount(|x| - 1, r, 0))
  }

  lemma UnpaddedNotEmpty(name: Bytes, custom: Bytes, r: uint64)
    requires |name| < LIMIT && |custom| < LIMIT
    ensures |Unpadded(name, custom, r)| > 0
  {
  }

  /** Different names, customizations or messages are absorbed as different bytes: a header keeps its message apart. */
  lemma {:induction false} HeaderInjective(name: Bytes, custom: Bytes, m: Bytes,
                                           name': Bytes, custom': Bytes, m': Bytes, r: uint64)
    requires |name| < LIMIT && |custom| < LIMIT && |name'| < LIMIT && |custom'| < LIMIT && 0 < r
    ensures Header(name, custom, r) + m == Header(name', custom', r) + m' <==>
            name == name' && custom == custom' && m == m'
  {
    if Header(name, custom, r) + m == Header(name', custom', r) + m' {
      SizeBytes(r);
      var z := AfterNames(name, custom, m, r);
      var z' := AfterNames(name', custom', m', r);
      var c, c' := EncodedString(custom) + z, EncodedString(custom') + z';
      var n, n' := EncodedString(name) + c, EncodedString(name') + c';
      LeftPrefixFree(r, r, n, n');
      StringPrefixFree(name, name', c, c');
      StringPrefixFree(custom, custom', z, z');
      var h := Header(name, custom, r);
      assert (h + m)[|h|..] == m && (h + m')[|h|..] == m';
    }
  }

  /** The zeros and the message, which follow the two names. */
  lemma AfterNames(name: Bytes, custom: Bytes, m: Bytes, r: uint64) returns (z: Bytes)
    requires |name| < LIMIT && |custom| < LIMIT && 0 < r && ByteLength(r) < 256
    ensures Header(name, custom, r) + m == LeftEncoded(r) + (EncodedString(name) + (EncodedString(custom) + z))
  {
    var zeros := Zeros(Gap(|Unpadded(name, custom, r)|, r));
    z := zeros + m;
    var a, b, c := LeftEncoded(r), EncodedString(name), EncodedString(custom);
    Regroup(a, b, c, z);
    Associative(a + b + c, zeros, m);
  }

  lemma Regroup(a: Bytes, b: Bytes, c: Bytes, d: Bytes)
    ensures a + b + c + d == a + (b + (c + d))
  {
  }

  lemma StringPrefixFree(s: Bytes, t: Bytes, a: Bytes, b: Bytes)
    requires |s| < LIMIT && |t| < LIMIT && EncodedString(s) + a == EncodedString(t) + b
    ensures s == t && a == b
  {
    SizeBytes(8 * |s|);
    SizeBytes(8 * |t|);
    var p, q := LeftEncoded(8 * |s|), LeftEncoded(8 * |t|);
    assert p + (s + a) == p + s + a;
    assert q + (t + b) == q + t + b;
    LeftPrefixFree(8 * |s|, 8 * |t|, s + a, t + b);
    assert (s + a)[..|s|] == s && (t + b)[..|t|] == t;
    assert (s + a)[|s|..] == a && (t + b)[|t|..] == b;
  }

  lemma {:induction false} HeaderAligned(name: Bytes, custom: Bytes, r: uint64)
    requires |name| < LIMIT && |custom| < LIMIT && 0 < r
    ensures Aligned(|Header(name, custom, r)|, r)
  {
    hide Unpadded, Gap;
    RoundUp(|Unpadded(name, custom, r)|, r);
  }

  lemma RoundUp(n: nat, r: nat)
    requires 0 < r
    ensures Aligned(n + Gap(n, r), r)
  {
    var k := n / r;
    assert n == r * k + n % r;
    assert r * k + r == (k + 1) * r;
    AlignedTimes(k + 1, r);
  }

  /** The header is the one of the standard exactly when it does not fill whole blocks by itself. */
  lemma {:induction false} HeaderIsBytePad(name: Bytes, custom: Bytes, r: uint64)
    requires |name| < LIMIT && |custom| < LIMIT && 0 < r
    ensures Header(name, custom, r) == BytePad(name, custom, r) <==> |Unpadded(name, custom, r)| % r != 0
  {
    hide Unpadded, ZeroCount;
    var n := |Unpadded(name, custom, r)|;
    UnpaddedNotEmpty(name, custom, r);
    RoundUp(n, r);
    HeaderAligned(name, custom, r);
    var k := r - n % r;
    if n % r != 0 {
      ZeroCountIs(n - 1, r, 0, k);
    } else {
      ZeroCountBelow(n - 1, r);
    }
  }

  /**
   * The header of an empty name and a customization of 161 bytes, at the rate of cSHAKE128, is exactly
   * one block; `init` absorbs a second one of zeros.
   */
  lemma AlignedHeaderGetsBlockOfZeros(custom: Bytes)
    requires |custom| == 161
    ensures |Unpadded([], custom, 168)| == 168 && |BytePad([], custom, 168)| == 168
    ensures Header([], custom, 168) == BytePad([], custom, 168) + Zeros(168)
  {
    assert ByteLength(0) == 1 && ByteLength(168) == 1;
    assert ByteLength(1288) == 2 by { assert ByteLength(5) == 1; }
    SizeBytes(168);
    SizeBytes(0);
    SizeBytes(1288);
    hide ByteLength, LeftEncoded, Pow256;
    assert |LeftEncoded(168)| == 2 && |LeftEncoded(0)| == 2 && |LeftEncoded(1288)| == 3 by {
      EncodingLength(168);
      EncodingLength(0);
      EncodingLength(1288);
    }
    var x := Unpadded([], custom, 168);
    assert x + Zeros(0) == x;
  }

  lemma EncodingLength(x: uint64)
    ensures ByteLength(x) < 256 && |LeftEncoded(x)| == 1 + ByteLength(x)
  {
    SizeBytes(x);
  }

  lemma ZeroCountBelow(n: nat, r: nat)
    requires 0 < r
    ensures ZeroCount(n, r, 0) < r
  {
  }

  /**
   * `init` of a customized provider: everything is absorbed through the buffer, which is left empty
   * at a block boundary. Without a name and a customization nothing is absorbed.
   */
  method Init<S>(h: Absorber<S>, name: Bytes, custom: Bytes)
    requires h.Valid() && !h.lazy && h.absorbed == [] && 0 < h.bs < 1000
    requires |name| + |custom| + 2000 < LIMIT
    modifies h`state, h`pos, h`total, h`absorbed, h.m
    ensures h.Valid() && h.pos == 0 && |h.absorbed| <= |name| + |custom| + 1027
    ensures h.absorbed == if name == [] && custom == [] then [] else Header(name, custom, h.bs)
  {
    if name != [] || custom != [] {
      hide h.Valid, Header, Unpadded, Gap, ByteLength, Pow256;
      var total := AbsorbNames(h, h.bs, name, custom);
      h.Update(Zeros(Gap(total, h.bs)));
      HeaderIs(name, custom, h.bs);
      HeaderAligned(name, custom, h.bs);
    }
    EmptyAtBoundary(h);
  }

  /**
   * cSHAKE of a message: the sponge over header and message with the suffix 0x04, or SHAKE, which has the
   * suffix 0x1f, when neither a name nor a customization is given.
   */
  method Customized<S(!new)>(h: Absorber<S>, xorIn: (S, Bytes) -> S, perm: S -> S, bytes: S -> Bytes,
      name: Bytes, custom: Bytes, msg: Bytes, lens: seq<nat>)
    returns (out: Bytes)
    requires h.Valid() && !h.lazy && h.absorbed == [] && 0 < h.bs < 1000
    requires Produces(bytes, h.bs) && AbsorbsBlocks(h.step, xorIn, perm)
    requires |name| + |custom| + |msg| + 2000 < LIMIT
    requires lens != [] && forall i :: 0 <= i < |lens| ==> lens[i] > 0
    modifies h, h.m
    ensures out == if name == [] && custom == []
                   then Sponge(xorIn, perm, bytes, h.iv, h.bs, 0x1f, msg, Sum(lens))
                   else Sponge(xorIn, perm, bytes, h.iv, h.bs, 0x04, Header(name, custom, h.bs) + msg, Sum(lens))
  {
    hide Header, SpongeState, SpongePadded, Output, Advance, Undisturbed, h.Valid;
    Init(h, name, custom);
    h.Update(msg);
    assert [] + msg == msg;
    var suffix := if name == [] && custom == [] then 0x1f else 0x04;
    var x := new ShakeProvider<S>(h, xorIn, perm, bytes, suffix);
    Positions(h);
    PositiveLengths(x.Position(), h.bs, lens);
    out := SqueezeRun(x, lens);
    var all := Output(bytes, perm, h.bs, x.seed, Sum(lens));
    assert all[0..] == all;
  }

  lemma Positions<S>(h: Absorber<S>)
    requires h.Valid()
    ensures 0 < h.bs <= h.m.Length && h.pos <= h.bs
  {
  }

  /** The example of the standard: an empty name and "Email Signature" at the rate of cSHAKE128. */
  lemma EmailSignature()
    ensures LeftEncoded(0) == [1, 0] && RightEncoded(0) == [0, 1] && RightEncodedK12(0) == [0]
    ensures Header([], Ascii("Email Signature"), 168) ==
            [1, 168, 1, 0, 1, 120] + Ascii("Email Signature") + Zeros(147)
  {
    Pow256Values();
    var custom := Ascii("Email Signature");
    assert BigEndian(0, 1) == BigEndian(0, 0) + [0];
    assert BigEndian(168, 1) == BigEndian(0, 0) + [168];
    assert BigEndian(120, 1) == BigEndian(0, 0) + [120];
    assert LeftEncoded(0) == [1, 0] && LeftEncoded(168) == [1, 168] && LeftEncoded(120) == [1, 120];
    hide LeftEncoded, ByteLength, BigEndian;
    assert Unpadded([], custom, 168) == [1, 168] + ([1, 0] + []) + ([1, 120] + custom);
  }

  lemma EmptyAtBoundary<S>(h: Absorber<S>)
    requires h.Valid() && !h.lazy && Aligned(|h.absorbed|, h.bs)
    ensures h.pos == 0
  {
    BufferedUnique(|h.absorbed|, h.pos, 0, h.bs, false);
  }

  method AbsorbNames<S>(h: Absorber<S>, r: uint64, name: Bytes, custom: Bytes) returns (total: nat)
    requires h.Valid() && h.absorbed == [] && 0 < r
    requires |name| + |custom| + 2000 < LIMIT
    modifies h`state, h`pos, h`total, h`absorbed, h.m
    ensures h.Valid()
    ensures h.absorbed == Unpadded(name, custom, r) && total == |h.absorbed|
    ensures total <= |name| + |custom| + 27
  {
    hide h.Valid, LeftEncoded, ByteLength, Pow256, Unpadded, EncodedString;
    HeaderIs(name, custom, r);
    var buf := new Byte[1024](_ => 0);
    total := AbsorbEncoded(h, r, buf);
    var len := AbsorbString(h, name, buf);
    total := total + len;
    len := AbsorbString(h, custom, buf);
    total := total + len;
    total := total + (|custom| + |name|);
    assert [] + LeftEncoded(r) == LeftEncoded(r);
  }

  lemma HeaderIs(name: Bytes, custom: Bytes, r: uint64)
    requires |name| < LIMIT && |custom| < LIMIT && 0 < r
    ensures ByteLength(r) <= 8
    ensures Unpadded(name, custom, r) == LeftEncoded(r) + EncodedString(name) + EncodedString(custom)
    ensures var x := Unpadded(name, custom, r); Header(name, custom, r) == x + Zeros(Gap(|x|, r))
  {
    hide LeftEncoded, EncodedString, ByteLength, Pow256;
    SizeBytes(r);
  }

  /** The left encoding of a number. */
  method AbsorbEncoded<S>(h: Absorber<S>, x: uint64, buf: array<Byte>) returns (len: nat)
    requires h.Valid() && |h.absorbed| + 9 < LIMIT && 9 <= buf.Length && buf != h.m
    modifies h`state, h`pos, h`total, h`absorbed, h.m, buf
    ensures ByteLength(x) <= 8
    ensures h.Valid() && h.absorbed == old(h.absorbed) + LeftEncoded(x) && len == |LeftEncoded(x)| <= 9
  {
    hide Chain, Aligned, Buffered, ByteLength, Pow256, LeftEncoded;
    SmallEncoding(x);
    len := LeftEncode(x, buf);
    h.Update(buf[..len]);
  }

  /** The encoded length of a string, and its bytes. */
  method AbsorbString<S>(h: Absorber<S>, s: Bytes, buf: array<Byte>) returns (len: nat)
    requires h.Valid() && |h.absorbed| + |s| + 9 < LIMIT && 9 <= buf.Length && buf != h.m
    modifies h`state, h`pos, h`total, h`absorbed, h.m, buf
    ensures h.Valid() && h.absorbed == old(h.absorbed) + EncodedString(s)
    ensures len <= 9 && |EncodedString(s)| == len + |s|
  {
    hide Chain, Aligned, Buffered, ByteLength, Pow256;
    len := AbsorbEncoded(h, |s| * 8, buf);
    ghost var e := LeftEncoded(8 * |s|);
    if s != [] {
      h.Update(s);
    }
    assert old(h.absorbed) + e + s == old(h.absorbed) + (e + s);
  }

  lemma SmallEncoding(x: uint64)
    ensures ByteLength(x) < 256
    ensures |LeftEncoded(x)| <= 9
  {
    SizeBytes(x);
  }
}
