/** Padding and finishing of the SHA-1 and SHA-2 providers, over an abstract compression function. */
module MerkleDamgard {
  import opened Bytes
  import opened Absorb

  // ---------------------------------------------------------------- specification

  /** The compression function iterated over the whole blocks of data. */
  ghost function Iterate<S>(f: (S, Bytes) -> S, h: S, data: Bytes, bs: nat): S
    requires bs > 0
    decreases |data|
  {
    if |data| < bs then h else Iterate(f, f(h, data[..bs]), data[bs..], bs)
  }

  /** The number of zero bytes between the byte 0x80 and the length: the smallest that fills a block. */
  ghost function ZeroCount(n: nat, bs: nat, lenBytes: nat): nat
    requires bs > 0
  {
    var r := (n + 1 + lenBytes) % bs; if r == 0 then 0 else bs - r
  }

  /** Section 5.1 of FIPS 180-4: a one bit, zeros, and the bit length of the message in lenBytes bytes. */
  ghost function Padded(msg: Bytes, bs: nat, lenBytes: nat): Bytes
    requires bs > 0
  {
    msg + [0x80] + Zeros(ZeroCount(|msg|, bs, lenBytes)) + BigEndian(8 * |msg|, lenBytes)
  }

  ghost predicate IgnoresCounter<S(!new)>(step: (S, Bytes, nat) -> S, f: (S, Bytes) -> S) {
    forall h: S, b: Bytes, n: nat :: step(h, b, n) == f(h, b)
  }

  /** Section 5.1 of FIPS 180-4, byte by byte, for the two shapes of block. */
  lemma {:induction false} PaddedBytes(msg: Bytes, bs: nat, lenBytes: nat)
    requires (bs == 64 && lenBytes == 8) || (bs == 128 && lenBytes == 16)
    ensures var s, n := Padded(msg, bs, lenBytes), |msg|;
            && Aligned(|s|, bs) && n + 1 + lenBytes <= |s| < n + 1 + lenBytes + bs
            && s[..n] == msg && s[n] == 0x80 && s[|s| - lenBytes..] == BigEndian(8 * n, lenBytes)
            && forall i :: n < i < |s| - lenBytes ==> s[i] == 0
  {
    hide ZeroCount, Aligned, BigEndian;
    ZeroCountFills(|msg|, bs, lenBytes);
  }

  // ---------------------------------------------------------------- arithmetic of blocks

  lemma ModPlus(a: nat, bs: nat)
    requires bs > 0
    ensures (a + bs) % bs == a % bs
  {
    var q, r := a / bs, a % bs;
    assert a == q * bs + r;
    assert a + bs == (q + 1) * bs + r;
    Quotient(a + bs, q + 1, r, bs);
  }

  /** ZeroCount is the only number below a block that fills the last block. */
  lemma {:induction false} ZeroCountIs(n: nat, bs: nat, lenBytes: nat, k: nat)
    requires 0 < bs && k < bs && Aligned(n + 1 + k + lenBytes, bs)
    ensures ZeroCount(n, bs, lenBytes) == k
  {
    hide Aligned;
    var x := n + 1 + lenBytes;
    var z := ZeroCount(n, bs, lenBytes);
    ZeroCountFills(n, bs, lenBytes);
    if k < z {
      AlignedSum(x + k, z - k, bs);
      NotAligned(z - k, bs);
    } else if z < k {
      AlignedSum(x + z, k - z, bs);
      NotAligned(k - z, bs);
    }
  }

  lemma NotAligned(n: nat, bs: nat)
    requires 0 < n < bs
    ensures !Aligned(n, bs)
  {
  }

  lemma {:induction false} AlignedRest(n: nat, bs: nat)
    requires bs > 0
    ensures n % bs <= n && Aligned(n - n % bs, bs)
    decreases n
  {
    if n >= bs {
      AlignedRest(n - bs, bs);
      ModPlus(n - bs, bs);
      assert n - n % bs - bs == (n - bs) - (n - bs) % bs;
    } else {
      Quotient(n, 0, n, bs);
    }
  }

  lemma ZeroCountFills(n: nat, bs: nat, lenBytes: nat)
    requires 0 < bs
    ensures ZeroCount(n, bs, lenBytes) < bs && Aligned(n + 1 + lenBytes + ZeroCount(n, bs, lenBytes), bs)
  {
    var x := n + 1 + lenBytes;
    AlignedRest(x, bs);
    AlignedSum(x - x % bs, bs, bs);
    OneTimes(bs);
  }

  lemma {:induction false} ChainIgnoring<S(!new)>(step: (S, Bytes, nat) -> S, f: (S, Bytes) -> S, h: S,
      data: Bytes, bs: nat, done: nat)
    requires bs > 0 && IgnoresCounter(step, f)
    ensures Chain(step, h, data, bs, done) == Iterate(f, h, data, bs)
    decreases |data|
  {
    if |data| >= bs {
      ChainIgnoring(step, f, step(h, data[..bs], done + bs), data[bs..], bs, done + bs);
    }
  }

  lemma {:induction false} IterateSplit<S>(f: (S, Bytes) -> S, h: S, a: Bytes, b: Bytes, bs: nat)
    requires bs > 0 && Aligned(|a|, bs)
    ensures Iterate(f, h, a + b, bs) == Iterate(f, Iterate(f, h, a, bs), b, bs)
    decreases |a|
  {
    if a == [] {
      assert a + b == b;
    } else {
      assert (a + b)[..bs] == a[..bs] && (a + b)[bs..] == a[bs..] + b;
      IterateSplit(f, f(h, a[..bs]), a[bs..], b, bs);
    }
  }

  lemma OneMore<S>(f: (S, Bytes) -> S, h: S, done: Bytes, block: Bytes, bs: nat)
    requires bs > 0 && Aligned(|done|, bs) && |block| == bs
    ensures Aligned(|done + block|, bs)
    ensures Iterate(f, h, done + block, bs) == f(Iterate(f, h, done, bs), block)
  {
    IterateSplit(f, h, done, block, bs);
    AlignedSum(|done|, bs, bs);
    assert Aligned(bs, bs);
    assert block[..bs] == block && block[bs..] == [];
  }

  /** A longer length field only has more leading zeros. */
  lemma {:induction false} BigEndianWider(x: nat, n: nat)
    requires x < Pow256(n)
    ensures BigEndian(x, n + 1) == [0] + BigEndian(x, n)
  {
    if n == 0 {
      assert BigEndian(x, 1) == BigEndian(x / 256, 0) + [x % 256];
    } else {
      BigEndianWider(x / 256, n - 1);
      assert BigEndian(x, n + 1) == BigEndian(x / 256, n) + [x % 256];
      assert [0] + BigEndian(x / 256, n - 1) + [x % 256] == [0] + (BigEndian(x / 256, n - 1) + [x % 256]);
    }
  }

  lemma {:induction false} LengthField(x: nat, k: nat)
    requires x < U64
    ensures BigEndian(x, 8 + k) == Zeros(k) + BigEndian(x, 8)
  {
    if k == 0 {
      assert Zeros(0) == [];
    } else {
      LengthField(x, k - 1);
      Pow256AtLeast(7 + k);
      BigEndianWider(x, 7 + k);
      assert [0] + Zeros(k - 1) == Zeros(k);
      assert [0] + (Zeros(k - 1) + BigEndian(x, 8)) == Zeros(k) + BigEndian(x, 8);
    }
  }

  lemma {:induction false} Pow256AtLeast(n: nat)
    requires 8 <= n
    ensures Pow256(n) >= U64
  {
    if n == 8 {
      assert Pow256(4) == 0x1_0000_0000;
      assert Pow256(8) == U64;
    } else {
      Pow256AtLeast(n - 1);
    }
  }

  // ---------------------------------------------------------------- the padded message, block by block

  /** The length field fits into the block that the message ends in. */
  lemma {:induction false} PaddedOneBlock(msg: Bytes, pos: nat, bs: nat, lenBytes: nat) returns (block: Bytes)
    requires Buffered(|msg|, pos, bs, false) && pos + 1 <= bs - lenBytes
    ensures |block| == bs
    ensures block == msg[|msg| - pos..] + [0x80] + Zeros(bs - lenBytes - pos - 1) + BigEndian(8 * |msg|, lenBytes)
    ensures Padded(msg, bs, lenBytes) == msg[..|msg| - pos] + block
  {
    var k := bs - lenBytes - pos - 1;
    AlignedSum(|msg| - pos, bs, bs);
    assert Aligned(bs, bs);
    ZeroCountIs(|msg|, bs, lenBytes, k);
    block := msg[|msg| - pos..] + [0x80] + Zeros(k) + BigEndian(8 * |msg|, lenBytes);
  }

  /** The length field needs a block of its own. */
  lemma {:induction false} PaddedTwoBlocks(msg: Bytes, pos: nat, bs: nat, lenBytes: nat)
    returns (first: Bytes, second: Bytes)
    requires Buffered(|msg|, pos, bs, false) && lenBytes < bs && pos + 1 > bs - lenBytes
    ensures |first| == |second| == bs
    ensures first == msg[|msg| - pos..] + [0x80] + Zeros(bs - pos - 1)
    ensures second == Zeros(bs - lenBytes) + BigEndian(8 * |msg|, lenBytes)
    ensures Padded(msg, bs, lenBytes) == msg[..|msg| - pos] + first + second
  {
    var k := 2 * bs - lenBytes - pos - 1;
    AlignedSum(|msg| - pos, 2 * bs, bs);
    assert Aligned(2 * bs, bs);
    ZeroCountIs(|msg|, bs, lenBytes, k);
    first := msg[|msg| - pos..] + [0x80] + Zeros(bs - pos - 1);
    second := Zeros(bs - lenBytes) + BigEndian(8 * |msg|, lenBytes);
    assert Zeros(k) == Zeros(bs - pos - 1) + Zeros(bs - lenBytes);
  }

  // ---------------------------------------------------------------- the providers' final

  /** `memset(&m[from], 0, to - from)`. */
  method Fill(m: array<Byte>, from: nat, to: nat)
    requires from <= to <= m.Length
    modifies m
    ensures m[..from] == old(m[..from]) && m[from..to] == Zeros(to - from) && m[to..] == old(m[to..])
  {
    forall i | from <= i < to {
      m[i] := 0;
    }
  }

  /** The 64-bit length, byte-swapped and copied to the end of the block by a little-endian host. */
  method PutLength(m: array<Byte>, bs: nat, total: uint64)
    requires 8 <= bs <= m.Length
    modifies m
    ensures m[..bs - 8] == old(m[..bs - 8]) && m[bs - 8..bs] == BigEndian(total, 8)
  {
    var bytes := BigEndian(total, 8);
    forall i | 0 <= i < 8 {
      m[bs - 8 + i] := bytes[i];
    }
  }

  /**
   * `final`: the result is the compression function iterated over the message padded as the standard
   * says, whether one more block is needed for the padding or two.
   */
  method Final<S(!new)>(h: Absorber<S>, lenBytes: nat, ghost f: (S, Bytes) -> S) returns (hash: S)
    requires h.Valid() && !h.lazy && IgnoresCounter(h.step, f)
    requires 8 <= lenBytes < h.bs
    modifies h, h.m
    ensures hash == Iterate(f, h.iv, Padded(old(h.absorbed), h.bs, lenBytes), h.bs)
  {
    hide Chain, Iterate, Padded, Aligned, BigEndian, IgnoresCounter;
    ghost var msg := h.absorbed;
    ghost var done := msg[..|msg| - h.pos];
    ghost var rest := msg[|msg| - h.pos..];
    ghost var pos := h.pos;
    var bs := h.bs;
    ChainIgnoring(h.step, f, h.iv, done, bs, 0);
    h.total := h.total + h.pos * 8;
    h.m[h.pos] := 0x80;
    h.pos := h.pos + 1;
    assert h.m[..h.pos] == rest + [0x80];
    if h.pos > bs - lenBytes {
      Fill(h.m, h.pos, bs);
      var first, second := PaddedTwoBlocks(msg, pos, bs, lenBytes);
      OneBlock(h, f, first);
      OneMore(f, h.iv, done, first, bs);
      done := done + first;
      h.pos := 0;
      LastBlock(h, f, lenBytes, [], second);
      OneMore(f, h.iv, done, second, bs);
    } else {
      var block := PaddedOneBlock(msg, pos, bs, lenBytes);
      LastBlock(h, f, lenBytes, rest + [0x80], block);
      OneMore(f, h.iv, done, block, bs);
    }
    hash := h.state;
  }

  method OneBlock<S(!new)>(h: Absorber<S>, ghost f: (S, Bytes) -> S, ghost block: Bytes)
    requires IgnoresCounter(h.step, f)
    requires 0 < h.bs == |block| <= h.m.Length && h.m[..h.bs] == block
    modifies h`state
    ensures h.state == f(old(h.state), block)
  {
    OneTimes(h.bs);
    assert h.m[..h.bs][..h.bs] == block;
    h.Transform(h.m[..h.bs], 1);
    assert Aligned(0, h.bs) && block[..0] == [];
    ChainOneBlock(h.step, old(h.state), block, 0, h.bs, h.total / 8);
    assert block[0..h.bs] == block;
  }

  /** Zeros and the length after what is in the buffer, and the last transformation. */
  method LastBlock<S(!new)>(h: Absorber<S>, ghost f: (S, Bytes) -> S, lenBytes: nat, ghost kept: Bytes,
      ghost block: Bytes)
    requires IgnoresCounter(h.step, f)
    requires 8 <= lenBytes < h.bs <= h.m.Length && h.pos == |kept| <= h.bs - lenBytes && h.m[..h.pos] == kept
    requires |block| == h.bs && block == kept + Zeros(h.bs - lenBytes - h.pos) + BigEndian(h.total, lenBytes)
    modifies h`state, h.m
    ensures h.state == f(old(h.state), block)
  {
    hide *;
    ZerosAndLength(h.m, h.pos, h.bs, h.total, kept);
    LengthField(h.total, lenBytes - 8);
    LastBlockIs(kept, h.bs, h.total, lenBytes);
    OneBlock(h, f, block);
  }

  /** What the buffer holds when it has been filled up. */
  method ZerosAndLength(m: array<Byte>, pos: nat, bs: nat, total: uint64, ghost kept: Bytes)
    requires 8 < bs <= m.Length && pos == |kept| <= bs - 8 && m[..pos] == kept
    modifies m
    ensures m[..bs] == (kept + Zeros(bs - pos))[..bs - 8] + BigEndian(total, 8)
  {
    hide *;
    Fill(m, pos, bs);
    assert m[..bs] == kept + Zeros(bs - pos);
    ghost var filled := m[..bs];
    PutLength(m, bs, total);
    assert m[..bs] == m[..bs - 8] + m[bs - 8..bs];
    assert m[..bs - 8] == filled[..bs - 8];
  }

  lemma LastBlockIs(kept: Bytes, bs: nat, total: uint64, lenBytes: nat)
    requires 8 <= lenBytes < bs && |kept| <= bs - lenBytes
    requires BigEndian(total, lenBytes) == Zeros(lenBytes - 8) + BigEndian(total, 8)
    ensures (kept + Zeros(bs - |kept|))[..bs - 8] + BigEndian(total, 8)
         == kept + Zeros(bs - lenBytes - |kept|) + BigEndian(total, lenBytes)
  {
    hide BigEndian;
    var z := bs - lenBytes - |kept|;
    assert (kept + Zeros(bs - |kept|))[..bs - 8] == kept + Zeros(z) + Zeros(lenBytes - 8);
  }

  /** `hasher::digest`: works on a copy, so the hasher itself is not changed in any way. */
  method Digest<S(!new)>(h: Absorber<S>, lenBytes: nat, ghost f: (S, Bytes) -> S) returns (hash: S)
    requires h.Valid() && !h.lazy && IgnoresCounter(h.step, f)
    requires 8 <= lenBytes < h.bs
    ensures hash == Iterate(f, h.iv, Padded(h.absorbed, h.bs, lenBytes), h.bs)
  {
    var copy := new Absorber<S>.Copy(h);
    hash := Final(copy, lenBytes, f);
  }
}
