/** The SHAKE and cSHAKE provider, over an abstract permutation. */
module Shake {
  import opened Bytes
  import opened Absorb
  import opened MerkleDamgard
  import opened Xof

  // ---------------------------------------------------------------- the sponge of FIPS 202

  function Or80(b: Byte): Byte {
    if b < 0x80 then b + 0x80 else b
  }

  /** The suffix byte carries the domain bits and the first bit of the padding, 0x80 the last one. */
  ghost function SpongePadded(msg: Bytes, r: nat, suffix: Byte): Bytes
    requires 0 < r
  {
    var body := msg + [suffix] + Zeros(ZeroCount(|msg|, r, 0));
    body[|body| - 1 := Or80(body[|body| - 1])]
  }

  /** The last block: what the buffer holds, the suffix, zeros, and the final bit. */
  lemma SpongePaddedIs(msg: Bytes, pos: nat, r: nat, suffix: Byte) returns (block: Bytes)
    requires Buffered(|msg|, pos, r, false)
    ensures |block| == r
    ensures var b := msg[|msg| - pos..] + [suffix] + Zeros(r - pos - 1); block == b[r - 1 := Or80(b[r - 1])]
    ensures SpongePadded(msg, r, suffix) == msg[..|msg| - pos] + block
  {
    SpongeZeros(|msg|, pos, r);
    var zeros := Zeros(r - pos - 1);
    hide SpongePadded, ZeroCount, Aligned, Or80;
    var b := msg[|msg| - pos..] + [suffix] + zeros;
    block := b[r - 1 := Or80(b[r - 1])];
    SpongePaddedFrom(msg, r, suffix, zeros);
    LastOfTail(msg, pos, suffix, zeros);
    LastByteSet(msg[..|msg| - pos], b);
  }

  /**
   * pad10*1 and the domain bits, byte by byte: the message, the suffix, zeros up to the end of the block,
   * and the highest bit of the last byte, which may be the one of the suffix.
   */
  lemma {:induction false} SpongePaddedBytes(msg: Bytes, r: nat, suffix: Byte)
    requires 0 < r
    ensures var s, n := SpongePadded(msg, r, suffix), |msg|;
            && Aligned(|s|, r) && n < |s| <= n + r && s[..n] == msg
            && (n + 1 < |s| ==> s[n] == suffix && s[|s| - 1] == 0x80)
            && (n + 1 == |s| ==> s[n] == if suffix < 0x80 then suffix + 0x80 else suffix)
            && forall i :: n < i < |s| - 1 ==> s[i] == 0
  {
    ZeroCountFills(|msg|, r, 0);
    hide ZeroCount, Aligned;
  }

  lemma SpongePaddedFrom(msg: Bytes, r: nat, suffix: Byte, zeros: Bytes)
    requires 0 < r && zeros == Zeros(ZeroCount(|msg|, r, 0))
    ensures var body := msg + [suffix] + zeros;
            SpongePadded(msg, r, suffix) == body[|body| - 1 := Or80(body[|body| - 1])]
  {
  }

  lemma SpongeZeros(n: nat, pos: nat, r: nat)
    requires Buffered(n, pos, r, false)
    ensures ZeroCount(n, r, 0) == r - pos - 1
  {
    AlignedSum(n - pos, r, r);
    assert Aligned(r, r);
    ZeroCountIs(n, r, 0, r - pos - 1);
  }

  lemma LastOfTail(msg: Bytes, pos: nat, suffix: Byte, zeros: Bytes)
    requires pos <= |msg|
    ensures msg + [suffix] + zeros == msg[..|msg| - pos] + (msg[|msg| - pos..] + [suffix] + zeros)
  {
  }

  lemma LastByteSet(a: Bytes, b: Bytes)
    requires b != []
    ensures (a + b)[|a + b| - 1 := Or80((a + b)[|a + b| - 1])] == a + b[|b| - 1 := Or80(b[|b| - 1])]
  {
  }

  /** Absorbing: each block is added to the state, which is then permuted. */
  ghost function SpongeState<S>(xorIn: (S, Bytes) -> S, perm: S -> S, s: S, data: Bytes, r: nat): S
    requires 0 < r
    decreases |data|
  {
    if |data| < r then s else SpongeState(xorIn, perm, perm(xorIn(s, data[..r])), data[r..], r)
  }

  /** One more block: it is added to the state, and the state is permuted. */
  lemma {:induction false} SpongeMore<S>(xorIn: (S, Bytes) -> S, perm: S -> S, s: S, data: Bytes, block: Bytes, r: nat)
    requires 0 < r && Aligned(|data|, r) && |block| == r
    ensures SpongeState(xorIn, perm, s, [], r) == s
    ensures SpongeState(xorIn, perm, s, data + block, r) == perm(xorIn(SpongeState(xorIn, perm, s, data, r), block))
    decreases |data|
  {
    if data == [] {
      assert data + block == block && block[..r] == block && block[r..] == [];
    } else {
      assert (data + block)[..r] == data[..r] && (data + block)[r..] == data[r..] + block;
      SpongeMore(xorIn, perm, perm(xorIn(s, data[..r])), data[r..], block, r);
    }
  }

  ghost predicate AbsorbsBlocks<S(!new)>(step: (S, Bytes, nat) -> S, xorIn: (S, Bytes) -> S, perm: S -> S) {
    forall s: S, b: Bytes, n: nat :: step(s, b, n) == perm(xorIn(s, b))
  }

  lemma {:induction false} ChainIsSponge<S(!new)>(step: (S, Bytes, nat) -> S, xorIn: (S, Bytes) -> S,
      perm: S -> S, s: S, data: Bytes, r: nat, done: nat)
    requires 0 < r && AbsorbsBlocks(step, xorIn, perm)
    ensures Chain(step, s, data, r, done) == SpongeState(xorIn, perm, s, data, r)
    decreases |data|
  {
    if |data| >= r {
      ChainIsSponge(step, xorIn, perm, step(s, data[..r], done + r), data[r..], r, done + r);
    }
  }

  /** SPONGE of section 4 of FIPS 202: the state after the padded message, and n bytes of output. */
  ghost function Sponge<S(!new)>(xorIn: (S, Bytes) -> S, perm: S -> S, bytes: S -> Bytes, zero: S, r: nat,
      suffix: Byte, msg: Bytes, n: nat): Bytes
    requires Produces(bytes, r)
  {
    Output(bytes, perm, r, SpongeState(xorIn, perm, zero, SpongePadded(msg, r, suffix), r), n)
  }

  // ---------------------------------------------------------------- the provider

  class ShakeProvider<S(!new)> {
    const h: Absorber<S>
    const xorIn: (S, Bytes) -> S
    const perm: S -> S
    const bytes: S -> Bytes
    const suffix: Byte
    var squeezing: bool
    ghost var seed: S
    ghost var offset: nat

    ghost predicate Valid()
      reads this, h, h.m
    {
      && !h.lazy && 0 < h.bs <= h.m.Length && Produces(bytes, h.bs) && AbsorbsBlocks(h.step, xorIn, perm)
      && if squeezing then h.pos <= h.bs && (h.state, h.pos) == Seek(perm, h.bs, seed, 0, offset)
         else h.Valid() && offset == 0
    }

    ghost function Position(): Reader
      reads this, h
    {
      if squeezing then Squeezing(h.pos) else Absorbing(h.pos)
    }

    constructor (h: Absorber<S>, xorIn: (S, Bytes) -> S, perm: S -> S, bytes: S -> Bytes, suffix: Byte)
      requires h.Valid() && !h.lazy && Produces(bytes, h.bs) && AbsorbsBlocks(h.step, xorIn, perm)
      ensures Valid() && !squeezing
      ensures this.h == h && this.xorIn == xorIn && this.perm == perm && this.bytes == bytes && this.suffix == suffix
    {
      this.h, this.xorIn, this.perm, this.bytes, this.suffix := h, xorIn, perm, bytes, suffix;
      squeezing, seed, offset := false, h.state, 0;
    }

    /** The suffix, zeros and the final bit complete the block in the buffer. */
    method Pad() returns (ghost block: Bytes)
      requires Valid() && !squeezing
      modifies h`pos, h.m
      ensures h.pos == old(h.pos) + 1 <= h.bs == |block| && h.m[..h.bs] == block
      ensures old(h.pos) <= |h.absorbed|
      ensures SpongePadded(h.absorbed, h.bs, suffix) == h.absorbed[..|h.absorbed| - old(h.pos)] + block
    {
      hide Chain, Aligned, SpongePadded, AbsorbsBlocks, Produces;
      ghost var msg, pos := h.absorbed, h.pos;
      block := SpongePaddedIs(msg, pos, h.bs, suffix);
      h.m[h.pos] := suffix;
      h.pos := h.pos + 1;
      assert h.m[..h.pos] == msg[|msg| - pos..] + [suffix];
      if h.bs != h.pos {
        Fill(h.m, h.pos, h.bs);
      }
      assert h.m[..h.bs] == msg[|msg| - pos..] + [suffix] + Zeros(h.bs - pos - 1);
      h.m[h.bs - 1] := Or80(h.m[h.bs - 1]);
      assert h.m[..h.bs] == block;
    }

    /** The first call of `squeeze`: the padding, and the last block. */
    method Finish()
      requires Valid() && !squeezing
      modifies this, h, h.m
      ensures squeezing && offset == 0 && h.pos == old(h.pos) + 1 <= h.bs
      ensures h.state == seed == SpongeState(xorIn, perm, h.iv, SpongePadded(old(h.absorbed), h.bs, suffix), h.bs)
    {
      hide Chain, Aligned, SpongePadded, SpongeState, AbsorbsBlocks;
      ghost var done := h.absorbed[..|h.absorbed| - h.pos];
      ghost var block := Pad();
      OneTimes(h.bs);
      assert block[..h.bs] == block;
      h.Transform(h.m[..h.bs], 1);
      ChainSplit(h.step, h.iv, done, block, h.bs, 0);
      ChainIsSponge(h.step, xorIn, perm, h.iv, done + block, h.bs, 0);
      squeezing, seed, offset := true, h.state, 0;
    }

    /** The loop of `squeeze`, entered with `processed` bytes already output from the position t, p. */
    method Blocks(hs: nat, already: Bytes, ghost t: S, ghost p: nat) returns (hash: Bytes)
      requires !h.lazy && 0 < h.bs && Produces(bytes, h.bs) && p <= h.bs
      requires |already| <= hs && already == Stream(bytes, perm, h.bs, t, p, |already|)
      requires |already| > 0 ==>
                 (h.state, h.pos) == Seek(perm, h.bs, t, p, |already|) && (|already| < hs ==> h.pos == h.bs)
      requires already == [] && hs > 0 ==> (p == 0 && h.state == t) || (p == h.bs && h.state == perm(t))
      modifies h`state, h`pos
      ensures hash == Stream(bytes, perm, h.bs, t, p, hs)
      ensures hs > 0 ==> (h.state, h.pos) == Seek(perm, h.bs, t, p, hs)
      ensures hs == 0 ==> h.state == old(h.state) && h.pos == old(h.pos)
    {
      hide Stream, Seek, Produces;
      var r := h.bs;
      hash := already;
      var processed := |already|;
      while processed < hs
        invariant |hash| == processed <= hs
        invariant hash == Stream(bytes, perm, r, t, p, processed)
        invariant processed > 0 ==>
                    (h.state, h.pos) == Seek(perm, r, t, p, processed) && (processed < hs ==> h.pos == r)
        invariant processed == 0 && hs > 0 ==> (p == 0 && h.state == t) || (p == r && h.state == perm(t))
        invariant hs == 0 ==> h.state == old(h.state) && h.pos == old(h.pos)
      {
        ghost var (t', p') := Seek(perm, r, t, p, processed);
        AtStart(t, p);
        if processed > 0 {
          h.state := perm(h.state);
        }
        h.pos := if hs - processed < r then hs - processed else r;
        EnterBlock(bytes, perm, r, t', p', h.pos);
        StreamSplit(bytes, perm, r, t, p, processed, h.pos);
        Enough(h.state);
        hash := hash + bytes(h.state)[..h.pos];
        processed := processed + h.pos;
      }
    }

    lemma AtStart(t: S, p: nat)
      requires 0 < h.bs && p <= h.bs
      ensures Seek(perm, h.bs, t, p, 0) == (t, p)
    {
    }

    lemma Enough(t: S)
      requires Produces(bytes, h.bs)
      ensures h.bs <= |bytes(t)|
    {
    }

    /**
     * `squeeze`: outputs the next hs bytes of the stream that starts with the padded message's state.
     * Only a call for no bytes can move the stream on by more than it outputs.
     */
    method Squeeze(hs: nat) returns (hash: Bytes)
      requires Valid()
      modifies this, h, h.m
      ensures Valid() && squeezing
      ensures old(squeezing) ==> seed == old(seed)
      ensures !old(squeezing) ==>
                seed == SpongeState(xorIn, perm, h.iv, SpongePadded(old(h.absorbed), h.bs, suffix), h.bs)
      ensures |hash| == hs && hash == Output(bytes, perm, h.bs, seed, old(offset) + hs)[old(offset)..]
      ensures offset == old(offset) + hs + Skipped(old(Position()), h.bs, hs)
      ensures Position() == AfterSqueeze(old(Position()), h.bs, hs)
    {
      hide Stream, Seek, SpongeState, SpongePadded, Output, AbsorbsBlocks, Produces, h.Valid;
      var r := h.bs;
      ghost var t, p := h.state, h.pos;
      ghost var skipped := Skipped(Position(), r, hs);
      hash := [];
      if !squeezing {
        Finish();
        t, p := seed, 0;
        AtStart(t, p);
        WithinBlock(bytes, perm, r, seed, 0, h.pos);
      } else if h.pos < r {
        var toCopy := if hs < r - h.pos then hs else r - h.pos;
        WithinBlock(bytes, perm, r, t, p, toCopy);
        Enough(h.state);
        hash := bytes(h.state)[h.pos..h.pos + toCopy];
        h.pos := h.pos + toCopy;
      } else {
        h.state := perm(h.state);
        EnterBlock(bytes, perm, r, t, p, r);
      }
      NothingRead(t, p);
      hash := Blocks(hs, hash, t, p);
      Moved(t, p, hs, skipped);
      offset := offset + hs + skipped;
    }

    lemma NothingRead(t: S, p: nat)
      requires Produces(bytes, h.bs) && p <= h.bs
      ensures Stream(bytes, perm, h.bs, t, p, 0) == []
    {
    }

    lemma Moved(t: S, p: nat, hs: nat, skipped: nat)
      requires Produces(bytes, h.bs) && p <= h.bs && (t, p) == Seek(perm, h.bs, seed, 0, offset)
      ensures Stream(bytes, perm, h.bs, t, p, hs) == Output(bytes, perm, h.bs, seed, offset + hs)[offset..]
      ensures Seek(perm, h.bs, t, p, hs + skipped) == Seek(perm, h.bs, seed, 0, offset + hs + skipped)
      ensures Seek(perm, h.bs, t, p, hs + skipped).1 == Seek(i => i + 1, h.bs, 0, p, hs + skipped).1
    {
      hide Stream, Seek, Output;
      StreamSplit(bytes, perm, h.bs, seed, 0, offset, hs);
      StreamSplit(bytes, perm, h.bs, seed, 0, offset, hs + skipped);
      StreamIsOutput(bytes, perm, h.bs, seed, offset + hs);
      SeekPosition(perm, i => i + 1, h.bs, t, 0, p, hs + skipped);
    }
  }

  /** SHA-3's `final`: the same padding with the suffix 0x06, and as much of one block as the digest is long. */
  method Sha3Final<S(!new)>(x: ShakeProvider<S>, digest: nat) returns (hash: Bytes)
    requires x.Valid() && !x.squeezing && x.suffix == 0x06 && digest <= x.h.bs
    modifies x, x.h, x.h.m
    ensures hash == Sponge(x.xorIn, x.perm, x.bytes, x.h.iv, x.h.bs, 0x06, old(x.h.absorbed), digest)
  {
    hide SpongePadded, SpongeState;
    x.Finish();
    x.Enough(x.h.state);
    hash := x.bytes(x.h.state)[..digest];
  }

  /**
   * A run of squeezes: together they output what one squeeze of the total length would, the output
   * of the sponge, unless a call for no bytes disturbs the position; and the position at the end is
   * the number of bytes output exactly when none does (NothingSkipped).
   */
  method SqueezeRun<S(!new)>(x: ShakeProvider<S>, lens: seq<nat>) returns (out: Bytes)
    requires x.Valid() && lens != []
    modifies x, x.h, x.h.m
    ensures x.Valid() && x.squeezing
    ensures x.seed == if old(x.squeezing) then old(x.seed)
                      else
                        var padded := SpongePadded(old(x.h.absorbed), x.h.bs, x.suffix);
                        SpongeState(x.xorIn, x.perm, x.h.iv, padded, x.h.bs)
    ensures x.offset == old(x.offset) + Advance(old(x.Position()), x.h.bs, lens)
    ensures Undisturbed(old(x.Position()), x.h.bs, lens) ==>
              out == Output(x.bytes, x.perm, x.h.bs, x.seed, old(x.offset) + Sum(lens))[old(x.offset)..]
    decreases |lens|
  {
    hide Output, Stream, Seek, SpongeState, SpongePadded;
    var first := x.Squeeze(lens[0]);
    if |lens| == 1 {
      assert lens[1..] == [];
      return first;
    }
    var rest := SqueezeRun(x, lens[1..]);
    out := first + rest;
    if Undisturbed(old(x.Position()), x.h.bs, lens) {
      Joined(x.bytes, x.perm, x.h.bs, x.seed, old(x.offset), lens[0], Sum(lens[1..]));
    }
  }

  lemma Joined<S(!new)>(bytes: S -> Bytes, perm: S -> S, r: nat, t: S, from: nat, a: nat, b: nat)
    requires Produces(bytes, r)
    ensures Output(bytes, perm, r, t, from + a)[from..] + Output(bytes, perm, r, t, from + a + b)[from + a..]
         == Output(bytes, perm, r, t, from + a + b)[from..]
  {
    hide Output, Stream, Seek;
    StreamIsOutput(bytes, perm, r, t, from + a);
    StreamIsOutput(bytes, perm, r, t, from + a + b);
    StreamSplit(bytes, perm, r, t, 0, from + a, b);
  }
}
