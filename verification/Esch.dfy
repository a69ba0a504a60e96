/** The Esch provider: a sponge with a lazy buffer, whose last block is told apart by a constant. */
module Esch {
  import opened Bytes
  import opened Absorb
  import opened MerkleDamgard
  import opened Shake
  import opened Xof

  const RATE: nat := 16

  // ---------------------------------------------------------------- absorbing

  /**
   * mid processes a block that is not the last one. last processes the last one, and is told whether
   * it was padded with 0x80 and zeros or was full; only an empty message has an empty last block.
   */
  ghost function Absorbed<S>(mid: (S, Bytes) -> S, last: (S, Bytes, bool) -> S, h: S, d: Bytes): S
    decreases |d|
  {
    if |d| < RATE then last(h, d + [0x80] + Zeros(RATE - |d| - 1), true)
    else if |d| == RATE then last(h, d, false)
    else Absorbed(mid, last, mid(h, d[..RATE]), d[RATE..])
  }

  /** The last block: filled up when there are fewer than 16 bytes of it, and as it is when there are 16. */
  lemma AbsorbedLast<S>(mid: (S, Bytes) -> S, last: (S, Bytes, bool) -> S, h: S, d: Bytes)
    ensures |d| < 16 ==> Absorbed(mid, last, h, d) == last(h, d + [0x80] + Zeros(15 - |d|), true)
    ensures |d| == 16 ==> Absorbed(mid, last, h, d) == last(h, d, false)
    ensures |d| > 16 ==> Absorbed(mid, last, h, d) == Absorbed(mid, last, mid(h, d[..16]), d[16..])
  {
  }

  lemma {:induction false} AbsorbedChain<S(!new)>(step: (S, Bytes, nat) -> S, mid: (S, Bytes) -> S,
      last: (S, Bytes, bool) -> S, h: S, a: Bytes, rest: Bytes, done: nat)
    requires IgnoresCounter(step, mid) && Aligned(|a|, RATE) && |rest| <= RATE && (a != [] ==> rest != [])
    ensures Absorbed(mid, last, h, a + rest) == Absorbed(mid, last, Chain(step, h, a, RATE, done), rest)
    decreases |a|
  {
    if a == [] {
      assert a + rest == rest;
    } else {
      assert (a + rest)[..RATE] == a[..RATE] && (a + rest)[RATE..] == a[RATE..] + rest;
      AbsorbedChain(step, mid, last, mid(h, a[..RATE]), a[RATE..], rest, done + RATE);
    }
  }

  // ---------------------------------------------------------------- the provider

  class EschProvider<S(!new)> {
    const h: Absorber<S>
    const mid: (S, Bytes) -> S
    const last: (S, Bytes, bool) -> S
    const sparkle: S -> S
    const bytes: S -> Bytes
    var squeezing: bool
    ghost var seed: S
    ghost var offset: nat

    /** Once squeezing, `total` says whether the state is still the one after the last block. */
    ghost function Here(): nat
      reads h
    {
      if h.total == 1 && h.pos == RATE then 0 else h.pos
    }

    ghost predicate Valid()
      reads this, h, h.m
    {
      && h.lazy && h.bs == RATE <= h.m.Length && Produces(bytes, RATE) && IgnoresCounter(h.step, mid)
      && if squeezing then h.pos <= RATE && h.total <= 1 && (h.state, Here()) == Seek(sparkle, RATE, seed, 0, offset)
         else h.Valid() && offset == 0
    }

    /** The first call, for no bytes, with part of a block in the buffer: its length becomes the position. */
    ghost function Skips(hs: nat): nat
      reads this, h
    {
      if !squeezing && hs == 0 && h.pos < RATE then h.pos else 0
    }

    constructor (h: Absorber<S>, mid: (S, Bytes) -> S, last: (S, Bytes, bool) -> S, sparkle: S -> S, bytes: S -> Bytes)
      requires h.Valid() && h.lazy && h.bs == RATE && Produces(bytes, RATE) && IgnoresCounter(h.step, mid)
      ensures Valid() && !squeezing && this.h == h
      ensures this.mid == mid && this.last == last && this.sparkle == sparkle && this.bytes == bytes
    {
      this.h, this.mid, this.last, this.sparkle, this.bytes := h, mid, last, sparkle, bytes;
      squeezing, seed, offset := false, h.state, 0;
    }

    /** The first call of `squeeze`: the last block. */
    method Finish()
      requires Valid() && !squeezing
      modifies this, h, h.m
      ensures squeezing && offset == 0 && h.total == 1 && h.pos == old(h.pos) <= RATE
      ensures h.state == seed == Absorbed(mid, last, h.iv, old(h.absorbed))
    {
      hide Chain, Aligned, Absorbed, IgnoresCounter;
      ghost var done, rest := h.absorbed[..|h.absorbed| - h.pos], h.absorbed[|h.absorbed| - h.pos..];
      assert done + rest == h.absorbed;
      AbsorbedChain(h.step, mid, last, h.iv, done, rest, 0);
      LastBlock(h.state, rest);
      h.total := 1;
      squeezing := true;
      var padded := h.pos < RATE;
      if padded {
        Fill(h.m, h.pos, RATE);
        h.m[h.pos] := 0x80;
        assert h.m[..RATE] == rest + [0x80] + Zeros(RATE - |rest| - 1);
      } else {
        assert h.m[..RATE] == rest;
      }
      h.state := last(h.state, h.m[..RATE], padded);
      seed, offset := h.state, 0;
    }

    lemma LastBlock(t: S, rest: Bytes)
      requires |rest| <= RATE
      ensures Absorbed(mid, last, t, rest) ==
              if |rest| < RATE then last(t, rest + [0x80] + Zeros(RATE - |rest| - 1), true) else last(t, rest, false)
    {
    }

    /** The loop of `squeeze`, entered with some bytes already output from the position t, p. */
    method Blocks(hs: nat, already: Bytes, ghost t: S, ghost p: nat) returns (hash: Bytes)
      requires Produces(bytes, RATE) && p <= RATE && h.total <= 1
      requires |already| <= hs && already == Stream(bytes, sparkle, RATE, t, p, |already|)
      requires |already| < hs ==>
                 if h.total == 1 then already == [] && h.state == t && p == 0
                 else Seek(sparkle, RATE, t, p, |already|) == (h.state, RATE)
      modifies h`state, h`pos, h`total
      ensures hash == Stream(bytes, sparkle, RATE, t, p, hs)
      ensures |already| < hs ==> h.total == 0 && (h.state, h.pos) == Seek(sparkle, RATE, t, p, hs)
      ensures |already| == hs ==> h.state == old(h.state) && h.pos == old(h.pos) && h.total == old(h.total)
    {
      hide Stream, Seek, Produces;
      hash := already;
      var processed := |already|;
      NothingRead(t, p);
      while processed < hs
        invariant |already| <= processed == |hash| <= hs && h.total <= 1
        invariant hash == Stream(bytes, sparkle, RATE, t, p, processed)
        invariant processed < hs ==>
                    if h.total == 1 then processed == 0 && h.state == t && p == 0
                    else Seek(sparkle, RATE, t, p, processed) == (h.state, RATE)
        invariant |already| < processed ==> h.total == 0 && (h.state, h.pos) == Seek(sparkle, RATE, t, p, processed)
        invariant |already| == processed ==> h.state == old(h.state) && h.pos == old(h.pos) && h.total == old(h.total)
      {
        ghost var (t', p') := Seek(sparkle, RATE, t, p, processed);
        if h.total == 0 {
          h.state := sparkle(h.state);
        }
        h.pos := if hs - processed < RATE then hs - processed else RATE;
        EnterBlock(bytes, sparkle, RATE, t', p', h.pos);
        StreamSplit(bytes, sparkle, RATE, t, p, processed, h.pos);
        Enough(h.state);
        hash := hash + bytes(h.state)[..h.pos];
        processed := processed + h.pos;
        h.total := 0;
      }
    }

    lemma NothingRead(t: S, p: nat)
      requires Produces(bytes, RATE) && p <= RATE
      ensures Stream(bytes, sparkle, RATE, t, p, 0) == [] && Seek(sparkle, RATE, t, p, 0) == (t, p)
    {
    }

    lemma Enough(t: S)
      requires Produces(bytes, RATE)
      ensures RATE <= |bytes(t)|
    {
    }

    /** `squeeze`: outputs the next hs bytes of the stream; only the call that Skips moves on by more. */
    method Squeeze(hs: nat) returns (hash: Bytes)
      requires Valid()
      modifies this, h, h.m
      ensures Valid() && squeezing
      ensures seed == if old(squeezing) then old(seed) else Absorbed(mid, last, h.iv, old(h.absorbed))
      ensures |hash| == hs && hash == Output(bytes, sparkle, RATE, seed, old(offset) + hs)[old(offset)..]
      ensures offset == old(offset) + hs + old(Skips(hs))
    {
      hide Stream, Seek, Absorbed, Output, IgnoresCounter, Produces, h.Valid;
      ghost var skipped := Skips(hs);
      hash := [];
      ghost var t, p := h.state, h.pos;
      if !squeezing {
        Finish();
        t, p := seed, 0;
        NothingRead(t, p);
      } else if h.pos < RATE {
        var toCopy := if hs < RATE - h.pos then hs else RATE - h.pos;
        WithinBlock(bytes, sparkle, RATE, t, p, toCopy);
        Enough(h.state);
        hash := bytes(h.state)[h.pos..h.pos + toCopy];
        h.pos := h.pos + toCopy;
        h.total := 0;
      } else {
        p := Here();
        NothingRead(t, p);
      }
      hash := Blocks(hs, hash, t, p);
      if skipped > 0 {
        WithinBlock(bytes, sparkle, RATE, t, 0, skipped);
      }
      Moved(t, p, hs, skipped);
      offset := offset + hs + skipped;
    }

    lemma Moved(t: S, p: nat, hs: nat, skipped: nat)
      requires Produces(bytes, RATE) && p <= RATE && (t, p) == Seek(sparkle, RATE, seed, 0, offset)
      ensures Stream(bytes, sparkle, RATE, t, p, hs) == Output(bytes, sparkle, RATE, seed, offset + hs)[offset..]
      ensures Seek(sparkle, RATE, t, p, hs + skipped) == Seek(sparkle, RATE, seed, 0, offset + hs + skipped)
    {
      hide Stream, Seek, Output;
      StreamSplit(bytes, sparkle, RATE, seed, 0, offset, hs);
      StreamSplit(bytes, sparkle, RATE, seed, 0, offset, hs + skipped);
      StreamIsOutput(bytes, sparkle, RATE, seed, offset + hs);
    }
  }

  /** A run of squeezes outputs what one squeeze of the total length would, unless its first call skips bytes. */
  method SqueezeRun<S(!new)>(x: EschProvider<S>, lens: seq<nat>) returns (out: Bytes)
    requires x.Valid() && lens != [] && x.Skips(lens[0]) == 0
    modifies x, x.h, x.h.m
    ensures x.Valid() && x.squeezing && x.offset == old(x.offset) + Sum(lens)
    ensures x.seed == if old(x.squeezing) then old(x.seed) else Absorbed(x.mid, x.last, x.h.iv, old(x.h.absorbed))
    ensures out == Output(x.bytes, x.sparkle, RATE, x.seed, old(x.offset) + Sum(lens))[old(x.offset)..]
    decreases |lens|
  {
    hide Output, Stream, Seek, Absorbed;
    var first := x.Squeeze(lens[0]);
    if |lens| == 1 {
      assert lens[1..] == [];
      return first;
    }
    var rest := SqueezeRun(x, lens[1..]);
    out := first + rest;
    Joined(x.bytes, x.sparkle, RATE, x.seed, old(x.offset), lens[0], Sum(lens[1..]));
  }

  /** After a first squeeze of no bytes, as many bytes of the stream are lost as there were in the buffer. */
  method EmptySqueezeFirst<S(!new)>(x: EschProvider<S>, n: nat) returns (out: Bytes)
    requires x.Valid() && !x.squeezing && x.h.pos < RATE
    modifies x, x.h, x.h.m
    ensures x.seed == Absorbed(x.mid, x.last, x.h.iv, old(x.h.absorbed))
    ensures Produces(x.bytes, RATE)
    ensures out == Output(x.bytes, x.sparkle, RATE, x.seed, old(x.h.pos) + n)[old(x.h.pos)..]
  {
    hide Output, Stream, Seek, Absorbed;
    var none := x.Squeeze(0);
    out := x.Squeeze(n);
  }
}
