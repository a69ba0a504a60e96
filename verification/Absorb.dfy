/** The buffering routine that every hash provider shares, over an abstract block transformation. */
module Absorb {
  import opened Bytes

  // ---------------------------------------------------------------- whole blocks

  /** n bytes are a whole number of blocks. */
  ghost predicate Aligned(n: nat, bs: nat)
    requires bs > 0
    decreases n
  {
    n == 0 || (bs <= n && Aligned(n - bs, bs))
  }

  lemma {:induction false} AlignedSum(a: nat, b: nat, bs: nat)
    requires bs > 0 && Aligned(a, bs)
    ensures Aligned(a + b, bs) <==> Aligned(b, bs)
    decreases a
  {
    if a == 0 {
    } else {
      AlignedSum(a - bs, b, bs);
      if Aligned(b, bs) {
        assert Aligned(a + b - bs, bs);
      }
    }
  }

  lemma {:induction false} AlignedTimes(k: nat, bs: nat)
    requires bs > 0
    ensures k * bs >= 0 && Aligned(k * bs, bs)
  {
    if k > 0 {
      AlignedTimes(k - 1, bs);
      assert k * bs == (k - 1) * bs + bs;
    }
  }

  /**
   * The state after all whole blocks of data. The transformation of a block is also told how many
   * bytes have been absorbed up to and including that block.
   */
  ghost function Chain<S>(f: (S, Bytes, nat) -> S, h: S, data: Bytes, bs: nat, done: nat): S
    requires bs > 0
    decreases |data|
  {
    if |data| < bs then h
    else Chain(f, f(h, data[..bs], done + bs), data[bs..], bs, done + bs)
  }

  lemma {:induction false} ChainSplit<S>(f: (S, Bytes, nat) -> S, h: S, a: Bytes, b: Bytes, bs: nat, done: nat)
    requires bs > 0 && Aligned(|a|, bs)
    ensures Chain(f, h, a + b, bs, done) == Chain(f, Chain(f, h, a, bs, done), b, bs, done + |a|)
    decreases |a|
  {
    if a == [] {
      assert a + b == b;
    } else {
      var h' := f(h, a[..bs], done + bs);
      assert (a + b)[..bs] == a[..bs] && (a + b)[bs..] == a[bs..] + b;
      ChainSplit(f, h', a[bs..], b, bs, done + bs);
    }
  }

  /** Going on from the first `done` bytes of a message. */
  lemma ChainExtend<S>(f: (S, Bytes, nat) -> S, iv: S, all: Bytes, done: nat, k: nat, bs: nat)
    requires bs > 0 && done + k <= |all| && Aligned(done, bs) && Aligned(k, bs)
    ensures Aligned(done + k, bs)
    ensures Chain(f, Chain(f, iv, all[..done], bs, 0), all[done..done + k], bs, done)
         == Chain(f, iv, all[..done + k], bs, 0)
  {
    AlignedSum(done, k, bs);
    assert all[..done + k] == all[..done] + all[done..done + k];
    ChainSplit(f, iv, all[..done], all[done..done + k], bs, 0);
  }

  lemma ChainOneBlock<S>(f: (S, Bytes, nat) -> S, h: S, src: Bytes, n: nat, bs: nat, done: nat)
    requires bs > 0 && n + bs <= |src| && Aligned(n, bs)
    ensures Chain(f, h, src[..n + bs], bs, done)
         == f(Chain(f, h, src[..n], bs, done), src[n..n + bs], done + n + bs)
  {
    var block := src[n..n + bs];
    assert src[..n + bs] == src[..n] + block;
    ChainSplit(f, h, src[..n], block, bs, done);
    assert block[..bs] == block && block[bs..] == [];
  }

  lemma {:induction false} TimesMonotone(a: nat, b: nat, bs: nat)
    requires a <= b
    ensures a * bs <= b * bs
  {
    assert (b - a) * bs >= 0;
    assert b * bs == a * bs + (b - a) * bs;
  }

  function Times(a: nat, b: nat): nat {
    TimesNatural(a, b);
    a * b
  }

  lemma TimesNatural(a: nat, b: nat)
    ensures a * b >= 0
  {
  }

  lemma NextTimes(a: nat, b: nat)
    ensures Times(0, b) == 0 && Times(a + 1, b) == Times(a, b) + b
  {
  }

  lemma OneTimes(b: nat)
    requires 0 < b
    ensures Times(1, b) == b && Aligned(b, b)
  {
  }

  /** How many blocks an update transforms in the caller's memory. */
  function WholeBlocks(len: nat, bs: nat, bschk: nat): nat
    requires 0 < bs && bschk <= len
  {
    (len + bs - bschk) / bs
  }

  /** As many blocks as leave what is to be kept. */
  lemma BlocksTaken(len: nat, bs: nat, lazy: bool)
    requires 0 < bs && len >= (if lazy then bs + 1 else bs)
    ensures var bytes := Times(WholeBlocks(len, bs, if lazy then bs + 1 else bs), bs);
            && Aligned(bytes, bs) && bytes <= len
            && if lazy then 0 < len - bytes <= bs else len - bytes < bs
  {
    var n := if lazy then len - 1 else len;
    var k := n / bs;
    AlignedTimes(k, bs);
    assert n == bs * k + n % bs;
    assert bs * k == k * bs;
    assert WholeBlocks(len, bs, if lazy then bs + 1 else bs) == k;
  }

  // ---------------------------------------------------------------- what stays in the buffer

  /**
   * Of n absorbed bytes the last pos are still in the buffer. An eager buffer keeps less than a
   * block; a lazy one keeps at least one byte, and up to a whole block, once there is any.
   */
  ghost predicate Buffered(n: nat, pos: nat, bs: nat, lazy: bool) {
    && 0 < bs && pos <= n && Aligned(n - pos, bs)
    && if lazy then pos <= bs && (pos == 0 ==> n == 0) else pos < bs
  }

  lemma BufferedUnique(n: nat, p: nat, q: nat, bs: nat, lazy: bool)
    requires Buffered(n, p, bs, lazy) && Buffered(n, q, bs, lazy)
    ensures p == q
  {
    if p < q {
      BufferedNotLess(n, p, q, bs, lazy);
    } else if q < p {
      BufferedNotLess(n, q, p, bs, lazy);
    }
  }

  lemma BufferedNotLess(n: nat, p: nat, q: nat, bs: nat, lazy: bool)
    requires Buffered(n, p, bs, lazy) && Buffered(n, q, bs, lazy)
    ensures !(p < q)
  {
    if p < q {
      AlignedSum(n - q, q - p, bs);
    }
  }

  // ---------------------------------------------------------------- the buffer

  /** Bit counts are 64 bits wide, so fewer than 2^61 bytes can be absorbed. */
  const LIMIT: nat := 0x2000_0000_0000_0000

  class Absorber<S> {
    const bs: nat
    const lazy: bool
    const step: (S, Bytes, nat) -> S
    const m: array<Byte>
    var state: S
    var pos: nat
    var total: uint64
    ghost const iv: S
    ghost var absorbed: Bytes

    ghost predicate Valid()
      reads this, m
    {
      && bs <= m.Length
      && Buffered(|absorbed|, pos, bs, lazy)
      && |absorbed| < LIMIT
      && state == Chain(step, iv, absorbed[..|absorbed| - pos], bs, 0)
      && m[..pos] == absorbed[|absorbed| - pos..]
      && total == 8 * (|absorbed| - pos)
    }

    /** `init`: an empty buffer. The memory of the buffer may be larger than a block. */
    constructor (bs: nat, memory: nat, lazy: bool, step: (S, Bytes, nat) -> S, iv: S)
      requires 0 < bs <= memory
      ensures Valid() && fresh(m)
      ensures this.bs == bs && this.lazy == lazy && this.step == step && this.iv == iv && absorbed == []
    {
      this.bs, this.lazy, this.step := bs, lazy, step;
      this.m := new Byte[memory](_ => 0);
      this.state, this.pos, this.total := iv, 0, 0;
      this.iv, this.absorbed := iv, [];
    }

    /** The copy of a provider, which shares nothing with the original. */
    constructor Copy(other: Absorber<S>)
      requires other.Valid()
      ensures Valid() && fresh(m)
      ensures bs == other.bs && lazy == other.lazy && step == other.step && iv == other.iv
      ensures absorbed == other.absorbed
    {
      bs, lazy, step := other.bs, other.lazy, other.step;
      m := new Byte[other.m.Length](i requires 0 <= i < other.m.Length reads other.m => other.m[i]);
      state, pos, total := other.state, other.pos, other.total;
      iv, absorbed := other.iv, other.absorbed;
      new;
      assert m[..] == other.m[..];
      assert m[..pos] == m[..][..pos] && other.m[..pos] == other.m[..][..pos];
    }

    /** The callback: the block transformation on num consecutive blocks of src. */
    method Transform(src: Bytes, num: nat)
      requires 0 < bs && Times(num, bs) <= |src|
      modifies this`state
      ensures state == Chain(step, old(state), src[..Times(num, bs)], bs, total / 8)
    {
      var blk := 0;
      assert src[..0] == [];
      while blk < num
        invariant 0 <= blk <= num
        invariant 0 <= blk * bs <= num * bs
        invariant state == Chain(step, old(state), src[..blk * bs], bs, total / 8)
      {
        TimesMonotone(blk + 1, num, bs);
        AlignedTimes(blk, bs);
        assert (blk + 1) * bs == blk * bs + bs;
        ChainOneBlock(step, old(state), src, blk * bs, bs, total / 8);
        state := step(state, src[blk * bs..blk * bs + bs], total / 8 + (blk + 1) * bs);
        blk := blk + 1;
      }
    }

    /** `memcpy(m + at, data + from, len)`. */
    method CopyIn(data: Bytes, from: nat, len: nat, at: nat)
      requires from + len <= |data| && at + len <= m.Length
      modifies m
      ensures m[..at] == old(m[..at])
      ensures m[at..at + len] == data[from..from + len]
      ensures m[at + len..] == old(m[at + len..])
    {
      forall i | 0 <= i < len {
        m[at + i] := data[from + i];
      }
    }

    /** What Valid says, for proofs in which it stays folded. */
    lemma Facts()
      requires Valid()
      ensures 0 < bs <= m.Length && |absorbed| < LIMIT && pos <= |absorbed|
      ensures Aligned(|absorbed| - pos, bs) && if lazy then pos <= bs && (pos == 0 ==> absorbed == []) else pos < bs
      ensures state == Chain(step, iv, absorbed[..|absorbed| - pos], bs, 0)
      ensures m[..pos] == absorbed[|absorbed| - pos..] && total == 8 * (|absorbed| - pos)
    {
    }

    /** Between the steps of an update: done bytes of `all` are transformed, pos are in the buffer. */
    ghost predicate Midway(all: Bytes, done: nat)
      reads this, m
    {
      && 0 < bs <= m.Length && pos <= bs
      && done + pos <= |all| < LIMIT && Aligned(done, bs)
      && state == Chain(step, iv, all[..done], bs, 0)
      && m[..pos] == all[done..done + pos]
      && total == 8 * done
    }

    /** What the buffer holds when k bytes of data have been copied behind what it held. */
    lemma Filled(data: Bytes, d: nat, k: nat, all: Bytes, done: nat)
      requires d + k <= |data| && pos + k <= m.Length && done + pos <= |all| && Ahead(data, d, all, done + pos)
      requires m[..pos] == all[done..done + pos] && m[pos..pos + k] == data[d..d + k]
      ensures m[..pos + k] == all[done..done + pos + k]
    {
      assert data[d..][..k] == data[d..d + k] && all[done + pos..][..k] == all[done + pos..done + pos + k];
      assert m[..pos + k] == m[..pos] + m[pos..pos + k];
      assert all[done..done + pos + k] == all[done..done + pos] + all[done + pos..done + pos + k];
    }

    /** The buffer is filled up from data and transformed. */
    method Flush(data: Bytes, ghost all: Bytes, ghost done: nat) returns (d: nat)
      requires Midway(all, done) && Ahead(data, 0, all, done + pos) && bs - pos <= |data|
      modifies this`state, this`pos, this`total, m
      ensures Midway(all, done + bs) && Ahead(data, d, all, done + bs)
      ensures pos == 0 && d == bs - old(pos)
    {
      hide Chain, Aligned, Times;
      CopyIn(data, 0, bs - pos, pos);
      Filled(data, 0, bs - pos, all, done);
      OneTimes(bs);
      assert m[..bs][..bs] == m[..bs];
      Transform(m[..bs], 1);
      ChainExtend(step, iv, all, done, bs, bs);
      d := bs - pos;
      total := total + bs * 8;
      pos := 0;
    }

    /** Whole blocks are transformed where they are. */
    method Bulk(data: Bytes, d: nat, ghost all: Bytes, ghost done: nat) returns (bytes: nat)
      requires Midway(all, done) && Ahead(data, d, all, done) && pos == 0
      requires (if lazy then bs + 1 else bs) <= |data| - d
      modifies this`state, this`total
      ensures Midway(all, done + bytes) && Ahead(data, d + bytes, all, done + bytes)
      ensures var kept := |data| - d - bytes; if lazy then 0 < kept <= bs else 0 <= kept < bs
    {
      hide Chain, Aligned, Times, WholeBlocks;
      var bschk := if lazy then bs + 1 else bs;
      var len := |data| - d;
      var blocks := WholeBlocks(len, bs, bschk);
      bytes := Times(blocks, bs);
      BlocksTaken(len, bs, lazy);
      Transform(data[d..], blocks);
      assert data[d..][..bytes] == all[done..done + bytes];
      ChainExtend(step, iv, all, done, bytes, bs);
      total := total + bytes * 8;
    }

    /** The rest is kept. */
    method Keep(data: Bytes, d: nat, ghost all: Bytes, ghost done: nat)
      requires Midway(all, done) && Ahead(data, d, all, done + pos)
      requires var kept := pos + |data| - d;
               if lazy then kept <= bs && (kept == 0 ==> all == []) else kept < bs
      modifies this`pos, this`absorbed, m
      ensures Valid() && absorbed == all
    {
      hide Chain, Aligned;
      CopyIn(data, d, |data| - d, pos);
      Filled(data, d, |data| - d, all, done);
      pos := pos + |data| - d;
      absorbed := all;
      Complete(all, done);
    }

    lemma Complete(all: Bytes, done: nat)
      requires Midway(all, done) && done + pos == |all| && absorbed == all
      requires if lazy then pos <= bs && (pos == 0 ==> all == []) else pos < bs
      ensures Valid()
    {
      hide Chain, Aligned;
      assert |absorbed| - pos == done;
      assert all[done..done + pos] == all[done..];
    }

    /**
     * `absorb_bytes`: however a message is cut into updates, the buffer, the state and the counter are
     * those of the whole message (see SplitInvariant).
     */
    method Update(data: Bytes)
      requires Valid() && |absorbed| + |data| < LIMIT
      modifies this`state, this`pos, this`total, this`absorbed, m
      ensures Valid()
      ensures absorbed == old(absorbed) + data
    {
      hide Chain, Aligned, Midway, Ahead, Valid, Buffered;
      var bschk := if lazy then bs + 1 else bs;
      var d := 0;
      ghost var all := absorbed + data;
      ghost var done := |absorbed| - pos;
      BeginUpdate(data);
      if pos > 0 && pos + |data| >= bschk {
        d := Flush(data, all, done);
        done := done + bs;
      }
      if |data| - d >= bschk {
        var bytes := Bulk(data, d, all, done);
        done, d := done + bytes, d + bytes;
      }
      Keep(data, d, all, done);
    }

    lemma BeginUpdate(data: Bytes)
      requires Valid() && |absorbed| + |data| < LIMIT
      ensures var all, done := absorbed + data, |absorbed| - pos;
              Midway(all, done) && Ahead(data, 0, all, done + pos)
      ensures 0 < bs && pos <= |absorbed| && if lazy then pos <= bs && (pos == 0 ==> absorbed == []) else pos < bs
    {
      var all, done := absorbed + data, |absorbed| - pos;
      assert absorbed[..done] == all[..done] && absorbed[done..] == all[done..done + pos];
    }
  }

  /** From position d on, data is the part of `all` from position `from` on. */
  ghost predicate Ahead(data: Bytes, d: nat, all: Bytes, from: nat) {
    d <= |data| && from + |data| - d == |all| && data[d..] == all[from..]
  }

  /** Two hashers that have absorbed the same message, in whatever pieces, agree in everything live. */
  lemma SplitInvariant<S>(a: Absorber<S>, b: Absorber<S>)
    requires a.Valid() && b.Valid() && a.absorbed == b.absorbed
    requires a.bs == b.bs && a.lazy == b.lazy && a.step == b.step && a.iv == b.iv
    ensures a.pos == b.pos && a.state == b.state && a.total == b.total && a.m[..a.pos] == b.m[..b.pos]
  {
    BufferedUnique(|a.absorbed|, a.pos, b.pos, a.bs, a.lazy);
  }

  // ---------------------------------------------------------------- the hasher's ways of absorbing

  /** From a pair of iterators: one byte at a time. */
  method AbsorbIterator<S>(h: Absorber<S>, data: Bytes)
    requires h.Valid() && |h.absorbed| + |data| < LIMIT
    modifies h`state, h`pos, h`total, h`absorbed, h.m
    ensures h.Valid() && h.absorbed == old(h.absorbed) + data
  {
    var begin := 0;
    while begin < |data|
      invariant begin <= |data|
      invariant h.Valid() && h.absorbed == old(h.absorbed) + data[..begin]
    {
      var byte := data[begin];
      begin := begin + 1;
      h.Update([byte]);
      assert data[..begin] == data[..begin - 1] + [byte];
    }
    assert data[..begin] == data;
  }

  const STREAM_BUFFER: nat := 10000

  /** From a stream: a buffer at a time, then what the last, incomplete read has delivered. */
  method AbsorbStream<S>(h: Absorber<S>, stream: Bytes)
    requires h.Valid() && |h.absorbed| + |stream| < LIMIT
    modifies h`state, h`pos, h`total, h`absorbed, h.m
    ensures h.Valid() && h.absorbed == old(h.absorbed) + stream
  {
    var at := 0;
    while |stream| - at >= STREAM_BUFFER
      invariant at <= |stream|
      invariant h.Valid() && h.absorbed == old(h.absorbed) + stream[..at]
    {
      var next := at + STREAM_BUFFER;
      h.Update(stream[at..next]);
      Pieces(old(h.absorbed), stream, at, next);
      at := next;
    }
    Pieces(old(h.absorbed), stream, at, |stream|);
    if |stream| > at {
      h.Update(stream[at..]);
    }
    assert stream[..|stream|] == stream;
  }

  lemma Pieces(before: Bytes, stream: Bytes, at: nat, next: nat)
    requires at <= next <= |stream|
    ensures before + stream[..at] + stream[at..next] == before + stream[..next]
  {
  }
}
