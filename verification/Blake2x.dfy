/** BLAKE2X: output blocks that are hashed from the finished hash of a message. */
module Blake2x {
  import opened Bytes
  import opened Absorb
  import opened CounterXof
  import opened Xof
  import Blake2

  /** `memcpy` of the first r bytes of the finished hash. */
  function First(b: Bytes, r: nat): (f: Bytes)
    ensures |f| == r && (r <= |b| ==> f == b[..r])
  {
    if r <= |b| then b[..r] else b + Zeros(r - |b|)
  }

  /**
   * Block number i: the finished hash, filled up with zeros, is the only block that is compressed, from
   * initial values that depend on the number.
   */
  function OutputState<S>(F: (S, Bytes, nat, bool) -> S, initX: nat -> S, bytes: S -> Bytes, root: S,
      i: nat, r: nat): S
  {
    F(initX(i), First(bytes(root), r) + Zeros(r), r, true)
  }

  /** It is a hash in its own right: the one of the finished hash, from these initial values. */
  lemma OutputIsHash<S>(F: (S, Bytes, nat, bool) -> S, initX: nat -> S, bytes: S -> Bytes, root: S, i: nat, r: nat)
    requires 0 < r
    ensures OutputState(F, initX, bytes, root, i, r) == Blake2.Hash(F, initX(i), [], First(bytes(root), r), 2 * r)
  {
    var d := First(bytes(root), r);
    assert [] + d == d;
    var c := Blake2.Calls(d, 2 * r, 0);
    assert c[1..] == [];
    assert Blake2.Fold(F, F(initX(i), c[0].block, c[0].counter, c[0].last), c[1..])
        == F(initX(i), c[0].block, c[0].counter, c[0].last);
  }

  /** The output blocks as bytes. */
  ghost function OutputBlocks<S>(F: (S, Bytes, nat, bool) -> S, initX: nat -> S, bytes: S -> Bytes, root: S,
      r: nat): int -> Bytes
    requires 0 < r
  {
    (i: int) => bytes(if i < 0 then root else Blake2.Hash(F, initX(i), [], First(bytes(root), r), 2 * r))
  }

  /**
   * BLAKE2X of an absorbed message: any run of squeezes gives the blocks hashed from the hash of key and
   * message, one after the other, unless the first one is for no bytes with less than r bytes in the buffer.
   */
  method SqueezeRun<S(!new)>(h: Absorber<S>, F: (S, Bytes, nat, bool) -> S, ghost k: Bytes, ghost msg: Bytes,
      initX: nat -> S, bytes: S -> Bytes, r: nat, lens: seq<nat>)
    returns (out: Bytes)
    requires h.Valid() && h.lazy && Blake2.Unflagged(h.step, F) && h.bs == 2 * r && Produces(bytes, r)
    requires |k| <= h.bs && h.absorbed == Blake2.KeyBlock(k, h.bs) + msg
    requires lens != [] && (lens[0] > 0 || r <= h.pos)
    modifies h, h.m
    ensures var blocks := OutputBlocks(F, initX, bytes, Blake2.Hash(F, h.iv, k, msg, h.bs), r);
            Produces(blocks, r) && out == Output(blocks, Successor(), r, 0, Sum(lens))
  {
    hide Blake2.Hash, Output;
    var left := h.pos;
    var root := Blake2.Final(h, F, k, msg);
    var block := (s: S, i: nat) => OutputState(F, initX, bytes, s, i, r);
    var p := new CounterProvider<S>(r, block, bytes, false, root, left);
    out := CounterXof.SqueezeRun(p, lens);
    var blocks := OutputBlocks(F, initX, bytes, root, r);
    forall i: int ensures p.BlockBytes()(i) == blocks(i) {
      if i >= 0 {
        OutputIsHash(F, initX, bytes, root, i, r);
        assert p.Block(i) == block(root, i) == OutputState(F, initX, bytes, root, i, r);
      }
      assert p.BlockBytes()(i) == bytes(p.Block(i));
    }
    AllLong(F, initX, bytes, root, r);
    OutputSame(p.BlockBytes(), blocks, Successor(), r, 0, Sum(lens));
  }

  lemma AllLong<S(!new)>(F: (S, Bytes, nat, bool) -> S, initX: nat -> S, bytes: S -> Bytes, root: S, r: nat)
    requires Produces(bytes, r)
    ensures Produces(OutputBlocks(F, initX, bytes, root, r), r)
  {
    forall i: int ensures r <= |OutputBlocks(F, initX, bytes, root, r)(i)| {
      var h := if i < 0 then root else Blake2.Hash(F, initX(i), [], First(bytes(root), r), 2 * r);
      assert r <= |bytes(h)|;
    }
  }
}
