/** BLAKE2: the lazy buffer, the byte counter and the final flag, over an abstract function F. */
module Blake2 {
  import opened Bytes
  import opened Absorb
  import opened MerkleDamgard

  // ---------------------------------------------------------------- section 3.3 of RFC 7693

  /** One call of the compression function: a block, the byte counter, the final-block flag. */
  datatype Call = Call(block: Bytes, counter: nat, last: bool)

  /** The calls for the data d, of which `done` earlier bytes have been compressed. */
  ghost function Calls(d: Bytes, bs: nat, done: nat): (c: seq<Call>)
    requires bs > 0
    ensures c != []
    decreases |d|
  {
    if |d| <= bs then [Call(d + Zeros(bs - |d|), done + |d|, true)]
    else [Call(d[..bs], done + bs, false)] + Calls(d[bs..], bs, done + bs)
  }

  ghost function Fold<S>(F: (S, Bytes, nat, bool) -> S, h: S, calls: seq<Call>): S {
    if calls == [] then h
    else Fold(F, F(h, calls[0].block, calls[0].counter, calls[0].last), calls[1..])
  }

  /** The key, padded with zeros to a block, comes before the message. */
  ghost function KeyBlock(k: Bytes, bs: nat): Bytes
    requires |k| <= bs
  {
    if k == [] then [] else k + Zeros(bs - |k|)
  }

  /** The hash of a message, keyed or not. */
  ghost function Hash<S>(F: (S, Bytes, nat, bool) -> S, h0: S, k: Bytes, msg: Bytes, bs: nat): S
    requires 0 < bs && |k| <= bs
  {
    Fold(F, h0, Calls(KeyBlock(k, bs) + msg, bs, 0))
  }

  lemma KeyBlockIs(k: Bytes, bs: nat)
    requires |k| <= bs
    ensures k == [] ==> KeyBlock(k, bs) == []
    ensures k != [] ==> |KeyBlock(k, bs)| == bs && KeyBlock(k, bs)[..|k|] == k
    ensures forall i :: |k| <= i < |KeyBlock(k, bs)| ==> KeyBlock(k, bs)[i] == 0
  {
  }

  /** One more call, with its block, its counter and its flag. */
  lemma {:induction false} FoldMore<S>(F: (S, Bytes, nat, bool) -> S, h: S, calls: seq<Call>, c: Call)
    ensures Fold(F, h, []) == h
    ensures Fold(F, h, calls + [c]) == F(Fold(F, h, calls), c.block, c.counter, c.last)
    decreases |calls|
  {
    if calls == [] {
      assert [c][1..] == [];
    } else {
      assert (calls + [c])[1..] == calls[1..] + [c];
      FoldMore(F, F(h, calls[0].block, calls[0].counter, calls[0].last), calls[1..], c);
    }
  }

  /** A message that fits a block, without a key, is one call, with its length and the flag. */
  lemma HashOfBlock<S>(F: (S, Bytes, nat, bool) -> S, h0: S, msg: Bytes, bs: nat)
    requires 0 < bs && |msg| <= bs
    ensures Hash(F, h0, [], msg, bs) == F(h0, msg + Zeros(bs - |msg|), |msg|, true)
  {
    assert [] + msg == msg;
    var c := Call(msg + Zeros(bs - |msg|), |msg|, true);
    assert Calls(msg, bs, 0) == [] + [c];
    FoldMore(F, h0, [], c);
  }

  /**
   * Call i compresses block i. All but the last have the counter (i + 1) * bs and no flag; the last
   * one, which is never empty unless there is no data at all, has the flag and the total count.
   */
  lemma {:induction false} CallsExplicit(d: Bytes, bs: nat, done: nat, i: nat)
    requires 0 < bs && i < |Calls(d, bs, done)|
    ensures var c := Calls(d, bs, done);
            var from, to := Times(i, bs), Times(i + 1, bs);
            && to == from + bs && (i > 0 || d != [] ==> from < |d|)
            && if i < |c| - 1 then to < |d| && c[i] == Call(d[from..to], done + to, false)
               else from <= |d| <= to && c[i] == Call(d[from..] + Zeros(to - |d|), done + |d|, true)
    decreases |d|
  {
    hide Times;
    NextTimes(i, bs);
    if |d| <= bs {
      assert i == 0 && d[0..] == d;
    } else if i == 0 {
      assert Calls(d[bs..], bs, done + bs) != [];
    } else {
      NextTimes(i - 1, bs);
      CallsExplicit(d[bs..], bs, done + bs, i - 1);
      Later(d, bs, Times(i - 1, bs));
    }
  }

  // ---------------------------------------------------------------- the provider

  ghost predicate Unflagged<S(!new)>(step: (S, Bytes, nat) -> S, F: (S, Bytes, nat, bool) -> S) {
    forall h: S, b: Bytes, n: nat :: step(h, b, n) == F(h, b, n, false)
  }

  lemma FirstCall(a: Bytes, rest: Bytes, bs: nat, done: nat)
    requires 0 < bs <= |a| && rest != []
    ensures var c := Calls(a + rest, bs, done);
            c[0] == Call(a[..bs], done + bs, false) && c[1..] == Calls(a[bs..] + rest, bs, done + bs)
  {
    var d := a + rest;
    assert d[..bs] == a[..bs] && d[bs..] == a[bs..] + rest;
  }

  /** What the buffer holds back is compressed by the last call, everything before it by the others. */
  lemma {:induction false} FoldChain<S(!new)>(F: (S, Bytes, nat, bool) -> S, step: (S, Bytes, nat) -> S, h: S,
      a: Bytes, rest: Bytes, bs: nat, done: nat)
    requires 0 < bs && Unflagged(step, F) && Aligned(|a|, bs) && |rest| <= bs && (a != [] ==> rest != [])
    ensures Fold(F, h, Calls(a + rest, bs, done))
         == F(Chain(step, h, a, bs, done), rest + Zeros(bs - |rest|), done + |a| + |rest|, true)
    decreases |a|
  {
    if a == [] {
      assert a + rest == rest;
      var c := Calls(rest, bs, done);
      assert c[1..] == [];
    } else {
      FirstCall(a, rest, bs, done);
      FoldChain(F, step, step(h, a[..bs], done + bs), a[bs..], rest, bs, done + bs);
    }
  }

  /** `init` with a key: the padded key is absorbed like any data, and stays in the buffer. */
  method Init<S(!new)>(bs: nat, k: Bytes, h0: S, step: (S, Bytes, nat) -> S) returns (h: Absorber<S>)
    requires 0 < bs < LIMIT && |k| <= bs
    ensures fresh(h) && fresh(h.m) && h.Valid()
    ensures h.lazy && h.bs == bs && h.step == step && h.iv == h0
    ensures h.absorbed == KeyBlock(k, bs)
    ensures k != [] ==> h.pos == bs && h.state == h0
  {
    h := new Absorber<S>(bs, bs, true, step, h0);
    if k == [] {
      return;
    }
    var key := k + Zeros(bs - |k|);
    h.Update(key);
    assert [] + key == key;
    assert Aligned(0, bs);
    BufferedUnique(bs, h.pos, bs, bs, true);
    assert h.absorbed[..0] == [];
  }

  /**
   * `final` of the fixed-length hash: whatever the updates were, the calls of the compression
   * function were those of the standard for the key block and the message.
   */
  method Final<S(!new)>(h: Absorber<S>, F: (S, Bytes, nat, bool) -> S, ghost k: Bytes, ghost msg: Bytes)
    returns (hash: S)
    requires h.Valid() && h.lazy && Unflagged(h.step, F)
    requires |k| <= h.bs && h.absorbed == KeyBlock(k, h.bs) + msg
    modifies h, h.m
    ensures hash == Hash(F, h.iv, k, msg, h.bs)
  {
    hide Chain, Calls, Fold, Aligned, KeyBlock, h.Valid;
    h.Facts();
    ghost var all := h.absorbed;
    ghost var done, rest := all[..|all| - h.pos], all[|all| - h.pos..];
    FoldChain(F, h.step, h.iv, done, rest, h.bs, 0);
    assert done + rest == all;
    h.total := h.total + h.pos * 8;
    if h.bs != h.pos {
      Fill(h.m, h.pos, h.bs);
    }
    assert h.m[..h.bs] == rest + Zeros(h.bs - |rest|);
    h.state := F(h.state, h.m[..h.bs], h.total / 8, true);
    hash := h.state;
  }
}
