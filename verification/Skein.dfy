/** Skein's chaining by UBI: the tweak is kept in the state, for parameters and message alike. */
module Skein {
  import opened Bytes
  import opened Absorb
  import opened CounterXof
  import opened MerkleDamgard
  import opened Xof

  // ---------------------------------------------------------------- UBI, section 3.4 of the Skein 1.3 paper

  /** How many bytes have been processed, which kind of data this is, and whether a block is the first or the last. */
  datatype Tweak = Tweak(position: nat, code: nat, first: bool, last: bool)

  const KEY := 0
  const CONFIG := 4
  const PERSONALIZATION := 8
  const NONCE := 20
  const MESSAGE := 48
  const OUTPUT := 63

  /** The blocks of the data d with their tweaks. */
  ghost function Blocks(d: Bytes, code: nat, bs: nat, done: nat, first: bool): (c: seq<(Bytes, Tweak)>)
    requires bs > 0
    ensures c != []
    decreases |d|
  {
    if |d| <= bs then [(d + Zeros(bs - |d|), Tweak(done + |d|, code, first, true))]
    else [(d[..bs], Tweak(done + bs, code, first, false))] + Blocks(d[bs..], code, bs, done + bs, false)
  }

  ghost function Fold<S>(E: (S, Bytes, Tweak) -> S, h: S, blocks: seq<(Bytes, Tweak)>): S {
    if blocks == [] then h else Fold(E, E(h, blocks[0].0, blocks[0].1), blocks[1..])
  }

  ghost function Ubi<S>(E: (S, Bytes, Tweak) -> S, h: S, code: nat, d: Bytes, bs: nat): S
    requires bs > 0
  {
    Fold(E, h, Blocks(d, code, bs, 0, true))
  }

  /** Block i is marked as first when i is 0, and as last at the end; its position is where it ends in the data. */
  lemma {:induction false} BlocksExplicit(d: Bytes, code: nat, bs: nat, done: nat, first: bool, i: nat)
    requires 0 < bs && i < |Blocks(d, code, bs, done, first)|
    ensures var c := Blocks(d, code, bs, done, first);
            var from, to := Times(i, bs), Times(i + 1, bs);
            && to == from + bs && (i > 0 || d != [] ==> from < |d|)
            && if i < |c| - 1
               then to < |d| && c[i] == (d[from..to], Tweak(done + to, code, first && i == 0, false))
               else from <= |d| <= to &&
                    c[i] == (d[from..] + Zeros(to - |d|), Tweak(done + |d|, code, first && i == 0, true))
    decreases |d|
  {
    hide Times;
    NextTimes(i, bs);
    if |d| <= bs {
      assert i == 0 && d[0..] == d;
    } else if i == 0 {
      assert Blocks(d[bs..], code, bs, done + bs, false) != [];
    } else {
      NextTimes(i - 1, bs);
      BlocksExplicit(d[bs..], code, bs, done + bs, false, i - 1);
      Later(d, bs, Times(i - 1, bs));
    }
  }

  /** One more block, with its tweak. */
  lemma {:induction false} FoldMore<S>(E: (S, Bytes, Tweak) -> S, h: S, blocks: seq<(Bytes, Tweak)>, b: (Bytes, Tweak))
    ensures Fold(E, h, []) == h
    ensures Fold(E, h, blocks + [b]) == E(Fold(E, h, blocks), b.0, b.1)
    decreases |blocks|
  {
    if blocks == [] {
      assert [b][1..] == [];
    } else {
      assert (blocks + [b])[1..] == blocks[1..] + [b];
      FoldMore(E, E(h, blocks[0].0, blocks[0].1), blocks[1..], b);
    }
  }

  // ---------------------------------------------------------------- the provider

  /** H and the tweak words: the position, and whether the next block is the first one. */
  datatype Stage<S> = Stage(h: S, position: nat, first: bool)

  /** `transform` on a full block: the tweak moves on by itself. */
  function Step<S>(E: (S, Bytes, Tweak) -> S, code: nat, bs: nat): (Stage<S>, Bytes, nat) -> Stage<S> {
    (st: Stage<S>, b: Bytes, n: nat) =>
      Stage(E(st.h, b, Tweak(st.position + bs, code, st.first, false)), st.position + bs, false)
  }

  lemma FirstBlock(a: Bytes, rest: Bytes, code: nat, bs: nat, done: nat, first: bool)
    requires 0 < bs <= |a| && rest != []
    ensures var c := Blocks(a + rest, code, bs, done, first);
            && c[0] == (a[..bs], Tweak(done + bs, code, first, false))
            && c[1..] == Blocks(a[bs..] + rest, code, bs, done + bs, false)
  {
    var d := a + rest;
    assert d[..bs] == a[..bs] && d[bs..] == a[bs..] + rest;
  }

  /** What the buffer holds back is the last block. */
  lemma {:induction false} FoldChain<S>(E: (S, Bytes, Tweak) -> S, code: nat, st: Stage<S>, a: Bytes,
      rest: Bytes, bs: nat, done: nat)
    requires 0 < bs && Aligned(|a|, bs) && |rest| <= bs && (a != [] ==> rest != [])
    ensures var c := Chain(Step(E, code, bs), st, a, bs, done);
            Fold(E, st.h, Blocks(a + rest, code, bs, st.position, st.first))
            == E(c.h, rest + Zeros(bs - |rest|), Tweak(c.position + |rest|, code, c.first, true))
    decreases |a|
  {
    if a == [] {
      assert a + rest == rest;
      assert Blocks(rest, code, bs, st.position, st.first)[1..] == [];
    } else {
      var next := Step(E, code, bs)(st, a[..bs], done + bs);
      FirstBlock(a, rest, code, bs, st.position, st.first);
      FoldChain(E, code, next, a[bs..], rest, bs, done + bs);
    }
  }

  /** A stage begins with position 0 and the mark of the first block. */
  method Begin<S>(E: (S, Bytes, Tweak) -> S, h: S, code: nat, bs: nat) returns (x: Absorber<Stage<S>>)
    requires 0 < bs
    ensures fresh(x) && fresh(x.m) && x.Valid() && x.lazy && x.bs == bs && x.absorbed == []
    ensures x.step == Step(E, code, bs) && x.iv == Stage(h, 0, true)
  {
    x := new Absorber<Stage<S>>(bs, bs, true, Step(E, code, bs), Stage(h, 0, true));
  }

  /** The end of a stage: the last block is marked, filled up and processed, whatever the updates were. */
  method Finish<S>(x: Absorber<Stage<S>>, E: (S, Bytes, Tweak) -> S, code: nat) returns (h: S)
    requires x.Valid() && x.lazy && x.step == Step(E, code, x.bs) && x.iv == Stage(x.iv.h, 0, true)
    modifies x, x.m
    ensures h == Ubi(E, x.iv.h, code, old(x.absorbed), x.bs)
  {
    hide Chain, Blocks, Fold, Aligned, Step, x.Valid;
    x.Facts();
    ghost var all := x.absorbed;
    ghost var done, rest := all[..|all| - x.pos], all[|all| - x.pos..];
    FoldChain(E, code, x.iv, done, rest, x.bs, 0);
    assert done + rest == all;
    if x.pos < x.bs {
      Fill(x.m, x.pos, x.bs);
    }
    assert x.m[..x.bs] == rest + Zeros(x.bs - |rest|);
    h := E(x.state.h, x.m[..x.bs], Tweak(x.state.position + x.pos, code, x.state.first, true));
    x.state := Stage(h, x.state.position + x.pos, false);
  }

  // ---------------------------------------------------------------- the parameters

  /** An empty parameter is left out. */
  ghost function Parameter<S>(E: (S, Bytes, Tweak) -> S, h: S, code: nat, p: Bytes, bs: nat): S
    requires bs > 0
  {
    if p == [] then h else Ubi(E, h, code, p, bs)
  }

  /** The configuration: the schema identifier, the version, and the output length in bits. */
  function ConfigString(bits: uint64): (c: Bytes)
    ensures |c| == 32
  {
    [0x53, 0x48, 0x41, 0x33, 1, 0, 0, 0] + LittleEndian(bits, 8) + Zeros(16)
  }

  /** The chaining value before the message, section 3.5. */
  ghost function Prepared<S>(E: (S, Bytes, Tweak) -> S, zero: S, key: Bytes, bits: uint64,
      personalization: Bytes, nonce: Bytes, bs: nat): S
    requires bs > 0
  {
    var keyed := Parameter(E, zero, KEY, key, bs);
    var configured := Ubi(E, keyed, CONFIG, ConfigString(bits), bs);
    Parameter(E, Parameter(E, configured, PERSONALIZATION, personalization, bs), NONCE, nonce, bs)
  }

  /** The configuration string of section 3.5.2, byte by byte; a parameter is UBI with its own type code. */
  lemma {:induction false} ConfigBytes(bits: uint64)
    ensures var c := ConfigString(bits);
            && c[..8] == Ascii("SHA3") + [1, 0, 0, 0] && c[8..16] == LittleEndian(bits, 8)
            && forall i :: 16 <= i < 32 ==> c[i] == 0
  {
    hide LittleEndian;
  }

  /** The stages before the message: key (0), configuration (4), personalization (8) and nonce (20). */
  lemma PreparedIs<S>(E: (S, Bytes, Tweak) -> S, zero: S, key: Bytes, bits: uint64,
      personalization: Bytes, nonce: Bytes, bs: nat)
    requires bs > 0
    ensures var keyed := if key == [] then zero else Ubi(E, zero, 0, key, bs);
            var configured := Ubi(E, keyed, 4, ConfigString(bits), bs);
            var personal := if personalization == [] then configured else Ubi(E, configured, 8, personalization, bs);
            Prepared(E, zero, key, bits, personalization, nonce, bs)
            == if nonce == [] then personal else Ubi(E, personal, 20, nonce, bs)
  {
    hide Ubi, ConfigString;
  }

  /** `inject_parameter`. */
  method InjectParameter<S>(E: (S, Bytes, Tweak) -> S, h: S, p: Bytes, code: nat, bs: nat) returns (r: S)
    requires 0 < bs && |p| < LIMIT
    ensures r == Parameter(E, h, code, p, bs)
  {
    if p == [] {
      return h;
    }
    var x := Begin(E, h, code, bs);
    x.Update(p);
    assert [] + p == p;
    r := Finish(x, E, code);
  }

  /** `init`: the key, the configuration block, the personalization and the nonce. */
  method Init<S>(E: (S, Bytes, Tweak) -> S, zero: S, key: Bytes, bits: uint64, personalization: Bytes,
      nonce: Bytes, bs: nat)
    returns (x: Absorber<Stage<S>>)
    requires 32 <= bs && |key| < LIMIT && |personalization| < LIMIT && |nonce| < LIMIT
    ensures fresh(x) && fresh(x.m) && x.Valid() && x.lazy && x.bs == bs && x.absorbed == []
    ensures x.step == Step(E, MESSAGE, bs)
    ensures x.iv == Stage(Prepared(E, zero, key, bits, personalization, nonce, bs), 0, true)
  {
    hide Ubi, ConfigString;
    var h := InjectParameter(E, zero, key, KEY, bs);
    var m := ConfigString(bits) + Zeros(bs - 32);
    OneBlock(E, h, CONFIG, ConfigString(bits), bs);
    h := E(h, m, Tweak(32, CONFIG, true, true));
    h := InjectParameter(E, h, personalization, PERSONALIZATION, bs);
    h := InjectParameter(E, h, nonce, NONCE, bs);
    x := Begin(E, h, MESSAGE, bs);
  }

  /** Data of at most a block is one block, the first and the last. */
  lemma OneBlock<S>(E: (S, Bytes, Tweak) -> S, h: S, code: nat, d: Bytes, bs: nat)
    requires |d| <= bs && 0 < bs
    ensures Ubi(E, h, code, d, bs) == E(h, d + Zeros(bs - |d|), Tweak(|d|, code, true, true))
  {
    var c := Blocks(d, code, bs, 0, true);
    assert c[1..] == [];
    assert Fold(E, E(h, c[0].0, c[0].1), c[1..]) == E(h, c[0].0, c[0].1);
  }

  // ---------------------------------------------------------------- the output

  /** `squeeze` computes output block i from the finished hash by writing i into an empty block. */
  function OutputState<S>(E: (S, Bytes, Tweak) -> S, root: S, i: nat, bs: nat): S
    requires 8 <= bs
  {
    E(root, LittleEndian(i % U64, 8) + Zeros(bs - 8), Tweak(8, OUTPUT, true, true))
  }

  /** That is the output transformation of section 3.5: UBI on the 8-byte block number, which wraps around. */
  lemma OutputIsUbi<S>(E: (S, Bytes, Tweak) -> S, root: S, i: nat, bs: nat)
    requires 8 <= bs
    ensures OutputState(E, root, i, bs) == Ubi(E, root, OUTPUT, LittleEndian(i % U64, 8), bs)
  {
    hide LittleEndian;
    OneBlock(E, root, OUTPUT, LittleEndian(i % U64, 8), bs);
  }

  /** Byte by byte: one call for each block, with its number in the first eight bytes, and the type code 63. */
  lemma OutputBlockIs<S>(E: (S, Bytes, Tweak) -> S, bytes: S -> Bytes, root: S, bs: nat, i: nat)
    requires 8 <= bs && i < 0x1_0000_0000_0000_0000
    ensures OutputBlocks(E, bytes, root, bs)(i)
         == bytes(E(root, LittleEndian(i, 8) + Zeros(bs - 8), Tweak(8, 63, true, true)))
  {
    hide LittleEndian, Ubi;
    OneBlock(E, root, OUTPUT, LittleEndian(i, 8), bs);
    assert i % U64 == i;
  }

  /** The output blocks of a finished hash, as bytes; their 64-bit number wraps around. */
  ghost function OutputBlocks<S>(E: (S, Bytes, Tweak) -> S, bytes: S -> Bytes, root: S, bs: nat): int -> Bytes
    requires 8 <= bs
  {
    (i: int) => bytes(if i < 0 then root else Ubi(E, root, OUTPUT, LittleEndian(i % U64, 8), bs))
  }

  /**
   * Skein of an absorbed message: any run of squeezes, the first one for some bytes, gives the output
   * transformation of UBI of the message, block after block.
   */
  method SqueezeRun<S(!new)>(x: Absorber<Stage<S>>, E: (S, Bytes, Tweak) -> S, bytes: S -> Bytes, lens: seq<nat>)
    returns (out: Bytes)
    requires x.Valid() && x.lazy && x.step == Step(E, MESSAGE, x.bs) && x.iv == Stage(x.iv.h, 0, true)
    requires 8 <= x.bs && Produces(bytes, x.bs) && lens != [] && lens[0] > 0
    modifies x, x.m
    ensures var blocks := OutputBlocks(E, bytes, Ubi(E, x.iv.h, 48, old(x.absorbed), x.bs), x.bs);
            Produces(blocks, x.bs) && out == Output(blocks, Successor(), x.bs, 0, Sum(lens))
  {
    hide Ubi, Step, Output;
    var bs := x.bs;
    var left := x.pos;
    var root := Finish(x, E, MESSAGE);
    var block := (h: S, i: nat) => OutputState(E, h, i, bs);
    var p := new CounterProvider<S>(bs, block, bytes, true, root, left);
    out := CounterXof.SqueezeRun(p, lens);
    var blocks := OutputBlocks(E, bytes, root, bs);
    forall i: int ensures p.BlockBytes()(i) == blocks(i) {
      if i >= 0 {
        OutputIsUbi(E, root, i, bs);
        assert p.Block(i) == block(root, i) == OutputState(E, root, i, bs);
      }
      assert p.BlockBytes()(i) == bytes(p.Block(i));
    }
    AllLong(E, bytes, root, bs);
    OutputSame(p.BlockBytes(), blocks, Successor(), bs, 0, Sum(lens));
  }

  lemma AllLong<S(!new)>(E: (S, Bytes, Tweak) -> S, bytes: S -> Bytes, root: S, bs: nat)
    requires 8 <= bs && Produces(bytes, bs)
    ensures Produces(OutputBlocks(E, bytes, root, bs), bs)
  {
    forall i: int ensures bs <= |OutputBlocks(E, bytes, root, bs)(i)| {
      var h := if i < 0 then root else Ubi(E, root, OUTPUT, LittleEndian(i % U64, 8), bs);
      assert bs <= |bytes(h)|;
    }
  }
}
