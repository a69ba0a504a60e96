/** Output streams of extendable-output functions, read in pieces. */
module Xof {
  import opened Bytes

  /**
   * A stream is produced block by block: `bytes` gives the block of a source (of which the first r
   * bytes count), `next` the following source. For a sponge the source is the state and `next` its
   * permutation; for the counter constructions the source is the number of the block.
   */
  ghost predicate Produces<T(!new)>(bytes: T -> Bytes, r: nat) {
    0 < r && forall t: T :: r <= |bytes(t)|
  }

  /** The first n bytes of the stream from t on: whole blocks, the last one truncated. */
  ghost function Output<T(!new)>(bytes: T -> Bytes, next: T -> T, r: nat, t: T, n: nat): (o: Bytes)
    requires Produces(bytes, r)
    ensures |o| == n
    decreases n
  {
    if n <= r then bytes(t)[..n] else bytes(t)[..r] + Output(bytes, next, r, next(t), n - r)
  }

  ghost function Nth<T>(next: T -> T, t: T, k: nat): T {
    if k == 0 then t else next(Nth(next, t, k - 1))
  }

  lemma {:induction false} NthNext<T>(next: T -> T, t: T, k: nat)
    ensures Nth(next, next(t), k) == Nth(next, t, k + 1)
  {
    if k > 0 {
      NthNext(next, t, k - 1);
    }
  }

  /** Byte number k * r + j of the output is byte j of block k: of t after k times `next`. */
  lemma {:induction false} OutputByte<T(!new)>(bytes: T -> Bytes, next: T -> T, r: nat, t: T, n: nat, k: nat, j: nat)
    requires Produces(bytes, r) && j < r && 0 <= k * r && k * r + j < n
    ensures Output(bytes, next, r, t, n)[k * r + j] == bytes(Nth(next, t, k))[j]
    decreases k
  {
    if k > 0 {
      assert k * r == (k - 1) * r + r && (k - 1) * r >= 0;
      OutputByte(bytes, next, r, next(t), n - r, k - 1, j);
      NthNext(next, t, k - 1);
    }
  }

  // ---------------------------------------------------------------- reading on from a position

  /** n bytes from byte p of the block of t on. */
  ghost function Stream<T(!new)>(bytes: T -> Bytes, next: T -> T, r: nat, t: T, p: nat, n: nat): (o: Bytes)
    requires Produces(bytes, r) && p <= r
    ensures |o| == n
    decreases n, p
  {
    if n == 0 then []
    else if p == r then Stream(bytes, next, r, next(t), 0, n)
    else [bytes(t)[p]] + Stream(bytes, next, r, t, p + 1, n - 1)
  }

  /** The block and the position in it after reading n bytes; a block is left only when more is read. */
  ghost function Seek<T>(next: T -> T, r: nat, t: T, p: nat, n: nat): (c: (T, nat))
    requires 0 < r && p <= r
    ensures c.1 <= r
    decreases n, p
  {
    if n == 0 then (t, p)
    else if p == r then Seek(next, r, next(t), 0, n)
    else Seek(next, r, t, p + 1, n - 1)
  }

  lemma {:induction false} WithinBlock<T(!new)>(bytes: T -> Bytes, next: T -> T, r: nat, t: T, p: nat, n: nat)
    requires Produces(bytes, r) && p + n <= r
    ensures Stream(bytes, next, r, t, p, n) == bytes(t)[p..p + n]
    ensures Seek(next, r, t, p, n) == (t, p + n)
    decreases n
  {
    if n > 0 {
      WithinBlock(bytes, next, r, t, p + 1, n - 1);
      assert bytes(t)[p..p + n] == [bytes(t)[p]] + bytes(t)[p + 1..p + n];
    }
  }

  lemma {:induction false} SeekSplit<T>(next: T -> T, r: nat, t: T, p: nat, a: nat, b: nat)
    requires 0 < r && p <= r
    ensures var (t', p') := Seek(next, r, t, p, a); Seek(next, r, t, p, a + b) == Seek(next, r, t', p', b)
    decreases a, p
  {
    if a == 0 {
    } else if p == r {
      SeekSplit(next, r, next(t), 0, a, b);
    } else {
      SeekSplit(next, r, t, p + 1, a - 1, b);
    }
  }

  /** Reading a + b bytes is reading a bytes, and then b bytes from where that ended. */
  lemma {:induction false} StreamSplit<T(!new)>(bytes: T -> Bytes, next: T -> T, r: nat, t: T, p: nat, a: nat, b: nat)
    requires Produces(bytes, r) && p <= r
    ensures var (t', p') := Seek(next, r, t, p, a);
            && Stream(bytes, next, r, t, p, a + b)
               == Stream(bytes, next, r, t, p, a) + Stream(bytes, next, r, t', p', b)
            && Seek(next, r, t, p, a + b) == Seek(next, r, t', p', b)
    decreases a, p
  {
    SeekSplit(next, r, t, p, a, b);
    if a == 0 {
    } else if p == r {
      StreamSplit(bytes, next, r, next(t), 0, a, b);
    } else {
      hide Produces;
      StreamSplit(bytes, next, r, t, p + 1, a - 1, b);
      var (t', p') := Seek(next, r, t, p, a);
      Associative([bytes(t)[p]], Stream(bytes, next, r, t, p + 1, a - 1), Stream(bytes, next, r, t', p', b));
    }
  }

  /** From the start of the stream, reading gives the truncated blocks. */
  lemma {:induction false} StreamIsOutput<T(!new)>(bytes: T -> Bytes, next: T -> T, r: nat, t: T, n: nat)
    requires Produces(bytes, r)
    ensures Stream(bytes, next, r, t, 0, n) == Output(bytes, next, r, t, n)
    decreases n
  {
    if n <= r {
      WithinBlock(bytes, next, r, t, 0, n);
      assert bytes(t)[0..n] == bytes(t)[..n];
    } else {
      StreamSplit(bytes, next, r, t, 0, r, n - r);
      WithinBlock(bytes, next, r, t, 0, r);
      assert bytes(t)[0..r] == bytes(t)[..r];
      StreamIsOutput(bytes, next, r, next(t), n - r);
    }
  }

  ghost function Sum(lens: seq<nat>): nat {
    if lens == [] then 0 else lens[0] + Sum(lens[1..])
  }

  /** The outputs of squeezes of the given lengths, one after the other. */
  ghost function Squeezes<T(!new)>(bytes: T -> Bytes, next: T -> T, r: nat, t: T, p: nat, lens: seq<nat>): Bytes
    requires Produces(bytes, r) && p <= r
    decreases |lens|
  {
    if lens == [] then []
    else
      var (t', p') := Seek(next, r, t, p, lens[0]);
      Stream(bytes, next, r, t, p, lens[0]) + Squeezes(bytes, next, r, t', p', lens[1..])
  }

  /** Squeezing in pieces gives the same bytes as squeezing once, namely the start of the stream. */
  lemma {:induction false} SqueezesSplit<T(!new)>(bytes: T -> Bytes, next: T -> T, r: nat, t: T, p: nat, lens: seq<nat>)
    requires Produces(bytes, r) && p <= r
    ensures Squeezes(bytes, next, r, t, p, lens) == Stream(bytes, next, r, t, p, Sum(lens))
    ensures p == 0 ==> Squeezes(bytes, next, r, t, p, lens) == Output(bytes, next, r, t, Sum(lens))
    decreases |lens|
  {
    if lens != [] {
      var (t', p') := Seek(next, r, t, p, lens[0]);
      SqueezesSplit(bytes, next, r, t', p', lens[1..]);
      StreamSplit(bytes, next, r, t, p, lens[0], Sum(lens[1..]));
    }
    StreamIsOutput(bytes, next, r, t, Sum(lens));
  }

  /** Positions within blocks do not depend on what the blocks are. */
  lemma {:induction false} SeekPosition<T, U>(f: T -> T, g: U -> U, r: nat, t: T, u: U, p: nat, n: nat)
    requires 0 < r && p <= r
    ensures Seek(f, r, t, p, n).1 == Seek(g, r, u, p, n).1
    decreases n, p
  {
    if n == 0 {
    } else if p == r {
      SeekPosition(f, g, r, f(t), g(u), 0, n);
    } else {
      SeekPosition(f, g, r, t, u, p + 1, n - 1);
    }
  }

  /** Reading part of a block that is entered at its start. */
  lemma EnterBlock<T(!new)>(bytes: T -> Bytes, next: T -> T, r: nat, t: T, p: nat, n: nat)
    requires Produces(bytes, r) && (p == 0 || p == r) && 0 < n <= r
    ensures var u := if p == r then next(t) else t;
            && Stream(bytes, next, r, t, p, n) == bytes(u)[..n]
            && Seek(next, r, t, p, n) == (u, n)
  {
    var u := if p == r then next(t) else t;
    WithinBlock(bytes, next, r, u, 0, n);
    assert bytes(u)[0..n] == bytes(u)[..n];
  }

  // ---------------------------------------------------------------- squeezes of no bytes

  /**
   * What the sponge provider keeps between calls, as far as positions go: before the first squeeze
   * the number of bytes in its buffer, afterwards the position in the current block.
   */
  datatype Reader = Absorbing(p: nat) | Squeezing(p: nat)

  /** A squeeze of no bytes that is the first one, or that comes at the end of a block. */
  predicate Disturbs(reader: Reader, r: nat, n: nat) {
    n == 0 && (reader.Absorbing? || reader.p == r)
  }

  /** How many bytes of the stream are passed over without being output. */
  function Skipped(reader: Reader, r: nat, n: nat): nat {
    if !Disturbs(reader, r, n) then 0 else if reader.Absorbing? then reader.p + 1 else r
  }

  ghost function AfterSqueeze(reader: Reader, r: nat, n: nat): Reader
    requires 0 < r && reader.p <= r
  {
    var from := if reader.Absorbing? then 0 else reader.p;
    Squeezing(Seek(i => i + 1, r, 0, from, n + Skipped(reader, r, n)).1)
  }

  /** How far into the stream a run of squeezes gets. */
  ghost function Advance(reader: Reader, r: nat, lens: seq<nat>): nat
    requires 0 < r && reader.p <= r
    decreases |lens|
  {
    if lens == [] then 0
    else lens[0] + Skipped(reader, r, lens[0]) + Advance(AfterSqueeze(reader, r, lens[0]), r, lens[1..])
  }

  ghost predicate Undisturbed(reader: Reader, r: nat, lens: seq<nat>)
    requires 0 < r && reader.p <= r
    decreases |lens|
  {
    lens == [] ||
    (!Disturbs(reader, r, lens[0]) && Undisturbed(AfterSqueeze(reader, r, lens[0]), r, lens[1..]))
  }

  /** The stream position is the number of bytes output exactly when no squeeze disturbs it. */
  lemma {:induction false} NothingSkipped(reader: Reader, r: nat, lens: seq<nat>)
    requires 0 < r && reader.p <= r
    ensures Sum(lens) <= Advance(reader, r, lens)
    ensures Advance(reader, r, lens) == Sum(lens) <==> Undisturbed(reader, r, lens)
    decreases |lens|
  {
    if lens != [] {
      NothingSkipped(AfterSqueeze(reader, r, lens[0]), r, lens[1..]);
    }
  }

  /** A first squeeze of no bytes: with p bytes in the buffer, the first p + 1 bytes of the stream are lost. */
  lemma EmptySqueezeSkips(p: nat, r: nat)
    requires p < r
    ensures Sum([0]) == 0 && Advance(Absorbing(p), r, [0]) == p + 1
    ensures !Undisturbed(Absorbing(p), r, [0])
  {
    NothingSkipped(Absorbing(p), r, [0]);
    assert [0][1..] == [];
  }

  /** In particular, squeezes of positive lengths never skip anything. */
  lemma {:induction false} PositiveLengths(reader: Reader, r: nat, lens: seq<nat>)
    requires 0 < r && reader.p <= r && forall i :: 0 <= i < |lens| ==> lens[i] > 0
    ensures Undisturbed(reader, r, lens)
    decreases |lens|
  {
    if lens != [] {
      PositiveLengths(AfterSqueeze(reader, r, lens[0]), r, lens[1..]);
    }
  }
}
