/** The squeezing of Skein and BLAKE2X: output blocks that are numbered and made from the finished hash. */
module CounterXof {
  import opened Bytes
  import opened Xof

  /** From one number to the next. */
  ghost function Successor(): int -> int {
    (i: int) => i + 1
  }

  /** The output depends on the blocks, and not on how they are given. */
  lemma {:induction false} OutputSame(b: int -> Bytes, c: int -> Bytes, next: int -> int, r: nat, t: int, n: nat)
    requires Produces(b, r) && Produces(c, r)
    requires forall i :: b(i) == c(i)
    ensures Output(b, next, r, t, n) == Output(c, next, r, t, n)
    decreases n
  {
    if n > r {
      OutputSame(b, c, next, r, next(t), n - r);
    }
  }

  class CounterProvider<S(!new)> {
    const r: nat                       // output bytes of a block
    const block: (S, nat) -> S         // the state that block number i is output from
    const bytes: S -> Bytes
    const resets: bool                 // Skein clears the position in the first squeeze, BLAKE2X does not
    const root: S                      // the finished hash
    var H: S
    var pos: nat
    var counter: nat
    var squeezing: bool

    /** The numbered blocks; number -1 stands for the bytes of the finished hash, which are no output. */
    ghost function Block(i: int): S {
      if i < 0 then root else block(root, i)
    }

    ghost function BlockBytes(): int -> Bytes {
      (i: int) => bytes(Block(i))
    }

    ghost predicate Valid()
      reads this
    {
      && 0 < r && Produces(bytes, r)
      && (squeezing ==> H == Block(counter - 1))
    }

    /** Where the next byte comes from: right before block 0, or the rest of the current block. */
    ghost function Cursor(): (int, nat)
      reads this
    {
      if !squeezing then (-1, r) else (counter - 1, if pos < r then pos else r)
    }

    /** The call that goes wrong: the very first one, for no bytes, with a position inside a block. */
    ghost predicate Spoils(hs: nat)
      reads this
    {
      !squeezing && hs == 0 && (resets || pos < r)
    }

    /** pos: how many bytes are left in the buffer of the absorbing phase. */
    constructor (r: nat, block: (S, nat) -> S, bytes: S -> Bytes, resets: bool, root: S, pos: nat)
      requires 0 < r && Produces(bytes, r)
      ensures Valid() && !squeezing && this.pos == pos
      ensures this.r == r && this.block == block && this.bytes == bytes && this.resets == resets && this.root == root
    {
      this.r, this.block, this.bytes, this.resets, this.root := r, block, bytes, resets, root;
      H, this.pos, counter, squeezing := root, pos, 0, false;
    }

    lemma ProducesBlocks()
      requires Produces(bytes, r)
      ensures Produces(BlockBytes(), r)
    {
      forall i: int ensures r <= |BlockBytes()(i)| {
        assert r <= |bytes(Block(i))|;
      }
    }

    lemma NothingRead(t: int, p: nat)
      requires 0 < r && p <= r && Produces(BlockBytes(), r)
      ensures Stream(BlockBytes(), Successor(), r, t, p, 0) == [] && Seek(Successor(), r, t, p, 0) == (t, p)
    {
    }

    /**
     * `squeeze`: outputs the next bytes of the numbered blocks from the cursor on, and moves the
     * cursor by as many. Only a first call for no bytes puts the cursor anywhere else, namely into
     * the finished hash, whose bytes are then output by the next call.
     */
    method Squeeze(hs: nat) returns (hash: Bytes)
      requires Valid()
      modifies this
      ensures Valid() && squeezing && Produces(BlockBytes(), r)
      ensures var (t, p) := old(Cursor());
              && hash == Stream(BlockBytes(), Successor(), r, t, p, hs)
              && if old(Spoils(hs)) then Cursor() == (-1, if resets then 0 else old(pos)) && Cursor() != (t, p)
                 else Cursor() == Seek(Successor(), r, t, p, hs)
    {
      hide Stream, Seek, Produces;
      ProducesBlocks();
      ghost var (t, p) := Cursor();
      NothingRead(t, p);
      hash := [];
      var processed := 0;
      if !squeezing {
        squeezing := true;
        counter := 0;
        H := root;
        if resets {
          pos := 0;
        }
      } else if pos < r {
        var toCopy := if hs < r - pos then hs else r - pos;
        WithinBlock(BlockBytes(), Successor(), r, t, p, toCopy);
        Enough(H);
        hash := bytes(H)[pos..pos + toCopy];
        processed := toCopy;
        pos := pos + toCopy;
      }
      hash := Blocks(hs, hash, t, p);
    }

    lemma Enough(t: S)
      requires Produces(bytes, r)
      ensures r <= |bytes(t)|
    {
    }

    /** The loop of `squeeze`, entered with some bytes already output from the position t, p. */
    method Blocks(hs: nat, already: Bytes, ghost t: int, ghost p: nat) returns (hash: Bytes)
      requires Valid() && squeezing && Produces(BlockBytes(), r) && p <= r
      requires |already| <= hs && already == Stream(BlockBytes(), Successor(), r, t, p, |already|)
      requires |already| < hs ==> Seek(Successor(), r, t, p, |already|) == (counter - 1, r)
      modifies this`H, this`pos, this`counter
      ensures Valid() && hash == Stream(BlockBytes(), Successor(), r, t, p, hs)
      ensures |already| < hs ==> pos <= r && Seek(Successor(), r, t, p, hs) == (counter - 1, pos)
      ensures |already| == hs ==> counter == old(counter) && pos == old(pos)
    {
      hide Stream, Seek, Produces;
      hash := already;
      var processed := |already|;
      while processed < hs
        invariant Valid() && |already| <= processed == |hash| <= hs
        invariant hash == Stream(BlockBytes(), Successor(), r, t, p, processed)
        invariant processed < hs ==> Seek(Successor(), r, t, p, processed) == (counter - 1, r)
        invariant |already| < processed ==> pos <= r && Seek(Successor(), r, t, p, processed) == (counter - 1, pos)
        invariant |already| == processed ==> counter == old(counter) && pos == old(pos)
      {
        pos := if hs - processed < r then hs - processed else r;
        H := block(root, counter);
        assert H == Block(counter) && BlockBytes()(counter) == bytes(H);
        EnterBlock(BlockBytes(), Successor(), r, counter - 1, r, pos);
        StreamSplit(BlockBytes(), Successor(), r, t, p, processed, pos);
        Enough(H);
        hash := hash + bytes(H)[..pos];
        processed := processed + pos;
        counter := counter + 1;
      }
    }
  }

  /**
   * From the beginning, any run of calls none of which spoils the cursor outputs the numbered blocks
   * 0, 1, 2, ... one after the other, however the total length is split.
   */
  method SqueezeRun<S(!new)>(x: CounterProvider<S>, lens: seq<nat>) returns (out: Bytes)
    requires x.Valid() && !x.squeezing && lens != [] && !x.Spoils(lens[0])
    modifies x
    ensures x.Valid() && Produces(x.BlockBytes(), x.r)
    ensures out == Output(x.BlockBytes(), Successor(), x.r, 0, Sum(lens))
  {
    out := Run(x, lens);
    SqueezesSplit(x.BlockBytes(), Successor(), x.r, -1, x.r, lens);
    FromBlockZero(x.BlockBytes(), Successor(), x.r, Sum(lens));
  }

  method Run<S(!new)>(x: CounterProvider<S>, lens: seq<nat>) returns (out: Bytes)
    requires x.Valid() && lens != [] && !x.Spoils(lens[0])
    modifies x
    ensures x.Valid() && x.squeezing && Produces(x.BlockBytes(), x.r)
    ensures var (t, p) := old(x.Cursor()); out == Squeezes(x.BlockBytes(), Successor(), x.r, t, p, lens)
    decreases |lens|
  {
    hide Stream, Seek;
    out := x.Squeeze(lens[0]);
    if |lens| > 1 {
      var rest := Run(x, lens[1..]);
      out := out + rest;
    }
  }

  lemma {:induction false} Numbered(i: int, k: nat)
    ensures Nth(Successor(), i, k) == i + k
  {
    if k > 0 {
      Numbered(i, k - 1);
    }
  }

  /** Byte number k * r + j of such an output is byte j of block k. */
  lemma NumberedByte(blocks: int -> Bytes, r: nat, n: nat, k: nat, j: nat)
    requires Produces(blocks, r) && j < r && 0 <= k * r && k * r + j < n
    ensures Output(blocks, Successor(), r, 0, n)[k * r + j] == blocks(k)[j]
  {
    OutputByte(blocks, Successor(), r, 0, n, k, j);
    Numbered(0, k);
  }

  /** A first squeeze of no bytes that spoils the cursor makes the next one output bytes of the finished hash. */
  method EmptySqueezeFirst<S(!new)>(x: CounterProvider<S>, n: nat) returns (out: Bytes)
    requires x.Valid() && !x.squeezing && x.Spoils(0) && (if x.resets then 0 else x.pos) + n <= x.r
    modifies x
    ensures var from := if x.resets then 0 else old(x.pos);
            from + n <= |x.bytes(x.root)| && out == x.bytes(x.root)[from..from + n]
  {
    hide Stream, Seek;
    var none := x.Squeeze(0);
    var from := x.Cursor().1;
    WithinBlock(x.BlockBytes(), Successor(), x.r, -1, from, n);
    assert x.BlockBytes()(-1) == x.bytes(x.root);
    x.Enough(x.root);
    out := x.Squeeze(n);
  }

  lemma FromBlockZero(bytes: int -> Bytes, next: int -> int, r: nat, n: nat)
    requires Produces(bytes, r) && next(-1) == 0
    ensures Stream(bytes, next, r, -1, r, n) == Output(bytes, next, r, 0, n)
  {
    StreamIsOutput(bytes, next, r, 0, n);
  }
}
