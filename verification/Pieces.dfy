/** How a file is cut into pieces and blocks. */
module Pieces {
  import opened Bytes

  /** `nominal_block_size`, 16384. */
  const BLOCK: nat := 0x4000

  datatype Block = Block(size: nat, offset: nat)

  // ---------------------------------------------------------------- blocks of a piece

  /** Blocks of nominal size from `from` on, the last one as long as it needs to be. */
  ghost function BlocksFrom(size: nat, from: nat): seq<Block>
    decreases if from < size then size - from else 0
  {
    if size <= from then []
    else if size <= from + BLOCK then [Block(size - from, from)]
    else [Block(BLOCK, from)] + BlocksFrom(size, from + BLOCK)
  }

  ghost function BlocksOf(size: nat): seq<Block> {
    BlocksFrom(size, 0)
  }

  /** The `Piece` constructor's loop. */
  method MakeBlocks(size: uint32) returns (blocks: seq<Block>)
    ensures blocks == BlocksOf(size) && |blocks| == (size + 16383) / 16384
    ensures forall k :: 0 <= k < |blocks| ==>
              blocks[k] == Block(if 16384 * k + 16384 < size then 16384 else size - 16384 * k, 16384 * k)
  {
    var num := (size + BLOCK - 1) / BLOCK;
    blocks := [];
    for i := 0 to num
      invariant BlocksOf(size) == blocks + BlocksFrom(size, i * BLOCK)
    {
      var bs;
      if i == num - 1 {
        bs := size - i * BLOCK;
      } else {
        bs := BLOCK;
      }
      Associative(blocks, [Block(bs, i * BLOCK)], BlocksFrom(size, (i + 1) * BLOCK));
      blocks := blocks + [Block(bs, i * BLOCK)];
    }
    assert blocks + [] == blocks;
    hide BlocksFrom;
    BlocksAre(size);
  }

  /** Block number k starts at k times the nominal size. */
  lemma {:induction false} BlockAt(size: nat, from: nat, k: nat)
    requires from < size && k * BLOCK < size - from
    ensures k < |BlocksFrom(size, from)|
    ensures var b := BlocksFrom(size, from)[k];
            && b.offset == from + k * BLOCK
            && b.size == if b.offset + BLOCK < size then BLOCK else size - b.offset
    decreases k
  {
    if k > 0 {
      BlockAt(size, from + BLOCK, k - 1);
    }
  }

  lemma {:induction false} BlockStart(size: nat, from: nat, k: nat)
    requires k < |BlocksFrom(size, from)|
    ensures BlocksFrom(size, from)[k].offset == from + k * BLOCK
    decreases k
  {
    if k > 0 {
      BlockStart(size, from + BLOCK, k - 1);
    }
  }

  lemma {:induction false} BlockCount(size: nat, from: nat)
    requires from <= size
    ensures |BlocksFrom(size, from)| == (size - from + 16383) / 16384
    decreases size - from
  {
    if from + BLOCK < size {
      BlockCount(size, from + BLOCK);
    }
  }

  lemma BlocksAre(size: nat)
    ensures var blocks := BlocksOf(size);
            && |blocks| == (size + 16383) / 16384
            && forall k :: 0 <= k < |blocks| ==>
                 blocks[k] == Block(if 16384 * k + 16384 < size then 16384 else size - 16384 * k, 16384 * k)
  {
    BlockCount(size, 0);
    var blocks := BlocksOf(size);
    forall k | 0 <= k < |blocks|
      ensures blocks[k] == Block(if 16384 * k + 16384 < size then 16384 else size - 16384 * k, 16384 * k)
    {
      BlockAt(size, 0, k);
    }
  }

  /** `get_block_by_offset`: the block at index offset / BLOCK is the one that the offset lies in. */
  lemma BlockByOffset(size: nat, offset: nat)
    requires offset < size
    ensures var k := offset / BLOCK;
            && k < |BlocksOf(size)|
            && var b := BlocksOf(size)[k]; b.offset <= offset < b.offset + b.size && b.offset + b.size <= size
  {
    BlockAt(size, 0, offset / BLOCK);
  }

  // ---------------------------------------------------------------- pieces of a file

  /** The sizes that `generate_pieces` computes, in 32 bits: the last piece gets what is left. */
  ghost function PieceSize(length: uint64, pieceLength: uint64, n: nat, i: nat): uint32
    requires i < n
  {
    if i == n - 1 then (length - (n - 1) * pieceLength) % U32 else pieceLength % U32
  }

  /** `generate_pieces`, with 64-bit arithmetic that wraps around and 32-bit sizes. */
  method GeneratePieces(length: uint64, pieceLength: uint64, n: nat) returns (sizes: seq<uint32>)
    ensures |sizes| == n
    ensures forall i :: 0 <= i < n ==> sizes[i] == PieceSize(length, pieceLength, n, i)
    ensures forall i :: 0 <= i < n - 1 ==> sizes[i] == pieceLength % 0x1_0000_0000
    ensures n > 0 ==> sizes[n - 1] == (length - (n - 1) * pieceLength) % 0x1_0000_0000
  {
    sizes := [];
    for it := 0 to n
      invariant |sizes| == it
      invariant forall i :: 0 <= i < it ==> sizes[i] == PieceSize(length, pieceLength, n, i)
    {
      var s;
      if n - it == 1 {
        var wrapped := (length - (n - 1) * pieceLength) % U64;
        WrapTwice(length - (n - 1) * pieceLength);
        s := wrapped % U32;
      } else {
        s := pieceLength % U32;
      }
      sizes := sizes + [s];
    }
  }

  /** Wrapping around at 64 bits does not show in 32 bits. */
  lemma WrapTwice(x: int)
    ensures x % U64 % U32 == x % U32
  {
    var q, r := x / U64, x % U64;
    assert x == q * U64 + r;
    assert q * U64 == (q * U32) * U32;
    WrapLarge(q * U32, r);
  }

  lemma WrapLarge(k: int, r: nat)
    ensures (k * U32 + r) % U32 == r % U32
  {
  }

  // ---------------------------------------------------------------- tiling

  datatype Interval = Interval(start: nat, size: nat)

  /** One interval after the other, none empty, from `from` to `to` without gap or overlap. */
  ghost predicate Tiles(s: seq<Interval>, from: nat, to: nat)
    decreases |s|
  {
    if s == [] then from == to
    else s[0].start == from && s[0].size > 0 && Tiles(s[1..], from + s[0].size, to)
  }

  /** The blocks of a piece, as parts of the file, when the piece starts at `at`. */
  ghost function PieceIntervals(at: nat, size: nat, from: nat): seq<Interval>
    decreases if from < size then size - from else 0
  {
    if size <= from then []
    else if size <= from + BLOCK then [Interval(at + from, size - from)]
    else [Interval(at + from, BLOCK)] + PieceIntervals(at, size, from + BLOCK)
  }

  lemma {:induction false} IntervalsAreBlocks(at: nat, size: nat, from: nat)
    ensures |PieceIntervals(at, size, from)| == |BlocksFrom(size, from)|
    ensures forall k :: 0 <= k < |BlocksFrom(size, from)| ==>
              PieceIntervals(at, size, from)[k]
              == Interval(at + BlocksFrom(size, from)[k].offset, BlocksFrom(size, from)[k].size)
    decreases if from < size then size - from else 0
  {
    if from + BLOCK < size {
      IntervalsAreBlocks(at, size, from + BLOCK);
    }
  }

  /** k pieces starting at `at`, one every pieceLength bytes, the last one of the given size. */
  ghost function PiecesFrom(at: nat, k: nat, pieceLength: nat, last: nat): seq<Interval>
    decreases k
  {
    if k == 0 then []
    else if k == 1 then PieceIntervals(at, last, 0)
    else PieceIntervals(at, pieceLength % U32, 0) + PiecesFrom(at + pieceLength, k - 1, pieceLength, last)
  }

  /** All blocks of the file, piece by piece, each at the offset where it is written and read. */
  ghost function FileBlocks(length: uint64, pieceLength: uint64, n: nat): seq<Interval> {
    if n == 0 then [] else PiecesFrom(0, n, pieceLength, PieceSize(length, pieceLength, n, n - 1))
  }

  /** The position of piece i: the blocks of piece i are there in FileBlocks. */
  lemma {:induction false} PieceStands(at: nat, k: nat, pieceLength: nat, last: nat, i: nat)
    returns (before: seq<Interval>, after: seq<Interval>)
    requires i < k
    ensures 0 <= i * pieceLength
    ensures PiecesFrom(at, k, pieceLength, last)
         == before + PieceIntervals(at + i * pieceLength, if i == k - 1 then last else pieceLength % U32, 0) + after
    decreases k
  {
    if k == 1 {
      before, after := [], [];
    } else if i == 0 {
      before, after := [], PiecesFrom(at + pieceLength, k - 1, pieceLength, last);
    } else {
      before, after := PieceStands(at + pieceLength, k - 1, pieceLength, last, i - 1);
      assert (i - 1) * pieceLength + pieceLength == i * pieceLength;
      Prepend(PieceIntervals(at, pieceLength % U32, 0), before,
              PieceIntervals(at + i * pieceLength, if i == k - 1 then last else pieceLength % U32, 0), after);
      before := PieceIntervals(at, pieceLength % U32, 0) + before;
    }
  }

  lemma Prepend(a: seq<Interval>, b: seq<Interval>, c: seq<Interval>, d: seq<Interval>)
    ensures a + (b + c + d) == a + b + c + d
  {
  }

  lemma {:induction false} PieceTiles(at: nat, size: nat, from: nat, rest: seq<Interval>, begin: nat, to: nat)
    requires from <= size
    ensures Tiles(PieceIntervals(at, size, from) + rest, begin, to) <==>
            if from == size then Tiles(rest, begin, to) else begin == at + from && Tiles(rest, at + size, to)
    decreases size - from
  {
    var s := PieceIntervals(at, size, from);
    if from == size {
      assert s + rest == rest;
    } else if size <= from + BLOCK {
      assert (s + rest)[1..] == rest;
    } else {
      var more := PieceIntervals(at, size, from + BLOCK);
      assert (s + rest)[1..] == more + rest;
      PieceTiles(at, size, from + BLOCK, rest, at + from + BLOCK, to);
    }
  }

  /** Pieces that start where the one before ends: they tile exactly when the last one ends right. */
  lemma {:induction false} RegularTiles(at: nat, k: nat, pieceLength: nat, last: nat, to: nat)
    requires 0 < k && (k == 1 || pieceLength < U32)
    ensures Tiles(PiecesFrom(at, k, pieceLength, last), at, to) <==> to == at + (k - 1) * pieceLength + last
    decreases k
  {
    if k == 1 {
      OnePieceTiles(at, last, at, to);
    } else {
      hide PieceIntervals, Tiles;
      PieceTiles(at, pieceLength, 0, PiecesFrom(at + pieceLength, k - 1, pieceLength, last), at, to);
      RegularTiles(at + pieceLength, k - 1, pieceLength, last, to);
      assert pieceLength % U32 == pieceLength;
      assert (k - 2) * pieceLength + pieceLength == (k - 1) * pieceLength;
    }
  }

  lemma OnePieceTiles(at: nat, size: nat, begin: nat, to: nat)
    ensures Tiles(PieceIntervals(at, size, 0), begin, to) <==>
            if size == 0 then begin == to else begin == at && to == at + size
  {
    PieceTiles(at, size, 0, [], begin, to);
    assert PieceIntervals(at, size, 0) + [] == PieceIntervals(at, size, 0);
  }

  /** Pieces that start too late tile only when they are all empty. */
  lemma {:induction false} LateTiles(at: nat, k: nat, pieceLength: nat, last: nat, begin: nat, to: nat)
    requires 0 < k && begin < at
    ensures Tiles(PiecesFrom(at, k, pieceLength, last), begin, to) <==>
            begin == to && last == 0 && (k == 1 || pieceLength % U32 == 0)
    decreases k
  {
    if k == 1 {
      OnePieceTiles(at, last, begin, to);
    } else {
      PieceTiles(at, pieceLength % U32, 0, PiecesFrom(at + pieceLength, k - 1, pieceLength, last), begin, to);
      LateTiles(at + pieceLength, k - 1, pieceLength, last, begin, to);
    }
  }

  /**
   * What the metainfo has to satisfy for the blocks to be the file: the length ends within the last
   * piece, whose size has 32 bits, as have the other pieces' sizes (or there is nothing after the
   * first piece).
   */
  ghost predicate Consistent(length: nat, pieceLength: nat, n: nat) {
    if n == 0 then length == 0
    else if n == 1 || pieceLength < U32 then 0 <= length - (n - 1) * pieceLength < U32
    else length == pieceLength % U32 && (n == 2 || length == 0)
  }

  /** The blocks of all pieces tile the file exactly when length, piece length and count fit together. */
  lemma {:induction false} FileTiled(length: uint64, pieceLength: uint64, n: nat)
    ensures Tiles(FileBlocks(length, pieceLength, n), 0, length) <==> Consistent(length, pieceLength, n)
  {
    if n > 0 {
      var rest := length - (n - 1) * pieceLength;
      var last := PieceSize(length, pieceLength, n, n - 1);
      if n == 1 || pieceLength < U32 {
        RegularTiles(0, n, pieceLength, last, length);
        Remainder(rest);
      } else {
        var first := pieceLength % U32;
        PieceTiles(0, first, 0, PiecesFrom(pieceLength, n - 1, pieceLength, last), 0, length);
        LateTiles(pieceLength, n - 1, pieceLength, last, first, length);
        LateTiles(pieceLength, n - 1, pieceLength, last, 0, length);
        if length == first && (n == 2 || length == 0) {
          LastEmpty(length, pieceLength, n);
        }
      }
    }
  }

  /**
   * A file of one byte with two pieces of 16 KiB: the size of the second piece wraps around to nearly
   * 4 GiB, and the blocks do not tile the file.
   */
  lemma SecondPieceWrapsAround()
    ensures PieceSize(1, 0x4000, 2, 1) == 0xffff_c001
    ensures !Tiles(FileBlocks(1, 0x4000, 2), 0, 1)
  {
    hide Tiles, FileBlocks;
    FileTiled(1, 0x4000, 2);
  }

  lemma Remainder(x: int)
    ensures x == x % U32 <==> 0 <= x < U32
  {
  }

  lemma LastEmpty(length: nat, pieceLength: nat, n: nat)
    requires 2 <= n && length == pieceLength % U32 && (n == 2 || length == 0)
    ensures (length - (n - 1) * pieceLength) % U32 == 0
  {
    var q := pieceLength / U32;
    assert pieceLength == q * U32 + length;
    if n == 2 {
      assert length - pieceLength == (-q) * U32;
      WrapLarge(-q, 0);
    } else {
      assert (n - 1) * pieceLength == (n - 1) * (q * U32);
      assert (n - 1) * (q * U32) == ((n - 1) * q) * U32;
      assert length - (n - 1) * pieceLength == (-((n - 1) * q)) * U32;
      WrapLarge(-((n - 1) * q), 0);
    }
  }

  /** Tiling intervals are disjoint, and every position lies in one of them. */
  lemma {:induction false} TilesPartition(s: seq<Interval>, from: nat, to: nat)
    requires Tiles(s, from, to)
    ensures from <= to
    ensures forall i :: 0 <= i < |s| ==> from <= s[i].start && 0 < s[i].size && s[i].start + s[i].size <= to
    ensures forall i, j :: 0 <= i < j < |s| ==> s[i].start + s[i].size <= s[j].start
    ensures forall q :: from <= q < to ==> Covered(s, q)
    decreases |s|
  {
    if s != [] {
      var rest := s[1..];
      TilesPartition(rest, from + s[0].size, to);
      forall i, j | 0 <= i < j < |s| ensures s[i].start + s[i].size <= s[j].start {
        assert s[j] == rest[j - 1];
        if i > 0 {
          assert s[i] == rest[i - 1];
        }
      }
      forall q | from <= q < to ensures Covered(s, q) {
        if q < from + s[0].size {
          assert Contains(s[0], q);
        } else {
          assert Covered(rest, q);
          var i :| 0 <= i < |rest| && Contains(rest[i], q);
          assert Contains(s[i + 1], q);
        }
      }
    }
  }

  ghost predicate Contains(i: Interval, q: nat) {
    i.start <= q < i.start + i.size
  }

  ghost predicate Covered(s: seq<Interval>, q: nat) {
    exists i :: 0 <= i < |s| && Contains(s[i], q)
  }

  // ---------------------------------------------------------------- the file

  /** Writing at an offset; a write beyond the end extends the file. */
  function Overwritten(f: Bytes, at: nat, data: Bytes): (r: Bytes)
    ensures |r| == if at + |data| <= |f| then |f| else at + |data|
    ensures forall q :: 0 <= q < |r| ==>
              r[q] == if at <= q < at + |data| then data[q - at] else if q < |f| then f[q] else 0
  {
    var size := if at + |data| <= |f| then |f| else at + |data|;
    seq(size, q requires 0 <= q < size =>
      if at <= q < at + |data| then data[q - at] else if q < |f| then f[q] else 0)
  }

  /** What a read into a zeroed buffer leaves there. */
  function ReadAt(f: Bytes, at: nat, length: nat): (r: Bytes)
    ensures |r| == length
  {
    seq(length, q requires 0 <= q < length => if at + q < |f| then f[at + q] else 0)
  }

  /** A received block: its piece, its offset in the piece, and its data. */
  datatype Write = Write(piece: nat, offset: nat, data: Bytes)

  /** Where the byte at an offset in a piece is in the file. */
  function FileOffset(piece: nat, offset: nat, pieceLength: nat): nat {
    assert piece * pieceLength >= 0;
    piece * pieceLength + offset
  }

  /**
   * That is where the tiling has it: block k of piece i is one of the intervals, and its beginning and its
   * size are those of a write of the whole block.
   */
  lemma {:induction false} BlockPlace(length: uint64, pieceLength: uint64, n: nat, i: nat, k: nat, data: Bytes)
    requires i < n && k < |BlocksOf(PieceSize(length, pieceLength, n, i))|
    requires |data| == BlocksOf(PieceSize(length, pieceLength, n, i))[k].size
    ensures var w := Write(i, BlocksOf(PieceSize(length, pieceLength, n, i))[k].offset, data);
            && Intended(w, pieceLength) == i * pieceLength + 16384 * k
            && Interval(Intended(w, pieceLength), |data|) in FileBlocks(length, pieceLength, n)
  {
    var size := PieceSize(length, pieceLength, n, i);
    var before, after := PieceStands(0, n, pieceLength, PieceSize(length, pieceLength, n, n - 1), i);
    BlocksAre(size);
    IntervalsAreBlocks(i * pieceLength, size, 0);
    var at := PieceIntervals(i * pieceLength, size, 0);
    hide BlocksOf, BlocksFrom, PieceIntervals, PiecesFrom;
    assert at[k] in at;
  }

  ghost function Intended(w: Write, pieceLength: nat): (at: nat) {
    FileOffset(w.piece, w.offset, pieceLength)
  }

  /** `write_block` computes the file offset in 32 bits. */
  ghost function Applied(f: Bytes, w: Write, pieceLength: nat): Bytes {
    Overwritten(f, Intended(w, pieceLength) % U32, w.data)
  }

  ghost function AppliedAll(f: Bytes, ws: seq<Write>, pieceLength: nat): Bytes
    decreases |ws|
  {
    if ws == [] then f
    else Applied(AppliedAll(f, ws[..|ws| - 1], pieceLength), ws[|ws| - 1], pieceLength)
  }

  /** The write carries the content's bytes for its place. */
  ghost predicate Faithful(w: Write, content: Bytes, pieceLength: nat) {
    var at := Intended(w, pieceLength);
    at + |w.data| <= |content| && w.data == content[at..at + |w.data|]
  }

  /** Faithful, not empty, and at an offset that 32 bits can hold. */
  ghost predicate Correct(w: Write, content: Bytes, pieceLength: nat) {
    Faithful(w, content, pieceLength) && w.data != [] && Intended(w, pieceLength) < U32
  }

  ghost predicate WrittenTo(ws: seq<Write>, pieceLength: nat, q: nat) {
    exists i :: 0 <= i < |ws| && Contains(Interval(Intended(ws[i], pieceLength), |ws[i].data|), q)
  }

  /** After correct writes in any order, every position written to holds the content's byte. */
  lemma {:induction false} ContentAfterWrites(f: Bytes, ws: seq<Write>, content: Bytes, pieceLength: nat)
    requires |f| == |content|
    requires forall i :: 0 <= i < |ws| ==> Correct(ws[i], content, pieceLength)
    ensures |AppliedAll(f, ws, pieceLength)| == |content|
    ensures forall q :: 0 <= q < |content| && WrittenTo(ws, pieceLength, q) ==>
              AppliedAll(f, ws, pieceLength)[q] == content[q]
    decreases |ws|
  {
    if ws != [] {
      var past, w := ws[..|ws| - 1], ws[|ws| - 1];
      ContentAfterWrites(f, past, content, pieceLength);
      assert Correct(w, content, pieceLength);
      AppliedFaithful(AppliedAll(f, past, pieceLength), w, content, pieceLength, 0);
      forall q | 0 <= q < |content| && WrittenTo(ws, pieceLength, q)
        ensures AppliedAll(f, ws, pieceLength)[q] == content[q]
      {
        LastOrEarlier(ws, pieceLength, q);
        AppliedFaithful(AppliedAll(f, past, pieceLength), w, content, pieceLength, q);
      }
    }
  }

  lemma LastOrEarlier(ws: seq<Write>, pieceLength: nat, q: nat)
    requires ws != [] && WrittenTo(ws, pieceLength, q)
    ensures var w := ws[|ws| - 1];
            WrittenTo(ws[..|ws| - 1], pieceLength, q) || Contains(Interval(Intended(w, pieceLength), |w.data|), q)
  {
    var i :| 0 <= i < |ws| && Contains(Interval(Intended(ws[i], pieceLength), |ws[i].data|), q);
    if i < |ws| - 1 {
      assert ws[..|ws| - 1][i] == ws[i];
    }
  }

  lemma AppliedFaithful(f: Bytes, w: Write, content: Bytes, pieceLength: nat, q: nat)
    requires |f| == |content| && Correct(w, content, pieceLength) && q < |content|
    ensures |Applied(f, w, pieceLength)| == |content|
    ensures Applied(f, w, pieceLength)[q]
         == if Contains(Interval(Intended(w, pieceLength), |w.data|), q) then content[q] else f[q]
  {
    var at := Intended(w, pieceLength);
    assert at % U32 == at;
    if at <= q < at + |w.data| {
      assert content[at..at + |w.data|][q - at] == content[q];
    }
  }

  /** Reading a range all of whose positions have been written returns the content there. */
  lemma {:induction false} ReadBack(f: Bytes, ws: seq<Write>, content: Bytes, pieceLength: nat, at: nat, length: nat)
    requires |f| == |content|
    requires forall i :: 0 <= i < |ws| ==> Correct(ws[i], content, pieceLength)
    requires at + length <= |content|
    requires forall q :: at <= q < at + length ==> WrittenTo(ws, pieceLength, q)
    ensures ReadAt(AppliedAll(f, ws, pieceLength), at, length) == content[at..at + length]
  {
    hide AppliedAll, WrittenTo, Correct;
    ContentAfterWrites(f, ws, content, pieceLength);
    var g := AppliedAll(f, ws, pieceLength);
    forall q | 0 <= q < length ensures ReadAt(g, at, length)[q] == content[at..at + length][q] {
      assert WrittenTo(ws, pieceLength, at + q);
    }
  }

  ghost predicate EachWritten(blocks: seq<Interval>, ws: seq<Write>, pieceLength: nat) {
    forall k :: 0 <= k < |blocks| ==>
      exists i :: 0 <= i < |ws| && blocks[k] == Interval(Intended(ws[i], pieceLength), |ws[i].data|)
  }

  lemma WrittenThrough(ws: seq<Write>, blocks: seq<Interval>, pieceLength: nat, q: nat)
    requires Covered(blocks, q) && EachWritten(blocks, ws, pieceLength)
    ensures WrittenTo(ws, pieceLength, q)
  {
    var k :| 0 <= k < |blocks| && Contains(blocks[k], q);
    var i :| 0 <= i < |ws| && blocks[k] == Interval(Intended(ws[i], pieceLength), |ws[i].data|);
  }

  /** In particular: once every block of the file has been written, the file is the content. */
  lemma {:induction false} WholeFile(f: Bytes, ws: seq<Write>, content: Bytes, length: uint64, pieceLength: uint64,
      n: nat)
    requires |f| == |content| == length && Consistent(length, pieceLength, n)
    requires forall i :: 0 <= i < |ws| ==> Correct(ws[i], content, pieceLength)
    requires EachWritten(FileBlocks(length, pieceLength, n), ws, pieceLength)
    ensures AppliedAll(f, ws, pieceLength) == content
  {
    hide FileBlocks, Tiles, Consistent, AppliedAll, Correct, WrittenTo, Covered, EachWritten;
    var blocks := FileBlocks(length, pieceLength, n);
    FileTiled(length, pieceLength, n);
    TilesPartition(blocks, 0, length);
    ContentAfterWrites(f, ws, content, pieceLength);
    forall q | 0 <= q < |content| ensures WrittenTo(ws, pieceLength, q) {
      WrittenThrough(ws, blocks, pieceLength, q);
    }
  }

  lemma OneMoreWrite(f: Bytes, ws: seq<Write>, w: Write, pieceLength: nat)
    ensures AppliedAll(f, ws + [w], pieceLength) == Applied(AppliedAll(f, ws, pieceLength), w, pieceLength)
  {
    assert (ws + [w])[..|ws|] == ws;
  }

  /** The first offset that does not fit: the data for byte 2^32 goes to the beginning of the file. */
  lemma WriteAtFourGiB(f: Bytes, data: Bytes, pieceLength: nat)
    requires pieceLength == 0x10_0000 && |f| > U32 && 0 < |data| <= 0x4000
    ensures Intended(Write(0x1000, 0, data), pieceLength) == U32
    ensures Applied(f, Write(0x1000, 0, data), pieceLength) == Overwritten(f, 0, data)
  {
  }

  /** A write puts its data where it belongs, whatever the file holds, exactly below 4 GiB. */
  lemma WritePlacement(w: Write, pieceLength: nat)
    requires w.data != []
    ensures (forall f: Bytes :: Applied(f, w, pieceLength) == Overwritten(f, Intended(w, pieceLength), w.data))
            <==> Intended(w, pieceLength) < U32
  {
    var at := Intended(w, pieceLength);
    assert |Applied([], w, pieceLength)| == at % U32 + |w.data|;
    assert |Overwritten([], at, w.data)| == at + |w.data|;
    assert at % U32 == at <==> at < U32;
  }
}
