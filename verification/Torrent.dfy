/** The torrent: blocks written to the file, and pieces validated against their hashes. */
module Torrent {
  import opened Bytes
  import opened Pieces
  import opened Completion
  import opened PieceObjects
  import Sha1

  class Torrent {
    const nominal: uint64
    const pieces: seq<Piece>
    var file: Bytes
    var downloaded: nat
    var validated: nat
    ghost var inFlight: multiset<nat>
    ghost var writes: seq<Write>
    ghost const size: nat

    ghost predicate Valid()
      reads this, pieces
    {
      && (forall i :: 0 <= i < |pieces| ==> pieces[i].Shaped())
      && (forall i, j :: 0 <= i < j < |pieces| ==> pieces[i] != pieces[j])
      && file == AppliedAll(Zeros(size), writes, nominal)
      && forall i :: 0 <= i < |pieces| ==> WasWritten(writes, i, pieces[i].slots)
    }

    /** Every write so far has brought bytes of the content to their place. */
    ghost predicate Received(content: Bytes)
      reads this
    {
      |content| == size && forall i :: 0 <= i < |writes| ==> Correct(writes[i], content, nominal)
    }

    ghost predicate Covered(at: nat, length: nat)
      reads this
    {
      at + length <= size && forall q :: at <= q < at + length ==> WrittenTo(writes, nominal, q)
    }

    ghost function PieceStates(): (s: seq<PieceState>)
      reads pieces
      ensures |s| == |pieces| && forall i :: 0 <= i < |s| ==> s[i] == pieces[i].Abs()
    {
      seq(|pieces|, i requires 0 <= i < |pieces| reads pieces => pieces[i].Abs())
    }

    ghost function Abs(): TorrentState
      reads this, pieces
    {
      TorrentState(PieceStates(), downloaded, validated, inFlight)
    }

    constructor (nominal: uint64, pieces: seq<Piece>, size: nat)
      requires forall i :: 0 <= i < |pieces| ==> pieces[i].Shaped() && pieces[i].Abs() == WasReset(pieces[i].Abs())
      requires forall i, j :: 0 <= i < j < |pieces| ==> pieces[i] != pieces[j]
      ensures Valid() && Initial(Abs()) && this.pieces == pieces && this.nominal == nominal && file == Zeros(size)
      ensures writes == [] && this.size == size
    {
      this.nominal, this.pieces, file := nominal, pieces, Zeros(size);
      downloaded, validated, inFlight := 0, 0, multiset{};
      writes, this.size := [], size;
    }

    /**
     * `write_block`, up to handing the data to the file: the offset is computed in 32 bits. Below that
     * limit the data can be read at its place afterwards, and the rest of the file is as it was.
     */
    method WriteBlock(p: nat, offset: nat, data: Bytes)
      requires Valid()
      modifies this`file, this`writes
      ensures Valid() && writes == old(writes) + [Write(p, offset, data)]
      ensures var at := Intended(Write(p, offset, data), nominal); at < U32 ==> Placed(old(file), file, at, data)
    {
      hide AppliedAll, Overwritten, Placed, Piece.Shaped, FileOffset, WasWritten;
      forall i | 0 <= i < |pieces| ensures WasWritten(writes + [Write(p, offset, data)], i, pieces[i].slots) {
        StaysWritten(writes, Write(p, offset, data), i, pieces[i].slots);
      }
      OneMoreWrite(Zeros(size), writes, Write(p, offset, data), nominal);
      var fileOffset := FileOffset(p, offset, nominal) % U32;
      OverwrittenPlaced(file, fileOffset, data);
      file := Overwritten(file, fileOffset, data);
      writes := writes + [Write(p, offset, data)];
    }

    /**
     * `read_block`: 64-bit offsets, into a buffer of zeros. When all writes were correct and cover the
     * range, what is read is the content's part there.
     */
    method ReadBlock(p: nat, offset: nat, length: nat) returns (buf: Bytes)
      requires Valid()
      ensures var at := FileOffset(p, offset, nominal);
              && buf == ReadAt(file, at, length)
              && forall content :: Received(content) && Covered(at, length) ==> buf == content[at..at + length]
    {
      hide FileOffset, AppliedAll, Piece.Shaped;
      var fileOffset := FileOffset(p, offset, nominal);
      buf := ReadAt(file, fileOffset, length);
      forall content | Received(content) && Covered(fileOffset, length)
        ensures buf == content[fileOffset..fileOffset + length]
      {
        ContentRead(content, fileOffset, length);
      }
    }

    lemma ContentRead(content: Bytes, at: nat, length: nat)
      requires Valid() && Received(content) && Covered(at, length)
      ensures ReadAt(file, at, length) == content[at..at + length]
    {
      ReadBack(Zeros(size), writes, content, nominal, at, length);
    }

    /** The handler of a finished block write: it may start a validation. */
    method OnWritten(p: nat, offset: nat)
      requires Valid() && p < |pieces| && offset < pieces[p].size
      requires exists i :: 0 <= i < |writes| && writes[i].piece == p && writes[i].offset == offset
      modifies this`inFlight, pieces[p]
      ensures Valid()
      ensures Enabled(old(Abs()), Written(p, offset / BLOCK))
      ensures Abs() == Step(old(Abs()), Written(p, offset / BLOCK))
      ensures pieces[p].availability == old(pieces[p].availability)
      ensures RequestsStay(old(pieces[p].slots), pieces[p].slots)
    {
      hide WasWritten, AppliedAll;
      ghost var before, slots := PieceStates(), pieces[p].slots;
      var piece := pieces[p];
      piece.BlockWritten(offset);
      assert piece.Abs().flags == FlagsOf(slots)[offset / BLOCK := true];
      AlsoWritten(writes, p, offset, slots, piece.slots);
      if piece.Complete() {
        inFlight := inFlight + multiset{p};
      }
      assert PieceStates() == before[p := MarkWritten(before[p], offset / BLOCK)];
    }

    /** The bytes that a validation reads. */
    ghost function PieceBytes(p: nat): Bytes
      requires p < |pieces|
      reads this
    {
      ReadAt(file, FileOffset(p, 0, nominal), pieces[p].size)
    }

    /**
     * `validate_piece`, as the step in which its read is answered: the piece counts as downloaded
     * exactly when the SHA-1 hash of its part of the file is the piece's hash, and is emptied else.
     */
    method OnValidation(p: nat)
      requires Valid() && p < |pieces| && p in inFlight
      modifies this`downloaded, this`validated, this`inFlight, pieces[p]
      ensures Valid()
      ensures Enabled(old(Abs()), Checked(p, Sha1.DigestBytes(Sha1.Sha1(old(PieceBytes(p)))) == pieces[p].hash))
      ensures Abs() == Step(old(Abs()), Checked(p, Sha1.DigestBytes(Sha1.Sha1(old(PieceBytes(p)))) == pieces[p].hash))
      ensures pieces[p].availability == old(pieces[p].availability)
      ensures RequestsStay(old(pieces[p].slots), pieces[p].slots)
    {
      hide Step, Enabled, PieceStates, Abs, PieceBytes, Sha1.DigestBytes, Sha1.Sha1;
      var buffer := ReadBlock(p, 0, pieces[p].size);
      IsPieceBytes(p, buffer);
      var digest := Sha1.ComputeHash(buffer);
      Settle(p, digest == pieces[p].hash);
    }

    lemma IsPieceBytes(p: nat, buffer: Bytes)
      requires p < |pieces| && buffer == ReadAt(file, FileOffset(p, 0, nominal), pieces[p].size)
      ensures buffer == PieceBytes(p)
    {
    }

    /** The two outcomes of the comparison. */
    method Settle(p: nat, valid: bool)
      requires Valid() && p < |pieces| && p in inFlight
      modifies this`downloaded, this`validated, this`inFlight, pieces[p]
      ensures Valid()
      ensures Enabled(old(Abs()), Checked(p, valid)) && Abs() == Step(old(Abs()), Checked(p, valid))
      ensures pieces[p].availability == old(pieces[p].availability)
      ensures RequestsStay(old(pieces[p].slots), pieces[p].slots)
    {
      hide AppliedAll;
      ghost var before := PieceStates();
      var piece := pieces[p];
      inFlight := inFlight - multiset{p};
      if valid {
        downloaded := downloaded + piece.size;
        validated := validated + 1;
        assert PieceStates() == before;
      } else {
        piece.Reset();
        assert PieceStates() == before[p := WasReset(before[p])];
      }
    }

    /** Every write to the piece so far has brought a whole block of it. */
    ghost predicate WholeBlocks(p: nat)
      requires p < |pieces|
      reads this, pieces[p]
    {
      forall i :: 0 <= i < |writes| && writes[i].piece == p ==> IsBlock(pieces[p].size, writes[i])
    }

    /** A piece that is full after correct writes of whole blocks is validated against the content's bytes. */
    lemma CompletePieceBytes(p: nat, content: Bytes)
      requires Valid() && p < |pieces| && Received(content) && WholeBlocks(p) && Full(pieces[p].Abs())
      ensures |PieceBytes(p)| == pieces[p].size
      ensures PieceBytes(p) != [] ==> At(content, FileOffset(p, 0, nominal), PieceBytes(p))
    {
      hide Full, AppliedAll, WrittenTo, Correct, FileOffset, WasWritten;
      var at, bytes := FileOffset(p, 0, nominal), PieceBytes(p);
      ContentAfterWrites(Zeros(size), writes, content, nominal);
      forall q | 0 <= q < |bytes| ensures at + q < |content| && content[at + q] == bytes[q] {
        ByteWritten(p, content, q);
        assert WrittenTo(writes, nominal, at + q);
        assert bytes[q] == file[at + q];
      }
      if bytes != [] {
        ByteWritten(p, content, |bytes| - 1);
      }
    }

    /** A byte of a full piece lies in a block, and the block has been written. */
    lemma ByteWritten(p: nat, content: Bytes, q: nat)
      requires Valid() && p < |pieces| && Received(content) && WholeBlocks(p) && Full(pieces[p].Abs())
      requires q < pieces[p].size
      ensures FileOffset(p, 0, nominal) + q < size && WrittenTo(writes, nominal, FileOffset(p, 0, nominal) + q)
    {
      var n, b := pieces[p].size, q / BLOCK;
      BlockByOffset(n, q);
      assert pieces[p].slots[b].complete by {
        assert pieces[p].Abs().flags[b];
      }
      var i :| 0 <= i < |writes| && writes[i].piece == p && writes[i].offset / BLOCK == b;
      assert IsBlock(n, writes[i]);
      BlockStart(n, 0, b);
      assert Correct(writes[i], content, nominal);
      assert Contains(Interval(Intended(writes[i], nominal), |writes[i].data|), FileOffset(p, 0, nominal) + q);
    }
  }

  /** The data is at its place, and everything else is as it was. */
  ghost predicate Placed(before: Bytes, after: Bytes, at: nat, data: Bytes) {
    && |before| <= |after|
    && (forall q :: 0 <= q < |data| ==> at + q < |after| && after[at + q] == data[q])
    && (forall q :: 0 <= q < |before| && !(at <= q < at + |data|) ==> after[q] == before[q])
  }

  lemma OverwrittenPlaced(f: Bytes, at: nat, data: Bytes)
    ensures Placed(f, Overwritten(f, at, data), at, data)
  {
  }

  /** A write to block b of piece p has been issued. */
  ghost predicate Issued(writes: seq<Write>, p: nat, b: nat) {
    exists i :: 0 <= i < |writes| && writes[i].piece == p && writes[i].offset / BLOCK == b
  }

  /** So it has for every block that is flagged as complete. */
  ghost predicate WasWritten(writes: seq<Write>, p: nat, slots: seq<Slot>) {
    forall b :: 0 <= b < |slots| && slots[b].complete ==> Issued(writes, p, b)
  }

  lemma StaysWritten(writes: seq<Write>, w: Write, p: nat, slots: seq<Slot>)
    requires WasWritten(writes, p, slots)
    ensures WasWritten(writes + [w], p, slots)
  {
    forall b | 0 <= b < |slots| && slots[b].complete ensures Issued(writes + [w], p, b) {
      var i :| 0 <= i < |writes| && writes[i].piece == p && writes[i].offset / BLOCK == b;
      assert (writes + [w])[i] == writes[i];
    }
  }

  /** One more flag, for a block that has been written. */
  lemma AlsoWritten(writes: seq<Write>, p: nat, offset: nat, before: seq<Slot>, after: seq<Slot>)
    requires WasWritten(writes, p, before) && |after| == |before|
    requires exists i :: 0 <= i < |writes| && writes[i].piece == p && writes[i].offset == offset
    requires forall b :: 0 <= b < |after| && after[b].complete ==> before[b].complete || b == offset / BLOCK
    ensures WasWritten(writes, p, after)
  {
    assert Issued(writes, p, offset / BLOCK);
  }

  /** The write is for exactly one of the blocks of a piece of that size. */
  ghost predicate IsBlock(size: nat, w: Write) {
    var b := w.offset / BLOCK;
    b < |BlocksOf(size)| && BlocksOf(size)[b] == Block(|w.data|, w.offset)
  }

  ghost predicate RequestsStay(before: seq<Slot>, after: seq<Slot>) {
    |before| == |after| && forall i :: 0 <= i < |after| ==> after[i].requested == before[i].requested
  }

  /**
   * 16384 bytes in two pieces of 16384: the blocks tile the file, but the second piece has none, and no
   * run makes `validated` two.
   */
  lemma SecondPieceEmpty(start: TorrentState)
    requires Initial(start) && |start.pieces| == 2
    requires forall p :: 0 <= p < 2 ==> |start.pieces[p].flags| == |BlocksOf(PieceSize(BLOCK, BLOCK, 2, p))|
    ensures Consistent(BLOCK, BLOCK, 2) && PieceSize(BLOCK, BLOCK, 2, 1) == 0
    ensures start.pieces[1].flags == [] && !exists trace :: ValidatesAll(start, trace)
  {
    AllCanBeValidated(start);
    assert start.pieces[1].flags == [];
  }
}
