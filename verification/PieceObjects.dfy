/** The piece objects that the torrent, the piece picker and the peers share. */
module PieceObjects {
  import opened Bytes
  import opened Pieces
  import opened Completion

  /** A block with its two flags. */
  datatype Slot = Slot(block: Block, requested: bool, complete: bool)

  function SlotsFor(blocks: seq<Block>): (s: seq<Slot>)
    ensures |s| == |blocks| && forall i :: 0 <= i < |s| ==> s[i] == Slot(blocks[i], false, false)
  {
    seq(|blocks|, i requires 0 <= i < |blocks| => Slot(blocks[i], false, false))
  }

  ghost function FlagsOf(slots: seq<Slot>): (f: seq<bool>)
    ensures |f| == |slots| && forall i :: 0 <= i < |f| ==> f[i] == slots[i].complete
  {
    seq(|slots|, i requires 0 <= i < |slots| => slots[i].complete)
  }

  class Piece {
    const index: nat
    const hash: seq<bv8>
    const size: uint32
    var slots: seq<Slot>
    var completeBlocks: nat
    var availability: nat

    /** The blocks are those that the constructor cuts the piece into. */
    ghost predicate Shaped()
      reads this
    {
      |slots| == |BlocksOf(size)| && forall i :: 0 <= i < |slots| ==> slots[i].block == BlocksOf(size)[i]
    }

    ghost function Abs(): PieceState
      reads this
    {
      PieceState(size, FlagsOf(slots), completeBlocks)
    }

    constructor (index: nat, hash: seq<bv8>, size: uint32)
      ensures this.index == index && this.hash == hash && this.size == size
      ensures Shaped() && availability == 0 && Abs() == WasReset(Abs())
      ensures forall i :: 0 <= i < |slots| ==> !slots[i].requested
    {
      this.index, this.hash, this.size := index, hash, size;
      completeBlocks, availability := 0, 0;
      var blocks := MakeBlocks(size);
      slots := SlotsFor(blocks);
    }

    function Complete(): bool
      reads this
    {
      completeBlocks == |slots|
    }

    /** `block_written`: the flag of the block at the offset is set, and the counter goes up. */
    method BlockWritten(offset: nat)
      requires Shaped() && offset < size
      modifies this`slots, this`completeBlocks
      ensures Shaped() && offset / BLOCK < |slots| == |old(slots)|
      ensures Abs() == MarkWritten(old(Abs()), offset / BLOCK)
      ensures forall i :: 0 <= i < |slots| ==> slots[i].requested == old(slots)[i].requested
    {
      BlockByOffset(size, offset);
      var k := offset / BLOCK;
      slots := slots[k := slots[k].(complete := true)];
      completeBlocks := completeBlocks + 1;
      assert FlagsOf(slots) == FlagsOf(old(slots))[k := true];
    }

    /** `reset`: no block is complete any more. Which blocks are requested does not change. */
    method Reset()
      requires Shaped()
      modifies this`slots, this`completeBlocks
      ensures Shaped() && Abs() == WasReset(old(Abs()))
      ensures |slots| == |old(slots)| && forall i :: 0 <= i < |slots| ==> slots[i].requested == old(slots)[i].requested
    {
      for k := 0 to |slots|
        invariant |slots| == |old(slots)|
        invariant forall i :: 0 <= i < |slots| ==>
                    slots[i] == if i < k then old(slots)[i].(complete := false) else old(slots)[i]
      {
        slots := slots[k := slots[k].(complete := false)];
      }
      completeBlocks := 0;
      assert FlagsOf(slots) == NoFlags(|slots|);
    }
  }
}
