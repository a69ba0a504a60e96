/** How a peer asks for blocks: its interest in the other side, and the request pipeline. */
module RequestLoop {
  import opened PieceObjects
  import opened Pieces
  import opened RarestFirst

  const PIPELINE := 10

  datatype Sent = Interested | NotInterested | Request(index: nat, begin: nat, length: nat)

  predicate Requestable(s: Slot) {
    !s.requested && !s.complete
  }

  function Marked(slots: seq<Slot>): (m: seq<Slot>)
    ensures |m| == |slots|
    ensures forall k :: 0 <= k < |m| ==> m[k].block == slots[k].block && m[k].complete == slots[k].complete
    ensures forall k :: 0 <= k < |m| ==> !Requestable(m[k]) && (!Requestable(slots[k]) ==> m[k] == slots[k])
    ensures forall k :: 0 <= k < |m| ==> m[k].requested == (slots[k].requested || !slots[k].complete)
  {
    seq(|slots|, k requires 0 <= k < |slots| =>
      if Requestable(slots[k]) then slots[k].(requested := true) else slots[k])
  }

  /** One request for each of the first n blocks that can be requested. */
  ghost function RequestsOf(index: nat, slots: seq<Slot>, n: nat): seq<Sent>
    requires n <= |slots|
  {
    if n == 0 then []
    else
      var s := slots[n - 1];
      RequestsOf(index, slots, n - 1)
      + if Requestable(s) then [Request(index, s.block.offset, s.block.size)] else []
  }

  ghost function Asked(list: seq<Piece>, had: map<Piece, seq<Slot>>, k: nat, found: bool): seq<Sent>
    requires found ==> k < |list| && list[k] in had
  {
    if found then RequestsOf(list[k].index, had[list[k]], |had[list[k]]|) else []
  }

  /** What is requested for the first n pieces of a list, given the blocks they had. */
  ghost function AllRequests(list: seq<Piece>, had: map<Piece, seq<Slot>>, n: nat): seq<Sent>
    requires n <= |list| && forall i :: 0 <= i < |list| ==> list[i] in had
  {
    if n == 0 then []
    else
      AllRequests(list, had, n - 1) + Asked(list, had, n - 1, true)
  }

  ghost function SlotsOf(pieces: seq<Piece>): (m: map<Piece, seq<Slot>>)
    reads pieces
    ensures m.Keys == set p | p in pieces
    ensures forall p :: p in pieces ==> m[p] == p.slots
  {
    map p | p in pieces :: p.slots
  }

  // ---------------------------------------------------------------- what the requests are

  lemma {:induction false} RequestsOfExactly(index: nat, slots: seq<Slot>, n: nat, r: Sent)
    requires n <= |slots|
    ensures r in RequestsOf(index, slots, n) <==>
            exists k :: 0 <= k < n && !slots[k].requested && !slots[k].complete &&
                         r == Request(index, slots[k].block.offset, slots[k].block.size)
    decreases n
  {
    if n > 0 {
      RequestsOfExactly(index, slots, n - 1, r);
    }
  }

  /** These are requests for one piece, at increasing offsets below the given one. */
  ghost predicate InOrder(r: seq<Sent>, index: nat, below: nat) {
    && (forall i :: 0 <= i < |r| ==> r[i].Request? && r[i].index == index && r[i].begin < below)
    && forall i, j :: 0 <= i < j < |r| ==> r[i].begin < r[j].begin
  }

  /** The requests of a piece are in the order of its blocks. */
  lemma {:induction false} RequestsInOrder(index: nat, slots: seq<Slot>, n: nat, below: nat)
    requires n <= |slots| && forall i, j :: 0 <= i < j < |slots| ==> slots[i].block.offset < slots[j].block.offset
    requires forall i :: 0 <= i < n ==> slots[i].block.offset < below
    ensures InOrder(RequestsOf(index, slots, n), index, below)
    decreases n
  {
    if n > 0 {
      RequestsInOrder(index, slots, n - 1, slots[n - 1].block.offset);
    }
  }

  ghost predicate OffsetsDiffer(slots: seq<Slot>) {
    forall i, j :: 0 <= i < j < |slots| ==> slots[i].block.offset != slots[j].block.offset
  }

  lemma {:induction false} RequestsOfOnce(index: nat, slots: seq<Slot>, n: nat)
    requires n <= |slots|
    requires OffsetsDiffer(slots)
    ensures Distinct(RequestsOf(index, slots, n)) && |RequestsOf(index, slots, n)| <= n
    decreases n
  {
    if n > 0 {
      RequestsOfOnce(index, slots, n - 1);
      var r := Request(index, slots[n - 1].block.offset, slots[n - 1].block.size);
      RequestsOfExactly(index, slots, n - 1, r);
    }
  }

  /** Requested are exactly the blocks of the first n pieces that were neither requested nor complete. */
  lemma {:induction false} AllRequestsExactly(list: seq<Piece>, had: map<Piece, seq<Slot>>, n: nat, r: Sent)
    requires n <= |list| && forall i :: 0 <= i < |list| ==> list[i] in had
    ensures r in AllRequests(list, had, n) <==>
            exists i :: 0 <= i < n && OfPiece(r, list[i], had[list[i]])
    decreases n
  {
    hide OfPiece;
    if n > 0 {
      AllRequestsExactly(list, had, n - 1, r);
      RequestedOf(list[n - 1], had[list[n - 1]], r);
    }
  }

  /** The request for a block of a piece that was neither requested nor complete. */
  ghost predicate OfPiece(r: Sent, piece: Piece, slots: seq<Slot>) {
    exists k :: 0 <= k < |slots| && !slots[k].requested && !slots[k].complete &&
                r == Request(piece.index, slots[k].block.offset, slots[k].block.size)
  }

  lemma RequestedOf(piece: Piece, slots: seq<Slot>, r: Sent)
    ensures r in RequestsOf(piece.index, slots, |slots|) <==> OfPiece(r, piece, slots)
  {
    RequestsOfExactly(piece.index, slots, |slots|, r);
  }

  lemma DistinctParts<T>(a: seq<T>, b: seq<T>)
    requires Distinct(a) && Distinct(b) && forall x :: x in a ==> x !in b
    ensures Distinct(a + b)
  {
    forall i, j | 0 <= i < j < |a + b| ensures (a + b)[i] != (a + b)[j] {
      if i < |a| <= j {
        assert a[i] in a && b[j - |a|] in b;
      }
    }
  }

  /** No block is requested twice. */
  lemma {:induction false} AllRequestsOnce(list: seq<Piece>, had: map<Piece, seq<Slot>>, n: nat)
    requires n <= |list| && forall i :: 0 <= i < |list| ==> list[i] in had
    requires forall i, j :: 0 <= i < j < |list| ==> list[i].index != list[j].index
    requires forall k :: 0 <= k < |list| ==> OffsetsDiffer(had[list[k]])
    ensures Distinct(AllRequests(list, had, n))
    decreases n
  {
    if n > 0 {
      AllRequestsOnce(list, had, n - 1);
      var p := list[n - 1];
      assert p in list;
      var before, added := AllRequests(list, had, n - 1), RequestsOf(p.index, had[p], |had[p]|);
      RequestsOfOnce(p.index, had[p], |had[p]|);
      forall r | r in before ensures r !in added {
        AllRequestsExactly(list, had, n - 1, r);
        if r in added {
          var i :| 0 <= i < n - 1 && OfPiece(r, list[i], had[list[i]]);
          assert list[i].index != p.index;
        }
        RequestsOfExactly(p.index, had[p], |had[p]|, r);
      }
      DistinctParts(before, added);
    }
  }

  // ---------------------------------------------------------------- the peer

  class Peer {
    const picker: RarestFirstPicker
    var present: seq<bool>
    var interested: bool
    var blocksInQueue: nat
    var sent: seq<Sent>

    ghost predicate Valid()
      reads this, picker, picker.pieces
    {
      picker.Valid() && forall p :: p in picker.pieces ==> p.index < |present| && p.Shaped()
    }

    constructor (picker: RarestFirstPicker, pieces: nat)
      requires picker.Valid() && forall p :: p in picker.pieces ==> p.index < pieces && p.Shaped()
      ensures Valid() && this.picker == picker && !interested && blocksInQueue == 0 && sent == []
      ensures |present| == pieces && forall i :: 0 <= i < pieces ==> !present[i]
    {
      this.picker, present := picker, seq(pieces, _ => false);
      interested, blocksInQueue, sent := false, 0, [];
    }

    /**
     * `refresh_download_interest`: afterwards this side is interested exactly when the other has a piece
     * that is missing here, and says so exactly when that has changed.
     */
    method RefreshInterest(have: seq<bool>)
      requires |have| == |present|
      modifies this`interested, this`sent
      ensures interested <==> exists i :: 0 <= i < |have| && !have[i] && present[i]
      ensures sent == old(sent) + if interested == old(interested) then []
                                  else if interested then [Interested] else [NotInterested]
    {
      var interesting := false;
      for i := 0 to |have|
        invariant interesting <==> exists k :: 0 <= k < i && !have[k] && present[k]
        invariant interested <==> old(interested) || interesting
        invariant sent == old(sent) + if interested == old(interested) then [] else [Interested]
      {
        if !have[i] && present[i] {
          if !interested {
            sent := sent + [Interested];
            interested := true;
          }
          interesting := true;
        }
      }
      if !interesting && interested {
        interested := false;
        sent := sent + [NotInterested];
      }
    }

    /** The loop over the blocks of one piece. */
    method RequestPiece(piece: Piece)
      modifies piece`slots, this`blocksInQueue, this`sent
      ensures piece.slots == Marked(old(piece.slots))
      ensures sent == old(sent) + RequestsOf(piece.index, old(piece.slots), |old(piece.slots)|)
      ensures blocksInQueue == old(blocksInQueue) + |RequestsOf(piece.index, old(piece.slots), |old(piece.slots)|)|
    {
      ghost var had := piece.slots;
      for k := 0 to |piece.slots|
        invariant |piece.slots| == |had|
        invariant forall i :: 0 <= i < |had| ==> piece.slots[i] == if i < k then Marked(had)[i] else had[i]
        invariant sent == old(sent) + RequestsOf(piece.index, had, k)
        invariant blocksInQueue == old(blocksInQueue) + |RequestsOf(piece.index, had, k)|
      {
        var s := piece.slots[k];
        if !s.requested && !s.complete {
          piece.slots := piece.slots[k := s.(requested := true)];
          sent := sent + [Request(piece.index, s.block.offset, s.block.size)];
          blocksInQueue := blocksInQueue + 1;
        }
      }
    }

    ghost function Slots(): map<Piece, seq<Slot>>
      reads picker, picker.pieces
    {
      SlotsOf(picker.pieces)
    }

    ghost function Candidates(): seq<Piece>
      reads this, picker, picker.pieces
    {
      picker.Candidates(present)
    }

    lemma CandidatesAreHere()
      ensures forall k :: 0 <= k < |Candidates()| ==> Candidates()[k] in picker.pieces
    {
      forall k | 0 <= k < |Candidates()| ensures Candidates()[k] in picker.pieces {
        assert Candidates()[k] in Candidates();
      }
    }

    /** The call of the picker: the order is fixed, and stays as it is once it is. */
    method Choose(attempt: nat) returns (piece: Piece?)
      requires Valid()
      modifies picker
      ensures Valid() && !picker.dirty && Slots() == old(Slots())
      ensures !old(picker.dirty) ==> Candidates() == old(Candidates())
      ensures Distinct(Candidates()) && forall k :: 0 <= k < |Candidates()| ==> Candidates()[k] in picker.pieces
      ensures piece == if attempt < |Candidates()| then Candidates()[attempt] else null
      ensures |Candidates()| <= |picker.pieces| == |old(picker.pieces)|
    {
      hide Flatten, Filter, Layered, RarestFirstPicker.EligibleSet;
      ghost var before := picker.pieces;
      piece := picker.Next(present, attempt);
      PermutedDistinct(picker.pieces, before);
      picker.RarestFirstOrder(present);
      assert Slots() == old(Slots());
    }

    /** Asking for the blocks of a piece keeps the order of the candidates. */
    method Ask(piece: Piece)
      requires Valid() && piece in picker.pieces
      modifies piece`slots, this`blocksInQueue, this`sent
      ensures Valid() && Candidates() == old(Candidates())
      ensures Slots() == old(Slots())[piece := Marked(old(piece.slots))]
      ensures sent == old(sent) + RequestsOf(piece.index, old(piece.slots), |old(piece.slots)|)
      ensures blocksInQueue == old(blocksInQueue) + |RequestsOf(piece.index, old(piece.slots), |old(piece.slots)|)|
    {
      RequestPiece(piece);
      assert picker.EligibleSet(present) == old(picker.EligibleSet(present)) by {
        forall p | p in picker.pieces ensures Eligible(p, present) == old(Eligible(p, present)) {
        }
      }
    }

    ghost predicate Filled(candidates: seq<Piece>, had: map<Piece, seq<Slot>>, n: nat, sentBefore: seq<Sent>,
        queuedBefore: nat)
      reads this
    {
      && n <= |candidates| && (forall i :: 0 <= i < |candidates| ==> candidates[i] in had)
      && sent == sentBefore + AllRequests(candidates, had, n)
      && blocksInQueue == queuedBefore + |AllRequests(candidates, had, n)|
      && (n > 0 ==> blocksInQueue < PIPELINE + |Asked(candidates, had, n - 1, true)|)
    }

    lemma NothingYet()
      ensures Served(Slots(), Candidates(), Slots(), 0)
      ensures Filled(Candidates(), Slots(), 0, sent, blocksInQueue)
    {
      CandidatesAreHere();
    }

    /** One round of the loop: the next candidate, if there is one, is asked for all it can still give. */
    method Round(attempt: nat, ghost had: map<Piece, seq<Slot>>, ghost sentBefore: seq<Sent>, ghost queuedBefore: nat)
      returns (found: bool)
      requires Valid() && (attempt > 0 ==> !picker.dirty) && blocksInQueue < PIPELINE
      requires Served(Slots(), Candidates(), had, attempt)
      requires Filled(Candidates(), had, attempt, sentBefore, queuedBefore)
      modifies this`blocksInQueue, this`sent, picker, picker.members`slots
      ensures Valid() && !picker.dirty && |picker.pieces| == |old(picker.pieces)|
      ensures attempt <= |Candidates()| && (found <==> attempt < |Candidates()|)
      ensures found ==> attempt < |picker.pieces|
      ensures Served(Slots(), Candidates(), had, if found then attempt + 1 else attempt)
      ensures Filled(Candidates(), had, if found then attempt + 1 else attempt, sentBefore, queuedBefore)
      ensures !found ==> blocksInQueue == old(blocksInQueue)
      ensures !old(picker.dirty) ==> Candidates() == old(Candidates())
    {
      hide Candidates, RequestsOf, AllRequests, Filled, Distinct;
      ghost var before := Candidates();
      var piece := Choose(attempt);
      FilledBefore(before, had, attempt, sentBefore, queuedBefore);
      if piece == null {
        return false;
      }
      Take(piece, attempt, had, sentBefore, queuedBefore);
      return true;
    }

    /** The chosen candidate is asked for all it can still give. */
    method Take(piece: Piece, ghost n: nat, ghost had: map<Piece, seq<Slot>>, ghost sentBefore: seq<Sent>,
        ghost queuedBefore: nat)
      requires Valid() && blocksInQueue < PIPELINE && piece in picker.pieces
      requires n < |Candidates()| && Distinct(Candidates()) && piece == Candidates()[n]
      requires Served(Slots(), Candidates(), had, n) && Filled(Candidates(), had, n, sentBefore, queuedBefore)
      modifies piece`slots, this`blocksInQueue, this`sent
      ensures Valid() && Candidates() == old(Candidates())
      ensures Served(Slots(), Candidates(), had, n + 1) && Filled(Candidates(), had, n + 1, sentBefore, queuedBefore)
    {
      hide Valid, Candidates, RequestsOf, AllRequests;
      ServedMore(Slots(), Candidates(), had, n);
      MoreRequests(Candidates(), had, n, sentBefore);
      Ask(piece);
    }

    /** Before the first request, the order of the candidates does not matter. */
    lemma FilledBefore(before: seq<Piece>, had: map<Piece, seq<Slot>>, n: nat, sentBefore: seq<Sent>, queuedBefore: nat)
      requires n <= |before| && forall i :: 0 <= i < |before| ==> before[i] in had
      requires forall i :: 0 <= i < |Candidates()| ==> Candidates()[i] in had
      requires n == 0 || Candidates() == before
      requires Filled(before, had, n, sentBefore, queuedBefore)
      ensures Filled(Candidates(), had, n, sentBefore, queuedBefore)
    {
    }

    /** When all candidates have been asked, no eligible piece has a block left to ask for. */
    lemma NothingLeft(had: map<Piece, seq<Slot>>, n: nat)
      requires Valid() && Served(Slots(), Candidates(), had, n) && n == |Candidates()| && !picker.dirty
      ensures forall p :: p in picker.pieces && Eligible(p, present) ==>
                forall k :: 0 <= k < |p.slots| ==> !Requestable(p.slots[k])
    {
      picker.RarestFirstOrder(present);
      forall p | p in picker.pieces && Eligible(p, present)
        ensures forall k :: 0 <= k < |p.slots| ==> !Requestable(p.slots[k])
      {
        var i :| 0 <= i < |Candidates()| && Candidates()[i] == p;
        assert Slots()[p] == Marked(had[p]);
      }
    }

    lemma EachOnce(had: map<Piece, seq<Slot>>, n: nat)
      requires Valid() && Served(Slots(), Candidates(), had, n)
      requires n > 0 ==> !picker.dirty
      ensures Distinct(AllRequests(Candidates(), had, n))
    {
      if n > 0 {
        picker.RarestFirstOrder(present);
        IndicesDiffer();
        BlocksDiffer(had, n);
        hide Valid, Candidates, Served, AllRequests, RarestFirstPicker.Candidates, RarestFirstPicker.Valid;
        AllRequestsOnce(Candidates(), had, n);
      }
    }

    lemma IndicesDiffer()
      requires Valid() && !picker.dirty
      ensures forall i, j :: 0 <= i < j < |Candidates()| ==> Candidates()[i].index != Candidates()[j].index
    {
      hide RarestFirstPicker.Candidates;
      picker.RarestFirstOrder(present);
      var c := Candidates();
      forall i, j | 0 <= i < j < |c| ensures c[i].index != c[j].index {
        assert c[i] in picker.pieces && c[j] in picker.pieces && c[i] != c[j];
      }
    }

    lemma BlocksDiffer(had: map<Piece, seq<Slot>>, n: nat)
      requires Valid() && Served(Slots(), Candidates(), had, n)
      ensures forall k :: 0 <= k < |Candidates()| ==> Candidates()[k] in had && OffsetsDiffer(had[Candidates()[k]])
    {
      hide Candidates, OffsetsDiffer, RarestFirstPicker.Valid;
      var c := Candidates();
      forall k | 0 <= k < |c| ensures c[k] in had && OffsetsDiffer(had[c[k]]) {
        assert c[k] in Slots() && c[k].Shaped();
        ShapedOffsets(c[k]);
        SameBlocks(Slots(), c, had, n, c[k]);
      }
    }

    /** The loop of `request_blocks`. */
    method Fill() returns (attempt: nat)
      requires Valid()
      modifies this`blocksInQueue, this`sent, picker, picker.members`slots
      ensures Valid() && Served(Slots(), Candidates(), old(Slots()), attempt)
      ensures Filled(Candidates(), old(Slots()), attempt, old(sent), old(blocksInQueue))
      ensures old(blocksInQueue) >= PIPELINE ==>
                attempt == 0 && picker.pieces == old(picker.pieces) && picker.buckets == old(picker.buckets)
      ensures old(blocksInQueue) < PIPELINE ==> !picker.dirty
      ensures blocksInQueue >= PIPELINE || attempt == |Candidates()|
      ensures !old(picker.dirty) ==> Candidates() == old(Candidates())
    {
      hide *;
      ghost var order, ordered := Candidates(), !picker.dirty;
      ghost var had, total := Slots(), |picker.pieces|;
      ghost var sentBefore, queuedBefore := sent, blocksInQueue;
      NothingYet();
      attempt := 0;
      while blocksInQueue < PIPELINE
        invariant Valid() && |picker.pieces| == total
        invariant attempt > 0 ==> !picker.dirty && queuedBefore < PIPELINE
        invariant ordered ==> !picker.dirty && Candidates() == order
        invariant attempt == 0 ==> blocksInQueue == queuedBefore
        invariant attempt == 0 ==> picker.pieces == old(picker.pieces) && picker.buckets == old(picker.buckets)
        invariant Served(Slots(), Candidates(), had, attempt)
        invariant Filled(Candidates(), had, attempt, sentBefore, queuedBefore)
        decreases total - attempt
      {
        var found := Round(attempt, had, sentBefore, queuedBefore);
        if !found {
          break;
        }
        attempt := attempt + 1;
      }
    }

    /**
     * `request_blocks`: the first n candidates, rarest first, are asked for every block that was neither
     * requested nor complete, until the pipeline is full or no candidate is left; a full pipeline from the
     * start means that nothing happens. Of the pieces, only request flags change, so who is a candidate
     * does not; an order that was fixed stays.
     */
    method RequestBlocks() returns (ghost n: nat)
      requires Valid()
      modifies this`blocksInQueue, this`sent, picker, picker.members`slots
      ensures Valid() && Served(Slots(), Candidates(), old(Slots()), n)
      ensures sent == old(sent) + AllRequests(Candidates(), old(Slots()), n)
      ensures blocksInQueue == old(blocksInQueue) + |AllRequests(Candidates(), old(Slots()), n)|
      ensures n > 0 ==> old(blocksInQueue) + |AllRequests(Candidates(), old(Slots()), n - 1)| < 10
      ensures old(blocksInQueue) >= 10 ==>
                n == 0 && picker.pieces == old(picker.pieces) && picker.buckets == old(picker.buckets)
      ensures old(blocksInQueue) < 10 ==> !picker.dirty
      ensures !old(picker.dirty) ==> Candidates() == old(Candidates())
      ensures forall p :: p in old(picker.pieces) ==> (Eligible(p, present) <==> old(Eligible(p, present)))
      ensures blocksInQueue >= 10 || n == |Candidates()|
      ensures blocksInQueue >= 10 || forall p :: p in picker.pieces && Eligible(p, present) ==>
                forall k :: 0 <= k < |p.slots| ==> p.slots[k].requested || p.slots[k].complete
      ensures Distinct(AllRequests(Candidates(), old(Slots()), n))
    {
      n := Fill();
      forall p | p in old(picker.pieces) ensures |p.slots| == |old(p.slots)| {
        assert p in old(Slots());
        ServedLength(Slots(), Candidates(), old(Slots()), n, p);
      }
      if blocksInQueue < PIPELINE {
        NothingLeft(old(Slots()), n);
      }
      EachOnce(old(Slots()), n);
    }
  }

  lemma MoreRequests(list: seq<Piece>, had: map<Piece, seq<Slot>>, n: nat, before: seq<Sent>)
    requires n < |list| && (forall i :: 0 <= i < |list| ==> list[i] in had)
    ensures |AllRequests(list, had, n + 1)| == |AllRequests(list, had, n)| + |Asked(list, had, n, true)|
    ensures before + AllRequests(list, had, n + 1) == before + AllRequests(list, had, n) + Asked(list, had, n, true)
  {
  }

  /** The first n of the candidates have been asked for everything, and nothing else has changed. */
  ghost predicate Served(now: map<Piece, seq<Slot>>, candidates: seq<Piece>, had: map<Piece, seq<Slot>>, n: nat)
  {
    && n <= |candidates|
    && now.Keys == had.Keys
    && (forall i :: 0 <= i < |candidates| ==> candidates[i] in had)
    && (forall i :: 0 <= i < n ==> now[candidates[i]] == Marked(had[candidates[i]]))
    && (forall p :: p in had ==> p !in candidates[..n] ==> now[p] == had[p])
  }

  lemma ServedLength(now: map<Piece, seq<Slot>>, candidates: seq<Piece>, had: map<Piece, seq<Slot>>, n: nat, p: Piece)
    requires Served(now, candidates, had, n) && p in had
    ensures |now[p]| == |had[p]|
  {
    if p in candidates[..n] {
      var i :| 0 <= i < n && candidates[i] == p;
    }
  }

  lemma ShapedOffsets(p: Piece)
    requires p.Shaped()
    ensures OffsetsDiffer(p.slots)
  {
    forall i, j | 0 <= i < j < |p.slots| ensures p.slots[i].block.offset != p.slots[j].block.offset {
      BlockStart(p.size, 0, i);
      BlockStart(p.size, 0, j);
    }
  }

  lemma SameBlocks(now: map<Piece, seq<Slot>>, candidates: seq<Piece>, had: map<Piece, seq<Slot>>, n: nat, p: Piece)
    requires Served(now, candidates, had, n) && p in had && OffsetsDiffer(now[p])
    ensures OffsetsDiffer(had[p])
  {
    if p in candidates[..n] {
      var i :| 0 <= i < n && candidates[i] == p;
      assert now[p] == Marked(had[p]);
    }
  }

  lemma ServedMore(now: map<Piece, seq<Slot>>, candidates: seq<Piece>, had: map<Piece, seq<Slot>>, n: nat)
    requires Served(now, candidates, had, n) && n < |candidates| && Distinct(candidates)
    ensures now[candidates[n]] == had[candidates[n]]
    ensures Served(now[candidates[n] := Marked(had[candidates[n]])], candidates, had, n + 1)
  {
    assert candidates[..n + 1] == candidates[..n] + [candidates[n]];
  }
}
