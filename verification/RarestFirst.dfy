/** The rarest-first piece picker: an index of the pieces by availability, rebuilt when it is stale. */
module RarestFirst {
  import opened Bytes
  import opened PieceObjects

  // ---------------------------------------------------------------- sequences

  ghost predicate Permutes<T>(a: seq<T>, b: seq<T>) {
    multiset(a) == multiset(b)
  }

  ghost predicate Distinct<T>(s: seq<T>) {
    forall i, j :: 0 <= i < j < |s| ==> s[i] != s[j]
  }

  function Flatten<T>(buckets: seq<seq<T>>): seq<T> {
    if buckets == [] then [] else buckets[0] + Flatten(buckets[1..])
  }

  lemma {:induction false} FlattenAppend<T>(buckets: seq<seq<T>>, b: seq<T>)
    ensures Flatten(buckets + [b]) == Flatten(buckets) + b
    decreases |buckets|
  {
    if buckets == [] {
      assert [b][1..] == [];
    } else {
      assert (buckets + [b])[1..] == buckets[1..] + [b];
      FlattenAppend(buckets[1..], b);
      assert buckets[0] + (Flatten(buckets[1..]) + b) == buckets[0] + Flatten(buckets[1..]) + b;
    }
  }

  lemma {:induction false} DistinctCounts<T>(s: seq<T>)
    ensures Distinct(s) <==> forall x :: x in s ==> multiset(s)[x] == 1
    decreases |s|
  {
    if s != [] {
      var rest := s[1..];
      DistinctCounts(rest);
      assert s == [s[0]] + rest;
      if Distinct(s) {
        forall x | x in s ensures multiset(s)[x] == 1 {
          if x == s[0] {
            assert x !in rest;
          }
        }
      }
      if forall x :: x in s ==> multiset(s)[x] == 1 {
        assert multiset(s)[s[0]] == 1;
        forall x | x in rest ensures multiset(rest)[x] == 1 {
          assert x in s;
        }
      }
    }
  }

  lemma PermutedDistinct<T>(a: seq<T>, b: seq<T>)
    requires Permutes(a, b) && Distinct(b)
    ensures Distinct(a) && |a| == |b| && (forall x :: x in a <==> x in b)
    ensures (forall k :: 0 <= k < |a| ==> a[k] in b) && forall k :: 0 <= k < |b| ==> b[k] in a
  {
    DistinctCounts(a);
    DistinctCounts(b);
    assert |a| == |multiset(a)| == |multiset(b)| == |b|;
    forall x ensures x in a <==> x in b {
      assert x in multiset(a) <==> x in multiset(b);
    }
  }

  /** The elements of s that are in e, in the order of s. */
  ghost function Filter<T>(s: seq<T>, e: set<T>): (r: seq<T>)
    ensures |r| <= |s|
    ensures forall x :: x in r ==> x in s && x in e
    ensures forall x :: x in s ==> x in e ==> x in r
  {
    if s == [] then []
    else if s[|s| - 1] in e then Filter(s[..|s| - 1], e) + [s[|s| - 1]]
    else Filter(s[..|s| - 1], e)
  }

  lemma {:induction false} FilterAppend<T>(a: seq<T>, b: seq<T>, e: set<T>)
    ensures Filter(a + b, e) == Filter(a, e) + Filter(b, e)
    decreases |b|
  {
    if b == [] {
      assert a + b == a;
    } else {
      assert (a + b)[..|a + b| - 1] == a + b[..|b| - 1];
      FilterAppend(a, b[..|b| - 1], e);
    }
  }

  lemma {:induction false} FilterDistinct<T>(s: seq<T>, e: set<T>)
    requires Distinct(s)
    ensures Distinct(Filter(s, e))
    decreases |s|
  {
    if s != [] {
      FilterDistinct(s[..|s| - 1], e);
    }
  }

  lemma {:induction false} CountDistinct<T>(s: seq<T>, e: set<T>)
    requires Distinct(s) && (forall k :: 0 <= k < |s| ==> s[k] in e) && forall x :: x in e ==> x in s
    ensures |s| == |e|
    decreases |s|
  {
    if s == [] {
      assert e == {};
    } else {
      var last := s[|s| - 1];
      forall x | x in e - {last} ensures x in s[..|s| - 1] {
        var k :| 0 <= k < |s| && s[k] == x;
        assert x == s[..|s| - 1][k];
      }
      CountDistinct(s[..|s| - 1], e - {last});
    }
  }

  // ---------------------------------------------------------------- library calls

  ghost predicate SortedByAvailability(s: seq<Piece>)
    reads s`availability
  {
    forall i, j :: 0 <= i < j < |s| ==> s[i].availability <= s[j].availability
  }

  lemma SortedNothing()
    ensures SortedByAvailability([])
  {
  }

  lemma InsertedSorted(s: seq<Piece>, i: nat, p: Piece)
    requires i <= |s| && SortedByAvailability(s)
    requires forall k :: 0 <= k < i ==> s[k].availability <= p.availability
    requires i < |s| ==> p.availability <= s[i].availability
    ensures SortedByAvailability(s[..i] + [p] + s[i..])
  {
  }

  lemma InsertedMembers(s: seq<Piece>, i: nat, p: Piece)
    requires i <= |s|
    ensures multiset(s[..i] + [p] + s[i..]) == multiset(s) + multiset{p}
  {
    assert s == s[..i] + s[i..];
  }

  /** `std::sort` by availability, which promises some sorted permutation. */
  method SortByAvailability(s: seq<Piece>) returns (r: seq<Piece>)
    ensures Permutes(r, s) && SortedByAvailability(r)
  {
    r := [];
    hide SortedByAvailability;
    assert SortedByAvailability(r) by {
      SortedNothing();
    }
    for n := 0 to |s|
      invariant Permutes(r, s[..n]) && SortedByAvailability(r)
    {
      var i := 0;
      while i < |r| && r[i].availability <= s[n].availability
        invariant i <= |r| && forall k :: 0 <= k < i ==> r[k].availability <= s[n].availability
      {
        i := i + 1;
      }
      InsertedSorted(r, i, s[n]);
      InsertedMembers(r, i, s[n]);
      assert s[..n + 1] == s[..n] + [s[n]];
      r := r[..i] + [s[n]] + r[i..];
    }
    assert s[..|s|] == s;
  }

  /** `std::random_shuffle`, which promises some permutation. */
  method Shuffle<T>(s: seq<T>) returns (r: seq<T>)
    ensures Permutes(r, s)
  {
    r := [];
    var rest := s;
    while rest != []
      invariant multiset(r) + multiset(rest) == multiset(s)
      decreases |rest|
    {
      var i: nat :| i < |rest|;
      assert rest == rest[..i] + [rest[i]] + rest[i + 1..];
      r, rest := r + [rest[i]], rest[..i] + rest[i + 1..];
    }
  }

  // ---------------------------------------------------------------- the picker

  /** Every bucket holds pieces of one availability, its level, and the levels strictly increase. */
  ghost predicate Layered(buckets: seq<seq<Piece>>, levels: seq<nat>, all: seq<Piece>)
    reads all`availability
  {
    && |levels| == |buckets|
    && (forall i, j :: 0 <= i < j < |levels| ==> levels[i] < levels[j])
    && (forall i :: 0 <= i < |buckets| ==> buckets[i] != [])
    && (forall i, p :: 0 <= i < |buckets| && p in buckets[i] ==> p in all && p.availability == levels[i])
  }

  lemma TailLayered(buckets: seq<seq<Piece>>, levels: seq<nat>, all: seq<Piece>)
    requires buckets != [] && Layered(buckets, levels, all)
    ensures |levels| == |buckets|
    ensures Layered(buckets[1..], levels[1..], all)
    ensures forall k :: 0 <= k < |levels[1..]| ==> levels[0] < levels[1..][k]
    ensures forall i :: 0 <= i < |buckets[0]| ==> buckets[0][i].availability == levels[0]
  {
    forall i, p | 0 <= i < |buckets[1..]| && p in buckets[1..][i]
      ensures p in all && p.availability == levels[1..][i]
    {
      assert p in buckets[i + 1];
    }
    forall i | 0 <= i < |buckets[0]| ensures buckets[0][i].availability == levels[0] {
      assert buckets[0][i] in buckets[0];
    }
  }

  /** Every piece in the buckets has one of the levels. */
  lemma {:induction false} HasLevel(buckets: seq<seq<Piece>>, levels: seq<nat>, all: seq<Piece>, k: nat)
    returns (i: nat)
    requires Layered(buckets, levels, all) && k < |Flatten(buckets)|
    ensures i < |levels| && Flatten(buckets)[k].availability == levels[i]
    decreases |buckets|
  {
    hide Layered;
    TailLayered(buckets, levels, all);
    if k < |buckets[0]| {
      assert Flatten(buckets)[k] == buckets[0][k];
      i := 0;
    } else {
      i := HasLevel(buckets[1..], levels[1..], all, k - |buckets[0]|);
      i := i + 1;
    }
  }

  lemma {:induction false} LayeredSorted(buckets: seq<seq<Piece>>, levels: seq<nat>, all: seq<Piece>)
    requires Layered(buckets, levels, all)
    ensures SortedByAvailability(Flatten(buckets))
    decreases |buckets|
  {
    hide Layered;
    if buckets != [] {
      TailLayered(buckets, levels, all);
      LayeredSorted(buckets[1..], levels[1..], all);
      var b, rest := buckets[0], Flatten(buckets[1..]);
      forall j | 0 <= j < |rest| ensures levels[0] <= rest[j].availability {
        var k := HasLevel(buckets[1..], levels[1..], all, j);
      }
    }
  }

  lemma {:induction false} FilterSorted(s: seq<Piece>, e: set<Piece>)
    requires SortedByAvailability(s)
    ensures SortedByAvailability(Filter(s, e))
    ensures forall k :: 0 <= k < |Filter(s, e)| ==> Filter(s, e)[k] in s
    decreases |s|
  {
    if s != [] {
      var front := s[..|s| - 1];
      FilterSorted(front, e);
      forall k | 0 <= k < |Filter(front, e)| ensures Filter(front, e)[k].availability <= s[|s| - 1].availability {
        assert Filter(front, e)[k] in front;
      }
    }
  }

  class RarestFirstPicker {
    var pieces: seq<Piece>
    var buckets: seq<seq<Piece>>
    var dirty: bool
    ghost var levels: seq<nat>
    ghost const members: set<Piece>

    ghost predicate Valid()
      reads this, pieces`availability
    {
      && pieces != [] && Distinct(pieces)
      && (forall k :: 0 <= k < |pieces| ==> pieces[k] in members)
      && (forall i, j :: 0 <= i < j < |pieces| ==> pieces[i].index != pieces[j].index)
      && (!dirty ==> Permutes(Flatten(buckets), pieces) && Layered(buckets, levels, pieces))
    }

    constructor (pieces: seq<Piece>)
      requires pieces != [] && Distinct(pieces)
      requires forall i, j :: 0 <= i < j < |pieces| ==> pieces[i].index != pieces[j].index
      ensures Valid() && dirty && this.pieces == pieces && members == set p | p in pieces
    {
      this.pieces, buckets, dirty, levels := pieces, [], true, [];
      members := set p | p in pieces;
    }

    /** `increment_piece_availability`: the piece of that index, which has to exist, gets one more. */
    method Increment(index: nat)
      requires Valid() && exists i :: 0 <= i < |pieces| && pieces[i].index == index
      modifies pieces
      ensures pieces == old(pieces)
      ensures forall p :: p in pieces ==>
                && p.availability == old(p.availability) + (if p.index == index then 1 else 0)
                && p.slots == old(p.slots) && p.completeBlocks == old(p.completeBlocks)
    {
      var i := 0;
      while pieces[i].index != index
        invariant 0 <= i < |pieces| && forall k :: 0 <= k < i ==> pieces[k].index != index
        decreases |pieces| - i
      {
        i := i + 1;
      }
      pieces[i].availability := pieces[i].availability + 1;
    }

    /** `on_have`: the index is stale from now on. */
    method OnHave(index: nat)
      requires Valid() && exists i :: 0 <= i < |pieces| && pieces[i].index == index
      modifies this`dirty, pieces
      ensures Valid() && dirty
      ensures forall p :: p in pieces ==>
                && p.availability == old(p.availability) + (if p.index == index then 1 else 0)
                && p.slots == old(p.slots) && p.completeBlocks == old(p.completeBlocks)
    {
      Increment(index);
      dirty := true;
    }

    /** `on_bitfield`: every piece whose bit is set gets one more. */
    method OnBitfield(bitfield: seq<bool>)
      requires Valid()
      requires forall k :: 0 <= k < |bitfield| && bitfield[k] ==>
                 exists i :: 0 <= i < |pieces| && pieces[i].index == k
      modifies this`dirty, pieces
      ensures Valid() && dirty
      ensures forall p :: p in pieces ==>
                && p.availability == old(p.availability) + (if p.index < |bitfield| && bitfield[p.index] then 1 else 0)
                && p.slots == old(p.slots) && p.completeBlocks == old(p.completeBlocks)
    {
      dirty := true;
      for k := 0 to |bitfield|
        invariant Valid() && dirty && pieces == old(pieces)
        invariant forall p :: p in pieces ==>
                    && p.availability == old(p.availability) + (if p.index < k && bitfield[p.index] then 1 else 0)
                    && p.slots == old(p.slots) && p.completeBlocks == old(p.completeBlocks)
      {
        if bitfield[k] {
          Increment(k);
        }
      }
    }

    /** `sort_pieces`: the pieces in order of availability, one bucket for each value, shuffled. */
    method SortPieces()
      requires Valid()
      modifies this
      ensures Valid() && !dirty && Permutes(pieces, old(pieces))
    {
      hide Layered, Flatten;
      ghost var before := pieces;
      var sorted := SortByAvailability(pieces);
      PermutedDistinct(sorted, before);
      var index;
      ghost var tops;
      index, tops := Group(sorted);
      SameIndices(sorted, before);
      pieces, buckets, levels, dirty := sorted, index, tops, false;
    }

    ghost function EligibleSet(present: seq<bool>): set<Piece>
      reads this, pieces
    {
      set p | p in pieces && Eligible(p, present)
    }

    /** The eligible pieces, rarest first. */
    ghost function Candidates(present: seq<bool>): seq<Piece>
      reads this, pieces
    {
      Filter(Flatten(buckets), EligibleSet(present))
    }

    lemma EligibleInOrder(present: seq<bool>)
      requires Valid() && !dirty && forall p :: p in pieces ==> p.index < |present|
      ensures forall p :: p in Flatten(buckets) ==>
                p.index < |present| && (p in EligibleSet(present) <==> Eligible(p, present))
    {
      hide Flatten, Layered;
      var flat := Flatten(buckets);
      PermutedDistinct(flat, pieces);
      forall p | p in flat
        ensures p.index < |present| && (p in EligibleSet(present) <==> Eligible(p, present))
      {
        var k :| 0 <= k < |flat| && flat[k] == p;
        assert p in pieces;
      }
    }

    /** The candidates are the eligible pieces, each of them once, in order of their availability now. */
    lemma RarestFirstOrder(present: seq<bool>)
      requires Valid() && !dirty && forall p :: p in pieces ==> p.index < |present|
      ensures var c := Candidates(present);
              && SortedByAvailability(c) && Distinct(c) && |c| == |EligibleSet(present)|
              && (forall i, j :: 0 <= i < j < |c| ==> c[i].availability <= c[j].availability)
              && (forall p :: p in pieces ==>
                    (p in c <==> 0 < p.availability && p.completeBlocks != |p.slots| && present[p.index]))
              && (forall k :: 0 <= k < |c| ==> c[k] in pieces)
              && forall p :: p in pieces ==> (p in c <==> Eligible(p, present))
    {
      hide Layered, Filter;
      var flat, e := Flatten(buckets), EligibleSet(present);
      PermutedDistinct(flat, pieces);
      LayeredSorted(buckets, levels, pieces);
      FilterSorted(flat, e);
      FilterDistinct(flat, e);
      var c := Filter(flat, e);
      forall p | p in pieces ensures p in c <==> Eligible(p, present) {
        var k :| 0 <= k < |pieces| && pieces[k] == p;
        assert p in flat;
      }
      CountDistinct(c, e);
      forall k | 0 <= k < |c| ensures c[k] in pieces {
        var j :| 0 <= j < |flat| && flat[j] == c[k];
      }
    }

    /**
     * `next`: the piece number `attempt` among the available, incomplete pieces that the peer has, in
     * order of availability; null exactly when there are not that many.
     */
    method Next(present: seq<bool>, attempt: nat) returns (r: Piece?)
      requires Valid() && forall p :: p in pieces ==> p.index < |present|
      modifies this
      ensures Valid() && !dirty && Permutes(pieces, old(pieces))
      ensures !old(dirty) ==> pieces == old(pieces) && buckets == old(buckets) && levels == old(levels)
      ensures !old(dirty) ==> Candidates(present) == old(Candidates(present))
      ensures r == if attempt < |Candidates(present)| then Candidates(present)[attempt] else null
    {
      hide Flatten, Layered, Filter;
      ghost var before := pieces;
      if dirty {
        SortPieces();
        PermutedDistinct(pieces, before);
      }
      EligibleInOrder(present);
      r := Scan(buckets, present, attempt, EligibleSet(present));
    }
  }

  /** The loop of `sort_pieces`: the sorted pieces in one bucket for each availability. */
  method Group(sorted: seq<Piece>) returns (index: seq<seq<Piece>>, ghost tops: seq<nat>)
    requires sorted != [] && SortedByAvailability(sorted)
    ensures Permutes(Flatten(index), sorted) && Layered(index, tops, sorted)
  {
    hide Grouped, Layered, Flatten, Permutes, SortedByAvailability;
    index, tops := [], [];
    var bucket: seq<Piece> := [];
    var availability := sorted[0].availability;
    StartGrouping(sorted);
    for n := 0 to |sorted|
      invariant SortedByAvailability(sorted)
      invariant Grouped(index, tops, bucket, availability, sorted, n)
    {
      var piece := sorted[n];
      if piece.availability != availability {
        bucket := Shuffled(index, tops, bucket, sorted, n, availability);
        index, tops := index + [bucket], tops + [availability];
        bucket := [];
        availability := piece.availability;
      }
      AddPiece(index, tops, bucket, availability, sorted, n);
      bucket := bucket + [piece];
    }
    CloseLast(index, tops, bucket, availability, sorted);
    index, tops := index + [bucket], tops + [availability];
  }

  /** The loops over the buckets and their pieces. */
  method Scan(buckets: seq<seq<Piece>>, present: seq<bool>, attempt: nat, ghost e: set<Piece>) returns (r: Piece?)
    requires forall p :: p in Flatten(buckets) ==> p.index < |present| && (p in e <==> Eligible(p, present))
    ensures var c := Filter(Flatten(buckets), e); r == if attempt < |c| then c[attempt] else null
  {
    hide Flatten, Filter;
    NothingBefore(buckets, e);
    var left := attempt;
    for i := 0 to |buckets|
      invariant left == attempt - |Filter(Flatten(buckets[..i]), e)|
    {
      var bucket := buckets[i];
      BucketStands(buckets, i, e);
      for j := 0 to |bucket|
        invariant left == attempt - |Filter(Flatten(buckets[..i]), e)| - |Filter(bucket[..j], e)|
      {
        var piece := bucket[j];
        PieceStands(buckets, i, j, e);
        if piece.availability != 0 {
          if !piece.Complete() && present[piece.index] {
            if left == 0 {
              return piece;
            }
            left := left - 1;
          }
        }
      }
      assert bucket[..|bucket|] == bucket;
    }
    assert buckets[..|buckets|] == buckets;
    return null;
  }

  lemma NothingBefore(buckets: seq<seq<Piece>>, e: set<Piece>)
    ensures Filter(Flatten(buckets[..0]), e) == []
    ensures forall b: seq<Piece> :: Filter(b[..0], e) == []
  {
  }

  ghost predicate Eligible(p: Piece, present: seq<bool>)
    reads p
  {
    p.availability > 0 && !p.Complete() && p.index < |present| && present[p.index]
  }

  /** The first n sorted pieces are in closed buckets and in the current one. */
  ghost predicate Grouped(index: seq<seq<Piece>>, tops: seq<nat>, bucket: seq<Piece>, availability: nat,
      sorted: seq<Piece>, n: nat)
    requires n <= |sorted|
    reads sorted
  {
    && Permutes(Flatten(index) + bucket, sorted[..n])
    && Layered(index, tops, sorted)
    && (forall i :: 0 <= i < |tops| ==> tops[i] < availability)
    && (forall p :: p in bucket ==> p in sorted && p.availability == availability)
    && (n < |sorted| ==> availability <= sorted[n].availability)
    && (n > 0 && (n == |sorted| || sorted[n].availability != availability) ==> bucket != [])
    && (n == 0 && sorted != [] ==> availability == sorted[0].availability)
  }

  lemma CloseBucket(index: seq<seq<Piece>>, tops: seq<nat>, bucket: seq<Piece>, r: seq<Piece>,
      availability: nat, sorted: seq<Piece>, n: nat)
    requires n <= |sorted| && Grouped(index, tops, bucket, availability, sorted, n)
    requires Permutes(r, bucket) && bucket != []
    ensures Permutes(Flatten(index + [r]), sorted[..n])
    ensures Layered(index + [r], tops + [availability], sorted)
  {
    hide Flatten;
    assert |r| == |multiset(r)| == |multiset(bucket)| == |bucket|;
    forall p | p in r ensures p in bucket {
      assert p in multiset(r);
    }
    FlattenAppend(index, r);
    assert multiset(Flatten(index) + r) == multiset(Flatten(index) + bucket);
    LayeredMore(index, tops, r, availability, sorted);
  }

  lemma LayeredMore(index: seq<seq<Piece>>, tops: seq<nat>, r: seq<Piece>, availability: nat, all: seq<Piece>)
    requires Layered(index, tops, all) && r != []
    requires forall i :: 0 <= i < |tops| ==> tops[i] < availability
    requires forall p :: p in r ==> p in all && p.availability == availability
    ensures Layered(index + [r], tops + [availability], all)
  {
  }

  lemma StartGrouping(sorted: seq<Piece>)
    requires sorted != []
    ensures Grouped([], [], [], sorted[0].availability, sorted, 0)
  {
    var none: seq<Piece> := [];
    assert Flatten([]) + none == sorted[..0];
  }

  /** A bucket is shuffled and closed, and the next one opened. */
  method Shuffled(ghost index: seq<seq<Piece>>, ghost tops: seq<nat>, bucket: seq<Piece>,
      ghost sorted: seq<Piece>, ghost n: nat, ghost availability: nat)
    returns (r: seq<Piece>)
    requires n < |sorted| && Grouped(index, tops, bucket, availability, sorted, n)
    requires sorted[n].availability != availability
    ensures Grouped(index + [r], tops + [availability], [], sorted[n].availability, sorted, n)
  {
    hide Layered, Flatten, Permutes;
    r := Shuffle(bucket);
    CloseBucket(index, tops, bucket, r, availability, sorted, n);
    assert Flatten(index + [r]) + [] == Flatten(index + [r]);
  }

  lemma AddPiece(index: seq<seq<Piece>>, tops: seq<nat>, bucket: seq<Piece>, availability: nat,
      sorted: seq<Piece>, n: nat)
    requires n < |sorted| && SortedByAvailability(sorted) && Grouped(index, tops, bucket, availability, sorted, n)
    requires sorted[n].availability == availability
    ensures Grouped(index, tops, bucket + [sorted[n]], availability, sorted, n + 1)
  {
    hide Layered;
    assert sorted[..n + 1] == sorted[..n] + [sorted[n]];
    assert Flatten(index) + (bucket + [sorted[n]]) == Flatten(index) + bucket + [sorted[n]];
  }

  lemma CloseLast(index: seq<seq<Piece>>, tops: seq<nat>, bucket: seq<Piece>, availability: nat, sorted: seq<Piece>)
    requires sorted != [] && Grouped(index, tops, bucket, availability, sorted, |sorted|)
    ensures Permutes(Flatten(index + [bucket]), sorted)
    ensures Layered(index + [bucket], tops + [availability], sorted)
  {
    hide Layered, Flatten;
    CloseBucket(index, tops, bucket, bucket, availability, sorted, |sorted|);
    assert sorted[..|sorted|] == sorted;
  }

  lemma SameIndices(a: seq<Piece>, b: seq<Piece>)
    requires Permutes(a, b) && Distinct(b)
    requires forall i, j :: 0 <= i < j < |b| ==> b[i].index != b[j].index
    ensures forall i, j :: 0 <= i < j < |a| ==> a[i].index != a[j].index
  {
    PermutedDistinct(a, b);
    forall i, j | 0 <= i < j < |a| ensures a[i].index != a[j].index {
      assert a[i] in b && a[j] in b;
    }
  }

  lemma BucketStands(buckets: seq<seq<Piece>>, i: nat, e: set<Piece>)
    requires i < |buckets|
    ensures Flatten(buckets[..i + 1]) == Flatten(buckets[..i]) + buckets[i]
    ensures Filter(Flatten(buckets[..i + 1]), e) == Filter(Flatten(buckets[..i]), e) + Filter(buckets[i], e)
  {
    assert buckets[..i + 1] == buckets[..i] + [buckets[i]];
    FlattenAppend(buckets[..i], buckets[i]);
    FilterAppend(Flatten(buckets[..i]), buckets[i], e);
  }

  lemma {:induction false} FlattenSplit(buckets: seq<seq<Piece>>, i: nat)
    requires i <= |buckets|
    ensures Flatten(buckets) == Flatten(buckets[..i]) + Flatten(buckets[i..])
    decreases i
  {
    if i == 0 {
      assert buckets[..0] == [] && buckets[0..] == buckets;
    } else {
      FlattenSplit(buckets[1..], i - 1);
      assert buckets[1..][..i - 1] == buckets[..i][1..] && buckets[1..][i - 1..] == buckets[i..];
      assert buckets[0] + (Flatten(buckets[..i][1..]) + Flatten(buckets[i..]))
          == buckets[0] + Flatten(buckets[..i][1..]) + Flatten(buckets[i..]);
    }
  }

  lemma {:induction false} FilterOne(p: Piece, e: set<Piece>)
    ensures Filter([p], e) == if p in e then [p] else []
  {
    assert [p][..0] == [];
  }

  lemma FilterNext(b: seq<Piece>, j: nat, e: set<Piece>)
    requires j < |b|
    ensures Filter(b[..j + 1], e) == Filter(b[..j], e) + if b[j] in e then [b[j]] else []
  {
    hide Filter;
    assert b[..j + 1] == b[..j] + [b[j]];
    FilterAppend(b[..j], [b[j]], e);
    FilterOne(b[j], e);
  }

  lemma FlattenAround(buckets: seq<seq<Piece>>, i: nat, j: nat)
    requires i < |buckets| && j < |buckets[i]|
    ensures Flatten(buckets)
         == Flatten(buckets[..i]) + buckets[i][..j + 1] + (buckets[i][j + 1..] + Flatten(buckets[i + 1..]))
  {
    FlattenSplit(buckets, i);
    var b := buckets[i];
    assert buckets[i..][0] == b && buckets[i..][1..] == buckets[i + 1..];
    assert b == b[..j + 1] + b[j + 1..];
  }

  /** Where the filtered order has a piece that the loop has come to. */
  lemma PieceStands(buckets: seq<seq<Piece>>, i: nat, j: nat, e: set<Piece>)
    requires i < |buckets| && j < |buckets[i]|
    ensures buckets[i][j] in Flatten(buckets)
    ensures |Filter(buckets[i][..j + 1], e)| == |Filter(buckets[i][..j], e)| + (if buckets[i][j] in e then 1 else 0)
    ensures var k := |Filter(Flatten(buckets[..i]), e)| + |Filter(buckets[i][..j], e)|;
            buckets[i][j] in e ==> k < |Filter(Flatten(buckets), e)| && Filter(Flatten(buckets), e)[k] == buckets[i][j]
  {
    hide Filter, Flatten;
    var b := buckets[i];
    var front, tail := Flatten(buckets[..i]), b[j + 1..] + Flatten(buckets[i + 1..]);
    FlattenAround(buckets, i, j);
    assert Flatten(buckets)[|front| + j] == b[j];
    FilterAppend(front, b[..j + 1], e);
    FilterAppend(front + b[..j + 1], tail, e);
    FilterNext(b, j, e);
  }
}
