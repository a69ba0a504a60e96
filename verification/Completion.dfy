/** Completion and validation of pieces, as a step machine over all runs. */
module Completion {

  /** A piece as far as completion goes: its size, the flags of its blocks, and the counter. */
  datatype PieceState = PieceState(size: nat, flags: seq<bool>, count: nat)

  /** inFlight: the validations that have been started and not answered yet. */
  datatype TorrentState =
    TorrentState(pieces: seq<PieceState>, downloaded: nat, validated: nat, inFlight: multiset<nat>)

  /** A block write is reported done, or the hash of a piece has been compared. */
  datatype Event = Written(p: nat, b: nat) | Checked(p: nat, ok: bool)

  function NoFlags(n: nat): (f: seq<bool>)
    ensures |f| == n && forall i :: 0 <= i < n ==> !f[i]
  {
    seq(n, _ => false)
  }

  function MarkWritten(piece: PieceState, b: nat): PieceState
    requires b < |piece.flags|
  {
    piece.(flags := piece.flags[b := true], count := piece.count + 1)
  }

  function WasReset(piece: PieceState): PieceState {
    piece.(flags := NoFlags(|piece.flags|), count := 0)
  }

  function IsComplete(piece: PieceState): bool {
    piece.count == |piece.flags|
  }

  ghost predicate Enabled(st: TorrentState, e: Event) {
    e.p < |st.pieces| && if e.Written? then e.b < |st.pieces[e.p].flags| else e.p in st.inFlight
  }

  /** One handler: block_written and the test after it, or the answer of a validation. */
  ghost function Step(st: TorrentState, e: Event): TorrentState
    requires Enabled(st, e)
  {
    match e
    case Written(p, b) =>
      var piece := MarkWritten(st.pieces[p], b);
      st.(pieces := st.pieces[p := piece],
          inFlight := if IsComplete(piece) then st.inFlight + multiset{p} else st.inFlight)
    case Checked(p, ok) =>
      var after := st.(inFlight := st.inFlight - multiset{p});
      if ok then after.(downloaded := st.downloaded + st.pieces[p].size, validated := st.validated + 1)
      else after.(pieces := st.pieces[p := WasReset(st.pieces[p])])
  }

  ghost predicate Initial(st: TorrentState) {
    && st.downloaded == 0 && st.validated == 0 && st.inFlight == multiset{}
    && forall p :: 0 <= p < |st.pieces| ==> st.pieces[p] == WasReset(st.pieces[p])
  }

  /** A run: every event was possible when it happened. */
  ghost predicate Possible(start: TorrentState, trace: seq<Event>)
    decreases |trace|, 0
  {
    Initial(start) &&
    (trace == [] ||
     var past := trace[..|trace| - 1];
     Possible(start, past) && Enabled(Run(start, past), trace[|trace| - 1]))
  }

  ghost function Run(start: TorrentState, trace: seq<Event>): TorrentState
    requires Possible(start, trace)
    decreases |trace|, 1
  {
    if trace == [] then start else Step(Run(start, trace[..|trace| - 1]), trace[|trace| - 1])
  }

  /** How often block b of piece p has been reported written since the piece was last reset. */
  ghost function Reports(trace: seq<Event>, p: nat, b: nat): nat {
    if trace == [] then 0
    else
      var before, e := Reports(trace[..|trace| - 1], p, b), trace[|trace| - 1];
      if e == Written(p, b) then before + 1 else if e == Checked(p, false) then 0 else before
  }

  ghost function SumReports(trace: seq<Event>, p: nat, n: nat): nat {
    if n == 0 then 0 else SumReports(trace, p, n - 1) + Reports(trace, p, n - 1)
  }

  ghost function CountTrue(flags: seq<bool>, n: nat): nat
    requires n <= |flags|
  {
    if n == 0 then 0 else CountTrue(flags, n - 1) + (if flags[n - 1] then 1 else 0)
  }

  // ---------------------------------------------------------------- the counter

  lemma {:induction false} SumAfter(trace: seq<Event>, p: nat, n: nat)
    requires trace != []
    ensures var past, e := trace[..|trace| - 1], trace[|trace| - 1];
            SumReports(trace, p, n) ==
            if e.Written? && e.p == p && e.b < n then SumReports(past, p, n) + 1
            else if e == Checked(p, false) then 0
            else SumReports(past, p, n)
    decreases n
  {
    if n > 0 {
      SumAfter(trace, p, n - 1);
    }
  }

  lemma {:induction false} SumOfNothing(p: nat, n: nat)
    ensures SumReports([], p, n) == 0
    decreases n
  {
    if n > 0 {
      SumOfNothing(p, n - 1);
    }
  }

  /** In every run: a flag is set when its block has been reported, and the counter counts all reports. */
  lemma {:induction false} CounterCountsReports(start: TorrentState, trace: seq<Event>, p: nat)
    requires Possible(start, trace) && p < |start.pieces|
    ensures var st := Run(start, trace);
            && |st.pieces| == |start.pieces|
            && st.pieces[p].size == start.pieces[p].size
            && |st.pieces[p].flags| == |start.pieces[p].flags|
            && st.pieces[p].count == SumReports(trace, p, |st.pieces[p].flags|)
            && forall b :: 0 <= b < |st.pieces[p].flags| ==> (st.pieces[p].flags[b] <==> Reports(trace, p, b) > 0)
    decreases |trace|
  {
    if trace == [] {
      SumOfNothing(p, |start.pieces[p].flags|);
      assert start.pieces[p] == WasReset(start.pieces[p]);
    } else {
      CounterCountsReports(start, trace[..|trace| - 1], p);
      SumAfter(trace, p, |start.pieces[p].flags|);
    }
  }

  lemma {:induction false} SumAgainstFlags(trace: seq<Event>, p: nat, flags: seq<bool>, n: nat)
    requires n <= |flags| && forall b :: 0 <= b < |flags| ==> (flags[b] <==> Reports(trace, p, b) > 0)
    ensures CountTrue(flags, n) <= SumReports(trace, p, n)
    ensures CountTrue(flags, n) == SumReports(trace, p, n) <==> forall b :: 0 <= b < n ==> Reports(trace, p, b) <= 1
    decreases n
  {
    if n > 0 {
      SumAgainstFlags(trace, p, flags, n - 1);
    }
  }

  /** The counter is the number of complete blocks exactly when none was reported twice since a reset. */
  lemma CounterExact(start: TorrentState, trace: seq<Event>, p: nat)
    requires Possible(start, trace) && p < |start.pieces|
    ensures var st := Run(start, trace);
            && |st.pieces| == |start.pieces|
            && var piece := st.pieces[p];
               piece.count == CountTrue(piece.flags, |piece.flags|) <==>
               forall b :: 0 <= b < |piece.flags| ==> Reports(trace, p, b) <= 1
  {
    CounterCountsReports(start, trace, p);
    var piece := Run(start, trace).pieces[p];
    SumAgainstFlags(trace, p, piece.flags, |piece.flags|);
  }

  lemma {:induction false} CountFull(flags: seq<bool>, n: nat)
    requires n <= |flags|
    ensures CountTrue(flags, n) <= n
    ensures CountTrue(flags, n) == n <==> forall b :: 0 <= b < n ==> flags[b]
  {
    if n > 0 {
      CountFull(flags, n - 1);
    }
  }

  // ---------------------------------------------------------------- runs without repeated reports

  /** No block is ever reported written twice between resets of its piece. */
  ghost predicate NoRepeats(trace: seq<Event>) {
    trace == [] ||
    var past, e := trace[..|trace| - 1], trace[|trace| - 1];
    NoRepeats(past) && (e.Written? ==> Reports(past, e.p, e.b) == 0)
  }

  ghost predicate Full(piece: PieceState) {
    forall b :: 0 <= b < |piece.flags| ==> piece.flags[b]
  }

  /** The validation of the piece has succeeded. */
  ghost predicate Passed(trace: seq<Event>, p: nat) {
    Checked(p, true) in trace
  }

  lemma {:induction false} AtMostOneReport(trace: seq<Event>, p: nat, b: nat)
    requires NoRepeats(trace)
    ensures Reports(trace, p, b) <= 1
    decreases |trace|
  {
    if trace != [] {
      AtMostOneReport(trace[..|trace| - 1], p, b);
    }
  }

  lemma LastChecked(trace: seq<Event>, p: nat)
    requires trace != []
    ensures Passed(trace, p) <==> Passed(trace[..|trace| - 1], p) || trace[|trace| - 1] == Checked(p, true)
  {
    assert trace == trace[..|trace| - 1] + [trace[|trace| - 1]];
  }

  /** Complete by the counter is complete by the flags. */
  lemma CompleteMeansFull(start: TorrentState, trace: seq<Event>, p: nat)
    requires Possible(start, trace) && NoRepeats(trace) && p < |start.pieces|
    ensures |Run(start, trace).pieces| == |start.pieces|
    ensures IsComplete(Run(start, trace).pieces[p]) <==> Full(Run(start, trace).pieces[p])
  {
    CounterExact(start, trace, p);
    CounterCountsReports(start, trace, p);
    var piece := Run(start, trace).pieces[p];
    forall b | 0 <= b < |piece.flags| ensures Reports(trace, p, b) <= 1 {
      AtMostOneReport(trace, p, b);
    }
    CountFull(piece.flags, |piece.flags|);
  }

  /** A piece without blocks is never sent to validation, and so it never passes, in any run. */
  lemma {:induction false} EmptyNever(start: TorrentState, trace: seq<Event>, p: nat)
    requires Possible(start, trace) && p < |start.pieces| && start.pieces[p].flags == []
    ensures p !in Run(start, trace).inFlight && !Passed(trace, p)
    decreases |trace|
  {
    if trace != [] {
      var past, e := trace[..|trace| - 1], trace[|trace| - 1];
      EmptyNever(start, past, p);
      CounterCountsReports(start, past, p);
      LastChecked(trace, p);
      hide Passed, Reports, SumReports;
      assert Run(start, trace) == Step(Run(start, past), e);
      assert e.p != p;
    }
  }

  /** As many validations of the piece are under way as there should be. */
  ghost predicate Watched(st: TorrentState, p: nat, passed: bool) {
    && p < |st.pieces|
    && st.inFlight[p] == (if Full(st.pieces[p]) && st.pieces[p].flags != [] && !passed then 1 else 0)
    && (passed ==> Full(st.pieces[p]))
  }

  lemma WatchedStep(st: TorrentState, e: Event, p: nat, passed: bool)
    requires Enabled(st, e) && Watched(st, p, passed)
    requires e.Written? && e.p == p ==> !st.pieces[p].flags[e.b]
    requires IsComplete(Step(st, e).pieces[p]) <==> Full(Step(st, e).pieces[p])
    ensures Watched(Step(st, e), p, passed || e == Checked(p, true))
  {
    if e == Checked(p, false) && st.pieces[p].flags != [] {
      assert !Step(st, e).pieces[p].flags[0];
    }
  }

  /**
   * A piece is being validated exactly from the write that fills it to the answer: then it is either
   * done for good, or empty again. A piece without blocks is full from the beginning, and never validated.
   */
  lemma {:induction false} ValidationOnce(start: TorrentState, trace: seq<Event>, p: nat)
    requires Possible(start, trace) && NoRepeats(trace) && p < |start.pieces|
    ensures Watched(Run(start, trace), p, Passed(trace, p))
    decreases |trace|
  {
    if trace == [] {
      assert start.pieces[p] == WasReset(start.pieces[p]);
      assert start.pieces[p].flags != [] ==> !start.pieces[p].flags[0];
    } else {
      var past, e := trace[..|trace| - 1], trace[|trace| - 1];
      ValidationOnce(start, past, p);
      CompleteMeansFull(start, trace, p);
      CounterCountsReports(start, past, p);
      LastChecked(trace, p);
      hide Reports, SumReports, Passed, Full, IsComplete, Step, Watched;
      WatchedStep(Run(start, past), e, p, Passed(past, p));
    }
  }

  ghost function PassedSize(start: TorrentState, trace: seq<Event>, n: nat): nat
    requires n <= |start.pieces|
  {
    if n == 0 then 0
    else PassedSize(start, trace, n - 1) + (if Passed(trace, n - 1) then start.pieces[n - 1].size else 0)
  }

  ghost function PassedCount(trace: seq<Event>, n: nat): nat {
    if n == 0 then 0 else PassedCount(trace, n - 1) + (if Passed(trace, n - 1) then 1 else 0)
  }

  lemma {:induction false} PassedAfter(start: TorrentState, trace: seq<Event>, n: nat)
    requires trace != [] && n <= |start.pieces|
    ensures var past, e := trace[..|trace| - 1], trace[|trace| - 1];
            var added := e.Checked? && e.ok && e.p < n && !Passed(past, e.p);
            && PassedCount(trace, n) == PassedCount(past, n) + (if added then 1 else 0)
            && PassedSize(start, trace, n)
               == PassedSize(start, past, n) + (if added then start.pieces[e.p].size else 0)
    decreases n
  {
    if n > 0 {
      PassedAfter(start, trace, n - 1);
      LastChecked(trace, n - 1);
    }
  }

  lemma {:induction false} NothingPassed(start: TorrentState, n: nat)
    requires n <= |start.pieces|
    ensures PassedCount([], n) == 0 && PassedSize(start, [], n) == 0
  {
    if n > 0 {
      NothingPassed(start, n - 1);
    }
  }

  /** `downloaded` and `validated` are the total size and the number of the pieces that have passed. */
  lemma {:induction false} Totals(start: TorrentState, trace: seq<Event>)
    requires Possible(start, trace) && NoRepeats(trace)
    ensures Run(start, trace).validated == PassedCount(trace, |start.pieces|)
    ensures Run(start, trace).downloaded == PassedSize(start, trace, |start.pieces|)
    decreases |trace|
  {
    if trace == [] {
      NothingPassed(start, |start.pieces|);
    } else {
      var past, e := trace[..|trace| - 1], trace[|trace| - 1];
      Totals(start, past);
      PassedAfter(start, trace, |start.pieces|);
      if |start.pieces| > 0 {
        CounterCountsReports(start, past, 0);
      }
      if e.Checked? {
        assert e.p < |Run(start, past).pieces|;
        assert |Run(start, past).pieces| == |start.pieces| by { SameShape(start, past); }
        ValidationOnce(start, past, e.p);
        CounterCountsReports(start, past, e.p);
      }
    }
  }

  lemma {:induction false} SameShape(start: TorrentState, trace: seq<Event>)
    requires Possible(start, trace)
    ensures |Run(start, trace).pieces| == |start.pieces|
    decreases |trace|
  {
    if trace != [] {
      SameShape(start, trace[..|trace| - 1]);
    }
  }

  // ---------------------------------------------------------------- when everything has been validated

  lemma {:induction false} PassedAll(trace: seq<Event>, n: nat)
    ensures PassedCount(trace, n) <= n
    ensures PassedCount(trace, n) == n <==> forall p :: 0 <= p < n ==> Passed(trace, p)
    decreases n
  {
    if n > 0 {
      PassedAll(trace, n - 1);
    }
  }

  /** `validated` is the number of pieces exactly when each of them has passed. */
  lemma AllValidated(start: TorrentState, trace: seq<Event>)
    requires Possible(start, trace) && NoRepeats(trace)
    ensures Run(start, trace).validated <= |start.pieces|
    ensures Run(start, trace).validated == |start.pieces| <==> forall p :: 0 <= p < |start.pieces| ==> Passed(trace, p)
  {
    Totals(start, trace);
    PassedAll(trace, |start.pieces|);
  }

  /** A run in which the first n pieces have been written and have passed, and nothing else has happened. */
  ghost predicate Downloaded(start: TorrentState, trace: seq<Event>, n: nat) {
    && Possible(start, trace) && NoRepeats(trace)
    && Run(start, trace).validated == n <= |start.pieces|
    && (forall q: nat | n <= q :: !Passed(trace, q))
    && forall q: nat, b: nat | n <= q :: Reports(trace, q, b) == 0
  }

  /** The same, and the first k blocks of the next piece have been written. */
  ghost predicate Partly(start: TorrentState, trace: seq<Event>, n: nat, k: nat) {
    && Possible(start, trace) && NoRepeats(trace)
    && n < |start.pieces| && Run(start, trace).validated == n
    && (forall q: nat | n <= q :: !Passed(trace, q))
    && (forall q: nat, b: nat | n < q :: Reports(trace, q, b) == 0)
    && forall b: nat :: Reports(trace, n, b) == if b < k then 1 else 0
  }

  lemma {:induction false} WriteBlocks(start: TorrentState, past: seq<Event>, n: nat, k: nat)
    returns (trace: seq<Event>)
    requires n < |start.pieces| && k <= |start.pieces[n].flags| && Downloaded(start, past, n)
    ensures Partly(start, trace, n, k)
    decreases k
  {
    trace := past;
    if k > 0 {
      hide *;
      var before := WriteBlocks(start, past, n, k - 1);
      trace := WriteNext(start, before, n, k - 1);
    } else {
      hide Reports, Passed, Run, Possible, NoRepeats;
    }
  }

  lemma WriteNext(start: TorrentState, before: seq<Event>, n: nat, k: nat) returns (trace: seq<Event>)
    requires n < |start.pieces| && k < |start.pieces[n].flags| && Partly(start, before, n, k)
    ensures Partly(start, trace, n, k + 1)
  {
    CounterCountsReports(start, before, n);
    hide Reports, SumReports, Passed, Possible, NoRepeats, IsComplete;
    trace := before + [Written(n, k)];
    Extended(start, before, Written(n, k));
  }

  /** A run with one more event. */
  lemma Extended(start: TorrentState, past: seq<Event>, e: Event)
    requires Possible(start, past) && NoRepeats(past) && Enabled(Run(start, past), e)
    requires e.Written? ==> Reports(past, e.p, e.b) == 0
    ensures var trace := past + [e];
            && Possible(start, trace) && NoRepeats(trace) && Run(start, trace) == Step(Run(start, past), e)
            && (forall q :: Passed(trace, q) <==> Passed(past, q) || e == Checked(q, true))
            && forall q, b :: Reports(trace, q, b) ==
                              if e == Written(q, b) then Reports(past, q, b) + 1
                              else if e == Checked(q, false) then 0 else Reports(past, q, b)
  {
    var trace := past + [e];
    assert trace[..|trace| - 1] == past && trace[|trace| - 1] == e;
  }

  lemma PassPiece(start: TorrentState, written: seq<Event>, n: nat) returns (trace: seq<Event>)
    requires n < |start.pieces| && Partly(start, written, n, |start.pieces[n].flags|) && start.pieces[n].flags != []
    ensures Downloaded(start, trace, n + 1)
  {
    CounterCountsReports(start, written, n);
    ValidationOnce(start, written, n);
    hide Reports, SumReports, Passed;
    assert Full(Run(start, written).pieces[n]);
    trace := written + [Checked(n, true)];
    Extended(start, written, Checked(n, true));
  }

  /** When no piece is empty, all of them can be downloaded and validated. */
  lemma {:induction false} CanDownload(start: TorrentState, n: nat) returns (trace: seq<Event>)
    requires Initial(start) && n <= |start.pieces| && forall p :: 0 <= p < n ==> start.pieces[p].flags != []
    ensures Downloaded(start, trace, n)
    decreases n
  {
    trace := [];
    if n > 0 {
      var past := CanDownload(start, n - 1);
      var written := WriteBlocks(start, past, n - 1, |start.pieces[n - 1].flags|);
      trace := PassPiece(start, written, n - 1);
    }
  }

  /** A run at the end of which `validated` is the number of pieces. */
  ghost predicate ValidatesAll(start: TorrentState, trace: seq<Event>) {
    Possible(start, trace) && NoRepeats(trace) && Run(start, trace).validated == |start.pieces|
  }

  /** `validated` can come to the number of pieces exactly when no piece is empty. */
  lemma AllCanBeValidated(start: TorrentState)
    requires Initial(start)
    ensures (exists trace :: ValidatesAll(start, trace)) <==>
            forall p :: 0 <= p < |start.pieces| ==> start.pieces[p].flags != []
  {
    if p :| 0 <= p < |start.pieces| && start.pieces[p].flags == [] {
      forall trace ensures !ValidatesAll(start, trace) {
        if ValidatesAll(start, trace) {
          AllValidated(start, trace);
          EmptyNever(start, trace, p);
        }
      }
    } else {
      var trace := CanDownload(start, |start.pieces|);
      assert ValidatesAll(start, trace);
    }
  }

  /**
   * With a repeated report the counter runs ahead: a piece of two blocks is sent to validation when
   * its first block is reported twice, although the second one has not been written.
   */
  lemma RepeatedReportValidatesEarly(start: TorrentState)
    requires Initial(start) && |start.pieces| == 1 && |start.pieces[0].flags| == 2
    ensures var trace := [Written(0, 0), Written(0, 0)];
            && Possible(start, trace)
            && Run(start, trace).inFlight == multiset{0}
            && Run(start, trace).pieces == [PieceState(start.pieces[0].size, [true, false], 2)]
  {
    var trace := [Written(0, 0), Written(0, 0)];
    assert start.pieces[0] == WasReset(start.pieces[0]);
    assert trace[..1] == [Written(0, 0)] && trace[..1][..0] == [];
    assert Possible(start, trace[..1][..0]);
    assert Possible(start, trace[..1]);
    assert Run(start, trace[..1]) == Step(start, Written(0, 0));
    assert Possible(start, trace);
    assert Run(start, trace) == Step(Run(start, trace[..1]), Written(0, 0));
    assert start.pieces[0].flags[0 := true] == [true, false];
    assert [true, false][0 := true] == [true, false];
    var piece := PieceState(start.pieces[0].size, [true, false], 2);
    assert MarkWritten(MarkWritten(start.pieces[0], 0), 0) == piece;
    assert start.pieces[0 := MarkWritten(start.pieces[0], 0)][0 := piece] == [piece];
  }
}
