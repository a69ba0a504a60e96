/** The UDP tracker client: its two-slot request queue, and its handlers as the steps of a machine. */
module Tracker {
  import opened Bytes

  const MAGIC: uint64 := 0x41727101980

  datatype Kind = Announce | Connect

  /** A request object; `name` tells objects apart, as their addresses do. */
  datatype Request = Request(kind: Kind, tid: uint32, name: nat)

  /** What happens to the connection id, and what is sent with it. */
  datatype Entry = Made | Accepted(id: uint64) | Sent(kind: Kind, tid: uint32, id: uint64)

  datatype State = State(
    announce: Option<Request>, connect: Option<Request>, cur: Option<Request>, names: nat,
    reqSent: bool, connectionId: uint64, stopped: bool, log: seq<Entry>)

  /**
   * The handlers, which may run in any order and at any time after `run`: a send is finished, a datagram
   * has arrived (if one is being waited for), or a timer has expired.
   */
  datatype Event =
    | SendDone
    | Response(action: uint32, tid: uint32, id: uint64)
    | RetryFires
    | ConnectTimer(newTid: uint32)
    | AnnounceTimer(newTid: uint32)

  /** `req_queue.top()`: connecting comes first. */
  function Top(st: State): Option<Request> {
    if st.connect.Some? then st.connect else st.announce
  }

  /** `send_request`; an empty queue throws, which ends the tracker. */
  function Send(st: State): State {
    match Top(st)
    case None => st.(stopped := true)
    case Some(r) => st.(cur := Some(r), log := st.log + [Sent(r.kind, r.tid, st.connectionId)])
  }

  function WithConnect(st: State, tid: uint32): State {
    st.(connectionId := MAGIC, connect := Some(Request(Connect, tid, st.names)), names := st.names + 1,
        log := st.log + [Made])
  }

  function WithAnnounce(st: State, tid: uint32): State {
    st.(announce := Some(Request(Announce, tid, st.names)), names := st.names + 1)
  }

  /** `req_queue.remove`. */
  function Without(st: State, r: Option<Request>): State {
    st.(announce := if st.announce == r then None else st.announce,
        connect := if st.connect == r then None else st.connect)
  }

  function Handled(st: State, action: uint32, tid: uint32, id: uint64): State
    requires st.cur.Some?
  {
    if st.cur.value.tid != tid then st
    else if action == 0 then Without(st, st.cur).(connectionId := id, log := st.log + [Accepted(id)])
    else if action == 1 || action == 3 then Without(st, st.cur)
    else st
  }

  function Step(st: State, e: Event): State {
    if st.stopped then st
    else
      match e
      case SendDone => st.(reqSent := true)
      case RetryFires => Send(st)
      case ConnectTimer(tid) => if st.reqSent then WithConnect(st, tid) else Send(WithConnect(st, tid))
      case AnnounceTimer(tid) => if st.reqSent then WithAnnounce(st, tid) else Send(WithAnnounce(st, tid))
      case Response(action, tid, id) =>
        if !st.reqSent then st
        else if st.cur.None? then st.(stopped := true)
        else
          var after := Handled(st, action, tid, id).(reqSent := false, cur := None);
          if after.announce.None? && after.connect.None? then after else Send(after)
  }

  /** After `run`. */
  function Start(connectTid: uint32, announceTid: uint32): State {
    var empty := State(None, None, None, 0, false, MAGIC, false, []);
    Send(WithAnnounce(WithConnect(empty, connectTid), announceTid))
  }

  function Run(st: State, trace: seq<Event>): State {
    if trace == [] then st else Step(Run(st, trace[..|trace| - 1]), trace[|trace| - 1])
  }

  // ---------------------------------------------------------------- what is put on the wire

  /** What is sent when the slots are these: the connect request, else the announce request, else nothing. */
  ghost predicate SentNext(log: seq<Entry>, connect: Option<Request>, announce: Option<Request>, id: uint64,
      after: seq<Entry>)
  {
    if connect.Some? then after == log + [Sent(connect.value.kind, connect.value.tid, id)]
    else if announce.Some? then after == log + [Sent(announce.value.kind, announce.value.tid, id)]
    else after == log
  }

  /**
   * A datagram: an answer of action 0, 1 or 3 to the current request takes it out of its slot, action 0
   * brings a connection id; then whatever is still queued is sent, and it is the current request.
   */
  lemma AnswerIs(st: State, action: uint32, tid: uint32, id: uint64)
    requires !st.stopped && st.reqSent && st.cur.Some?
    ensures var n := Step(st, Response(action, tid, id));
            var mine := st.cur.value.tid == tid;
            var taken := mine && (action == 0 || action == 1 || action == 3);
            && n.announce == (if taken && st.announce == st.cur then None else st.announce)
            && n.connect == (if taken && st.connect == st.cur then None else st.connect)
            && n.connectionId == (if mine && action == 0 then id else st.connectionId)
            && SentNext(if mine && action == 0 then st.log + [Accepted(id)] else st.log,
                        n.connect, n.announce, n.connectionId, n.log)
            && n.cur == (if n.connect.Some? then n.connect else n.announce)
            && !n.reqSent && !n.stopped && n.names == st.names
  {
  }

  /** After the answer to a connect request, the announce that is queued goes out with the new id. */
  lemma ConnectAccepted(st: State, id: uint64)
    requires !st.stopped && st.reqSent && st.cur.Some? && (st.connect.None? || st.connect == st.cur)
    requires st.announce.Some? && st.announce != st.cur && st.announce.value.kind == Announce
    ensures var n := Step(st, Response(0, st.cur.value.tid, id));
            && n.log == st.log + [Accepted(id), Sent(Announce, st.announce.value.tid, id)]
            && n.connect == None && n.cur == n.announce == st.announce && !n.stopped
  {
  }

  /** An answer to the current announce takes it out of its slot. */
  lemma AnnounceAnswered(st: State, id: uint64)
    requires !st.stopped && st.reqSent && st.cur.Some? && st.announce == st.cur && st.connect == None
    ensures var n := Step(st, Response(1, st.cur.value.tid, id));
            n.announce == None && n.log == st.log && n.connectionId == st.connectionId && n.cur == None && !n.stopped
  {
  }

  /**
   * Each timer sends its request with its own transaction id, the announce one behind a connect request
   * that is queued, unless an answer is being waited for; then the request stays in its slot.
   */
  lemma TimersSend(st: State, tid: uint32)
    requires !st.stopped
    ensures var n := Step(st, ConnectTimer(tid));
            && n.connect == Some(Request(Connect, tid, st.names)) && n.announce == st.announce
            && n.connectionId == 0x417_2710_1980
            && n.log == st.log + if st.reqSent then [Made] else [Made, Sent(Connect, tid, 0x417_2710_1980)]
    ensures var n := Step(st, AnnounceTimer(tid));
            && n.announce == Some(Request(Announce, tid, st.names)) && n.connect == st.connect
            && n.connectionId == st.connectionId
            && if st.reqSent then n.log == st.log
               else SentNext(st.log, st.connect, n.announce, st.connectionId, n.log)
    ensures st.connect.Some? || st.announce.Some? ==>
              SentNext(st.log, st.connect, st.announce, st.connectionId, Step(st, RetryFires).log)
    ensures Step(st, SendDone) == st.(reqSent := true)
  {
  }

  /** The ordinary course of things: connect, announce with the id received, and announce again. */
  lemma OrdinaryRun(connectTid: uint32, announceTid: uint32, id: uint64, nextTid: uint32)
    ensures var t := [SendDone, Response(0, connectTid, id), SendDone, Response(1, announceTid, 0),
                      AnnounceTimer(nextTid)];
            Run(Start(connectTid, announceTid), t).log
            == [Made, Sent(Connect, connectTid, 0x417_2710_1980), Accepted(id), Sent(Announce, announceTid, id),
                Sent(Announce, nextTid, id)]
  {
    var t := [SendDone, Response(0, connectTid, id), SendDone, Response(1, announceTid, 0), AnnounceTimer(nextTid)];
    assert t[..4][..3] == t[..3] && t[..3][..2] == t[..2] && t[..2][..1] == t[..1] && t[..1][..0] == [];
    var a, b := Request(Announce, announceTid, 1), Request(Connect, connectTid, 0);
    var log := [Made, Sent(Connect, connectTid, MAGIC)];
    var s0 := Start(connectTid, announceTid);
    assert s0 == State(Some(a), Some(b), Some(b), 2, false, MAGIC, false, log);
    var s1 := s0.(reqSent := true);
    assert Run(s0, t[..1]) == s1;
    var s2 := State(Some(a), None, Some(a), 2, false, id, false, log + [Accepted(id), Sent(Announce, announceTid, id)]);
    assert Run(s0, t[..2]) == s2 by { ConnectAccepted(s1, id); }
    assert Run(s0, t[..3]) == s2.(reqSent := true);
    assert Run(s0, t[..4]) == s2.(reqSent := false, announce := None, cur := None);
  }

  // ---------------------------------------------------------------- the connection id

  /** The id that the last answer or the last new connect request has left. */
  function IdAfter(log: seq<Entry>): uint64 {
    if log == [] then MAGIC
    else match log[|log| - 1]
      case Made => MAGIC
      case Accepted(id) => id
      case Sent(_, _, _) => IdAfter(log[..|log| - 1])
  }

  /** There is an accepted connect response, and no connect request has been made after the last one. */
  predicate Connected(log: seq<Entry>) {
    log != [] && (log[|log| - 1].Accepted? || (log[|log| - 1].Sent? && Connected(log[..|log| - 1])))
  }

  /** The id of the last accepted connect response. */
  function Latest(log: seq<Entry>): Option<uint64> {
    if log == [] then None
    else match log[|log| - 1]
      case Accepted(id) => Some(id)
      case _ => Latest(log[..|log| - 1])
  }

  /** The last accepted response, and an accepted response behind which nothing but packets follows. */
  lemma {:induction false} LatestExactly(log: seq<Entry>, id: uint64)
    ensures Latest(log) == Some(id) <==>
            exists k :: 0 <= k < |log| && log[k] == Accepted(id) && forall j :: k < j < |log| ==> !log[j].Accepted?
    ensures Connected(log) <==>
            exists k :: 0 <= k < |log| && log[k].Accepted? && forall j :: k < j < |log| ==> log[j].Sent?
    decreases |log|
  {
    if log != [] {
      var past := log[..|log| - 1];
      LatestExactly(past, id);
      assert forall k :: 0 <= k < |past| ==> past[k] == log[k];
    }
  }

  lemma {:induction false} ConnectedLatest(log: seq<Entry>)
    requires Connected(log)
    ensures Latest(log) == Some(IdAfter(log))
    decreases |log|
  {
    if log[|log| - 1].Sent? {
      ConnectedLatest(log[..|log| - 1]);
    }
  }

  /** An empty connect slot means that the connection id is good. */
  predicate Good(st: State) {
    st.connect.None? ==> Connected(st.log)
  }

  ghost predicate WellKept(st: State) {
    && st.connectionId == IdAfter(st.log)
    && (st.connect.Some? ==> st.connect.value.kind == Connect)
    && (st.announce.Some? ==> st.announce.value.kind == Announce)
  }

  /** An announce or error response that is taken for the answer to the connect request in the queue. */
  predicate Misdirected(st: State, e: Event) {
    && !st.stopped && st.reqSent && e.Response? && (e.action == 1 || e.action == 3)
    && st.cur.Some? && st.cur.value.tid == e.tid && st.connect == st.cur
  }

  predicate NoneMisdirected(st: State, trace: seq<Event>) {
    trace == [] ||
    var past := trace[..|trace| - 1];
    NoneMisdirected(st, past) && !Misdirected(Run(st, past), trace[|trace| - 1])
  }

  /** Whatever is sent carries the id of that moment, and an announce is only sent while connected. */
  ghost predicate IdsRight(log: seq<Entry>) {
    forall k :: 0 <= k < |log| && log[k].Sent? ==> log[k].id == IdAfter(log[..k])
  }

  ghost predicate AnnouncesRight(log: seq<Entry>) {
    forall k :: 0 <= k < |log| && log[k].Sent? && log[k].kind == Announce ==> Connected(log[..k])
  }

  lemma Appended(log: seq<Entry>, e: Entry)
    ensures (log + [e])[..|log|] == log && (log + [e])[|log|] == e
    ensures forall k :: 0 <= k < |log| ==> (log + [e])[k] == log[k] && (log + [e])[..k] == log[..k]
  {
  }

  lemma NotSent(log: seq<Entry>, e: Entry)
    requires !e.Sent? && IdsRight(log)
    ensures IdsRight(log + [e]) && (AnnouncesRight(log + [e]) <==> AnnouncesRight(log))
    ensures Connected(log + [e]) <==> e.Accepted?
    ensures IdAfter(log + [e]) == if e.Accepted? then e.id else MAGIC
  {
    hide Connected, IdAfter;
    Appended(log, e);
    assert Connected(log + [e]) <==> e.Accepted? by {
      Last(log, e);
    }
    assert IdAfter(log + [e]) == if e.Accepted? then e.id else MAGIC by {
      Last(log, e);
    }
    if AnnouncesRight(log + [e]) {
      forall k | 0 <= k < |log| && log[k].Sent? && log[k].kind == Announce ensures Connected(log[..k]) {
        assert (log + [e])[k] == log[k];
      }
    }
  }

  lemma Last(log: seq<Entry>, e: Entry)
    ensures Connected(log + [e]) <==> e.Accepted? || (e.Sent? && Connected(log))
    ensures IdAfter(log + [e]) == if e.Accepted? then e.id else if e.Made? then MAGIC else IdAfter(log)
    ensures Latest(log + [e]) == if e.Accepted? then Some(e.id) else Latest(log)
  {
    Appended(log, e);
  }

  /** What sending does to the log. */
  lemma SendKeeps(st: State)
    requires WellKept(st) && IdsRight(st.log)
    ensures WellKept(Send(st)) && IdsRight(Send(st).log) && (Connected(Send(st).log) <==> Connected(st.log))
    ensures Top(st).Some? ==>
              (AnnouncesRight(Send(st).log) <==> AnnouncesRight(st.log) && (st.connect.Some? || Connected(st.log)))
  {
    hide Connected, IdAfter;
    if Top(st).Some? {
      var r := Top(st).value;
      var e := Sent(r.kind, r.tid, st.connectionId);
      Appended(st.log, e);
      Last(st.log, e);
      var log := st.log + [e];
      if AnnouncesRight(log) {
        assert log[|st.log|].kind == Announce ==> Connected(log[..|st.log|]);
        forall k | 0 <= k < |st.log| && st.log[k].Sent? && st.log[k].kind == Announce ensures Connected(st.log[..k]) {
          assert log[k] == st.log[k];
        }
      }
    }
  }

  ghost predicate Kept(st: State) {
    WellKept(st) && IdsRight(st.log)
  }

  lemma MadeKeeps(st: State, tid: uint32)
    requires Kept(st)
    ensures Kept(WithConnect(st, tid)) && Kept(WithAnnounce(st, tid))
    ensures AnnouncesRight(WithConnect(st, tid).log) <==> AnnouncesRight(st.log)
  {
    NotSent(st.log, Made);
  }

  lemma HandledKeeps(st: State, e: Event)
    requires Kept(st) && e.Response? && st.cur.Some?
    ensures var after := Handled(st, e.action, e.tid, e.id);
            && Kept(after) && (AnnouncesRight(after.log) <==> AnnouncesRight(st.log))
            && (Good(st) && st.reqSent && !st.stopped ==>
                (Good(after) <==> !(Misdirected(st, e) && !Connected(st.log))))
  {
    hide Connected, IdAfter, IdsRight, AnnouncesRight;
    NotSent(st.log, Accepted(e.id));
  }

  /** Each step, whatever it is, keeps the queue in order and sends the id of that moment. */
  lemma {:induction false} StepKeeps(st: State, e: Event)
    requires Kept(st)
    ensures Kept(Step(st, e))
  {
    hide Connected, IdAfter, IdsRight, AnnouncesRight, Send, WithConnect, WithAnnounce, Handled;
    if !st.stopped {
      match e
      case SendDone =>
      case RetryFires => SendKeeps(st);
      case ConnectTimer(tid) => MadeKeeps(st, tid); SendKeeps(WithConnect(st, tid));
      case AnnounceTimer(tid) => MadeKeeps(st, tid); SendKeeps(WithAnnounce(st, tid));
      case Response(action, tid, id) =>
        if st.reqSent && st.cur.Some? {
          HandledKeeps(st, e);
          SendKeeps(Handled(st, action, tid, id).(reqSent := false, cur := None));
        }
    }
  }

  /** A step spoils the connection id exactly when it is a misdirected answer while not connected. */
  lemma {:induction false} StepGoodExactly(st: State, e: Event)
    requires Kept(st) && Good(st)
    ensures Good(Step(st, e)) <==> !(Misdirected(st, e) && !Connected(st.log))
  {
    hide Connected, IdAfter, IdsRight, AnnouncesRight, Handled;
    match e
    case SendDone =>
    case RetryFires => SendKeeps(st);
    case ConnectTimer(tid) => MadeKeeps(st, tid); SendKeeps(WithConnect(st, tid));
    case AnnounceTimer(tid) => MadeKeeps(st, tid); SendKeeps(WithAnnounce(st, tid));
    case Response(action, tid, id) =>
      if !st.stopped && st.reqSent && st.cur.Some? {
        HandledKeeps(st, e);
        SendKeeps(Handled(st, action, tid, id).(reqSent := false, cur := None));
      }
  }

  /** As long as the connection id is good, announces are sent only while connected. */
  lemma StepAnnouncesRight(st: State, e: Event)
    requires Kept(st) && Good(st) && AnnouncesRight(st.log) && !Misdirected(st, e)
    ensures AnnouncesRight(Step(st, e).log)
  {
    hide Connected, IdAfter, IdsRight, AnnouncesRight, Handled;
    match e
    case SendDone =>
    case RetryFires => SendKeeps(st);
    case ConnectTimer(tid) => MadeKeeps(st, tid); SendKeeps(WithConnect(st, tid));
    case AnnounceTimer(tid) => MadeKeeps(st, tid); SendKeeps(WithAnnounce(st, tid));
    case Response(action, tid, id) =>
      if !st.stopped && st.reqSent && st.cur.Some? {
        HandledKeeps(st, e);
        SendKeeps(Handled(st, action, tid, id).(reqSent := false, cur := None));
      }
  }

  lemma {:induction false} RunKeeps(st: State, trace: seq<Event>)
    requires Kept(st)
    ensures Kept(Run(st, trace))
    decreases |trace|
  {
    if trace != [] {
      RunKeeps(st, trace[..|trace| - 1]);
      StepKeeps(Run(st, trace[..|trace| - 1]), trace[|trace| - 1]);
    }
  }

  lemma {:induction false} RunGood(st: State, trace: seq<Event>)
    requires Kept(st) && Good(st) && AnnouncesRight(st.log) && NoneMisdirected(st, trace)
    ensures Good(Run(st, trace)) && AnnouncesRight(Run(st, trace).log)
    decreases |trace|
  {
    if trace != [] {
      var past, e := trace[..|trace| - 1], trace[|trace| - 1];
      RunGood(st, past);
      RunKeeps(st, past);
      StepGoodExactly(Run(st, past), e);
      StepAnnouncesRight(Run(st, past), e);
    }
  }

  lemma StartGood(connectTid: uint32, announceTid: uint32)
    ensures var st := Start(connectTid, announceTid);
            Kept(st) && Good(st) && AnnouncesRight(st.log) && !st.stopped
  {
    var empty := State(None, None, None, 0, false, MAGIC, false, []);
    MadeKeeps(empty, connectTid);
    SendKeeps(WithAnnounce(WithConnect(empty, connectTid), announceTid));
  }

  /**
   * In every run without misdirected answers, whatever is retransmitted, repeated, late or wrongly
   * numbered, each announce carries the id of the latest accepted connect response.
   */
  lemma {:induction false} AnnouncesCarryLatest(connectTid: uint32, announceTid: uint32, trace: seq<Event>)
    requires NoneMisdirected(Start(connectTid, announceTid), trace)
    ensures var log := Run(Start(connectTid, announceTid), trace).log;
            forall k :: 0 <= k < |log| && log[k].Sent? && log[k].kind == Announce ==>
              Latest(log[..k]) == Some(log[k].id)
  {
    var st := Start(connectTid, announceTid);
    StartGood(connectTid, announceTid);
    RunKeeps(st, trace);
    RunGood(st, trace);
    var log := Run(st, trace).log;
    forall k | 0 <= k < |log| && log[k].Sent? && log[k].kind == Announce ensures Latest(log[..k]) == Some(log[k].id) {
      ConnectedLatest(log[..k]);
    }
  }

  /** With a bad connection id, an announce timer and a retransmission are enough to send it. */
  lemma SpoiledSends(st: State)
    requires Kept(st) && !Good(st) && !st.stopped
    ensures var trace := [AnnounceTimer(0), RetryFires];
            NoneMisdirected(st, trace) && !AnnouncesRight(Run(st, trace).log)
  {
    hide Connected, IdAfter, IdsRight, AnnouncesRight;
    var trace := [AnnounceTimer(0), RetryFires];
    var queued := WithAnnounce(st, 0);
    MadeKeeps(st, 0);
    SendKeeps(queued);
    var first := Step(st, AnnounceTimer(0));
    SendKeeps(first);
    assert Step(first, RetryFires) == Send(first);
    assert trace[..1] == [AnnounceTimer(0)] && trace[..1][..0] == [];
    assert NoneMisdirected(st, trace[..1][..0]);
    assert NoneMisdirected(st, trace[..1]);
    assert Run(st, trace[..1]) == first;
  }

  /**
   * The condition is the weakest one: from a running state, announces stay right over all runs without
   * further misdirected answers if and only if the connection id is good in that state.
   */
  lemma {:induction false} GoodIsWeakest(st: State)
    requires Kept(st) && AnnouncesRight(st.log) && !st.stopped
    ensures Good(st) <==> forall trace :: NoneMisdirected(st, trace) ==> AnnouncesRight(Run(st, trace).log)
  {
    if Good(st) {
      forall trace | NoneMisdirected(st, trace) ensures AnnouncesRight(Run(st, trace).log) {
        RunGood(st, trace);
      }
    } else {
      SpoiledSends(st);
    }
  }

  /** Such an answer is possible: after an error in reply to the first connect, the announce has the magic id. */
  lemma ErrorToConnectSpoils(connectTid: uint32, announceTid: uint32, id: uint64)
    ensures var trace := [SendDone, Response(3, connectTid, id)];
            Run(Start(connectTid, announceTid), trace).log ==
            [Made, Sent(Connect, connectTid, MAGIC), Sent(Announce, announceTid, MAGIC)]
  {
    var trace := [SendDone, Response(3, connectTid, id)];
    var st := Start(connectTid, announceTid);
    assert trace[..1] == [SendDone] && trace[..1][..0] == [];
    assert Run(st, trace[..1][..0]) == st;
    assert Run(st, trace[..1]) == Step(st, SendDone);
    assert Run(st, trace) == Step(Step(st, SendDone), Response(3, connectTid, id));
  }
}
