/** A peer connection: the handshake gate in front of everything that is sent, and the receiving side. */
module Connection {
  import opened Bytes
  import opened Serialization
  import opened Messages

  // ---------------------------------------------------------------- the gate as a step machine

  /** What has been handed to the socket. */
  datatype Item = Hello | Msg(m: Message)

  /**
   * What happens to a connection: `start`, a call of `send`, the keep-alive timer, the end of the
   * write of the handshake, and the arrival of the other side's handshake with its info hash.
   */
  datatype Event =
    | Start
    | Send(m: Message)
    | KeepAliveFires
    | HelloWritten
    | HelloArrives(infoHash: Bytes)

  /** The fields of the connection, and the writes issued so far. */
  datatype State = State(sent: bool, received: bool, pending: seq<Message>, wire: seq<Item>)

  const INITIAL := State(false, false, [], [])

  function Items(ms: seq<Message>): (items: seq<Item>)
    ensures |items| == |ms| && forall i :: 0 <= i < |ms| ==> items[i] == Msg(ms[i])
  {
    seq(|ms|, i requires 0 <= i < |ms| => Msg(ms[i]))
  }

  ghost function Sent(st: State, m: Message): State {
    if st.sent && st.received then st.(wire := st.wire + [Msg(m)]) else st.(pending := st.pending + [m])
  }

  /** When the handshake is complete, everything pending is sent. The list of what was pending stays. */
  ghost function Checked(st: State): State {
    if st.sent && st.received then st.(wire := st.wire + Items(st.pending)) else st
  }

  ghost function Step(own: Bytes, st: State, e: Event): State {
    match e
    case Start => st.(wire := st.wire + [Hello])
    case Send(m) => Sent(st, m)
    case KeepAliveFires => Sent(st, KeepAlive)
    case HelloWritten => Checked(st.(sent := true))
    case HelloArrives(infoHash) => if infoHash != own then st else Checked(st.(received := true))
  }

  ghost function Run(own: Bytes, trace: seq<Event>): State {
    if trace == [] then INITIAL else Step(own, Run(own, trace[..|trace| - 1]), trace[|trace| - 1])
  }

  /** The connection object. Every handler is one step of the machine. */
  class PeerConnection {
    const infoHash: Bytes
    var sent: bool
    var received: bool
    var pending: seq<Message>
    var wire: seq<Item>

    ghost function Now(): State
      reads this
    {
      State(sent, received, pending, wire)
    }

    constructor (infoHash: Bytes)
      ensures Now() == INITIAL && this.infoHash == infoHash
    {
      this.infoHash := infoHash;
      sent, received, pending, wire := false, false, [], [];
    }

    method Write(item: Item)
      modifies this`wire
      ensures wire == old(wire) + [item]
    {
      wire := wire + [item];
    }

    method SendMessage(m: Message)
      modifies this`pending, this`wire
      ensures Now() == Step(infoHash, old(Now()), Send(m))
    {
      if !(sent && received) {
        pending := pending + [m];
        return;
      }
      Write(Msg(m));
    }

    method StartUp()
      modifies this`wire
      ensures Now() == Step(infoHash, old(Now()), Start)
    {
      Write(Hello);
    }

    method FireKeepAlive()
      modifies this`pending, this`wire
      ensures Now() == Step(infoHash, old(Now()), KeepAliveFires)
    {
      SendMessage(KeepAlive);
    }

    method OnHelloWritten()
      modifies this
      ensures Now() == Step(infoHash, old(Now()), HelloWritten)
    {
      sent := true;
      if sent && received {
        HandshakeComplete();
      }
    }

    method OnHelloArrives(theirs: Bytes)
      modifies this
      ensures Now() == Step(infoHash, old(Now()), HelloArrives(theirs))
    {
      if theirs != infoHash {
        return;
      }
      received := true;
      if sent && received {
        HandshakeComplete();
      }
    }

    method HandshakeComplete()
      requires sent && received
      modifies this`pending, this`wire
      ensures pending == old(pending) && wire == old(wire) + Items(old(pending))
    {
      for i := 0 to |pending|
        invariant sent && received && pending == old(pending)
        invariant wire == old(wire) + Items(pending)[..i]
      {
        SendMessage(pending[i]);
      }
    }
  }

  /** What each event does, in words of the fields. */
  lemma {:induction false} StepIs(own: Bytes, st: State, m: Message, theirs: Bytes)
    ensures Step(own, st, Start) == State(st.sent, st.received, st.pending, st.wire + [Hello])
    ensures Step(own, st, Send(m)) ==
            if st.sent && st.received then State(true, true, st.pending, st.wire + [Msg(m)])
            else State(st.sent, st.received, st.pending + [m], st.wire)
    ensures Step(own, st, KeepAliveFires) == Step(own, st, Send(KeepAlive))
    ensures Step(own, st, HelloWritten) ==
            State(true, st.received, st.pending, st.wire + if st.received then Items(st.pending) else [])
    ensures Step(own, st, HelloArrives(theirs)) ==
            if theirs != own then st
            else State(st.sent, true, st.pending, st.wire + if st.sent then Items(st.pending) else [])
  {
  }

  // ---------------------------------------------------------------- safety over all interleavings

  ghost predicate Started(trace: seq<Event>) {
    Start in trace
  }

  ghost predicate Written(trace: seq<Event>) {
    HelloWritten in trace
  }

  ghost predicate Arrived(trace: seq<Event>) {
    exists h :: HelloArrives(h) in trace
  }

  ghost predicate Accepted(own: Bytes, trace: seq<Event>) {
    HelloArrives(own) in trace
  }

  /** One start, and at most one end of the write and one arrival after it; anything else at any time. */
  ghost predicate Plausible(trace: seq<Event>) {
    trace == [] ||
    var past, e := trace[..|trace| - 1], trace[|trace| - 1];
    && Plausible(past)
    && (e == Start ==> !Started(past))
    && (e == HelloWritten ==> Started(past) && !Written(past))
    && (e.HelloArrives? ==> Started(past) && !Arrived(past))
  }

  /** The messages passed to `send`, keep-alives included, in the order of the calls. */
  ghost function Calls(trace: seq<Event>): seq<Message> {
    if trace == [] then []
    else
      CallsAfter(Calls(trace[..|trace| - 1]), trace[|trace| - 1])
  }

  lemma CallsAre(trace: seq<Event>, e: Event)
    ensures Calls([]) == []
    ensures Calls(trace + [e]) ==
            Calls(trace) + match e case Send(m) => [m] case KeepAliveFires => [KeepAlive] case _ => []
  {
    assert (trace + [e])[..|trace|] == trace;
  }

  lemma LastEvent(trace: seq<Event>, x: Event)
    requires trace != []
    ensures x in trace <==> x in trace[..|trace| - 1] || x == trace[|trace| - 1]
  {
    assert trace == trace[..|trace| - 1] + [trace[|trace| - 1]];
  }

  lemma ItemsAppend(a: seq<Message>, m: Message)
    ensures Items(a + [m]) == Items(a) + [Msg(m)]
  {
  }

  ghost predicate Gate(st: State, started: bool, written: bool, accepted: bool, calls: seq<Message>) {
    && st.sent == written && st.received == accepted
    && st.wire == (if started then [Hello] else []) + (if written && accepted then Items(calls) else [])
    && (!(written && accepted) ==> st.pending == calls)
  }

  ghost function CallsAfter(calls: seq<Message>, e: Event): seq<Message> {
    if e.Send? then calls + [e.m] else if e.KeepAliveFires? then calls + [KeepAlive] else calls
  }

  lemma GateStep(own: Bytes, st: State, e: Event, started: bool, written: bool, accepted: bool, calls: seq<Message>)
    requires Gate(st, started, written, accepted, calls) && (written || accepted ==> started)
    requires e == Start ==> !started
    requires e == HelloWritten ==> started && !written
    requires e == HelloArrives(own) ==> started && !accepted
    ensures Gate(Step(own, st, e), started || e == Start, written || e == HelloWritten,
                 accepted || e == HelloArrives(own), CallsAfter(calls, e))
  {
    if e.Send? {
      ItemsAppend(calls, e.m);
    } else if e.KeepAliveFires? {
      ItemsAppend(calls, KeepAlive);
    }
  }

  /**
   * In every interleaving the wire carries the handshake first; nothing more until both handshakes
   * are through; and then every message sent, before or after, in call order and exactly once.
   */
  lemma {:induction false} HandshakeGate(own: Bytes, trace: seq<Event>)
    requires Plausible(trace)
    ensures Gate(Run(own, trace), Started(trace), Written(trace), Accepted(own, trace), Calls(trace))
    decreases |trace|
  {
    if trace != [] {
      var past, e := trace[..|trace| - 1], trace[|trace| - 1];
      HandshakeGate(own, past);
      LastEvent(trace, Start);
      LastEvent(trace, HelloWritten);
      LastEvent(trace, HelloArrives(own));
      StartedFirst(past);
      var hello := Accepted(own, past);
      assert hello ==> Arrived(past);
      hide Run, Plausible, Arrived, Step;
      GateStep(own, Run(own, past), e, Started(past), Written(past), hello, Calls(past));
    }
  }

  /** Nothing of the handshake happens before the start. */
  lemma {:induction false} StartedFirst(trace: seq<Event>)
    requires Plausible(trace)
    ensures Written(trace) || Arrived(trace) ==> Started(trace)
    decreases |trace|
  {
    if trace != [] {
      StartedFirst(trace[..|trace| - 1]);
      assert trace == trace[..|trace| - 1] + [trace[|trace| - 1]];
    }
  }

  /** A peer of another torrent is sent nothing but the handshake. */
  lemma {:induction false} MismatchSendsNothing(own: Bytes, trace: seq<Event>)
    requires Plausible(trace) && !Accepted(own, trace)
    ensures Run(own, trace).wire <= [Hello]
  {
    HandshakeGate(own, trace);
  }

  /** A second completion would send the pending messages again: the list is never cleared. */
  lemma RepeatedCompletionSendsAgain(own: Bytes, m: Message)
    ensures Run(own, [Start, Send(m), HelloWritten, HelloArrives(own), HelloArrives(own)]).wire
         == [Hello, Msg(m), Msg(m)]
  {
    var t := [Start, Send(m), HelloWritten, HelloArrives(own), HelloArrives(own)];
    assert t[..4][..3] == t[..3] && t[..3][..2] == t[..2] && t[..2][..1] == t[..1] && t[..1][..0] == [];
    assert Run(own, t[..1]) == State(false, false, [], [Hello]);
    assert Run(own, t[..2]) == State(false, false, [m], [Hello]);
    assert Run(own, t[..3]) == State(true, false, [m], [Hello]);
    assert Run(own, t[..4]) == State(true, true, [m], [Hello, Msg(m)]);
  }

  // ---------------------------------------------------------------- the handshake on the wire

  datatype Handshake = Handshake(pstr: Bytes, infoHash: Bytes, peerId: Bytes)

  ghost predicate ValidHandshake(h: Handshake) {
    |h.pstr| < 256 && |h.infoHash| == 20 && |h.peerId| == 20
  }

  function EncodeHandshake(h: Handshake): Bytes {
    [|h.pstr| % 256] + h.pstr + Zeros(8) + h.infoHash + h.peerId
  }

  /** BEP 3: the length of the protocol's name, the name, eight zeros, the info hash, the peer id. */
  lemma HandshakeOnTheWire(h: Handshake)
    requires |h.pstr| < 256 && |h.infoHash| == 20 && |h.peerId| == 20
    ensures var s, n := EncodeHandshake(h), |h.pstr|;
            && |s| == 49 + n && s[0] == n && s[1..1 + n] == h.pstr && s[1 + n..9 + n] == [0, 0, 0, 0, 0, 0, 0, 0]
            && s[9 + n..29 + n] == h.infoHash && s[29 + n..49 + n] == h.peerId
  {
  }

  method SerializeHandshake(h: Handshake, s: Serializer)
    requires s.Full()
    modifies s
    ensures s.Full() && s.data == old(s.data) + EncodeHandshake(h)
  {
    s.PutBytes([|h.pstr| % 256]);
    s.PutBytes(h.pstr);
    s.PutBytes(Zeros(8));
    s.PutBytes(h.infoHash);
    s.PutBytes(h.peerId);
    ghost var z := Zeros(8);
    JoinFive(old(s.data), [|h.pstr| % 256], h.pstr, z, h.infoHash, h.peerId);
  }

  lemma JoinFive(p: Bytes, a: Bytes, b: Bytes, c: Bytes, d: Bytes, e: Bytes)
    ensures p + a + b + c + d + e == p + (a + b + c + d + e)
  {
  }

  /** Reading a handshake: the length byte, then as many bytes as it announces and 48 more. */
  ghost function ParseHandshake(s: Bytes): Option<(Handshake, nat)> {
    if s == [] || 49 + s[0] as nat > |s| then None
    else
      var n: nat := s[0];
      Some((Handshake(s[1..1 + n], s[9 + n..29 + n], s[29 + n..49 + n]), 49 + n))
  }

  /** `recieve_handshake`: its two reads, and the deserialization of the message put together from them. */
  method ReceiveHandshake(s: Bytes) returns (r: Option<(Handshake, nat)>)
    requires |s| < U32
    ensures r == ParseHandshake(s)
  {
    if s == [] {
      return None;
    }
    var pstrlen: nat := s[0];
    if 1 + pstrlen + 48 > |s| {
      return None;
    }
    var d := new Deserializer([s[0]] + s[1..1 + pstrlen + 48]);
    assert d.data == s[..49 + pstrlen];
    SubSlices(d.data, s, 49 + pstrlen);
    var length := d.Get(1);
    assert length.value[0] == s[0];
    var pstr := d.Get(length.value[0]);
    var reserved := d.Get(8);
    var infoHash := d.Get(20);
    var peerId := d.Get(20);
    return Some((Handshake(pstr.value, infoHash.value, peerId.value), 49 + pstrlen));
  }

  lemma SubSlices(a: Bytes, s: Bytes, k: nat)
    requires k <= |s| && a == s[..k]
    ensures forall i: nat, j: nat :: i <= j <= k ==> a[i..j] == s[i..j]
  {
  }

  lemma HandshakeRoundTrip(h: Handshake, rest: Bytes)
    requires ValidHandshake(h)
    ensures |EncodeHandshake(h)| == 49 + |h.pstr|
    ensures ParseHandshake(EncodeHandshake(h) + rest) == Some((h, |EncodeHandshake(h)|))
  {
    var s := EncodeHandshake(h) + rest;
    var n := |h.pstr|;
    assert s[1..1 + n] == h.pstr;
    assert s[9 + n..29 + n] == h.infoHash;
    assert s[29 + n..49 + n] == h.peerId;
  }

  // ---------------------------------------------------------------- both sides together

  ghost function ItemBytes(own: Handshake, item: Item): Bytes {
    if item.Hello? then EncodeHandshake(own) else Encode(item.m)
  }

  ghost function WireBytes(own: Handshake, wire: seq<Item>): Bytes {
    if wire == [] then [] else ItemBytes(own, wire[0]) + WireBytes(own, wire[1..])
  }

  lemma {:induction false} WireOfItems(own: Handshake, ms: seq<Message>)
    ensures WireBytes(own, Items(ms)) == EncodeAll(ms)
    decreases |ms|
  {
    if ms != [] {
      assert Items(ms)[1..] == Items(ms[1..]);
      WireOfItems(own, ms[1..]);
    }
  }

  /**
   * End to end: when the handshakes of two peers of the same torrent are through, the receiver of
   * the bytes on the wire gets the sender's handshake and then delivers every message that was
   * passed to `send`, whenever that was, in call order, without the keep-alives.
   */
  lemma {:induction false} EndToEnd(own: Handshake, trace: seq<Event>)
    requires ValidHandshake(own) && Plausible(trace)
    requires Written(trace) && Accepted(own.infoHash, trace)
    requires forall i :: 0 <= i < |Calls(trace)| ==> Sendable(Calls(trace)[i])
    ensures var bytes := WireBytes(own, Run(own.infoHash, trace).wire);
            var hello := ParseHandshake(bytes);
            && hello.Some? && hello.value.0 == own && hello.value.1 <= |bytes|
            && Receive(bytes, hello.value.1) == Received(Arriving(Calls(trace)), |bytes|, Waiting)
  {
    hide Step, EncodeHandshake, ParseHandshake, Plausible;
    var calls := Calls(trace);
    HandshakeGate(own.infoHash, trace);
    StartedFirst(trace);
    assert Arrived(trace);
    var wire := [Hello] + Items(calls);
    assert wire[1..] == Items(calls);
    WireOfItems(own, calls);
    var bytes := EncodeHandshake(own) + EncodeAll(calls);
    assert WireBytes(own, wire) == bytes;
    HandshakeRoundTrip(own, EncodeAll(calls));
    Delivered(EncodeHandshake(own), calls);
  }

  lemma {:induction false} Delivered(before: Bytes, ms: seq<Message>)
    requires forall i :: 0 <= i < |ms| ==> Sendable(ms[i])
    ensures var bytes := before + EncodeAll(ms);
            Receive(bytes, |before|) == Received(Arriving(ms), |bytes|, Waiting)
  {
    hide Receive, EncodeAll, Arriving, Sendable;
    var bytes := before + EncodeAll(ms);
    AtEnd(before, EncodeAll(ms));
    StreamRoundTrip(ms, bytes, |before|);
    NothingMore(bytes);
    assert Arriving(ms) + [] == Arriving(ms);
  }

  lemma AtEnd(a: Bytes, b: Bytes)
    ensures At(a + b, |a|, b)
  {
    assert (a + b)[|a|..|a| + |b|] == b;
    AtSlice(a + b, |a|, b);
  }

  lemma NothingMore(s: Bytes)
    ensures Receive(s, |s|) == Received([], |s|, Waiting)
  {
  }
}
