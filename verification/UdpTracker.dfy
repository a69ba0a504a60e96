/** The UDP tracker's objects: each handler is one step of the tracker machine. */
module UdpTracker {
  import opened Bytes
  import opened Tracker

  /** Slot 0 is for announcing, slot 1 for connecting. */
  class RequestQueue {
    const queue: array<Option<Request>>

    ghost predicate Valid() {
      queue.Length == 2
    }

    constructor ()
      ensures Valid() && fresh(queue) && queue[0] == None && queue[1] == None
    {
      queue := new Option<Request>[2](_ => None);
    }

    method Insert(request: Request)
      requires Valid()
      modifies queue
      ensures request.kind == Announce ==> queue[..] == [Some(request), old(queue[1])]
      ensures request.kind == Connect ==> queue[..] == [old(queue[0]), Some(request)]
    {
      match request.kind
      case Announce => queue[0] := Some(request);
      case Connect => queue[1] := Some(request);
    }

    /** None stands for the exception that is thrown then. */
    method Top() returns (r: Option<Request>)
      requires Valid()
      ensures r == if queue[1].Some? then queue[1] else queue[0]
    {
      if queue[1] != None {
        return queue[1];
      }
      if queue[0] != None {
        return queue[0];
      }
      return None;
    }

    predicate Empty()
      requires Valid()
      reads queue
    {
      queue[0] == None && queue[1] == None
    }

    method Remove(request: Request)
      requires Valid()
      modifies queue
      ensures forall i :: 0 <= i < 2 ==> queue[i] == if old(queue[i]) == Some(request) then None else old(queue[i])
    {
      for k := 0 to queue.Length
        invariant forall i :: 0 <= i < 2 ==>
                    queue[i] == if i < k && old(queue[i]) == Some(request) then None else old(queue[i])
      {
        if queue[k] == Some(request) {
          queue[k] := None;
        }
      }
    }
  }

  class UdpTracker {
    const reqQueue: RequestQueue
    var cur: Option<Request>
    var names: nat
    var reqSent: bool
    var connectionId: uint64
    var stopped: bool
    ghost var log: seq<Entry>

    ghost predicate Shaped() {
      reqQueue.Valid()
    }

    /** The slots hold requests of their kind, and everything sent so far carried the id of its moment. */
    ghost predicate Valid()
      reads this, reqQueue.queue
    {
      Shaped() && Kept(Abs())
    }

    ghost function Abs(): State
      requires Shaped()
      reads this, reqQueue.queue
    {
      State(reqQueue.queue[0], reqQueue.queue[1], cur, names, reqSent, connectionId, stopped, log)
    }

    constructor ()
      ensures Valid() && fresh(reqQueue.queue)
      ensures Abs() == State(None, None, None, 0, false, MAGIC, false, [])
    {
      reqQueue := new RequestQueue();
      cur, names, reqSent, connectionId, stopped, log := None, 0, false, MAGIC, false, [];
    }

    /** `run`, on a new tracker, with the transaction ids of the two requests. */
    method Run(connectTid: uint32, announceTid: uint32)
      requires Shaped() && Abs() == State(None, None, None, 0, false, MAGIC, false, [])
      modifies this, reqQueue.queue
      ensures Valid() && Abs() == Start(connectTid, announceTid) && Good(Abs()) && AnnouncesRight(log)
    {
      StartGood(connectTid, announceTid);
      var connect := MakeConnectRequest(connectTid);
      reqQueue.Insert(connect);
      var announce := MakeAnnounceRequest(announceTid);
      reqQueue.Insert(announce);
      SendRequest();
    }

    method SendRequest()
      requires Shaped()
      modifies this
      ensures Abs() == Send(old(Abs()))
    {
      var top := reqQueue.Top();
      if top == None {
        stopped := true;
        return;
      }
      cur := top;
      log := log + [Sent(top.value.kind, top.value.tid, connectionId)];
    }

    method MakeConnectRequest(tid: uint32) returns (r: Request)
      requires Shaped()
      modifies this
      ensures r == Request(Connect, tid, old(names))
      ensures Abs() == old(Abs()).(names := old(names) + 1, connectionId := MAGIC, log := old(log) + [Made])
    {
      connectionId := MAGIC;
      r := Request(Connect, tid, names);
      names, log := names + 1, log + [Made];
    }

    method MakeAnnounceRequest(tid: uint32) returns (r: Request)
      requires Shaped()
      modifies this
      ensures r == Request(Announce, tid, old(names))
      ensures Abs() == old(Abs()).(names := old(names) + 1)
    {
      r := Request(Announce, tid, names);
      names := names + 1;
    }

    /** What the machine's lemmas say about the step that is coming. */
    lemma Promise(e: Event)
      requires Valid()
      ensures Kept(Step(Abs(), e))
      ensures Good(Abs()) ==> (Good(Step(Abs(), e)) <==> !(Misdirected(Abs(), e) && !Connected(log)))
      ensures Good(Abs()) && AnnouncesRight(log) && !Misdirected(Abs(), e) ==> AnnouncesRight(Step(Abs(), e).log)
    {
      StepKeeps(Abs(), e);
      if Good(Abs()) {
        StepGoodExactly(Abs(), e);
        if AnnouncesRight(log) && !Misdirected(Abs(), e) {
          StepAnnouncesRight(Abs(), e);
        }
      }
    }

    /** The send handler: a response is waited for, if that is not so yet. */
    method OnSendDone()
      requires Valid() && !stopped
      modifies this
      ensures Valid() && Abs() == Step(old(Abs()), SendDone)
      ensures old(Good(Abs()) && AnnouncesRight(log)) ==> Good(Abs()) && AnnouncesRight(log)
    {
      hide Kept, Good, AnnouncesRight, Connected;
      Promise(SendDone);
      if !reqSent {
        reqSent := true;
      }
    }

    method OnRetry()
      requires Valid() && !stopped
      modifies this
      ensures Valid() && Abs() == Step(old(Abs()), RetryFires)
      ensures old(Good(Abs()) && AnnouncesRight(log)) ==> Good(Abs()) && AnnouncesRight(log)
    {
      hide Kept, Good, AnnouncesRight, Connected;
      Promise(RetryFires);
      SendRequest();
    }

    /** The handlers that `schedule_request` leaves with the two timers. */
    method OnConnectTimer(tid: uint32)
      requires Valid() && !stopped
      modifies this, reqQueue.queue
      ensures Valid() && Abs() == Step(old(Abs()), ConnectTimer(tid))
      ensures !old(reqSent) ==> log == old(log) + [Made, Sent(Connect, tid, 0x417_2710_1980)]
      ensures old(Good(Abs()) && AnnouncesRight(log)) ==> Good(Abs()) && AnnouncesRight(log)
    {
      hide Kept, Good, AnnouncesRight, Connected;
      Promise(ConnectTimer(tid));
      var request := MakeConnectRequest(tid);
      reqQueue.Insert(request);
      if !reqSent {
        SendRequest();
      }
    }

    method OnAnnounceTimer(tid: uint32)
      requires Valid() && !stopped
      modifies this, reqQueue.queue
      ensures Valid() && Abs() == Step(old(Abs()), AnnounceTimer(tid))
      ensures !old(reqSent) && reqQueue.queue[1] == None ==>
                log == old(log) + [Sent(Announce, tid, old(connectionId))]
      ensures old(Good(Abs()) && AnnouncesRight(log)) ==> Good(Abs()) && AnnouncesRight(log)
    {
      hide Kept, Good, AnnouncesRight, Connected;
      Promise(AnnounceTimer(tid));
      var request := MakeAnnounceRequest(tid);
      reqQueue.Insert(request);
      if !reqSent {
        SendRequest();
      }
    }

    /** A connect request is being answered, or none is queued any more, and an announce is queued. */
    ghost predicate AnnounceWaits()
      requires Shaped()
      reads this, reqQueue.queue
    {
      && cur.Some? && (reqQueue.queue[1] == None || reqQueue.queue[1] == cur)
      && reqQueue.queue[0].Some? && reqQueue.queue[0] != cur
    }

    /** The receive handler; without a current request it dereferences a null pointer. */
    method OnResponse(action: uint32, tid: uint32, id: uint64)
      requires Valid() && !stopped && reqSent
      modifies this, reqQueue.queue
      ensures Valid() && Abs() == Step(old(Abs()), Response(action, tid, id))
      ensures old(AnnounceWaits()) && action == 0 && tid == old(cur.value.tid) ==>
                log == old(log) + [Accepted(id), Sent(Announce, old(reqQueue.queue[0].value.tid), id)]
      ensures old(Good(Abs())) ==>
                (Good(Abs()) <==> !old(Misdirected(Abs(), Response(action, tid, id)) && !Connected(log)))
      ensures old(Good(Abs()) && AnnouncesRight(log) && !Misdirected(Abs(), Response(action, tid, id))) ==>
                AnnouncesRight(log)
    {
      if AnnounceWaits() {
        ConnectAccepted(Abs(), id);
      }
      hide Kept, Good, AnnouncesRight, Misdirected, Connected;
      Promise(Response(action, tid, id));
      if cur == None {
        stopped := true;
        return;
      }
      HandleResponse(action, tid, id);
      reqSent := false;
      cur := None;
      if !reqQueue.Empty() {
        SendRequest();
      }
    }

    method HandleResponse(action: uint32, tid: uint32, id: uint64)
      requires Shaped() && cur.Some?
      modifies this`connectionId, this`log, reqQueue.queue
      ensures Abs() == Handled(old(Abs()), action, tid, id)
    {
      if cur.value.tid != tid {
        return;
      }
      if action == 0 {
        reqQueue.Remove(cur.value);
        connectionId := id;
        log := log + [Accepted(id)];
        return;
      }
      if action == 1 {
        reqQueue.Remove(cur.value);
        return;
      }
      if action == 3 {
        reqQueue.Remove(cur.value);
      }
    }
  }
}
