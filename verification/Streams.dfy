/** The two streams on which the orchestrator pushes notifications: to VPN
    servers (service/rpc/vpns.go) and to the healthcheck service
    (service/rpc/healthcheck.go). Both are handlers of one automaton, After. */
module Streams {
  import opened Results

  /** The last known condition of a peer, as the status store keeps it. */
  datatype Status = Healthy | UpdateFailed(code: int, message: string) | Disconnected

  datatype Message = Subscribe | Response(code: int, message: string) | Unsupported

  datatype Receipt = EndOfStream | Broken | Got(message: Message)

  /** What the handler's select statement finds. */
  datatype Selection = Notification | ChannelClosed | PeerLeft

  datatype Event = Received(receipt: Receipt) | Watched(ok: bool) | Selected(selection: Selection) | Sent(ok: bool)

  datatype Outcome = Clean | Failed

  /** okCode is the success code of the peer's protocol version. */
  function StatusOf(okCode: int, code: int, message: string): Status {
    if code == okCode then Healthy else UpdateFailed(code, message)
  }

  // ---- The automaton ----

  datatype State =
    | Subscribing
    | Opening
    | Waiting(status: Status)
    | Sending(status: Status)
    | Replying(status: Status)
    | Ended(outcome: Outcome)

  /** The state after one more event; None when the handler takes no such step. */
  function Next(okCode: int, s: State, e: Event): Option<State> {
    match (s, e)
    case (Subscribing, Received(Got(Subscribe))) => Some(Opening)
    case (Subscribing, Received(EndOfStream)) => Some(Ended(Clean))
    case (Subscribing, Received(_)) => Some(Ended(Failed))
    case (Opening, Watched(ok)) => Some(if ok then Waiting(Healthy) else Ended(Failed))
    case (Waiting(st), Selected(Notification)) => Some(Sending(st))
    case (Waiting(_), Selected(_)) => Some(Ended(Clean))
    case (Sending(st), Sent(ok)) => Some(if ok then Replying(st) else Ended(Failed))
    case (Replying(st), Received(EndOfStream)) => Some(Waiting(st))
    case (Replying(_), Received(Got(Response(code, message)))) => Some(Waiting(StatusOf(okCode, code, message)))
    case (Replying(_), Received(_)) => Some(Ended(Failed))
    case _ => None
  }

  function After(okCode: int, log: seq<Event>): Option<State> {
    if log == [] then Some(Subscribing)
    else match After(okCode, log[..|log| - 1])
      case Some(s) => Next(okCode, s, log[|log| - 1])
      case None => None
  }

  /** log is a run of the automaton to state s. */
  predicate Reaches(okCode: int, log: seq<Event>, s: State) {
    After(okCode, log) == Some(s)
  }

  lemma OneMore(okCode: int, log: seq<Event>, s: State, e: Event)
    requires Reaches(okCode, log, s) && Next(okCode, s, e).Some?
    ensures Reaches(okCode, log + [e], Next(okCode, s, e).value)
  {
    assert (log + [e])[..|log|] == log;
  }

  // ---- The handlers ----

  class StatusStore {
    var statuses: map<int, Status>

    constructor ()
      ensures statuses == map[]
    {
      statuses := map[];
    }

    method Set(key: int, status: Status)
      modifies this
      ensures statuses == old(statuses)[key := status]
    {
      statuses := statuses[key := status];
    }
  }

  /** A stream with its peer and the events on it so far. Every call may have any outcome. */
  class Stream {
    var log: seq<Event>

    constructor ()
      ensures log == []
    {
      log := [];
    }

    method Recv() returns (r: Receipt)
      modifies this
      ensures log == old(log) + [Received(r)]
    {
      r := *;
      log := log + [Received(r)];
    }

    method Send() returns (ok: bool)
      modifies this
      ensures log == old(log) + [Sent(ok)]
    {
      ok := *;
      log := log + [Sent(ok)];
    }

    /** Starts watching for changes of a server's configuration. */
    method Watch() returns (ok: bool)
      modifies this
      ensures log == old(log) + [Watched(ok)]
    {
      ok := *;
      log := log + [Watched(ok)];
    }

    /** Starts watching for session updates. */
    method WatchSafely()
      modifies this
      ensures log == old(log) + [Watched(true)]
    {
      log := log + [Watched(true)];
    }

    method Select() returns (s: Selection)
      modifies this
      ensures log == old(log) + [Selected(s)]
    {
      s := *;
      log := log + [Selected(s)];
    }
  }

  /** The handler is at rest in its loop, and the entry under key is the automaton's status. */
  ghost predicate AtRest(okCode: int, log: seq<Event>, key: int, statuses: map<int, Status>) {
    key in statuses && Reaches(okCode, log, Waiting(statuses[key]))
  }

  /** What a handler does to its stream and to the status store, whether it is
      still in its loop (ended is None) or has returned. */
  ghost predicate Handled(okCode: int, log: seq<Event>, key: int,
                          was: map<int, Status>, now: map<int, Status>, ended: Option<Outcome>) {
    match ended
    case None => AtRest(okCode, log, key, now) && now == was[key := now[key]]
    case Some(outcome) => Reaches(okCode, log, Ended(outcome)) && now == was[key := Disconnected]
  }

  class VpnSServer {
    const statusStore: StatusStore
    static const CODE_OK := 0

    constructor (store: StatusStore)
      ensures statusStore == store
    {
      statusStore := store;
    }

    /** server is the result of looking the caller up. The handler is observed for
        at most the given number of rounds of its loop; ended is None when it is
        still looping after them, so every prefix of every run is covered. */
    method SubscribeWG(server: Option<int>, stream: Stream, rounds: nat) returns (ended: Option<Outcome>)
      requires stream.log == []
      modifies stream, statusStore
      ensures server.None? ==>
        ended == Some(Failed) && stream.log == [] && statusStore.statuses == old(statusStore.statuses)
      ensures server.Some? ==>
        Handled(CODE_OK, stream.log, server.value, old(statusStore.statuses), statusStore.statuses, ended)
    {
      if server.None? {
        return Some(Failed);
      }
      ended := Serve(server.value, stream, rounds);
      if ended.Some? {
        statusStore.Set(server.value, Disconnected);
      }
    }

    /** The handler without the deferred write. */
    method Serve(server: int, stream: Stream, rounds: nat) returns (ended: Option<Outcome>)
      requires stream.log == []
      modifies stream, statusStore
      ensures Handled(CODE_OK, stream.log, server, old(statusStore.statuses),
        if ended.Some? then statusStore.statuses[server := Disconnected] else statusStore.statuses, ended)
    {
      var req := stream.Recv();
      OneMore(CODE_OK, [], Subscribing, Received(req));
      if req.EndOfStream? {
        return Some(Clean);
      }
      if req.Broken? || !req.message.Subscribe? {
        return Some(Failed);
      }
      statusStore.Set(server, Healthy);
      var ok := stream.Watch();
      OneMore(CODE_OK, [Received(req)], Opening, Watched(ok));
      if !ok {
        return Some(Failed);
      }
      for i := 0 to rounds
        invariant AtRest(CODE_OK, stream.log, server, statusStore.statuses)
        invariant statusStore.statuses == old(statusStore.statuses)[server := statusStore.statuses[server]]
      {
        ghost var log, status := stream.log, statusStore.statuses[server];
        var selection := stream.Select();
        OneMore(CODE_OK, log, Waiting(status), Selected(selection));
        if !selection.Notification? {
          return Some(Clean);
        }
        log := stream.log;
        var sent := stream.Send();
        OneMore(CODE_OK, log, Sending(status), Sent(sent));
        if !sent {
          return Some(Failed);
        }
        ok := ReceiveFromServer(server, stream);
        if !ok {
          return Some(Failed);
        }
      }
      return None;
    }

    method ReceiveFromServer(server: int, stream: Stream) returns (ok: bool)
      requires server in statusStore.statuses
      requires Reaches(CODE_OK, stream.log, Replying(statusStore.statuses[server]))
      modifies stream, statusStore
      ensures server in statusStore.statuses
      ensures statusStore.statuses == old(statusStore.statuses)[server := statusStore.statuses[server]]
      ensures Reaches(CODE_OK, stream.log, if ok then Waiting(statusStore.statuses[server]) else Ended(Failed))
    {
      ghost var log, status := stream.log, statusStore.statuses[server];
      var resp := stream.Recv();
      OneMore(CODE_OK, log, Replying(status), Received(resp));
      match resp {
        case EndOfStream => return true;
        case Broken => return false;
        case Got(Subscribe) => return false;
        case Got(Response(code, message)) =>
          if code == CODE_OK {
            statusStore.Set(server, Healthy);
          } else {
            statusStore.Set(server, UpdateFailed(code, message));
          }
          return true;
        case Got(Unsupported) => return false;
      }
    }
  }

  class HealthcheckServer {
    const statusStore: StatusStore
    static const CODE_OK := 1
    static const STORE_ID := 0

    constructor (store: StatusStore)
      ensures statusStore == store
    {
      statusStore := store;
    }

    method SubscribeForSessionsUpdates(stream: Stream, rounds: nat) returns (ended: Option<Outcome>)
      requires stream.log == []
      modifies stream, statusStore
      ensures Handled(CODE_OK, stream.log, STORE_ID, old(statusStore.statuses), statusStore.statuses, ended)
    {
      ended := Serve(stream, rounds);
      if ended.Some? {
        statusStore.Set(STORE_ID, Disconnected);
      }
    }

    /** The handler without the deferred write. Watching for session updates never fails. */
    method Serve(stream: Stream, rounds: nat) returns (ended: Option<Outcome>)
      requires stream.log == []
      modifies stream, statusStore
      ensures Handled(CODE_OK, stream.log, STORE_ID, old(statusStore.statuses),
        if ended.Some? then statusStore.statuses[STORE_ID := Disconnected] else statusStore.statuses, ended)
    {
      var req := stream.Recv();
      OneMore(CODE_OK, [], Subscribing, Received(req));
      if req.EndOfStream? {
        return Some(Clean);
      }
      if req.Broken? || !req.message.Subscribe? {
        return Some(Failed);
      }
      statusStore.Set(STORE_ID, Healthy);
      stream.WatchSafely();
      OneMore(CODE_OK, [Received(req)], Opening, Watched(true));
      for i := 0 to rounds
        invariant AtRest(CODE_OK, stream.log, STORE_ID, statusStore.statuses)
        invariant statusStore.statuses == old(statusStore.statuses)[STORE_ID := statusStore.statuses[STORE_ID]]
      {
        ghost var log, status := stream.log, statusStore.statuses[STORE_ID];
        var selection := stream.Select();
        OneMore(CODE_OK, log, Waiting(status), Selected(selection));
        if !selection.Notification? {
          return Some(Clean);
        }
        log := stream.log;
        var sent := stream.Send();
        OneMore(CODE_OK, log, Sending(status), Sent(sent));
        if !sent {
          return Some(Failed);
        }
        var ok := ReceiveFromHealthcheck(stream);
        if !ok {
          return Some(Failed);
        }
      }
      return None;
    }

    method ReceiveFromHealthcheck(stream: Stream) returns (ok: bool)
      requires STORE_ID in statusStore.statuses
      requires Reaches(CODE_OK, stream.log, Replying(statusStore.statuses[STORE_ID]))
      modifies stream, statusStore
      ensures STORE_ID in statusStore.statuses
      ensures statusStore.statuses == old(statusStore.statuses)[STORE_ID := statusStore.statuses[STORE_ID]]
      ensures Reaches(CODE_OK, stream.log, if ok then Waiting(statusStore.statuses[STORE_ID]) else Ended(Failed))
    {
      ghost var log, status := stream.log, statusStore.statuses[STORE_ID];
      var resp := stream.Recv();
      OneMore(CODE_OK, log, Replying(status), Received(resp));
      match resp {
        case EndOfStream => return true;
        case Broken => return false;
        case Got(Subscribe) => return false;
        case Got(Response(code, message)) =>
          if code == CODE_OK {
            statusStore.Set(STORE_ID, Healthy);
          } else {
            statusStore.Set(STORE_ID, UpdateFailed(code, message));
          }
          return true;
        case Got(Unsupported) => return false;
      }
    }
  }

  // ---- Lockstep ----

  /** The stream calls of a log: what was received and sent. */
  function Calls(log: seq<Event>): seq<Event> {
    if log == [] then []
    else
      var e := log[|log| - 1];
      if e.Received? || e.Sent? then Calls(log[..|log| - 1]) + [e] else Calls(log[..|log| - 1])
  }

  /** The k-th call of a stream lets the handler go on. */
  predicate Continues(k: nat, e: Event) {
    if k % 2 == 1 then e == Sent(true)
    else if k == 0 then e == Received(Got(Subscribe))
    else e == Received(EndOfStream) || (e.Received? && e.receipt.Got? && e.receipt.message.Response?)
  }

  /** Receives and sends alternate, beginning with a receive, and only the last call can fail. */
  ghost predicate Lockstep(calls: seq<Event>) {
    && (forall k :: 0 <= k < |calls| ==> if k % 2 == 1 then calls[k].Sent? else calls[k].Received?)
    && (forall k :: 0 <= k < |calls| - 1 ==> Continues(k, calls[k]))
  }

  /** What the latest response reports; healthy before the first one. */
  function Latest(okCode: int, calls: seq<Event>): Status {
    if calls == [] then Healthy
    else match calls[|calls| - 1]
      case Received(Got(Response(code, message))) => StatusOf(okCode, code, message)
      case _ => Latest(okCode, calls[..|calls| - 1])
  }

  /** How a state reflects the calls that led to it. */
  ghost predicate Reflects(okCode: int, s: State, calls: seq<Event>) {
    var n := |calls|;
    match s
    case Subscribing => n == 0
    case Opening => n == 1 && Continues(0, calls[0])
    case Waiting(st) => n % 2 == 1 && Continues(n - 1, calls[n - 1]) && st == Latest(okCode, calls)
    case Sending(st) => n % 2 == 1 && Continues(n - 1, calls[n - 1]) && st == Latest(okCode, calls)
    case Replying(st) => n > 0 && n % 2 == 0 && Continues(n - 1, calls[n - 1]) && st == Latest(okCode, calls)
    case Ended(_) => n > 0
  }

  /** Every run is in lockstep, and while the handler runs its status is that of the latest response. */
  lemma {:induction false} RunsAreLockstep(okCode: int, log: seq<Event>, s: State)
    requires Reaches(okCode, log, s)
    ensures Lockstep(Calls(log)) && Reflects(okCode, s, Calls(log))
  {
    if log != [] {
      var n := |log| - 1;
      RunsAreLockstep(okCode, log[..n], After(okCode, log[..n]).value);
      var before := Calls(log[..n]);
      assert (before + [log[n]])[..|before|] == before;
    }
  }

  /** What comes before the k-th call of an exchange that goes on to it. */
  function Prelude(k: nat): seq<Event> {
    if k % 2 == 0 then [] else if k == 1 then [Watched(true), Selected(Notification)] else [Selected(Notification)]
  }

  /** A log whose stream calls are the given ones. */
  function Schedule(calls: seq<Event>): seq<Event> {
    if calls == [] then []
    else
      var n := |calls| - 1;
      Schedule(calls[..n]) + Prelude(n) + [calls[n]]
  }

  /** The state a lockstep exchange leads to. */
  function StateOf(okCode: int, calls: seq<Event>): State {
    var n := |calls|;
    if n == 0 then Subscribing
    else if !Continues(n - 1, calls[n - 1]) then Ended(if calls == [Received(EndOfStream)] then Clean else Failed)
    else if n == 1 then Opening
    else if n % 2 == 1 then Waiting(Latest(okCode, calls))
    else Replying(Latest(okCode, calls))
  }

  /** The state from which the next call of an exchange is made. */
  function StateBefore(okCode: int, calls: seq<Event>): State {
    if |calls| == 0 then Subscribing
    else if |calls| % 2 == 1 then Sending(Latest(okCode, calls))
    else Replying(Latest(okCode, calls))
  }

  lemma PreludeRuns(okCode: int, log: seq<Event>, calls: seq<Event>)
    requires Reaches(okCode, log, StateOf(okCode, calls)) && Calls(log) == calls
    requires calls != [] ==> Continues(|calls| - 1, calls[|calls| - 1])
    ensures Reaches(okCode, log + Prelude(|calls|), StateBefore(okCode, calls)) &&
      Calls(log + Prelude(|calls|)) == calls
  {
    var st := Latest(okCode, calls);
    if |calls| % 2 == 0 {
      assert log + Prelude(|calls|) == log;
    } else {
      var watched := if |calls| == 1 then log + [Watched(true)] else log;
      if |calls| == 1 {
        OneMore(okCode, log, Opening, Watched(true));
        CallsOfOneMore(log, Watched(true));
        assert Latest(okCode, calls) == Latest(okCode, []);
      }
      OneMore(okCode, watched, Waiting(st), Selected(Notification));
      CallsOfOneMore(watched, Selected(Notification));
      assert log + Prelude(|calls|) == watched + [Selected(Notification)];
    }
  }

  lemma CallFromBefore(okCode: int, log: seq<Event>, calls: seq<Event>)
    requires calls != []
    requires if |calls| % 2 == 0 then calls[|calls| - 1].Sent? else calls[|calls| - 1].Received?
    requires Reaches(okCode, log, StateBefore(okCode, calls[..|calls| - 1])) && Calls(log) == calls[..|calls| - 1]
    ensures Reaches(okCode, log + [calls[|calls| - 1]], StateOf(okCode, calls))
    ensures Calls(log + [calls[|calls| - 1]]) == calls
  {
    var n := |calls| - 1;
    assert n == 0 ==> calls == [calls[0]];
    OneMore(okCode, log, StateBefore(okCode, calls[..n]), calls[n]);
    CallsOfOneMore(log, calls[n]);
    assert calls == calls[..n] + [calls[n]];
  }

  /** Cutting the last call off a lockstep exchange. */
  lemma LockstepBut(calls: seq<Event>)
    requires Lockstep(calls) && calls != []
    ensures var n := |calls| - 1;
      && Lockstep(calls[..n])
      && (if |calls| % 2 == 0 then calls[n].Sent? else calls[n].Received?)
      && (n > 0 ==> Continues(n - 1, calls[..n][n - 1]))
  {
  }

  /** Every lockstep exchange is one the handlers can have. */
  lemma {:induction false} LockstepCanHappen(okCode: int, calls: seq<Event>)
    requires Lockstep(calls)
    ensures Reaches(okCode, Schedule(calls), StateOf(okCode, calls)) && Calls(Schedule(calls)) == calls
  {
    if calls != [] {
      var n := |calls| - 1;
      LockstepBut(calls);
      LockstepCanHappen(okCode, calls[..n]);
      PreludeRuns(okCode, Schedule(calls[..n]), calls[..n]);
      CallFromBefore(okCode, Schedule(calls[..n]) + Prelude(n), calls);
    }
  }

  lemma CallsOfOneMore(log: seq<Event>, e: Event)
    ensures Calls(log + [e]) == if e.Received? || e.Sent? then Calls(log) + [e] else Calls(log)
  {
    assert (log + [e])[..|log|] == log;
  }

  /** The exchanges the handlers can have are exactly the lockstep ones. */
  lemma ExchangesAreLockstep(okCode: int, calls: seq<Event>)
    ensures Lockstep(calls) <==> exists log :: After(okCode, log).Some? && Calls(log) == calls
  {
    if Lockstep(calls) {
      LockstepCanHappen(okCode, calls);
    }
    forall log | After(okCode, log).Some? ensures Lockstep(Calls(log)) {
      RunsAreLockstep(okCode, log, After(okCode, log).value);
    }
  }

  /** While a handler is at rest in its loop, the store holds the status of the
      latest response, or healthy if there was none. */
  lemma StoredStatusIsLatest(okCode: int, log: seq<Event>, key: int, statuses: map<int, Status>)
    requires AtRest(okCode, log, key, statuses)
    ensures statuses[key] == Latest(okCode, Calls(log))
  {
    RunsAreLockstep(okCode, log, Waiting(statuses[key]));
  }

  /** Nothing is sent before the peer subscribes; each successful send is followed
      by exactly one receive before the next send. */
  lemma EachSendIsAnswered(okCode: int, log: seq<Event>, s: State, i: nat, j: nat)
    requires Reaches(okCode, log, s) && i < j < |Calls(log)|
    requires Calls(log)[i].Sent?
    ensures Calls(log)[0] == Received(Got(Subscribe)) && Calls(log)[i] == Sent(true)
    ensures Calls(log)[i + 1].Received?
    ensures Calls(log)[j].Sent? ==> i + 2 <= j && Calls(log)[i + 2].Sent?
  {
    RunsAreLockstep(okCode, log, s);
  }

  /** A run ends without error exactly when a select found no notification, or the
      stream ended before the peer subscribed. */
  lemma EndsCleanly(okCode: int, log: seq<Event>, outcome: Outcome)
    requires Reaches(okCode, log, Ended(outcome))
    ensures outcome == Clean <==> log[|log| - 1].Selected? || log == [Received(EndOfStream)]
  {
    var n := |log| - 1;
    RunsAreLockstep(okCode, log[..n], After(okCode, log[..n]).value);
  }

  // ---- Event by event ----

  /** After event e at position k the handler goes on to an event of f's kind. */
  predicate CanFollow(k: nat, e: Event, f: Event) {
    match e
    case Received(receipt) =>
      if k == 0 then receipt == Got(Subscribe) && f.Watched?
      else (receipt == EndOfStream || (receipt.Got? && receipt.message.Response?)) && f.Selected?
    case Watched(ok) => ok && f.Selected?
    case Selected(selection) => selection == Notification && f.Sent?
    case Sent(ok) => ok && f.Received?
  }

  /** Event e at position k is the last: nothing follows it. */
  predicate Stops(k: nat, e: Event) {
    match e
    case Received(receipt) =>
      if k == 0 then receipt != Got(Subscribe)
      else receipt == Broken || receipt == Got(Subscribe) || receipt == Got(Unsupported)
    case Watched(ok) => !ok
    case Selected(selection) => selection == ChannelClosed || selection == PeerLeft
    case Sent(ok) => !ok
  }

  ghost predicate InOrder(log: seq<Event>) {
    && (log != [] ==> log[0].Received?)
    && (forall k :: 0 <= k < |log| - 1 ==> CanFollow(k, log[k], log[k + 1]))
  }

  /** The state, told from the last event. */
  predicate Fits(s: State, log: seq<Event>) {
    if log == [] then s.Subscribing?
    else
      var k, e := |log| - 1, log[|log| - 1];
      match s
      case Subscribing => false
      case Opening => k == 0 && e == Received(Got(Subscribe))
      case Waiting(_) => k > 0 && (e == Watched(true) || (e.Received? && !Stops(k, e)))
      case Sending(_) => e == Selected(Notification)
      case Replying(_) => k > 0 && e == Sent(true)
      case Ended(_) => Stops(k, e)
  }

  lemma FitsOneMore(okCode: int, s: State, log: seq<Event>, e: Event)
    requires Fits(s, log)
    ensures Next(okCode, s, e).Some? <==> if log == [] then e.Received? else CanFollow(|log| - 1, log[|log| - 1], e)
    ensures Next(okCode, s, e).Some? ==> Fits(Next(okCode, s, e).value, log + [e])
  {
  }

  /** The runs of the automaton, said of neighbouring events, and which of them have ended. */
  lemma {:induction false} RunsEventByEvent(okCode: int, log: seq<Event>)
    ensures After(okCode, log).Some? <==> InOrder(log)
    ensures After(okCode, log).Some? ==> Fits(After(okCode, log).value, log)
  {
    if log != [] {
      var n := |log| - 1;
      RunsEventByEvent(okCode, log[..n]);
      assert log == log[..n] + [log[n]];
      InOrderOneMore(log[..n], log[n]);
      if After(okCode, log[..n]).Some? {
        FitsOneMore(okCode, After(okCode, log[..n]).value, log[..n], log[n]);
      }
    }
  }

  lemma InOrderOneMore(log: seq<Event>, e: Event)
    ensures InOrder(log + [e]) <==>
      InOrder(log) && if log == [] then e.Received? else CanFollow(|log| - 1, log[|log| - 1], e)
  {
    var all := log + [e];
    assert forall k :: 0 <= k < |log| ==> all[k] == log[k];
    if InOrder(all) {
      forall k | 0 <= k < |log| - 1 ensures CanFollow(k, log[k], log[k + 1]) {
        assert CanFollow(k, all[k], all[k + 1]);
      }
      assert log != [] ==> CanFollow(|log| - 1, all[|log| - 1], all[|log|]);
    }
  }

  /** A run has ended exactly when its last event is one after which nothing follows. */
  lemma EndsExactly(okCode: int, log: seq<Event>)
    requires After(okCode, log).Some?
    ensures After(okCode, log).value.Ended? <==> log != [] && Stops(|log| - 1, log[|log| - 1])
  {
    RunsEventByEvent(okCode, log);
  }

  // ---- What is stored ----

  predicate IsResponse(e: Event) {
    e.Received? && e.receipt.Got? && e.receipt.message.Response?
  }

  lemma {:induction false} LatestAt(okCode: int, log: seq<Event>, k: nat, code: int, message: string)
    requires k < |log| && log[k] == Received(Got(Response(code, message)))
    requires forall j :: k < j < |log| ==> !IsResponse(log[j])
    ensures Latest(okCode, Calls(log)) == if code == okCode then Healthy else UpdateFailed(code, message)
  {
    var n := |log| - 1;
    var before := Calls(log[..n]);
    assert (before + [log[n]])[..|before|] == before;
    if k < n {
      LatestAt(okCode, log[..n], k, code, message);
    }
  }

  lemma {:induction false} NoResponseHealthy(okCode: int, log: seq<Event>)
    requires forall j :: 0 <= j < |log| ==> !IsResponse(log[j])
    ensures Latest(okCode, Calls(log)) == Healthy
  {
    if log != [] {
      var n := |log| - 1;
      var before := Calls(log[..n]);
      assert (before + [log[n]])[..|before|] == before;
      NoResponseHealthy(okCode, log[..n]);
    }
  }

  /** Of a VPN server, the store holds what the latest response says: code 0 is health, and
      any other code is the failure it names. */
  lemma VpnStatusStored(log: seq<Event>, key: int, was: map<int, Status>, now: map<int, Status>,
                        k: nat, code: int, message: string)
    requires Handled(VpnSServer.CODE_OK, log, key, was, now, None)
    requires k < |log| && log[k] == Received(Got(Response(code, message)))
    requires forall j :: k < j < |log| ==> !IsResponse(log[j])
    ensures now == was[key := if code == 0 then Healthy else UpdateFailed(code, message)]
  {
    StoredStatusIsLatest(VpnSServer.CODE_OK, log, key, now);
    LatestAt(VpnSServer.CODE_OK, log, k, code, message);
  }

  /** Of the healthcheck service likewise, with code 1, under entry 0. */
  lemma HealthcheckStatusStored(log: seq<Event>, was: map<int, Status>, now: map<int, Status>,
                                k: nat, code: int, message: string)
    requires Handled(HealthcheckServer.CODE_OK, log, HealthcheckServer.STORE_ID, was, now, None)
    requires k < |log| && log[k] == Received(Got(Response(code, message)))
    requires forall j :: k < j < |log| ==> !IsResponse(log[j])
    ensures now == was[0 := if code == 1 then Healthy else UpdateFailed(code, message)]
  {
    StoredStatusIsLatest(HealthcheckServer.CODE_OK, log, HealthcheckServer.STORE_ID, now);
    LatestAt(HealthcheckServer.CODE_OK, log, k, code, message);
  }

  /** Before the first response a subscribed peer is healthy. */
  lemma SubscribedIsHealthy(okCode: int, log: seq<Event>, key: int, was: map<int, Status>, now: map<int, Status>)
    requires Handled(okCode, log, key, was, now, None)
    requires forall j :: 0 <= j < |log| ==> !IsResponse(log[j])
    ensures now == was[key := Healthy] && log[0] == Received(Got(Subscribe))
  {
    StoredStatusIsLatest(okCode, log, key, now);
    NoResponseHealthy(okCode, log);
    RunsAreLockstep(okCode, log, Waiting(now[key]));
    RunsEventByEvent(okCode, log);
    assert |log| > 1 ==> CanFollow(0, log[0], log[1]);
  }

  /** A handler that has returned leaves its peer disconnected and other entries alone, and
      its last event is one that ends a run. */
  lemma ReturnedIsDisconnected(okCode: int, log: seq<Event>, key: int, was: map<int, Status>, now: map<int, Status>,
                               outcome: Outcome)
    requires Handled(okCode, log, key, was, now, Some(outcome))
    ensures now == was[key := Disconnected] && log != [] && Stops(|log| - 1, log[|log| - 1])
  {
    EndsExactly(okCode, log);
  }
}
