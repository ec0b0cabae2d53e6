/** What the relay hub guarantees in every reachable state and over every run. */
module RelayTheorems {
  import opened Common
  import opened Relay
  import opened RelayProofs

  ghost predicate Inv(h: Hub) {
    Calls(h) && Conns(h) && Slots(h) && Registry(h)
  }

  lemma InvStep(h: Hub, e: Event)
    requires Inv(h) && Enabled(h, e)
    ensures Inv(Step(h, e))
  {
    hide Step, Enabled, Calls, Conns, Slots, Registry;
    CoreStep(h, e);
    SlotsStep(h, e);
    RegistryStep(h, e);
  }

  lemma {:induction false} InvRun(h: Hub, events: seq<Event>)
    requires Inv(h) && IsRun(h, events)
    ensures Inv(After(h, events))
    decreases |events|
  {
    hide Step, Enabled, Inv;
    if events != [] {
      InvStep(h, events[0]);
      InvRun(Step(h, events[0]), events[1..]);
    }
  }

  lemma InvInitially(maxInFlight: int)
    ensures Inv(NewHub(maxInFlight))
  {
  }

  /** Every interleaving keeps the invariant. */
  lemma ReachableInv(h: Hub)
    requires Reachable(h)
    ensures Inv(h)
  {
    hide Step, Enabled, Inv;
    var maxInFlight: int, events: seq<Event> :|
      IsRun(NewHub(maxInFlight), events) && After(NewHub(maxInFlight), events) == h;
    InvInitially(maxInFlight);
    InvRun(NewHub(maxInFlight), events);
  }

  /** A run may be continued by one event. */
  lemma {:induction false} RunAppend(h: Hub, events: seq<Event>, e: Event)
    requires IsRun(h, events) && Enabled(After(h, events), e)
    ensures IsRun(h, events + [e]) && After(h, events + [e]) == Step(After(h, events), e)
    decreases |events|
  {
    hide Step, Enabled;
    if events == [] {
      assert [e][1..] == [] && ([] + [e])[0] == e;
      assert IsRun(Step(h, e), []);
    } else {
      RunAppend(Step(h, events[0]), events[1..], e);
      assert (events + [e])[1..] == events[1..] + [e];
    }
  }

  lemma ReachableStep(h: Hub, e: Event)
    requires Reachable(h) && Enabled(h, e)
    ensures Reachable(Step(h, e))
  {
    hide Step, Enabled, IsRun, After;
    var maxInFlight: int, events: seq<Event> :|
      IsRun(NewHub(maxInFlight), events) && After(NewHub(maxInFlight), events) == h;
    RunAppend(NewHub(maxInFlight), events, e);
  }

  lemma ReachableInitially(maxInFlight: int)
    ensures Reachable(NewHub(maxInFlight))
  {
    assert IsRun(NewHub(maxInFlight), []);
  }

  // ---------------------------------------------------------------- what a call returns

  /**
   A call that succeeds returns the payload of the first result frame for its own id that
   its own connection looked up after the call registered; it was sent before it succeeded.
   That frame is the first for the id ever read exactly when the device did not send one
   before the call registered, that is, did not guess the id.
   */
  lemma SuccessIsFirstReply(h: Hub, i: nat)
    requires Reachable(h) && i < |h.calls| && h.calls[i].pc.Returned? && h.calls[i].pc.outcome.Success?
    ensures OnConn(h, i) && h.calls[i].id.Some? && h.calls[i].written
    ensures var call, log := h.calls[i], ConnOf(h, i).log;
            && FirstSince(log, |log|, call.id.value, call.regAt, call.pc.outcome.at)
            && log[call.pc.outcome.at] == ResultFrame(call.id.value, call.pc.outcome.payload)
    ensures var call, log := h.calls[i], ConnOf(h, i).log;
            FirstSince(log, |log|, call.id.value, 0, call.pc.outcome.at) <==>
                NoneSince(log, call.regAt, call.id.value, 0)
  {
    hide Reachable;
    ReachableInv(h);
    assert CallOk(h, i);
    var call, log := h.calls[i], ConnOf(h, i).log;
    if !NoneSince(log, call.regAt, call.id.value, 0) {
      var k :| 0 <= k < call.regAt && log[k].id == call.id.value;
      assert k < call.pc.outcome.at;
    }
  }

  /** The end of the context of call `i`. */
  predicate ContextEnds(e: Event, i: nat) {
    e == OfCall(i, Abandon(ContextDone)) || e == OfCall(i, GiveUp(ContextDone))
  }

  predicate EndedByContext(h: Hub, i: nat) {
    i < |h.calls| && HasOutcome(h.calls[i].pc) && h.calls[i].pc.outcome == Failure(ContextDone)
  }

  lemma ContextAct(i: nat, call: Call, conn: Conn, m: nat, a: CallAct)
    requires Fits(i, call, conn) && CallReady(call, conn, m, a)
    requires HasOutcome(CallAfter(call, conn, m, a).pc)
    requires CallAfter(call, conn, m, a).pc.outcome == Failure(ContextDone)
    ensures ContextEnds(OfCall(i, a), i) || (HasOutcome(call.pc) && call.pc.outcome == Failure(ContextDone))
  {
  }

  /** Only the end of its context makes a call report it. */
  lemma ContextStep(h: Hub, e: Event, i: nat)
    requires Inv(h) && Enabled(h, e) && EndedByContext(Step(h, e), i)
    ensures EndedByContext(h, i) || ContextEnds(e, i)
  {
    hide CallAfter, ConnAfterCall, CallReady, Fits, Slots, Registry, Conns, ConnAfterClose, ConnAfterRead;
    if e.OfCall? && e.call == i {
      assert CallOk(h, i);
      ContextAct(i, h.calls[i], ConnOf(h, i), h.maxInFlight, e.act);
    }
  }

  lemma {:induction false} ContextRun(h: Hub, events: seq<Event>, i: nat) returns (k: nat)
    requires Inv(h) && IsRun(h, events) && !EndedByContext(h, i) && EndedByContext(After(h, events), i)
    ensures k < |events| && ContextEnds(events[k], i)
    decreases |events|
  {
    hide Step, Enabled, Inv, EndedByContext;
    k := 0;
    InvStep(h, events[0]);
    if EndedByContext(Step(h, events[0]), i) {
      ContextStep(h, events[0], i);
    } else {
      var rest := ContextRun(Step(h, events[0]), events[1..], i);
      k := rest + 1;
    }
  }

  // ---------------------------------------------------------------- waiting calls

  /**
   A waiting call without a message is still reachable through `pending`, and no frame for its
   id has come since it registered, save one in the read loop's hands; a reply in its channel is
   the first such frame, and a failure means that its connection has been drained.
   */
  lemma NoLostWaiter(h: Hub, i: nat)
    requires Reachable(h) && i < |h.calls| && h.calls[i].pc.Waiting?
    ensures OnConn(h, i) && h.calls[i].id.Some?
    ensures var call, conn := h.calls[i], ConnOf(h, i);
            match call.slot
            case None =>
              && call.id.value in conn.pending && conn.pending[call.id.value] == i
              && (forall k :: call.regAt <= k < |conn.log| && conn.log[k].id == call.id.value ==>
                    k == |conn.log| - 1 && (conn.reader.Holding? || conn.reader.Delivering?))
            case Some(Reply(payload, at)) =>
              && call.regAt <= at < |conn.log| && conn.log[at] == ResultFrame(call.id.value, payload)
              && (forall k :: call.regAt <= k < at ==> conn.log[k].id != call.id.value)
            case Some(Failed(error)) => (conn.phase.Draining? || conn.phase.Closed?) && error == conn.closeError
  {
    hide Reachable;
    ReachableInv(h);
    assert CallOk(h, i);
  }

  /** A call waits for a slot only while as many calls as the limit allows have one. */
  lemma AdmittedWhileRoom(h: Hub, i: nat)
    requires Reachable(h) && OnConn(h, i) && h.calls[i].pc.Admission?
    ensures Enabled(h, OfCall(i, Admit)) <==> |Holders(h, h.calls[i].conn.value)| < h.maxInFlight
  {
    hide Reachable;
    ReachableInv(h);
  }

  /** Pending ids belong to calls that hold a slot, so there are at most `maxInFlight`. */
  lemma PendingIsBounded(h: Hub, c: nat)
    requires Reachable(h) && c < |h.conns|
    ensures h.conns[c].pending.Values <= Holders(h, c)
    ensures |h.conns[c].pending| <= h.conns[c].sem <= h.maxInFlight
  {
    hide Reachable;
    ReachableInv(h);
    assert Targets(h, c);
    var pending := h.conns[c].pending;
    forall id | id in pending ensures pending[id] in Holders(h, c) && h.calls[pending[id]].id == Some(id) {
      assert CallOk(h, pending[id]);
    }
    assert |pending| == |pending.Keys|;
    InjectionBound(pending.Keys, Holders(h, c), pending);
  }

  /** One frame at a time goes out: of its calls, its read loop and its close, at most one is writing. */
  lemma OneWriter(h: Hub, c: nat)
    requires Reachable(h) && c < |h.conns|
    ensures !(h.conns[c].reader.Ponging? && h.conns[c].phase.Farewell?)
    ensures forall i: nat, j: nat ::
              CallOn(h, i, c) && CallOn(h, j, c) && h.calls[i].pc.Writing? && h.calls[j].pc.Writing? ==> i == j
    ensures forall i: nat :: CallOn(h, i, c) && h.calls[i].pc.Writing? ==>
              !h.conns[c].reader.Ponging? && !h.conns[c].phase.Farewell?
  {
    hide Reachable;
    ReachableInv(h);
    assert Sound(h.conns[c]);
    forall i: nat | CallOn(h, i, c) && h.calls[i].pc.Writing? ensures h.conns[c].writer == Some(CallWriter(i)) {
      assert CallOk(h, i);
    }
  }

  /** Once the drain has run, `pending` is empty in every continuation. */
  lemma DrainedForever(h: Hub, c: nat, events: seq<Event>)
    requires Reachable(h) && c < |h.conns| && h.conns[c].phase.Closed? && IsRun(h, events)
    ensures c < |After(h, events).conns|
    ensures After(h, events).conns[c].phase.Closed? && After(h, events).conns[c].pending == map[]
  {
    hide Reachable, IsRun, After;
    ReachableInv(h);
    DrainedRun(h, c, events);
  }

  lemma {:induction false} DrainedRun(h: Hub, c: nat, events: seq<Event>)
    requires Inv(h) && c < |h.conns| && h.conns[c].phase.Closed? && IsRun(h, events)
    ensures c < |After(h, events).conns|
    ensures After(h, events).conns[c].phase.Closed? && After(h, events).conns[c].pending == map[]
    decreases |events|
  {
    hide Step, Enabled, Calls, Slots, Registry, Targets;
    if events != [] {
      InvStep(h, events[0]);
      ClosedStays(h, events[0], c);
      DrainedRun(Step(h, events[0]), c, events[1..]);
    }
  }

  lemma ClosedStays(h: Hub, e: Event, c: nat)
    requires Enabled(h, e) && c < |h.conns| && h.conns[c].phase.Closed?
    ensures c < |Step(h, e).conns| && Step(h, e).conns[c].phase.Closed?
  {
    hide ConnAfterCall, ConnAfterRead, CallReady, ReadReady, CallAfter;
    match e {
      case OfCall(i, a) => CallMovesOn(i, h.calls[i], ConnOf(h, i), h.maxInFlight, a);
      case OfReader(d, a) => ReadMovesOn(h.conns[d], a);
      case _ =>
    }
  }

  // ---------------------------------------------------------------- the registry

  lemma StaysRegistered(h: Hub, e: Event, r: nat)
    requires Registry(h) && Enabled(h, e) && IsRegistered(h, r) && !(e.OfClose? && e.close.Unregister?)
    requires e.RegisterSwap? ==> e.device != h.conns[r].device
    ensures IsRegistered(Step(h, e), r)
  {
    if e.OfCall? || e.OfClose? || e.OfReader? {
      hide Registry, Step, Enabled, Listed;
      ConnMovesOn(h, e, r);
      SameConns(h, e);
    }
  }

  /** A connection leaves the registry only by its own close or by a newer registration of its device. */
  lemma OnlyOwnCloseUnregisters(h: Hub, e: Event, r: nat)
    requires Registry(h) && Enabled(h, e) && IsRegistered(h, r) && !IsRegistered(Step(h, e), r)
    ensures e == OfClose(r, Unregister) || (e.RegisterSwap? && e.device == h.conns[r].device)
  {
    hide Registry;
    if !(e.OfClose? && e.close.Unregister?) && !(e.RegisterSwap? && e.device == h.conns[r].device) {
      StaysRegistered(h, e, r);
    }
  }

  /** An open connection that is not registered is waiting for its replacement to close it. */
  lemma OpenIsRegistered(h: Hub, c: nat)
    requires Reachable(h) && c < |h.conns| && !h.conns[c].Done()
    ensures IsRegistered(h, c) || BeingSuperseded(h, c)
  {
    ReachableInv(h);
  }

  /** No `close` and no `Register` is in progress. */
  ghost predicate Quiet(h: Hub) {
    forall c :: 0 <= c < |h.conns| ==>
      (h.conns[c].phase.Open? || h.conns[c].phase.Closed?) && !h.conns[c].reader.NotStarted?
  }

  /** At rest the registered connections are exactly the open ones. */
  lemma QuietRegistry(h: Hub)
    requires Reachable(h) && Quiet(h)
    ensures forall c :: 0 <= c < |h.conns| ==> (IsRegistered(h, c) <==> !h.conns[c].Done())
  {
    hide Reachable;
    ReachableInv(h);
    forall c | 0 <= c < |h.conns| ensures Sound(h.conns[c]) { assert Targets(h, c); }
  }
}
