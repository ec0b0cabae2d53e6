/**
 A close under way comes to its end: from a reachable state, by steps that nobody has to help
 along, exactly when its writes are over or bounded, or some call is still going to bound them.
*/
module RelayCloses {
  import opened Common
  import opened Relay
  import opened RelayProofs
  import opened RelayTheorems
  import opened RelayProgress
  import opened RelayReturns

  /** A call that would find connection `c`. */
  ghost predicate Finds(h: Hub, j: nat, c: nat) {
    j < |h.calls| && h.calls[j].pc.Lookup? && Found(h, h.calls[j]) == Some(c)
  }

  /** The writes ahead of this close are over or under a deadline, or some call is going to set one. */
  ghost predicate WillBeBounded(h: Hub, c: nat)
    requires c < |h.conns|
  {
    || Bounded(h.conns[c])
    || (exists j: nat :: EarlyCall(h, c, j))
    || (exists j: nat :: Finds(h, j, c))
  }

  // ---------------------------------------------------------------- it ends

  lemma BoundedCloses(h: Hub, h1: Hub, c: nat) returns (h': Hub)
    requires Proceeds(h, h1, c) && Bounded(h1.conns[c]) && !h1.conns[c].phase.Open?
    ensures Leads(h, h') && c < |h'.conns| && h'.conns[c].phase.Closed?
  {
    hide Leads, Inv;
    h' := CloseThrough(h1, c);
    LeadsOn(h, h1, h');
  }

  lemma EarlyCloses(h: Hub, c: nat, j: nat) returns (h': Hub)
    requires Inv(h) && c < |h.conns| && !h.conns[c].phase.Open? && EarlyCall(h, c, j)
    ensures Leads(h, h') && c < |h'.conns| && h'.conns[c].phase.Closed?
  {
    hide Leads, Inv;
    var h1: Hub;
    if h.calls[j].pc.Admission? { h1 := SlotComes(h, j, c); } else { h1 := SetsDeadline(h, j, c); }
    h' := BoundedCloses(h, h1, c);
  }

  lemma Closes(h: Hub, c: nat) returns (h': Hub)
    requires Inv(h) && c < |h.conns| && !h.conns[c].phase.Open? && WillBeBounded(h, c)
    ensures Leads(h, h') && c < |h'.conns| && h'.conns[c].phase.Closed?
  {
    hide Leads, Inv;
    if Bounded(h.conns[c]) {
      LeadsNowhere(h);
      BesideItself(h, c);
      h' := BoundedCloses(h, h, c);
    } else if j: nat :| EarlyCall(h, c, j) {
      h' := EarlyCloses(h, c, j);
    } else {
      var j: nat :| Finds(h, j, c);
      var e := CallFind(j);
      LeadsByStep(h, e);
      InvStep(h, e);
      h' := EarlyCloses(Step(h, e), c, j);
      LeadsOn(h, Step(h, e), h');
    }
  }

  // ---------------------------------------------------------------- or never ends

  /** The close is under way, with a write ahead that no call is going to bound. */
  ghost predicate Unbounded(h: Hub, c: nat) {
    c < |h.conns| && !h.conns[c].phase.Open? && !WillBeBounded(h, c)
  }

  lemma UnboundedByCall(h: Hub, c: nat, i: nat, a: CallAct)
    requires Inv(h) && Unbounded(h, c) && Enabled(h, OfCall(i, a))
    ensures Unbounded(StepCall(h, i, a), c)
  {
    hide Fits, Sound, CallReady, CallAfter, ConnAfterCall, Slots;
    var h', d := StepCall(h, i, a), h.calls[i].conn.value;
    assert CallOk(h, i);
    NotLookup(h, i);
    CallMovesOn(i, h.calls[i], h.conns[d], h.maxInFlight, a);
    CallKeepsConn(i, h.calls[i], h.conns[d], h.maxInFlight, a);
    NoLookupAgain(h.calls[i], h.conns[d], h.maxInFlight, a);
    if d == c {
      assert !EarlyCall(h, c, i);
      UnboundedAct(i, h.calls[i], h.conns[c], h.maxInFlight, a);
    }
    forall j: nat ensures !EarlyCall(h', c, j) { assert !EarlyCall(h, c, j); }
    forall j: nat ensures !Finds(h', j, c) { assert !Finds(h, j, c); }
  }

  lemma NoLookupAgain(call: Call, conn: Conn, m: nat, a: CallAct)
    requires CallReady(call, conn, m, a)
    ensures !CallAfter(call, conn, m, a).pc.Lookup?
  {
  }

  lemma UnboundedByClose(h: Hub, c: nat, d: nat, a: CloseAct)
    requires Inv(h) && Unbounded(h, c) && Enabled(h, OfClose(d, a)) && Unaided(h, OfClose(d, a))
    ensures Unbounded(StepClose(h, d, a), c)
  {
    hide Calls, Conns, Slots, Registry;
    var h' := StepClose(h, d, a);
    forall j: nat ensures !EarlyCall(h', c, j) { assert !EarlyCall(h, c, j); }
    forall j: nat ensures !Finds(h', j, c) { assert !Finds(h, j, c); }
  }

  lemma UnboundedByRead(h: Hub, c: nat, d: nat, a: ReadAct)
    requires Inv(h) && Unbounded(h, c) && Enabled(h, OfReader(d, a))
    ensures Unbounded(StepRead(h, d, a), c)
  {
    hide Calls, Conns, Slots, Registry, ConnAfterRead;
    var h' := StepRead(h, d, a);
    ReadMovesOn(h.conns[d], a);
    forall j: nat ensures !EarlyCall(h', c, j) { assert !EarlyCall(h, c, j); }
    forall j: nat ensures !Finds(h', j, c) { assert !Finds(h, j, c); }
  }

  lemma UnboundedByOther(h: Hub, c: nat, e: Event)
    requires Inv(h) && Unbounded(h, c) && Enabled(h, e) && (e.RegisterFinish? || e.CallFind?)
    ensures Unbounded(Step(h, e), c)
  {
    hide Calls, Conns, Slots, Registry;
    var h' := Step(h, e);
    forall j: nat ensures !EarlyCall(h', c, j) { assert !EarlyCall(h, c, j) && !Finds(h, j, c); }
    forall j: nat ensures !Finds(h', j, c) { assert !Finds(h, j, c); }
  }

  lemma UnboundedStep(h: Hub, c: nat, e: Event)
    requires Inv(h) && Unbounded(h, c) && Enabled(h, e) && Unaided(h, e)
    ensures Unbounded(Step(h, e), c)
  {
    hide Unbounded, Inv, Enabled;
    match e {
      case OfCall(i, a) => UnboundedByCall(h, c, i, a);
      case OfClose(d, a) => UnboundedByClose(h, c, d, a);
      case OfReader(d, a) => UnboundedByRead(h, c, d, a);
      case _ => UnboundedByOther(h, c, e);
    }
  }

  lemma {:induction false} UnboundedRun(h: Hub, c: nat, events: seq<Event>)
    requires Inv(h) && Unbounded(h, c) && UnaidedRun(h, events) && IsRun(h, events)
    ensures Unbounded(After(h, events), c)
    decreases |events|
  {
    hide Step, Enabled, Unaided, Inv, Unbounded;
    if events != [] {
      InvStep(h, events[0]);
      UnboundedStep(h, c, events[0]);
      UnboundedRun(Step(h, events[0]), c, events[1..]);
    }
  }

  /**
   A close under way comes to its end by the program's own steps and its deadlines exactly when
   its farewell is over or under a write deadline, or a call on the connection, or one about to
   find it, has yet to set that deadline.
   */
  lemma CloseEndsExactlyWhenBounded(h: Hub, c: nat)
    requires Reachable(h) && c < |h.conns| && !h.conns[c].phase.Open?
    ensures (exists events: seq<Event> :: UnaidedRun(h, events) && IsRun(h, events)
                && c < |After(h, events).conns| && After(h, events).conns[c].phase.Closed?)
       <==> WillBeBounded(h, c)
  {
    hide Reachable, Inv, UnaidedRun, WillBeBounded, ArrivesAt;
    ReachableInv(h);
    if WillBeBounded(h, c) {
      var h' := Closes(h, c);
      var events: seq<Event> :| ArrivesAt(h, events, h');
      ArrivesByRun(h, events, h');
    } else {
      forall events: seq<Event> | UnaidedRun(h, events) && IsRun(h, events)
        ensures c < |After(h, events).conns| && !After(h, events).conns[c].phase.Closed?
      {
        UnboundedRun(h, c, events);
        NotClosed(After(h, events), c);
      }
    }
  }

  lemma NotClosed(h: Hub, c: nat)
    requires Unbounded(h, c)
    ensures c < |h.conns| && !h.conns[c].phase.Closed?
  {
  }
}
