/** Runs that show where a property of the relay hub needs its condition. */
module RelayWitnesses {
  import opened Common
  import opened Relay
  import opened RelayProofs
  import opened RelayTheorems
  import opened RelayProgress
  import opened RelayReturns
  import opened RelayCloses

  /** One more event of a run. */
  lemma Taken(h: Hub, e: Event) returns (h': Hub)
    requires Reachable(h) && Enabled(h, e)
    ensures h' == Step(h, e) && Reachable(h')
  {
    ReachableStep(h, e);
    h' := Step(h, e);
  }

  /** The hub after the calls, one connection and the used ids have changed. */
  function Changed(h: Hub, c: nat, conn: Conn, i: nat, call: Call, used: map<FrameId, nat>): Hub
    requires c < |h.conns| && i < |h.calls|
  {
    h.(conns := h.conns[c := conn], calls := h.calls[i := call], used := used)
  }

  /** One more step of call `i`, seen as a change of the call and its connection. */
  lemma TakenByCall(h: Hub, c: nat, conn: Conn, i: nat, call: Call, used: map<FrameId, nat>, a: CallAct)
    requires c < |h.conns| && i < |h.calls| && Reachable(Changed(h, c, conn, i, call, used))
    requires call.conn == Some(c) && CallReady(call, conn, h.maxInFlight, a) && (a.Enlist? ==> a.id !in used)
    ensures var call', conn' := CallAfter(call, conn, h.maxInFlight, a), ConnAfterCall(i, call, conn, h.maxInFlight, a);
            Reachable(Changed(h, c, conn', i, call', if a.Enlist? then used[a.id := i] else used))
  {
    hide Reachable, CallReady, CallAfter, ConnAfterCall;
    var call', conn' := CallAfter(call, conn, h.maxInFlight, a), ConnAfterCall(i, call, conn, h.maxInFlight, a);
    var h1 := Changed(h, c, conn, i, call, used);
    ReachableStep(h1, OfCall(i, a));
    assert StepCall(h1, i, a) == Changed(h, c, conn', i, call', if a.Enlist? then used[a.id := i] else used);
  }

  /** On an open connection that is not being written to, a call may get as far as waiting for its reply. */
  lemma SentUndisturbed(h: Hub, c: nat, i: nat, id: FrameId)
    requires Reachable(h) && i < |h.calls| && h.calls[i].pc.Lookup? && Found(h, h.calls[i]) == Some(c) && id !in h.used
    requires h.conns[c].phase.Open? && h.conns[c].writer.None? && h.conns[c].sem < h.maxInFlight
    ensures var a, b := h.conns[c], h.calls[i];
            Reachable(Changed(h, c, a.(sem := a.sem + 1, pending := a.pending[id := i], deadline := true),
                              i, b.(conn := Some(c), id := Some(id), regAt := a.LookedUp(), written := true,
                                    slot := None, pc := Waiting),
                              h.used[id := i]))
  {
    hide Reachable, Step, Enabled;
    var a, b := h.conns[c], h.calls[i].(conn := Some(c), pc := Admission);
    FoundTaken(h, c, i);
    TakenByCall(h, c, a, i, b, h.used, Admit);
    a, b := a.(sem := a.sem + 1), b.(pc := Preparing);
    TakenByCall(h, c, a, i, b, h.used, Enlist(id));
    a, b := a.(pending := a.pending[id := i]),
      b.(id := Some(id), regAt := a.LookedUp(), slot := None, pc := Registered);
    TakenByCall(h, c, a, i, b, h.used[id := i], SetDeadline);
    a, b := a.(deadline := true), b.(pc := Sending);
    TakenByCall(h, c, a, i, b, h.used[id := i], BeginWrite);
    a, b := a.(writer := Some(CallWriter(i))), b.(written := true, pc := Writing);
    TakenByCall(h, c, a, i, b, h.used[id := i], EndWrite(true));
  }

  lemma FoundTaken(h: Hub, c: nat, i: nat)
    requires Reachable(h) && i < |h.calls| && h.calls[i].pc.Lookup? && Found(h, h.calls[i]) == Some(c)
    ensures Reachable(Changed(h, c, h.conns[c], i, h.calls[i].(conn := Some(c), pc := Admission), h.used))
  {
    hide Reachable;
    ReachableStep(h, CallFind(i));
    assert StepFind(h, i) == Changed(h, c, h.conns[c], i, h.calls[i].(conn := Some(c), pc := Admission), h.used);
  }

  /** The read loop hands a frame to a waiting call. */
  lemma AnsweredUndisturbed(h: Hub, i: nat, payload: Payload) returns (h': Hub)
    requires Reachable(h) && OnConn(h, i) && h.calls[i].pc.Waiting? && h.calls[i].slot.None? && h.calls[i].id.Some?
    requires var conn := ConnOf(h, i);
             && conn.phase.Open? && conn.reader.Reading?
             && h.calls[i].id.value in conn.pending && conn.pending[h.calls[i].id.value] == i
    ensures Reachable(h')
    ensures var c, log := h.calls[i].conn.value, ConnOf(h, i).log;
            h' == Changed(h, c, h.conns[c].(log := log + [ResultFrame(h.calls[i].id.value, payload)]),
                          i, h.calls[i].(slot := Some(Reply(payload, |log|))), h.used)
  {
    hide Reachable;
    var c := h.calls[i].conn.value;
    h' := Taken(h, OfReader(c, Read(ResultFrame(h.calls[i].id.value, payload))));
    h' := Taken(h', OfReader(c, Match));
    h' := Taken(h', OfReader(c, Send));
  }

  /** A call that has its message takes it and returns. */
  lemma ReturnsUndisturbed(h: Hub, c: nat, i: nat)
    requires Reachable(h) && i < |h.calls| && h.calls[i].conn == Some(c) && c < |h.conns|
    requires h.calls[i].pc.Waiting? && h.calls[i].slot.Some? && h.calls[i].id.Some? && h.conns[c].phase.Open?
    requires h.conns[c].sem > 0
    ensures var a, b := h.conns[c], h.calls[i];
            Reachable(Changed(h, c, a.(pending := a.pending - {b.id.value}, sem := a.sem - 1),
                              i, b.(slot := None, pc := Returned(OutcomeOf(b.slot.value))), h.used))
  {
    hide Reachable, Step, Enabled;
    var a, b := h.conns[c], h.calls[i];
    assert Changed(h, c, a, i, b, h.used) == h;
    TakenByCall(h, c, a, i, b, h.used, Receive);
    b := b.(slot := None, pc := Deleting(OutcomeOf(b.slot.value)));
    TakenByCall(h, c, a, i, b, h.used, Delete);
    a, b := a.(pending := a.pending - {b.id.value}), b.(pc := Releasing(b.pc.outcome));
    TakenByCall(h, c, a, i, b, h.used, Release);
  }

  /** One device, connected and being read, and nothing else. */
  lemma Connected() returns (h: Hub)
    ensures Reachable(h) && h.calls == [] && h.maxInFlight == 1 && h.devices == map["d" := 0]
    ensures h.closeRequests == {} && h.used == map[]
    ensures h.conns == [Conn("d", "u", Open, ConnectionClosed, 0, map[], Reading, None, false, [], None)]
  {
    hide Reachable;
    ReachableInitially(1);
    h := NewHub(1);
    h := Taken(h, RegisterSwap("d", "u"));
    h := Taken(h, RegisterFinish(0));
  }

  /** A device that guesses the id before the call draws it has that frame passed over. */
  lemma GuessedIdIsPassedOver() returns (h: Hub)
    ensures Reachable(h) && OnConn(h, 0) && h.calls[0].pc == Returned(Success("y", 1)) && h.calls[0].id == Some("i")
    ensures ConnOf(h, 0).log == [ResultFrame("i", "x"), ResultFrame("i", "y")]
  {
    hide Reachable;
    h := Connected();
    h := Taken(h, OfReader(0, Read(ResultFrame("i", "x"))));
    h := Taken(h, OfReader(0, Match));
    h := Taken(h, CallStart("u", "d"));
    SentUndisturbed(h, 0, 0, "i");
    h := Changed(h, 0, h.conns[0].(sem := 1, pending := map["i" := 0], deadline := true),
                 0, Call("u", "d", Some(0), Some("i"), 1, true, None, Waiting), map["i" := 0]);
    h := AnsweredUndisturbed(h, 0, "y");
    ReturnsUndisturbed(h, 0, 0);
    h := Changed(h, 0, h.conns[0].(pending := h.conns[0].pending - {"i"}, sem := 0),
                 0, h.calls[0].(slot := None, pc := Returned(Success("y", 1))), h.used);
  }

  /** A device that pings and then reads no more keeps the read loop in its pong, with no deadline set. */
  lemma PongBlocks() returns (h: Hub)
    ensures Reachable(h) && h.calls == [] && h.maxInFlight == 1 && h.devices == map["d" := 0] && h.closeRequests == {}
            && h.used == map[]
    ensures h.conns
            == [Conn("d", "u", Open, ConnectionClosed, 0, map[], Ponging(true), Some(ReaderWriter), false, [], None)]
  {
    hide Reachable;
    h := Connected();
    h := Taken(h, OfReader(0, Ping(true)));
    h := Taken(h, OfReader(0, BeginPong));
  }

  /** `Disconnect` then hangs: it has entered `close`, and no step is left that comes by itself. */
  lemma DisconnectIsHeldUp() returns (h: Hub)
    ensures Reachable(h) && HeldUp(h, 0, ReaderWriter) && !WillBeBounded(h, 0)
    ensures forall e: Event :: Enabled(h, e) ==> !Unaided(h, e)
  {
    hide Reachable;
    h := PongBlocks();
    h := Taken(h, DisconnectLookup("d"));
    h := Taken(h, OfClose(0, Enter(ByDisconnect)));
  }

  /**
   A close that nobody holds up can hang in its own close frame, when the device has stopped
   reading and no call ever set a deadline.
   */
  lemma FarewellHangs() returns (h: Hub)
    ensures Reachable(h) && |h.conns| == 1 && h.conns[0].phase.Farewell? && !WillBeBounded(h, 0)
    ensures forall w :: !HeldUp(h, 0, w)
    ensures forall e: Event :: Enabled(h, e) ==> !Unaided(h, e)
  {
    hide Reachable;
    h := Connected();
    h := Taken(h, OfReader(0, Stop));
    h := Taken(h, DisconnectLookup("d"));
    h := Taken(h, OfClose(0, Enter(ByDisconnect)));
    h := Taken(h, OfClose(0, BeginFarewell));
  }

  /** When the device connects again meanwhile, a call on the new connection waits in vain. */
  lemma ReplacementIsStranded() returns (h: Hub)
    ensures Reachable(h) && HeldUp(h, 0, ReaderWriter) && AwaitsClose(h, 1, 0)
    ensures CallOn(h, 0, 1) && h.calls[0].pc.Waiting? && Stranded(h, 0)
  {
    hide Reachable;
    h := PongBlocks();
    h := Taken(h, RegisterSwap("d", "u"));
    h := Taken(h, OfClose(0, Enter(ByRegister(1))));
    h := Taken(h, CallStart("u", "d"));
    SentUndisturbed(h, 1, 0, "i");
    h := Changed(h, 1, h.conns[1].(sem := 1, pending := map["i" := 0], deadline := true),
                 0, Call("u", "d", Some(1), Some("i"), 0, true, None, Waiting), map["i" := 0]);
  }
}
