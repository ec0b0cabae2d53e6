/**
 Inductive invariants of the relay hub.

 An event touches one connection and at most one call, so most of the invariant is a relation
 `Fits` between a call and its connection: it is proved kept for the call that moves, for the
 calls beside it, and under the steps of `close` and of the read loop.
*/
module RelayProofs {
  import opened Common
  import opened Relay

  // ---------------------------------------------------------------- frames of a log

  /** The frame at `at` is the first one for `id` at or after `from`, among the first `upTo`. */
  predicate FirstSince(log: seq<ResultFrame>, upTo: nat, id: FrameId, from: nat, at: nat) {
    && upTo <= |log| && from <= at < upTo && log[at].id == id
    && (forall k :: from <= k < at ==> log[k].id != id)
  }

  predicate NoneSince(log: seq<ResultFrame>, upTo: nat, id: FrameId, from: nat) {
    upTo <= |log| && (forall k :: from <= k < upTo ==> log[k].id != id)
  }

  // ---------------------------------------------------------------- a call and its connection

  predicate InFlight(pc: CallPc) {
    pc.Registered? || pc.Sending? || pc.Writing? || pc.ClosingAfterWrite? || pc.Waiting?
  }

  predicate HoldsSlot(pc: CallPc) { pc.Preparing? || InFlight(pc) || pc.Deleting? || pc.Releasing? }

  predicate HasOutcome(pc: CallPc) { pc.Deleting? || pc.Releasing? || pc.Returned? }

  /** A call that has a connection: which of its fields are set when. */
  predicate Placed(call: Call) {
    && !call.pc.Lookup?
    && (InFlight(call.pc) || call.pc.Deleting? ==> call.id.Some?)
    && (call.pc.Admission? || call.pc.Preparing? ==> call.id.None?)
    && (call.id.None? ==> call.slot.None?)
    && (call.pc.Writing? || call.pc.Waiting? ==> call.written)
    && (call.pc.Admission? || call.pc.Preparing? || call.pc.Registered? || call.pc.Sending? ==> !call.written)
    && (HasOutcome(call.pc) && call.pc.outcome.Success? ==> call.id.Some? && call.written)
  }

  /** Whatever the connection keeps about call `i` is about this call. */
  ghost predicate Linked(i: nat, call: Call, conn: Conn) {
    && (call.id.Some? ==> call.regAt <= conn.LookedUp())
    && (forall id :: id in conn.pending && conn.pending[id] == i ==>
          call.id == Some(id) && (InFlight(call.pc) || call.pc.Deleting?))
    && (call.id.Some? && call.id.value in conn.pending ==> conn.pending[call.id.value] == i)
    && (conn.reader.Delivering? && conn.reader.call == i ==>
          call.regAt <= conn.reader.at < |conn.log| && call.id == Some(conn.log[conn.reader.at].id))
  }

  /** Who may write, and until when. */
  predicate Writes(i: nat, call: Call, conn: Conn) {
    && (call.pc.Writing? <==> conn.writer == Some(CallWriter(i)))
    && (call.pc.Sending? || call.pc.ClosingAfterWrite? || call.pc.Deleting? || call.written ==> conn.deadline)
  }

  /** What the slot and the outcome of a call say about the frames its connection has handled. */
  ghost predicate Delivered(call: Call, conn: Conn)
    requires Placed(call)
  {
    && (InFlight(call.pc) ==>
          match call.slot
          case None => NoneSince(conn.log, conn.Handled(), call.id.value, call.regAt) && call.id.value in conn.pending
          case Some(Reply(p, at)) =>
            FirstSince(conn.log, conn.Handled(), call.id.value, call.regAt, at) && conn.log[at].payload == p
          case Some(Failed(_)) => true)
    && (HasOutcome(call.pc) && call.pc.outcome.Success? ==>
          && FirstSince(conn.log, |conn.log|, call.id.value, call.regAt, call.pc.outcome.at)
          && conn.log[call.pc.outcome.at].payload == call.pc.outcome.payload)
  }

  /** The drain has begun, with this error. */
  predicate DrainedWith(conn: Conn, error: Error) {
    (conn.phase.Draining? || conn.phase.Closed?) && conn.closeError == error
  }

  /** Why a call on this connection may report an error. */
  predicate Excuse(call: Call, conn: Conn, error: Error) {
    match error
    case Offline => conn.Done()
    case ConnectionClosed => DrainedWith(conn, ConnectionClosed)
    case WriteFailed => DrainedWith(conn, WriteFailed)
    case ContextDone => true
    case NotPrepared => !call.written
  }

  /** A failure in the slot or in the outcome has its reason. */
  predicate Honest(call: Call, conn: Conn) {
    && (call.slot.Some? && call.slot.value.Failed? ==>
          DrainedWith(conn, call.slot.value.error) && call.slot.value.error in {ConnectionClosed, WriteFailed})
    && (HasOutcome(call.pc) && call.pc.outcome.Failure? ==> Excuse(call, conn, call.pc.outcome.error))
  }

  ghost predicate Fits(i: nat, call: Call, conn: Conn) {
    Placed(call) && Linked(i, call, conn) && Writes(i, call, conn) && Delivered(call, conn) && Honest(call, conn)
  }

  /** A connection by itself. */
  predicate Sound(conn: Conn) {
    && (conn.reader.Holding? ==> conn.log != [] && conn.log[|conn.log| - 1] == conn.reader.frame)
    && (conn.reader.Delivering? ==>
          conn.log != [] && conn.reader.at == |conn.log| - 1 && conn.log[conn.reader.at].payload == conn.reader.payload)
    && (conn.reader.Ponging? <==> conn.writer == Some(ReaderWriter))
    && (conn.phase.Farewell? <==> conn.writer == Some(CloseWriter))
    && (conn.phase.Closed? ==> conn.pending == map[])
    && conn.closeError in {ConnectionClosed, WriteFailed}
    && (conn.supersedes.Some? ==> conn.reader.NotStarted?)
    && (conn.reader.NotStarted? ==> conn.log == [])
  }

  // ---------------------------------------------------------------- steps of a call

  /** Acts after which the call still has to report; the others decide its outcome or pass it on. */
  predicate Forward(a: CallAct) {
    a.Admit? || a.Enlist? || a.SetDeadline? || a.Oversize? || a.BeginWrite? || a.EndWrite?
  }

  lemma OwnForward(i: nat, call: Call, conn: Conn, m: nat, a: CallAct)
    requires Sound(conn) && Fits(i, call, conn) && CallReady(call, conn, m, a) && Forward(a)
    requires a.Enlist? ==> a.id !in conn.pending
    ensures Fits(i, CallAfter(call, conn, m, a), ConnAfterCall(i, call, conn, m, a))
  {
  }

  lemma OwnOutcome(i: nat, call: Call, conn: Conn, m: nat, a: CallAct)
    requires Fits(i, call, conn) && CallReady(call, conn, m, a)
    requires a.Abandon? || a.Unprepared? || a.JoinClose? || a.GiveUp? || a.Receive?
    ensures Fits(i, CallAfter(call, conn, m, a), ConnAfterCall(i, call, conn, m, a))
  {
  }

  lemma OwnDeferred(i: nat, call: Call, conn: Conn, m: nat, a: CallAct)
    requires Fits(i, call, conn) && CallReady(call, conn, m, a) && (a.Delete? || a.Release?)
    ensures Fits(i, CallAfter(call, conn, m, a), ConnAfterCall(i, call, conn, m, a))
  {
  }

  /** A call's step changes only what the connection keeps about that call. */
  lemma OwnTargets(i: nat, call: Call, conn: Conn, m: nat, a: CallAct)
    requires CallReady(call, conn, m, a)
    ensures var b := ConnAfterCall(i, call, conn, m, a);
            && b.reader == conn.reader && (b.writer == conn.writer || b.writer.None? || b.writer == Some(CallWriter(i)))
            && (forall id :: id in b.pending ==>
                  b.pending[id] == i || (id in conn.pending && b.pending[id] == conn.pending[id]))
  {
  }

  lemma OwnSound(i: nat, call: Call, conn: Conn, m: nat, a: CallAct)
    requires Sound(conn) && Fits(i, call, conn) && CallReady(call, conn, m, a)
    ensures Sound(ConnAfterCall(i, call, conn, m, a))
  {
  }

  /** A call does not disturb another call on the same connection. */
  lemma OtherFits(i: nat, call: Call, j: nat, other: Call, conn: Conn, m: nat, a: CallAct)
    requires Fits(i, call, conn) && Fits(j, other, conn) && i != j && CallReady(call, conn, m, a)
    requires other.id.Some? ==> other.id != call.id && (a.Enlist? ==> other.id != Some(a.id))
    requires a.Enlist? ==> a.id !in conn.pending
    ensures Fits(j, other, ConnAfterCall(i, call, conn, m, a))
  {
  }

  // ---------------------------------------------------------------- steps of close

  lemma CloseSound(conn: Conn, a: CloseAct)
    requires Sound(conn) && CloseReady(conn, a)
    ensures Sound(ConnAfterClose(conn, a))
  {
  }

  /** The step of `close` and the message it leaves for the drained call. */
  function CallAfterClose(i: nat, call: Call, conn: Conn, a: CloseAct): Call
    requires CloseReady(conn, a)
  {
    if a.DrainOne? && conn.pending[a.id] == i then Offer(call, Failed(conn.closeError)) else call
  }

  /** Until the drain begins, closing hands out nothing. */
  lemma PhaseFits(i: nat, call: Call, conn: Conn, a: CloseAct)
    requires Sound(conn) && Fits(i, call, conn) && CloseReady(conn, a) && !a.DrainOne?
    ensures Fits(i, call, ConnAfterClose(conn, a))
  {
    var b := ConnAfterClose(conn, a);
    assert Linked(i, call, b) && Writes(i, call, b) && Delivered(call, b) by { hide Honest; }
    hide Linked, Writes, Delivered;
  }

  /** Draining an entry leaves its call a message, so no waiter is lost. */
  lemma DrainFits(i: nat, call: Call, conn: Conn, a: CloseAct)
    requires Sound(conn) && Fits(i, call, conn) && CloseReady(conn, a) && a.DrainOne?
    ensures Fits(i, CallAfterClose(i, call, conn, a), ConnAfterClose(conn, a))
  {
  }

  // ---------------------------------------------------------------- steps of the read loop

  lemma ReadSound(conn: Conn, a: ReadAct)
    requires Sound(conn) && ReadReady(conn, a)
    ensures Sound(ConnAfterRead(conn, a))
  {
  }

  function CallAfterRead(i: nat, call: Call, conn: Conn, a: ReadAct): Call
    requires ReadReady(conn, a)
  {
    if a.Send? && conn.reader.call == i then Offer(call, Reply(conn.reader.payload, conn.reader.at)) else call
  }

  /** Reading, stopping and answering pings handle no frame. */
  lemma IdleFits(i: nat, call: Call, conn: Conn, a: ReadAct)
    requires Sound(conn) && Fits(i, call, conn) && ReadReady(conn, a) && !a.Match? && !a.Send?
    ensures Fits(i, call, ConnAfterRead(conn, a))
  {
  }

  /** A frame that finds no recipient answers nobody who still waits. */
  lemma MatchFits(i: nat, call: Call, conn: Conn, a: ReadAct)
    requires Sound(conn) && Fits(i, call, conn) && ReadReady(conn, a) && a.Match?
    ensures Fits(i, call, ConnAfterRead(conn, a))
  {
  }

  /** The one step that turns a frame into a reply: it is the first for its call, and for no other. */
  lemma SendFits(i: nat, call: Call, conn: Conn, a: ReadAct)
    requires Sound(conn) && Fits(i, call, conn) && ReadReady(conn, a) && a.Send?
    requires conn.reader.call != i && call.id.Some? ==> call.id.value != conn.log[conn.reader.at].id
    ensures Fits(i, CallAfterRead(i, call, conn, a), ConnAfterRead(conn, a))
  {
  }

  // ---------------------------------------------------------------- the hub

  /** A call without a connection has not looked one up, or found none. */
  predicate Unbound(call: Call) {
    call.id.None? && call.slot.None? && !call.written && (call.pc.Lookup? || call.pc == Returned(Failure(Offline)))
  }

  ghost predicate CallOk(h: Hub, i: nat)
    requires i < |h.calls|
  {
    && (h.calls[i].conn.None? ==> Unbound(h.calls[i]))
    && (h.calls[i].conn.Some? ==> h.calls[i].conn.value < |h.conns| && Fits(i, h.calls[i], ConnOf(h, i)))
    && (h.calls[i].id.Some? ==> h.calls[i].id.value in h.used && h.used[h.calls[i].id.value] == i)
  }

  predicate CallOn(h: Hub, i: nat, c: nat) { i < |h.calls| && h.calls[i].conn == Some(c) }

  /** A connection keeps numbers of its own calls only. */
  ghost predicate Targets(h: Hub, c: nat)
    requires c < |h.conns|
  {
    var conn := h.conns[c];
    && (forall id :: id in conn.pending ==> CallOn(h, conn.pending[id], c))
    && (conn.reader.Delivering? ==> CallOn(h, conn.reader.call, c))
    && (conn.writer.Some? && conn.writer.value.CallWriter? ==> CallOn(h, conn.writer.value.call, c))
  }

  ghost predicate Calls(h: Hub) {
    forall i :: 0 <= i < |h.calls| ==> CallOk(h, i)
  }

  ghost predicate Conns(h: Hub) {
    forall c :: 0 <= c < |h.conns| ==> Sound(h.conns[c]) && Targets(h, c)
  }

  /** Only the call that drew an id can own it. */
  lemma SameIdSameCall(h: Hub, i: nat, j: nat)
    requires Calls(h) && i < |h.calls| && j < |h.calls| && h.calls[i].id.Some? && h.calls[i].id == h.calls[j].id
    ensures i == j
  {
    assert CallOk(h, i) && CallOk(h, j);
  }

  /** A pending id has been drawn. */
  lemma PendingIsUsed(h: Hub, c: nat, id: FrameId)
    requires Calls(h) && Conns(h) && c < |h.conns| && id in h.conns[c].pending
    ensures id in h.used
  {
    assert Targets(h, c);
    assert CallOk(h, h.conns[c].pending[id]);
  }

  /** A call still at its lookup has no connection. */
  lemma LookupUnbound(h: Hub, i: nat)
    requires Calls(h) && i < |h.calls| && h.calls[i].pc.Lookup?
    ensures Unbound(h.calls[i]) && h.calls[i].conn.None?
  {
    assert CallOk(h, i);
  }

  // ---------------------------------------------------------------- every step keeps calls and connections

  lemma CallActFits(h: Hub, i: nat, a: CallAct, j: nat)
    requires Calls(h) && Conns(h) && Enabled(h, OfCall(i, a)) && j < |h.calls|
    ensures CallOk(StepCall(h, i, a), j)
  {
    hide Fits, Sound, CallReady, CallAfter, ConnAfterCall;
    var call, c, conn := h.calls[i], h.calls[i].conn.value, ConnOf(h, i);
    assert CallOk(h, i) && CallOk(h, j) && Sound(conn);
    if a.Enlist? && a.id in conn.pending { PendingIsUsed(h, c, a.id); }
    CallKeepsConn(i, call, conn, h.maxInFlight, a);
    if i == j {
      if Forward(a) {
        OwnForward(i, call, conn, h.maxInFlight, a);
      } else if a.Delete? || a.Release? {
        OwnDeferred(i, call, conn, h.maxInFlight, a);
      } else {
        OwnOutcome(i, call, conn, h.maxInFlight, a);
      }
    } else if h.calls[j].conn == Some(c) {
      if h.calls[j].id.Some? && h.calls[j].id == call.id { SameIdSameCall(h, j, i); }
      OtherFits(i, call, j, h.calls[j], conn, h.maxInFlight, a);
    }
  }

  /** A call stays on its connection and keeps its id once it has one. */
  lemma CallKeepsConn(i: nat, call: Call, conn: Conn, m: nat, a: CallAct)
    requires CallReady(call, conn, m, a)
    ensures CallAfter(call, conn, m, a).conn == call.conn
    ensures CallAfter(call, conn, m, a).id == call.id
         || (a.Enlist? && CallAfter(call, conn, m, a).id == Some(a.id))
  {
  }

  lemma CallActKeeps(h: Hub, i: nat, a: CallAct)
    requires Calls(h) && Conns(h) && Enabled(h, OfCall(i, a))
    ensures Calls(StepCall(h, i, a)) && Conns(StepCall(h, i, a))
  {
    hide Fits, Sound, CallReady, CallAfter, ConnAfterCall;
    var h' := StepCall(h, i, a);
    var c := h.calls[i].conn.value;
    CallKeepsConn(i, h.calls[i], ConnOf(h, i), h.maxInFlight, a);
    OwnTargets(i, h.calls[i], ConnOf(h, i), h.maxInFlight, a);
    forall j | 0 <= j < |h'.calls| ensures CallOk(h', j) { CallActFits(h, i, a, j); }
    forall d | 0 <= d < |h'.conns| ensures Sound(h'.conns[d]) && Targets(h', d) {
      assert Sound(h.conns[d]) && Targets(h, d);
      if d == c {
        assert CallOk(h, i);
        OwnSound(i, h.calls[i], h.conns[c], h.maxInFlight, a);
      }
    }
  }

  lemma CloseActFits(h: Hub, c: nat, a: CloseAct, i: nat)
    requires Calls(h) && Conns(h) && Enabled(h, OfClose(c, a)) && i < |h.calls|
    ensures CallOk(StepClose(h, c, a), i)
  {
    hide Fits, Sound, ConnAfterClose;
    assert CallOk(h, i) && Sound(h.conns[c]) && Targets(h, c);
    if h.calls[i].conn == Some(c) {
      if a.DrainOne? { DrainFits(i, h.calls[i], h.conns[c], a); } else { PhaseFits(i, h.calls[i], h.conns[c], a); }
    }
  }

  lemma CloseActKeeps(h: Hub, c: nat, a: CloseAct)
    requires Calls(h) && Conns(h) && Enabled(h, OfClose(c, a))
    ensures Calls(StepClose(h, c, a)) && Conns(StepClose(h, c, a))
  {
    hide Fits;
    var h' := StepClose(h, c, a);
    forall i | 0 <= i < |h'.calls| ensures CallOk(h', i) { CloseActFits(h, c, a, i); }
    forall d | 0 <= d < |h'.conns| ensures Sound(h'.conns[d]) && Targets(h', d) {
      assert Sound(h.conns[d]) && Targets(h, d);
      if d == c { CloseSound(h.conns[c], a); }
    }
  }

  lemma ReadActFits(h: Hub, c: nat, a: ReadAct, i: nat)
    requires Calls(h) && Conns(h) && Enabled(h, OfReader(c, a)) && i < |h.calls|
    ensures CallOk(StepRead(h, c, a), i)
  {
    var call, conn := h.calls[i], h.conns[c];
    assert CallOk(h, i) && Sound(conn) && Targets(h, c);
    if a.Send? {
      assert CallOk(h, conn.reader.call);
      assert Linked(conn.reader.call, h.calls[conn.reader.call], conn);
      if call.id == Some(conn.log[conn.reader.at].id) { SameIdSameCall(h, i, conn.reader.call); }
    }
    hide Fits, Sound, ConnAfterRead;
    if call.conn == Some(c) {
      if a.Send? {
        SendFits(i, call, conn, a);
      } else if a.Match? {
        MatchFits(i, call, conn, a);
      } else {
        IdleFits(i, call, conn, a);
      }
    }
  }

  lemma ReadActKeeps(h: Hub, c: nat, a: ReadAct)
    requires Calls(h) && Conns(h) && Enabled(h, OfReader(c, a))
    ensures Calls(StepRead(h, c, a)) && Conns(StepRead(h, c, a))
  {
    hide Fits;
    var h' := StepRead(h, c, a);
    forall i | 0 <= i < |h'.calls| ensures CallOk(h', i) { ReadActFits(h, c, a, i); }
    forall d | 0 <= d < |h'.conns| ensures Sound(h'.conns[d]) && Targets(h', d) {
      assert Sound(h.conns[d]) && Targets(h, d);
      if d == c { ReadSound(h.conns[c], a); }
    }
  }

  /** A read loop that starts has read nothing new. */
  lemma StartFits(i: nat, call: Call, conn: Conn)
    requires Fits(i, call, conn) && conn.reader.NotStarted?
    ensures Fits(i, call, conn.(reader := Reading, supersedes := None))
  {
  }

  /** Registrations and new calls. */
  lemma RegistrationKeeps(h: Hub, e: Event)
    requires Calls(h) && Conns(h) && Enabled(h, e) && !e.OfCall? && !e.OfClose? && !e.OfReader? && !e.CallFind?
    ensures Calls(Step(h, e)) && Conns(Step(h, e))
  {
    hide Fits;
    var h' := Step(h, e);
    forall i | 0 <= i < |h'.calls| ensures CallOk(h', i) {
      if i < |h.calls| {
        assert CallOk(h, i);
        if e.RegisterFinish? && h.calls[i].conn == Some(e.conn) { StartFits(i, h.calls[i], h.conns[e.conn]); }
      }
    }
    forall c | 0 <= c < |h'.conns| ensures Sound(h'.conns[c]) && Targets(h', c) {
      if c < |h.conns| { assert Sound(h.conns[c]) && Targets(h, c); }
    }
  }

  lemma FindKeeps(h: Hub, i: nat)
    requires Calls(h) && Conns(h) && Enabled(h, CallFind(i))
    ensures Calls(StepFind(h, i)) && Conns(StepFind(h, i))
  {
    hide Fits;
    var h' := StepFind(h, i);
    LookupUnbound(h, i);
    forall j | 0 <= j < |h'.calls| ensures CallOk(h', j) {
      assert CallOk(h, j);
      if j == i && h'.calls[i].conn.Some? { FoundFits(h, i); }
    }
    forall c | 0 <= c < |h'.conns| ensures Sound(h'.conns[c]) && Targets(h', c) {
      assert Sound(h.conns[c]) && Targets(h, c);
    }
  }

  lemma FoundFits(h: Hub, i: nat)
    requires Calls(h) && Conns(h) && Enabled(h, CallFind(i)) && Found(h, h.calls[i]).Some?
    ensures Found(h, h.calls[i]).value < |h.conns|
    ensures Fits(i, StepFind(h, i).calls[i], h.conns[Found(h, h.calls[i]).value])
  {
    var c := Found(h, h.calls[i]).value;
    assert CallOk(h, i) && Targets(h, c);
  }

  lemma CoreStep(h: Hub, e: Event)
    requires Calls(h) && Conns(h) && Enabled(h, e)
    ensures Calls(Step(h, e)) && Conns(Step(h, e))
  {
    hide Calls, Conns, Enabled, StepCall, StepClose, StepRead, StepFind;
    match e {
      case OfCall(i, a) => CallActKeeps(h, i, a);
      case OfClose(c, a) => CloseActKeeps(h, c, a);
      case OfReader(c, a) => ReadActKeeps(h, c, a);
      case CallFind(i) => FindKeeps(h, i);
      case _ => RegistrationKeeps(h, e);
    }
  }

  // ---------------------------------------------------------------- in-flight slots

  ghost function Holders(h: Hub, c: nat): (r: set<nat>) {
    set i | 0 <= i < |h.calls| && h.calls[i].conn == Some(c) && HoldsSlot(h.calls[i].pc)
  }

  /** The semaphore counts exactly the calls that will release it. */
  ghost predicate Slots(h: Hub) {
    && h.maxInFlight > 0
    && (forall c :: 0 <= c < |h.conns| ==> h.conns[c].sem == |Holders(h, c)| <= h.maxInFlight)
  }

  /** A call's step moves the semaphore with the slot it takes or gives back. */
  lemma SlotMoves(i: nat, call: Call, conn: Conn, m: nat, a: CallAct)
    requires CallReady(call, conn, m, a)
    ensures ConnAfterCall(i, call, conn, m, a).sem - (if HoldsSlot(CallAfter(call, conn, m, a).pc) then 1 else 0)
         == conn.sem - (if HoldsSlot(call.pc) then 1 else 0)
    ensures conn.sem <= m ==> ConnAfterCall(i, call, conn, m, a).sem <= m
  {
  }

  /** When one call changes, it alone joins or leaves the holders. */
  lemma HoldersOfOne(h: Hub, h': Hub, c: nat, i: nat)
    requires |h'.calls| == |h.calls| && i < |h.calls| && h'.calls == h.calls[i := h'.calls[i]]
    ensures Holders(h', c) == if h'.calls[i].conn == Some(c) && HoldsSlot(h'.calls[i].pc)
                              then Holders(h, c) + {i} else Holders(h, c) - {i}
    ensures i in Holders(h, c) <==> h.calls[i].conn == Some(c) && HoldsSlot(h.calls[i].pc)
  {
  }

  lemma SlotsCall(h: Hub, i: nat, a: CallAct)
    requires Slots(h) && Enabled(h, OfCall(i, a))
    ensures Slots(StepCall(h, i, a))
  {
    hide Holders, CallReady, CallAfter, ConnAfterCall, HoldsSlot;
    var h' := StepCall(h, i, a);
    SlotMoves(i, h.calls[i], ConnOf(h, i), h.maxInFlight, a);
    CallKeepsConn(i, h.calls[i], ConnOf(h, i), h.maxInFlight, a);
    forall c | 0 <= c < |h'.conns| ensures h'.conns[c].sem == |Holders(h', c)| <= h'.maxInFlight {
      HoldersOfOne(h, h', c, i);
    }
  }

  /** Everything but a call's own acts leaves who holds a slot alone. */
  lemma HoldersKept(h: Hub, e: Event, c: nat)
    requires Calls(h) && Enabled(h, e) && !e.OfCall? && c < |Step(h, e).conns|
    ensures Holders(Step(h, e), c) == Holders(h, c)
    ensures |Step(h, e).conns| >= |h.conns| && Step(h, e).maxInFlight == h.maxInFlight
    ensures c < |h.conns| ==> Step(h, e).conns[c].sem == h.conns[c].sem
    ensures c >= |h.conns| ==> Step(h, e).conns[c].sem == 0 && Holders(h, c) == {}
  {
    hide Fits, ConnAfterClose, ConnAfterRead;
    if c >= |h.conns| {
      forall i | 0 <= i < |h.calls| ensures h.calls[i].conn != Some(c) { assert CallOk(h, i); }
    }
    match e {
      case OfClose(d, a) => CloseMovesOn(h.conns[d], a);
      case OfReader(d, a) => ReadMovesOn(h.conns[d], a);
      case _ =>
    }
  }

  lemma SlotsStep(h: Hub, e: Event)
    requires Calls(h) && Slots(h) && Enabled(h, e)
    ensures Slots(Step(h, e))
  {
    hide Holders, Calls, StepCall, StepClose, StepRead, StepFind, Enabled;
    if e.OfCall? {
      SlotsCall(h, e.call, e.act);
    } else {
      var h' := Step(h, e);
      LimitKept(h, e);
      forall c | 0 <= c < |h'.conns| ensures h'.conns[c].sem == |Holders(h', c)| <= h'.maxInFlight {
        HoldersKept(h, e, c);
      }
    }
  }

  lemma LimitKept(h: Hub, e: Event)
    requires Enabled(h, e)
    ensures Step(h, e).maxInFlight == h.maxInFlight
  {
  }

  // ---------------------------------------------------------------- registry

  predicate IsRegistered(h: Hub, c: nat) {
    c < |h.conns| && h.conns[c].device in h.devices && h.devices[h.conns[c].device] == c
  }

  /** Some `Register` has swapped `c` out and still has to close it. */
  ghost predicate BeingSuperseded(h: Hub, c: nat) {
    exists r :: 0 <= r < |h.conns| && h.conns[r].supersedes == Some(c)
  }

  /** Its close has not yet reached the registry. */
  predicate Listed(conn: Conn) { !conn.phase.Unregistered? && !conn.phase.Draining? && !conn.phase.Closed? }

  ghost predicate Registry(h: Hub) {
    && (forall device :: device in h.devices ==>
          && h.devices[device] < |h.conns| && h.conns[h.devices[device]].device == device
          && Listed(h.conns[h.devices[device]]))
    && (forall c :: 0 <= c < |h.conns| && !h.conns[c].Done() ==> IsRegistered(h, c) || BeingSuperseded(h, c))
    && (forall c :: 0 <= c < |h.conns| && h.conns[c].supersedes.Some? ==>
          h.conns[c].supersedes.value < c && !IsRegistered(h, h.conns[c].supersedes.value))
  }

  /** Who the connection is for stays, and closing only goes forward. */
  predicate MovesOn(a: Conn, b: Conn) {
    && b.device == a.device && b.owner == a.owner && b.supersedes == a.supersedes
    && (a.Done() ==> b.Done()) && (a.deadline ==> b.deadline)
  }

  lemma CallMovesOn(i: nat, call: Call, conn: Conn, m: nat, a: CallAct)
    requires CallReady(call, conn, m, a)
    ensures MovesOn(conn, ConnAfterCall(i, call, conn, m, a))
    ensures ConnAfterCall(i, call, conn, m, a).phase == conn.phase
            && ConnAfterCall(i, call, conn, m, a).reader == conn.reader
  {
  }

  lemma CloseMovesOn(conn: Conn, a: CloseAct)
    requires CloseReady(conn, a)
    ensures MovesOn(conn, ConnAfterClose(conn, a)) && ConnAfterClose(conn, a).sem == conn.sem
    ensures !a.Unregister? && Listed(conn) ==> Listed(ConnAfterClose(conn, a))
  {
  }

  lemma ReadMovesOn(conn: Conn, a: ReadAct)
    requires ReadReady(conn, a)
    ensures MovesOn(conn, ConnAfterRead(conn, a)) && ConnAfterRead(conn, a).sem == conn.sem
    ensures ConnAfterRead(conn, a).phase == conn.phase && ConnAfterRead(conn, a).deadline == conn.deadline
  {
  }

  /** Steps other than registrations and the unregistration keep the device map and every listing. */
  lemma ConnMovesOn(h: Hub, e: Event, c: nat)
    requires Enabled(h, e) && c < |h.conns| && (e.OfCall? || e.OfClose? || e.OfReader?)
    ensures |Step(h, e).conns| == |h.conns| && MovesOn(h.conns[c], Step(h, e).conns[c])
    ensures e != OfClose(c, Unregister) && Listed(h.conns[c]) ==> Listed(Step(h, e).conns[c])
    ensures !(e.OfClose? && e.close.Unregister?) ==> Step(h, e).devices == h.devices
  {
    hide ConnAfterCall, ConnAfterClose, ConnAfterRead, CallReady, CloseReady, ReadReady, CallAfter;
    match e {
      case OfCall(i, a) => CallMovesOn(i, h.calls[i], ConnOf(h, i), h.maxInFlight, a);
      case OfClose(d, a) => CloseMovesOn(h.conns[d], a);
      case OfReader(d, a) => ReadMovesOn(h.conns[d], a);
    }
  }

  /** No step but a registration or an unregistration removes anything from the registry. */
  lemma RegistryMoves(h: Hub, e: Event)
    requires Registry(h) && Enabled(h, e) && (e.OfCall? || e.OfClose? || e.OfReader?)
    requires !(e.OfClose? && e.close.Unregister?)
    ensures Registry(Step(h, e))
  {
    hide Step, Enabled, Conn.Done, Listed;
    var h' := Step(h, e);
    SameConns(h, e);
    forall c | 0 <= c < |h.conns|
      ensures MovesOn(h.conns[c], h'.conns[c]) && (Listed(h.conns[c]) ==> Listed(h'.conns[c]))
    {
      ConnMovesOn(h, e, c);
    }
    forall c | 0 <= c < |h'.conns| && !h'.conns[c].Done() ensures IsRegistered(h', c) || BeingSuperseded(h', c) {
      if !IsRegistered(h, c) {
        var r :| 0 <= r < |h.conns| && h.conns[r].supersedes == Some(c);
        assert h'.conns[r].supersedes == Some(c);
      }
    }
  }

  /** Unregistering removes a device only while it still maps to the closing connection. */
  lemma RegistryUnregister(h: Hub, c: nat)
    requires Registry(h) && Enabled(h, OfClose(c, Unregister))
    ensures Registry(StepClose(h, c, Unregister))
  {
    var h' := StepClose(h, c, Unregister);
    forall d | 0 <= d < |h'.conns| && !h'.conns[d].Done() ensures IsRegistered(h', d) || BeingSuperseded(h', d) {
      if !IsRegistered(h, d) {
        var r :| 0 <= r < |h.conns| && h.conns[r].supersedes == Some(d);
        assert h'.conns[r].supersedes == Some(d);
      }
    }
  }

  lemma SameConns(h: Hub, e: Event)
    requires Enabled(h, e) && !e.RegisterSwap?
    ensures |Step(h, e).conns| == |h.conns|
    ensures !(e.OfClose? && e.close.Unregister?) ==> Step(h, e).devices == h.devices
  {
  }

  lemma RegistrySwap(h: Hub, e: Event)
    requires Registry(h) && Enabled(h, e) && e.RegisterSwap?
    ensures Registry(Step(h, e))
  {
    var h' := Step(h, e);
    forall c | 0 <= c < |h'.conns| && !h'.conns[c].Done() ensures IsRegistered(h', c) || BeingSuperseded(h', c) {
      if c < |h.conns| && !IsRegistered(h', c) {
        if IsRegistered(h, c) {
          assert h'.conns[|h.conns|].supersedes == Some(c);
        } else {
          var r :| 0 <= r < |h.conns| && h.conns[r].supersedes == Some(c);
          assert h'.conns[r].supersedes == Some(c);
        }
      }
    }
  }

  /** `Register` starts the read loop only when the connection it replaced has been closed. */
  lemma RegistryFinish(h: Hub, e: Event)
    requires Registry(h) && Enabled(h, e) && e.RegisterFinish?
    ensures Registry(Step(h, e))
  {
    var h' := Step(h, e);
    forall c | 0 <= c < |h'.conns| && !h'.conns[c].Done() ensures IsRegistered(h', c) || BeingSuperseded(h', c) {
      if !IsRegistered(h, c) {
        var r :| 0 <= r < |h.conns| && h.conns[r].supersedes == Some(c);
        assert h'.conns[r].supersedes == Some(c);
      }
    }
  }

  lemma RegistryStep(h: Hub, e: Event)
    requires Registry(h) && Enabled(h, e)
    ensures Registry(Step(h, e))
  {
    match e {
      case RegisterSwap(_, _) => RegistrySwap(h, e);
      case RegisterFinish(_) => RegistryFinish(h, e);
      case OfCall(_, _) => RegistryMoves(h, e);
      case OfClose(c, a) => if a.Unregister? { RegistryUnregister(h, c); } else { RegistryMoves(h, e); }
      case OfReader(_, _) => RegistryMoves(h, e);
      case _ =>
    }
  }
}
