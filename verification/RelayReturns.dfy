/**
 Calls return: from a reachable state, by steps that nobody has to help along, unless the call
 waits on a connection that cannot come to its end.
*/
module RelayReturns {
  import opened Common
  import opened Relay
  import opened RelayProofs
  import opened RelayTheorems
  import opened RelayProgress

  // ---------------------------------------------------------------- runs that nobody helps along

  /**
   Events that come by themselves: the program's own steps, the read deadline, and the end of a
   write that is under a write deadline.  Nothing arrives from the device, no context ends,
   nobody registers, disconnects or calls, no write ends that the network may hold up, and none
   fails before the socket is shut.
   */
  predicate Unaided(h: Hub, e: Event) {
    match e
    case RegisterFinish(_) => true
    case CallFind(_) => true
    case OfCall(i, a) =>
      && !a.Unprepared? && !a.Oversize? && (a.Abandon? || a.GiveUp? ==> a.why != ContextDone)
      && (a.EndWrite? ==> OnConn(h, i) && ConnOf(h, i).deadline && (a.ok || ConnOf(h, i).Done()))
    case OfClose(c, a) => a.EndFarewell? ==> c < |h.conns| && h.conns[c].deadline
    case OfReader(c, a) => !a.Read? && !a.Ping? && (a.EndPong? ==> c < |h.conns| && h.conns[c].deadline)
    case _ => false
  }

  ghost predicate UnaidedRun(h: Hub, events: seq<Event>)
    decreases |events|
  {
    events == [] || (Enabled(h, events[0]) && Unaided(h, events[0]) && UnaidedRun(Step(h, events[0]), events[1..]))
  }

  ghost predicate ArrivesAt(h: Hub, events: seq<Event>, h': Hub)
    decreases |events|
  {
    if events == [] then h == h'
    else Enabled(h, events[0]) && Unaided(h, events[0]) && ArrivesAt(Step(h, events[0]), events[1..], h')
  }

  /** An unaided run leads from `h` to `h'`. */
  ghost predicate Leads(h: Hub, h': Hub) {
    exists events: seq<Event> :: ArrivesAt(h, events, h')
  }

  lemma {:induction false} ArrivesByRun(h: Hub, events: seq<Event>, h': Hub)
    requires ArrivesAt(h, events, h')
    ensures UnaidedRun(h, events) && IsRun(h, events) && After(h, events) == h'
    decreases |events|
  {
    hide Step, Enabled, Unaided;
    if events != [] { ArrivesByRun(Step(h, events[0]), events[1..], h'); }
  }

  lemma {:induction false} ArrivesThrough(h: Hub, es: seq<Event>, h1: Hub, fs: seq<Event>, h2: Hub)
    requires ArrivesAt(h, es, h1) && ArrivesAt(h1, fs, h2)
    ensures ArrivesAt(h, es + fs, h2)
    decreases |es|
  {
    hide Step, Enabled, Unaided;
    if es == [] {
      assert es + fs == fs;
    } else {
      ArrivesThrough(Step(h, es[0]), es[1..], h1, fs, h2);
      assert (es + fs)[1..] == es[1..] + fs;
    }
  }

  lemma LeadsOn(h: Hub, h1: Hub, h2: Hub)
    requires Leads(h, h1) && Leads(h1, h2)
    ensures Leads(h, h2)
  {
    hide ArrivesAt;
    var es: seq<Event> :| ArrivesAt(h, es, h1);
    var fs: seq<Event> :| ArrivesAt(h1, fs, h2);
    ArrivesThrough(h, es, h1, fs, h2);
  }

  lemma LeadsNowhere(h: Hub)
    ensures Leads(h, h)
  {
    assert ArrivesAt(h, [], h);
  }

  lemma LeadsByStep(h: Hub, e: Event)
    requires Enabled(h, e) && Unaided(h, e)
    ensures Leads(h, Step(h, e))
  {
    assert ArrivesAt(Step(h, e), [e][1..], Step(h, e));
    assert ArrivesAt(h, [e], Step(h, e));
  }

  // ---------------------------------------------------------------- one connection at a time

  /** Only connection `c` and calls on it have changed, and nobody has changed place. */
  ghost predicate Beside(h: Hub, h': Hub, c: nat) {
    && c < |h.conns| == |h'.conns| && |h'.calls| == |h.calls| && h'.maxInFlight == h.maxInFlight
    && (forall d :: 0 <= d < |h.conns| && d != c ==> h'.conns[d] == h.conns[d])
    && (forall i :: 0 <= i < |h.calls| ==> h'.calls[i].conn == h.calls[i].conn)
    && MovesOn(h.conns[c], h'.conns[c])
  }

  predicate EventOn(h: Hub, e: Event, c: nat) {
    (e.OfClose? && e.conn == c) || (e.OfReader? && e.conn == c) || (e.OfCall? && CallOn(h, e.call, c))
  }

  lemma BesideStep(h: Hub, e: Event, c: nat)
    requires Enabled(h, e) && EventOn(h, e, c)
    ensures Beside(h, Step(h, e), c)
  {
    hide CallReady, CallAfter, ConnAfterCall, ConnAfterRead, ConnAfterClose;
    match e {
      case OfCall(i, a) =>
        CallMovesOn(i, h.calls[i], ConnOf(h, i), h.maxInFlight, a);
        CallKeepsConn(i, h.calls[i], ConnOf(h, i), h.maxInFlight, a);
      case OfClose(d, a) => CloseMovesOn(h.conns[d], a);
      case OfReader(d, a) => ReadMovesOn(h.conns[d], a);
    }
  }

  /** From `h` the hub can get to `h'` by itself, changing only connection `c`. */
  ghost predicate Proceeds(h: Hub, h': Hub, c: nat) {
    Inv(h') && Leads(h, h') && Beside(h, h', c)
  }

  lemma ProceedsOn(h: Hub, h1: Hub, h2: Hub, c: nat)
    requires Proceeds(h, h1, c) && Proceeds(h1, h2, c)
    ensures Proceeds(h, h2, c)
  {
    hide Leads, Inv;
    LeadsOn(h, h1, h2);
  }

  lemma Take(h: Hub, e: Event, c: nat) returns (h': Hub)
    requires Inv(h) && Enabled(h, e) && Unaided(h, e) && EventOn(h, e, c)
    ensures h' == Step(h, e) && Proceeds(h, h', c)
  {
    hide Leads, Inv, Step, Enabled, Unaided;
    h' := Step(h, e);
    InvStep(h, e);
    LeadsByStep(h, e);
    BesideStep(h, e, c);
  }

  /** A write under a deadline comes to an end. */
  lemma FreeLock(h: Hub, c: nat) returns (h': Hub)
    requires Inv(h) && c < |h.conns| && h.conns[c].deadline && !h.conns[c].phase.Farewell?
    ensures Proceeds(h, h', c) && h'.conns[c].writer.None? && h'.conns[c].phase == h.conns[c].phase
    ensures h'.conns[c].reader == if h.conns[c].reader.Ponging? then Reading else h.conns[c].reader
    ensures h.conns[c].writer.None? ==> h' == h
    ensures forall i :: 0 <= i < |h.calls| && !h.calls[i].pc.Writing? ==> h'.calls[i] == h.calls[i]
  {
    hide Leads, Slots, Registry;
    assert Sound(h.conns[c]) && Targets(h, c);
    match h.conns[c].writer {
      case None =>
        LeadsNowhere(h);
        h' := h;
      case Some(CallWriter(i)) =>
        assert CallOk(h, i);
        h' := Take(h, OfCall(i, EndWrite(true)), c);
      case Some(ReaderWriter) =>
        h' := Take(h, OfReader(c, EndPong(true)), c);
    }
  }

  /** A close under way whose farewell is over or bounded in time. */
  predicate Bounded(conn: Conn) { conn.deadline || conn.phase.Parted? || conn.Done() }

  lemma {:induction false} OwnCloseProceeds(h: Hub, events: seq<Event>, c: nat)
    requires Inv(h) && c < |h.conns| && Bounded(h.conns[c]) && IsRun(h, events) && OwnClose(events, c)
    ensures Proceeds(h, After(h, events), c)
    decreases |events|
  {
    hide Step, Leads, Inv, Beside, MovesOn;
    if events == [] {
      LeadsNowhere(h);
      BesideItself(h, c);
    } else {
      BoundedStays(h, events[0], c);
      var h1 := Take(h, events[0], c);
      OwnCloseProceeds(h1, events[1..], c);
      ProceedsOn(h, h1, After(h, events), c);
    }
  }

  lemma BesideItself(h: Hub, c: nat)
    requires c < |h.conns|
    ensures Beside(h, h, c)
  {
  }

  lemma BoundedStays(h: Hub, e: Event, c: nat)
    requires Enabled(h, e) && EventOn(h, e, c) && c < |h.conns| && Bounded(h.conns[c])
    requires e.OfClose?
    ensures c < |Step(h, e).conns| && Bounded(Step(h, e).conns[c]) && Unaided(h, e)
  {
  }

  /** A close under way finishes by itself. */
  lemma CloseThrough(h: Hub, c: nat) returns (h': Hub)
    requires Inv(h) && c < |h.conns| && Bounded(h.conns[c]) && !h.conns[c].phase.Open?
    ensures Proceeds(h, h', c) && h'.conns[c].phase.Closed?
  {
    hide Step, Enabled, Leads, Inv, IsRun, After;
    LeadsNowhere(h);
    var h1 := h;
    if h.conns[c].phase.Entered? { h1 := FreeLock(h, c); }
    var events := CloseAlone(h1, c);
    OwnCloseProceeds(h1, events, c);
    h' := After(h1, events);
    ProceedsOn(h, h1, h', c);
  }

  /** The read loop, once started, comes to its read deadline. */
  lemma StopReader(h: Hub, c: nat) returns (h': Hub)
    requires Inv(h) && c < |h.conns| && h.conns[c].phase.Open? && h.conns[c].deadline && !h.conns[c].reader.NotStarted?
    ensures Proceeds(h, h', c) && h'.conns[c].phase.Open? && h'.conns[c].reader.Exited?
    decreases match h.conns[c].reader
              case Holding(_) => 5 case Delivering(_, _, _) => 4 case Answering(_) => 3 case Ponging(_) => 2
              case Reading => 1 case _ => 0
  {
    hide Leads, Slots, Registry, Calls;
    assert Sound(h.conns[c]) && Targets(h, c);
    var h1: Hub;
    match h.conns[c].reader {
      case Holding(_) => h1 := Take(h, OfReader(c, Match), c);
      case Delivering(_, _, _) => h1 := Take(h, OfReader(c, Send), c);
      case Answering(_) =>
        h1 := FreeLock(h, c);
        var h2 := Take(h1, OfReader(c, BeginPong), c);
        ProceedsOn(h, h1, h2, c);
        h1 := h2;
      case Ponging(_) => h1 := FreeLock(h, c);
      case Reading => h1 := Take(h, OfReader(c, Stop), c);
      case Exited =>
        LeadsNowhere(h);
        BesideItself(h, c);
        return h;
    }
    h' := StopReader(h1, c);
    ProceedsOn(h, h1, h', c);
  }

  // ---------------------------------------------------------------- a call on a closed connection

  function StepsToReturn(pc: CallPc): nat {
    match pc
    case Lookup => 9 case Registered => 8 case Sending => 7 case Writing => 6 case ClosingAfterWrite => 5
    case Waiting => 5 case Deleting(_) => 4 case Preparing => 4 case Releasing(_) => 3
    case Admission => 1 case Returned(_) => 0
  }

  /** What a call does next once its connection is closed; `id` is the id it would draw. */
  function NextCall(pc: CallPc, id: FrameId): CallAct {
    match pc
    case Admission => Abandon(Offline)
    case Preparing => Enlist(id)
    case Registered => SetDeadline
    case Sending => BeginWrite
    case Writing => EndWrite(false)
    case ClosingAfterWrite => JoinClose
    case Waiting => GiveUp(Offline)
    case Deleting(_) => Delete
    case _ => Release
  }

  lemma NextCallWorks(i: nat, call: Call, conn: Conn, m: nat, id: FrameId)
    requires Fits(i, call, conn) && conn.phase.Closed? && !call.pc.Returned?
    requires (call.pc.Sending? ==> conn.writer.None?) && (call.pc.Releasing? ==> conn.sem > 0)
    ensures CallReady(call, conn, m, NextCall(call.pc, id))
    ensures StepsToReturn(CallAfter(call, conn, m, NextCall(call.pc, id)).pc) < StepsToReturn(call.pc)
    ensures ConnAfterCall(i, call, conn, m, NextCall(call.pc, id)).phase.Closed?
    ensures call.pc.Writing? ==> conn.deadline
    ensures NextCall(call.pc, id).Enlist? ==> NextCall(call.pc, id).id == id
  {
  }

  lemma {:induction false} LengthBound(ids: set<FrameId>) returns (n: nat)
    ensures forall id :: id in ids ==> |id| < n
    decreases |ids|
  {
    n := 0;
    if ids != {} {
      var id :| id in ids;
      n := LengthBound(ids - {id});
      if |id| >= n { n := |id| + 1; }
    }
  }

  /** There is always an id nobody has drawn. */
  lemma FreshId(h: Hub) returns (id: FrameId)
    ensures id !in h.used
  {
    var n := LengthBound(h.used.Keys);
    id := seq(n, _ => 'a');
  }

  lemma TakeNextCall(h: Hub, i: nat, c: nat, id: FrameId) returns (h': Hub)
    requires Inv(h) && CallOn(h, i, c) && c < |h.conns| && h.conns[c].phase.Closed? && !h.calls[i].pc.Returned?
    requires id !in h.used
    requires h.calls[i].pc.Sending? ==> h.conns[c].writer.None?
    ensures Proceeds(h, h', c) && h'.conns[c].phase.Closed?
            && StepsToReturn(h'.calls[i].pc) < StepsToReturn(h.calls[i].pc)
  {
    hide Leads, Fits, CallReady, CallAfter, ConnAfterCall, NextCall, StepsToReturn, Registry, Beside;
    assert CallOk(h, i);
    if h.calls[i].pc.Releasing? { assert i in Holders(h, c); }
    var a := NextCall(h.calls[i].pc, id);
    NextCallWorks(i, h.calls[i], h.conns[c], h.maxInFlight, id);
    UnaidedNextCall(h, i, id);
    h' := Take(h, OfCall(i, a), c);
  }

  lemma UnaidedNextCall(h: Hub, i: nat, id: FrameId)
    requires OnConn(h, i) && ConnOf(h, i).Done() && (h.calls[i].pc.Writing? ==> ConnOf(h, i).deadline)
    ensures Unaided(h, OfCall(i, NextCall(h.calls[i].pc, id)))
  {
  }

  lemma {:induction false} ReturnThrough(h: Hub, i: nat, c: nat) returns (h': Hub)
    requires Inv(h) && CallOn(h, i, c) && c < |h.conns| && h.conns[c].phase.Closed?
    ensures Proceeds(h, h', c) && h'.calls[i].pc.Returned?
    decreases StepsToReturn(h.calls[i].pc)
  {
    hide Leads, Inv, Fits, StepsToReturn;
    LeadsNowhere(h);
    BesideItself(h, c);
    h' := h;
    if !h.calls[i].pc.Returned? {
      var h1 := h;
      if h.calls[i].pc.Sending? {
        DeadlineSet(h, i, c);
        h1 := FreeLock(h, c);
      }
      var id := FreshId(h1);
      var h2 := TakeNextCall(h1, i, c, id);
      h' := ReturnThrough(h2, i, c);
      ProceedsOn(h, h1, h2, c);
      ProceedsOn(h, h2, h', c);
    }
  }

  /** Who is past registration has set the write deadline. */
  lemma DeadlineSet(h: Hub, i: nat, c: nat)
    requires Inv(h) && CallOn(h, i, c) && c < |h.conns|
    requires HoldsSlot(h.calls[i].pc) && !h.calls[i].pc.Preparing? && !h.calls[i].pc.Registered?
    requires !h.calls[i].pc.Releasing?
    ensures h.conns[c].deadline
  {
    assert CallOk(h, i);
  }

  // ---------------------------------------------------------------- a deadline for every call

  /** A call that has its slot goes on to set the deadline. */
  lemma SetsDeadline(h: Hub, i: nat, c: nat) returns (h': Hub)
    requires Inv(h) && CallOn(h, i, c) && c < |h.conns| && (h.calls[i].pc.Preparing? || h.calls[i].pc.Registered?)
    ensures Proceeds(h, h', c) && h'.conns[c].phase == h.conns[c].phase && h'.conns[c].reader == h.conns[c].reader
    ensures Bounded(h'.conns[c])
  {
    hide Leads, Slots, Registry, Calls, Conns, MovesOn;
    LeadsNowhere(h);
    BesideItself(h, c);
    h' := h;
    if !Bounded(h.conns[c]) {
      var h1 := h;
      if h.calls[i].pc.Preparing? {
        var id := FreshId(h);
        h1 := Take(h, OfCall(i, Enlist(id)), c);
      }
      h' := Take(h1, OfCall(i, SetDeadline), c);
      ProceedsOn(h, h1, h', c);
    }
  }

  /** A call that waits for a slot gets one, or whoever has one sets the deadline. */
  lemma DeadlineComes(h: Hub, i: nat, c: nat) returns (h': Hub)
    requires Inv(h) && CallOn(h, i, c) && c < |h.conns|
    ensures Proceeds(h, h', c) && h'.conns[c].phase == h.conns[c].phase && h'.conns[c].reader == h.conns[c].reader
    ensures (Bounded(h'.conns[c]) || h'.calls[i].pc.Returned? || h'.calls[i].pc.Releasing?)
  {
    hide Leads, Registry, Fits, Conns;
    assert CallOk(h, i);
    LeadsNowhere(h);
    BesideItself(h, c);
    h' := h;
    if h.calls[i].pc.Preparing? || h.calls[i].pc.Registered? {
      h' := SetsDeadline(h, i, c);
    } else if h.calls[i].pc.Admission? {
      h' := SlotComes(h, i, c);
    } else if !h.calls[i].pc.Returned? && !h.calls[i].pc.Releasing? {
      NotLookup(h, i);
      DeadlineSet(h, i, c);
    }
  }

  lemma NotLookup(h: Hub, i: nat)
    requires Inv(h) && OnConn(h, i)
    ensures !h.calls[i].pc.Lookup?
  {
    assert CallOk(h, i);
  }

  lemma AdmitThenDeadline(h: Hub, i: nat, c: nat) returns (h': Hub)
    requires Inv(h) && CallOn(h, i, c) && c < |h.conns| && h.calls[i].pc.Admission? && h.conns[c].sem < h.maxInFlight
    ensures Proceeds(h, h', c) && h'.conns[c].phase == h.conns[c].phase && h'.conns[c].reader == h.conns[c].reader
    ensures Bounded(h'.conns[c])
  {
    hide Leads, Inv;
    var h1 := Take(h, OfCall(i, Admit), c);
    h' := SetsDeadline(h1, i, c);
    ProceedsOn(h, h1, h', c);
  }

  lemma SlotComes(h: Hub, i: nat, c: nat) returns (h': Hub)
    requires Inv(h) && CallOn(h, i, c) && c < |h.conns| && h.calls[i].pc.Admission?
    ensures Proceeds(h, h', c) && h'.conns[c].phase == h.conns[c].phase && h'.conns[c].reader == h.conns[c].reader
    ensures Bounded(h'.conns[c])
  {
    hide Leads, Registry, Calls, Conns, MovesOn;
    if h.conns[c].sem < h.maxInFlight {
      h' := AdmitThenDeadline(h, i, c);
    } else {
      assert Holders(h, c) != {};
      var j: nat :| j in Holders(h, c);
      if h.calls[j].pc.Preparing? || h.calls[j].pc.Registered? {
        h' := SetsDeadline(h, j, c);
      } else if h.calls[j].pc.Releasing? {
        var h1 := Take(h, OfCall(j, Release), c);
        h' := AdmitThenDeadline(h1, i, c);
        ProceedsOn(h, h1, h', c);
      } else {
        DeadlineSet(h, j, c);
        LeadsNowhere(h);
        BesideItself(h, c);
        h' := h;
      }
    }
  }

  // ---------------------------------------------------------------- getting a connection closed

  /** From `h` the hub can get to `h'` by itself, and every call is where it was. */
  ghost predicate Onward(h: Hub, h': Hub) {
    && Inv(h') && Leads(h, h') && |h'.calls| == |h.calls|
    && (forall i :: 0 <= i < |h.calls| ==> h'.calls[i].conn == h.calls[i].conn)
  }

  /** A call on `c` that has yet to set the write deadline. */
  ghost predicate EarlyCall(h: Hub, c: nat, j: nat) {
    CallOn(h, j, c) && (h.calls[j].pc.Admission? || h.calls[j].pc.Preparing? || h.calls[j].pc.Registered?)
  }

  /** The close that `c` waits for before it reads is over, bounded, or about to be bounded by some call. */
  ghost predicate Readable(h: Hub, c: nat)
    requires c < |h.conns|
  {
    var p := h.conns[c].supersedes;
    p.Some? && p.value < |h.conns| ==> Bounded(h.conns[p.value]) || exists j: nat :: EarlyCall(h, p.value, j)
  }

  /** Closing the replaced connection `p` comes to its end. */
  lemma ReplacedCloses(h: Hub, c: nat, p: nat) returns (h': Hub)
    requires Inv(h) && c < |h.conns| && h.conns[c].supersedes == Some(p) && p != c && p < |h.conns| && Readable(h, c)
    ensures Proceeds(h, h', p) && h'.conns[p].phase.Closed?
  {
    hide Leads, Calls, Slots, Registry, Conns;
    LeadsNowhere(h);
    BesideItself(h, p);
    var h1 := h;
    if !Bounded(h.conns[p]) {
      var j: nat :| EarlyCall(h, p, j);
      if h.calls[j].pc.Admission? { h1 := SlotComes(h, j, p); } else { h1 := SetsDeadline(h, j, p); }
    }
    var h2 := h1;
    if h1.conns[p].phase.Open? {
      h2 := Take(h1, OfClose(p, Enter(ByRegister(c))), p);
      ProceedsOn(h, h1, h2, p);
    }
    h' := CloseThrough(h2, p);
    ProceedsOn(h, h2, h', p);
  }

  /** So the read loop starts. */
  lemma ReaderStarts(h: Hub, c: nat) returns (h': Hub)
    requires Inv(h) && c < |h.conns| && h.conns[c].reader.NotStarted? && Readable(h, c)
    ensures Onward(h, h') && c < |h'.conns|
    ensures h'.conns[c].phase == h.conns[c].phase && h'.conns[c].reader.Reading?
  {
    hide Leads, Calls, Slots, Conns;
    LeadsNowhere(h);
    var h1 := h;
    if h.conns[c].supersedes.Some? {
      assert h.conns[c].supersedes.value < c;
      h1 := ReplacedCloses(h, c, h.conns[c].supersedes.value);
    }
    hide Registry;
    var e := RegisterFinish(c);
    InvStep(h1, e);
    LeadsByStep(h1, e);
    h' := Step(h1, e);
    LeadsOn(h, h1, h');
  }

  lemma EnterClose(h: Hub, c: nat, who: Closer) returns (h': Hub)
    requires Inv(h) && c < |h.conns| && h.conns[c].phase.Open? && MayEnterClose(h, c, who)
    ensures Proceeds(h, h', c) && !h'.conns[c].phase.Open?
  {
    hide Leads, Inv, MayEnterClose;
    h' := Take(h, OfClose(c, Enter(who)), c);
  }

  /** Some goroutine is about to close `c`, or its read loop can come to an end. */
  ghost predicate Closable(h: Hub, c: nat)
    requires c < |h.conns|
  {
    || (exists who: Closer :: MayEnterClose(h, c, who))
    || !h.conns[c].reader.NotStarted?
    || Readable(h, c)
  }

  /** A connection that a call waits on gets closed. */
  lemma ConnCloses(h: Hub, i: nat, c: nat) returns (h': Hub)
    requires Inv(h) && CallOn(h, i, c) && c < |h.conns| && (h.conns[c].phase.Open? ==> Closable(h, c))
    requires !h.calls[i].pc.Releasing? && !h.calls[i].pc.Returned?
    ensures Onward(h, h') && c < |h'.conns|
            && (h'.conns[c].phase.Closed? || h'.calls[i].pc.Returned? || h'.calls[i].pc.Releasing?)
  {
    hide Leads, Inv, MayEnterClose, Readable, MovesOn;
    LeadsNowhere(h);
    var h1 := h;
    if h.conns[c].phase.Open? {
      if who :| MayEnterClose(h, c, who) {
        h1 := EnterClose(h, c, who);
      } else if h.conns[c].reader.NotStarted? {
        h1 := ReaderStarts(h, c);
      }
    }
    var h2 := DeadlineComes(h1, i, c);
    LeadsOn(h, h1, h2);
    if h2.calls[i].pc.Returned? || h2.calls[i].pc.Releasing? { return h2; }
    var h3 := h2;
    if h2.conns[c].phase.Open? {
      h3 := StopReader(h2, c);
      LeadsOn(h, h2, h3);
      MayCloseAfterReading(h3, c);
      var h4 := EnterClose(h3, c, ByReader);
      LeadsOn(h, h3, h4);
      ProceedsOn(h2, h3, h4, c);
      h3 := h4;
      BoundedByDeadline(h2, h3, c);
    }
    h' := CloseThrough(h3, c);
    LeadsOn(h, h3, h');
  }

  lemma MayCloseAfterReading(h: Hub, c: nat)
    requires c < |h.conns| && h.conns[c].reader.Exited?
    ensures MayEnterClose(h, c, ByReader)
  {
  }

  lemma BoundedByDeadline(h: Hub, h': Hub, c: nat)
    requires Beside(h, h', c) && Bounded(h.conns[c]) && h.conns[c].phase.Open?
    ensures Bounded(h'.conns[c])
  {
  }

  // ---------------------------------------------------------------- calls return

  /** The connection a call is on or would find. */
  function TargetOf(h: Hub, i: nat): Option<nat>
    requires i < |h.calls|
  {
    if h.calls[i].pc.Lookup? then Found(h, h.calls[i]) else h.calls[i].conn
  }

  /**
   The call has no outcome yet and its open connection cannot come to its end: nobody is about
   to close it, and its read loop has not started because closing the connection it replaces
   has a write without a deadline still ahead of it or under way.
   */
  ghost predicate Stranded(h: Hub, i: nat) {
    && i < |h.calls| && !HasOutcome(h.calls[i].pc)
    && TargetOf(h, i).Some? && Stuck(h, TargetOf(h, i).value)
  }

  ghost predicate Stuck(h: Hub, c: nat) {
    c < |h.conns| && h.conns[c].phase.Open? && !Closable(h, c)
  }

  lemma Releases(h: Hub, i: nat, c: nat) returns (h': Hub)
    requires Inv(h) && CallOn(h, i, c) && c < |h.conns| && h.calls[i].pc.Releasing?
    ensures Proceeds(h, h', c) && h'.calls[i].pc.Returned?
  {
    hide Leads, Registry, Calls, Conns;
    assert i in Holders(h, c);
    h' := Take(h, OfCall(i, Release), c);
  }

  lemma Deletes(h: Hub, i: nat, c: nat) returns (h': Hub)
    requires Inv(h) && CallOn(h, i, c) && c < |h.conns| && h.calls[i].pc.Deleting?
    ensures Proceeds(h, h', c) && h'.calls[i].pc.Returned?
  {
    hide Leads, Registry, Slots;
    assert CallOk(h, i);
    if h.conns[c].phase.Open? {
      var h1 := Take(h, OfCall(i, Delete), c);
      h' := Releases(h1, i, c);
      ProceedsOn(h, h1, h', c);
    } else {
      DeadlineSet(h, i, c);
      var h1 := CloseThrough(h, c);
      h' := ReturnThrough(h1, i, c);
      ProceedsOn(h, h1, h', c);
    }
  }

  lemma ReturnsFromConn(h: Hub, i: nat, c: nat) returns (h': Hub)
    requires Inv(h) && CallOn(h, i, c) && c < |h.conns|
    requires !HasOutcome(h.calls[i].pc) && h.conns[c].phase.Open? ==> Closable(h, c)
    ensures Leads(h, h') && i < |h'.calls| && h'.calls[i].pc.Returned?
  {
    hide Leads, Inv, Closable, MovesOn;
    LeadsNowhere(h);
    match h.calls[i].pc {
      case Returned(_) => h' := h;
      case Releasing(_) => h' := Releases(h, i, c);
      case Deleting(_) => h' := Deletes(h, i, c);
      case _ =>
        var h1 := ConnCloses(h, i, c);
        LeadsNowhere(h1);
        if h1.calls[i].pc.Returned? {
          h' := h1;
        } else if h1.calls[i].pc.Releasing? {
          h' := Releases(h1, i, c);
        } else {
          h' := ReturnThrough(h1, i, c);
        }
        LeadsOn(h, h1, h');
    }
  }

  lemma Returns(h: Hub, i: nat) returns (h': Hub)
    requires Inv(h) && i < |h.calls| && !Stranded(h, i)
    ensures Leads(h, h') && i < |h'.calls| && h'.calls[i].pc.Returned?
  {
    hide Leads, Slots, Registry, Fits, Sound;
    assert CallOk(h, i);
    if h.calls[i].pc.Lookup? {
      LookupUnbound(h, i);
      var e := CallFind(i);
      LeadsByStep(h, e);
      InvStep(h, e);
      var h1 := Step(h, e);
      LeadsNowhere(h1);
      h' := h1;
      if h1.calls[i].conn.Some? {
        var c := h1.calls[i].conn.value;
        StuckAfterFind(h, i, c);
        h' := ReturnsFromConn(h1, i, c);
      }
      LeadsOn(h, h1, h');
    } else if h.calls[i].conn.Some? {
      h' := ReturnsFromConn(h, i, h.calls[i].conn.value);
    } else {
      LeadsNowhere(h);
      h' := h;
    }
  }

  lemma StuckAfterFind(h: Hub, i: nat, c: nat)
    requires Inv(h) && Enabled(h, CallFind(i)) && Found(h, h.calls[i]) == Some(c) && !Stuck(h, c)
    ensures !Stuck(StepFind(h, i), c)
  {
    hide Calls, Conns, Slots;
    var h' := StepFind(h, i);
    if who :| h.conns[c].phase.Open? && MayEnterClose(h, c, who) {
      assert MayEnterClose(h', c, who);
    } else if h.conns[c].phase.Open? && h.conns[c].reader.NotStarted? && h.conns[c].supersedes.Some? {
      var p := h.conns[c].supersedes.value;
      if !Bounded(h.conns[p]) {
        var j: nat :| EarlyCall(h, p, j);
        assert EarlyCall(h', p, j);
      }
    }
  }

  /** The deferred steps of a call never wait for anything but a drain, nor a waiter for a closed connection. */
  lemma DeferredStepsAreFree(h: Hub, i: nat)
    requires Reachable(h) && i < |h.calls|
    ensures h.calls[i].pc.Releasing? ==> Enabled(h, OfCall(i, Release))
    ensures h.calls[i].pc.Deleting? ==>
              OnConn(h, i) && (Enabled(h, OfCall(i, Delete)) || ConnOf(h, i).phase.Draining?)
    ensures h.calls[i].pc.Waiting? ==> OnConn(h, i) && (ConnOf(h, i).Done() ==> Enabled(h, OfCall(i, GiveUp(Offline))))
  {
    hide Reachable;
    ReachableInv(h);
    assert CallOk(h, i);
    if h.calls[i].pc.Releasing? { assert i in Holders(h, h.calls[i].conn.value); }
  }

  // ---------------------------------------------------------------- unless they are stranded

  /** No step makes a call fail to write, or answers it, while its connection is open and not read. */
  lemma StrandedAct(i: nat, call: Call, conn: Conn, m: nat, a: CallAct)
    requires Fits(i, call, conn) && Sound(conn) && CallReady(call, conn, m, a)
    requires conn.phase.Open? && conn.reader.NotStarted?
    requires !a.Unprepared? && !a.Oversize? && (a.Abandon? || a.GiveUp? ==> a.why != ContextDone)
    requires a.EndWrite? ==> a.ok
    ensures CallAfter(call, conn, m, a).pc.ClosingAfterWrite? ==> call.pc.ClosingAfterWrite?
    ensures HasOutcome(CallAfter(call, conn, m, a).pc) ==> HasOutcome(call.pc) || call.pc.ClosingAfterWrite?
    ensures !CallAfter(call, conn, m, a).pc.Lookup?
  {
  }

  /** On a connection without a deadline, only calls that are yet to set one can set one. */
  lemma UnboundedAct(i: nat, call: Call, conn: Conn, m: nat, a: CallAct)
    requires Fits(i, call, conn) && CallReady(call, conn, m, a) && !conn.deadline
    requires !call.pc.Admission? && !call.pc.Preparing? && !call.pc.Registered?
    ensures ConnAfterCall(i, call, conn, m, a).deadline == conn.deadline
    ensures var pc := CallAfter(call, conn, m, a).pc; !pc.Admission? && !pc.Preparing? && !pc.Registered?
  {
  }

  lemma StuckCall(h: Hub, c: nat, i: nat, a: CallAct)
    requires Inv(h) && Stuck(h, c) && Enabled(h, OfCall(i, a)) && Unaided(h, OfCall(i, a))
    ensures Stuck(StepCall(h, i, a), c)
  {
    hide Fits, Sound, CallReady, CallAfter, ConnAfterCall, Slots;
    var h', d, p := StepCall(h, i, a), h.calls[i].conn.value, h.conns[c].supersedes.value;
    assert CallOk(h, i) && Sound(h.conns[d]);
    CallMovesOn(i, h.calls[i], h.conns[d], h.maxInFlight, a);
    CallKeepsConn(i, h.calls[i], h.conns[d], h.maxInFlight, a);
    if d == c { StrandedAct(i, h.calls[i], h.conns[c], h.maxInFlight, a); }
    if d == p {
      assert !EarlyCall(h, p, i);
      UnboundedAct(i, h.calls[i], h.conns[p], h.maxInFlight, a);
    }
    forall j: nat ensures !EarlyCall(h', p, j) { assert !EarlyCall(h, p, j); }
    forall who: Closer | true ensures !MayEnterClose(h', c, who) { assert !MayEnterClose(h, c, who); }
  }

  lemma StuckClose(h: Hub, c: nat, d: nat, a: CloseAct)
    requires Inv(h) && Stuck(h, c) && Enabled(h, OfClose(d, a)) && Unaided(h, OfClose(d, a))
    ensures Stuck(StepClose(h, d, a), c)
  {
    hide Calls, Conns, Slots;
    var h', p := StepClose(h, d, a), h.conns[c].supersedes.value;
    forall j: nat ensures !EarlyCall(h', p, j) { assert !EarlyCall(h, p, j); }
    forall who: Closer | true ensures !MayEnterClose(h', c, who) { assert !MayEnterClose(h, c, who); }
  }

  lemma StuckRead(h: Hub, c: nat, d: nat, a: ReadAct)
    requires Inv(h) && Stuck(h, c) && Enabled(h, OfReader(d, a)) && Unaided(h, OfReader(d, a))
    ensures Stuck(StepRead(h, d, a), c)
  {
    hide Calls, Conns, Slots, ConnAfterRead;
    var h', p := StepRead(h, d, a), h.conns[c].supersedes.value;
    ReadMovesOn(h.conns[d], a);
    forall j: nat ensures !EarlyCall(h', p, j) { assert !EarlyCall(h, p, j); }
    forall who: Closer | true ensures !MayEnterClose(h', c, who) { assert !MayEnterClose(h, c, who); }
  }

  /** A lookup never finds a replaced connection, and no read loop starts before its turn. */
  lemma StuckOther(h: Hub, c: nat, e: Event)
    requires Inv(h) && Stuck(h, c) && Enabled(h, e) && (e.RegisterFinish? || e.CallFind?)
    ensures Stuck(Step(h, e), c)
  {
    hide Calls, Conns, Slots;
    var h', p := Step(h, e), h.conns[c].supersedes.value;
    forall j: nat ensures !EarlyCall(h', p, j) { assert !EarlyCall(h, p, j); }
    forall who: Closer | true ensures !MayEnterClose(h', c, who) { assert !MayEnterClose(h, c, who); }
  }

  lemma StuckStep(h: Hub, c: nat, e: Event)
    requires Inv(h) && Stuck(h, c) && Enabled(h, e) && Unaided(h, e)
    ensures Stuck(Step(h, e), c)
  {
    hide Stuck, Inv, Enabled;
    match e {
      case OfCall(i, a) => StuckCall(h, c, i, a);
      case OfClose(d, a) => StuckClose(h, c, d, a);
      case OfReader(d, a) => StuckRead(h, c, d, a);
      case _ => StuckOther(h, c, e);
    }
  }

  lemma StrandedStep(h: Hub, i: nat, e: Event)
    requires Inv(h) && Stranded(h, i) && Enabled(h, e) && Unaided(h, e)
    ensures Stranded(Step(h, e), i)
  {
    var c := TargetOf(h, i).value;
    StuckStep(h, c, e);
    if e.OfCall? && e.call == i {
      assert !MayEnterClose(h, c, ByCall(i));
      assert CallOk(h, i) && Sound(h.conns[c]);
      hide Stuck, Slots, Registry, Fits, Sound, CallReady, CallAfter, ConnAfterCall;
      NotLookup(h, i);
      StrandedAct(i, h.calls[i], h.conns[c], h.maxInFlight, e.act);
      CallKeepsConn(i, h.calls[i], h.conns[c], h.maxInFlight, e.act);
    } else {
      OthersKeepTarget(h, i, e);
    }
  }

  /** The lookup of a stranded call gives what it gave before. */
  lemma FoundKept(h: Hub, i: nat, e: Event)
    requires Inv(h) && Stranded(h, i) && Enabled(h, e) && (e.OfCall? || e.OfClose? || e.OfReader?)
    ensures Found(Step(h, e), h.calls[i]) == Found(h, h.calls[i]) || !h.calls[i].pc.Lookup?
  {
    var c := TargetOf(h, i).value;
    if h.calls[i].pc.Lookup? {
      hide Calls, Conns, Slots, Closable;
      ConnMovesOn(h, e, c);
    }
  }

  lemma OthersKeepTarget(h: Hub, i: nat, e: Event)
    requires Inv(h) && Stranded(h, i) && Enabled(h, e) && Unaided(h, e) && !(e.OfCall? && e.call == i)
    ensures i < |Step(h, e).calls| && !HasOutcome(Step(h, e).calls[i].pc) && TargetOf(Step(h, e), i) == TargetOf(h, i)
  {
    hide Calls, Conns, Slots, Registry, Stuck, CallAfter, ConnAfterCall, CallReady, ConnAfterRead, ConnAfterClose;
    if e.OfCall? || e.OfClose? || e.OfReader? { FoundKept(h, i, e); }
  }

  lemma {:induction false} StrandedRun(h: Hub, i: nat, events: seq<Event>)
    requires Inv(h) && Stranded(h, i) && UnaidedRun(h, events) && IsRun(h, events)
    ensures Stranded(After(h, events), i)
    decreases |events|
  {
    hide Step, Enabled, Unaided, Inv, Stranded;
    if events != [] {
      InvStep(h, events[0]);
      StrandedStep(h, i, events[0]);
      StrandedRun(Step(h, events[0]), i, events[1..]);
    }
  }

  /**
   From every reachable state, each call can come to its return without a frame from the device
   and without the end of its context, by the program's own steps and its deadlines, exactly
   when it is not stranded.
   */
  lemma CallReturnsUnlessStranded(h: Hub, i: nat)
    requires Reachable(h) && i < |h.calls|
    ensures (exists events: seq<Event> :: UnaidedRun(h, events) && IsRun(h, events)
                && i < |After(h, events).calls| && After(h, events).calls[i].pc.Returned?)
       <==> !Stranded(h, i)
  {
    hide Reachable, Inv, UnaidedRun, Stuck, ArrivesAt;
    ReachableInv(h);
    if Stranded(h, i) {
      forall events: seq<Event> | UnaidedRun(h, events) && IsRun(h, events) ensures Stranded(After(h, events), i) {
        StrandedRun(h, i, events);
      }
    } else {
      var h' := Returns(h, i);
      var events: seq<Event> :| ArrivesAt(h, events, h');
      ArrivesByRun(h, events, h');
    }
  }
}
