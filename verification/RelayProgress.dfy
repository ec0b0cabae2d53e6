/**
 How the relay hub gets on: what `close` waits for, and that calls return.

 Closing a connection first writes a close frame under the socket's write lock, and only then
 signals `done`.  So it waits for whoever is writing, and a write ends for certain only under
 the write deadline that calls set before they write.
*/
module RelayProgress {
  import opened Common
  import opened Relay
  import opened RelayProofs
  import opened RelayTheorems

  // ---------------------------------------------------------------- what close waits for

  /** The event with which writer `w` gives the write lock of connection `c` back. */
  predicate EndsWrite(e: Event, c: nat, w: Writer) {
    match w
    case CallWriter(i) => e.OfCall? && e.call == i && e.act.EndWrite?
    case ReaderWriter => e.OfReader? && e.conn == c && e.read.EndPong?
    case CloseWriter => e == OfClose(c, EndFarewell)
  }

  /** Someone has called `close` on `c` and waits for writer `w`. */
  predicate HeldUp(h: Hub, c: nat, w: Writer) {
    c < |h.conns| && h.conns[c].phase.Entered? && h.conns[c].writer == Some(w)
  }

  /** The `Register` that made `r` still waits for the close of `c`. */
  predicate AwaitsClose(h: Hub, r: nat, c: nat) {
    r < |h.conns| && h.conns[r].supersedes == Some(c) && h.conns[r].reader.NotStarted?
  }

  lemma WriterKept(i: nat, call: Call, conn: Conn, m: nat, a: CallAct)
    requires Fits(i, call, conn) && CallReady(call, conn, m, a) && conn.writer.Some?
    requires conn.writer == Some(CallWriter(i)) ==> !a.EndWrite?
    ensures var b := ConnAfterCall(i, call, conn, m, a);
            && b.writer == conn.writer && b.phase == conn.phase && b.reader == conn.reader
            && b.supersedes == conn.supersedes
  {
  }

  lemma HeldUpClose(conn: Conn, a: CloseAct)
    requires conn.phase.Entered? && conn.writer.Some?
    ensures !CloseReady(conn, a)
  {
  }

  lemma HeldUpRead(conn: Conn, a: ReadAct)
    requires Sound(conn) && ReadReady(conn, a) && conn.writer.Some?
    requires !(a.EndPong? && conn.writer == Some(ReaderWriter))
    ensures ConnAfterRead(conn, a).writer == conn.writer && ConnAfterRead(conn, a).phase == conn.phase
  {
  }

  lemma HeldUpMoves(h: Hub, e: Event, c: nat, w: Writer)
    requires Enabled(h, e) && HeldUp(h, c, w) && !EndsWrite(e, c, w) && Sound(h.conns[c])
    requires e.OfCall? ==> Fits(e.call, h.calls[e.call], ConnOf(h, e.call))
    ensures HeldUp(Step(h, e), c, w)
  {
    hide CallAfter, ConnAfterCall, CallReady, CloseReady, ReadReady, ConnAfterClose, ConnAfterRead, Fits, Sound;
    match e {
      case OfCall(i, a) => if h.calls[i].conn == Some(c) { WriterKept(i, h.calls[i], h.conns[c], h.maxInFlight, a); }
      case OfClose(d, a) => if d == c { HeldUpClose(h.conns[c], a); }
      case OfReader(d, a) => if d == c { HeldUpRead(h.conns[c], a); }
      case _ =>
    }
  }

  lemma HeldUpStep(h: Hub, e: Event, c: nat, w: Writer)
    requires Inv(h) && Enabled(h, e) && HeldUp(h, c, w) && !EndsWrite(e, c, w)
    ensures HeldUp(Step(h, e), c, w)
  {
    hide Step, Slots, Registry, Fits, EndsWrite;
    assert Sound(h.conns[c]);
    if e.OfCall? { assert CallOk(h, e.call); }
    HeldUpMoves(h, e, c, w);
  }

  lemma CloseKeepsReader(conn: Conn, a: CloseAct)
    requires CloseReady(conn, a)
    ensures ConnAfterClose(conn, a).reader == conn.reader && ConnAfterClose(conn, a).supersedes == conn.supersedes
  {
  }

  lemma NotReading(conn: Conn, a: ReadAct)
    requires conn.reader.NotStarted?
    ensures !ReadReady(conn, a)
  {
  }

  lemma AwaitsStep(h: Hub, e: Event, r: nat, c: nat)
    requires Enabled(h, e) && c < |h.conns| && !h.conns[c].phase.Closed? && AwaitsClose(h, r, c)
    ensures AwaitsClose(Step(h, e), r, c)
  {
    hide CallAfter, ConnAfterCall, CallReady, CloseReady, ReadReady, ConnAfterClose, ConnAfterRead;
    match e {
      case OfCall(i, a) => CallMovesOn(i, h.calls[i], ConnOf(h, i), h.maxInFlight, a);
      case OfClose(d, a) => CloseKeepsReader(h.conns[d], a);
      case OfReader(d, a) => if d == r { NotReading(h.conns[r], a); }
      case _ =>
    }
  }

  lemma {:induction false} HeldUpRun(h: Hub, events: seq<Event>, c: nat, w: Writer)
    requires Inv(h) && IsRun(h, events) && HeldUp(h, c, w)
    requires forall k :: 0 <= k < |events| ==> !EndsWrite(events[k], c, w)
    ensures HeldUp(After(h, events), c, w)
    ensures forall r: nat :: AwaitsClose(h, r, c) ==> AwaitsClose(After(h, events), r, c)
    ensures forall r: nat, i: nat :: AwaitsClose(h, r, c) && CallOn(After(h, events), i, r) ==>
              !Succeeded(After(h, events).calls[i].pc)
    decreases |events|
  {
    hide Step, Enabled, EndsWrite, Fits, Slots, Registry;
    if events == [] {
      forall r: nat, i: nat | AwaitsClose(h, r, c) && CallOn(h, i, r) ensures !Succeeded(h.calls[i].pc) {
        assert CallOk(h, i) && Sound(h.conns[r]);
        NothingRead(i, h.calls[i], h.conns[r]);
      }
    } else {
      InvStep(h, events[0]);
      HeldUpStep(h, events[0], c, w);
      forall r: nat | AwaitsClose(h, r, c) ensures AwaitsClose(Step(h, events[0]), r, c) {
        AwaitsStep(h, events[0], r, c);
      }
      HeldUpRun(Step(h, events[0]), events[1..], c, w);
    }
  }

  /**
   While the one writer does not finish, `done` is not signalled whatever else happens, and the
   read loop of a connection that replaces this one does not start, so no call on it succeeds.
   */
  lemma HeldUpWhileWriting(h: Hub, events: seq<Event>, c: nat, w: Writer)
    requires Reachable(h) && IsRun(h, events) && HeldUp(h, c, w)
    requires forall k :: 0 <= k < |events| ==> !EndsWrite(events[k], c, w)
    ensures HeldUp(After(h, events), c, w)
    ensures forall r: nat :: AwaitsClose(h, r, c) ==> AwaitsClose(After(h, events), r, c)
    ensures forall r: nat, i: nat :: AwaitsClose(h, r, c) && CallOn(After(h, events), i, r) ==>
              !Succeeded(After(h, events).calls[i].pc)
  {
    hide Reachable, IsRun, After, Inv;
    ReachableInv(h);
    HeldUpRun(h, events, c, w);
  }

  predicate Succeeded(pc: CallPc) { HasOutcome(pc) && pc.outcome.Success? }

  lemma NothingRead(i: nat, call: Call, conn: Conn)
    requires Fits(i, call, conn) && Sound(conn) && conn.reader.NotStarted?
    ensures !Succeeded(call.pc)
  {
  }

  /** A run of nothing but steps of the goroutine inside `close`. */
  predicate OwnClose(events: seq<Event>, c: nat) {
    forall k :: 0 <= k < |events| ==> events[k].OfClose? && events[k].conn == c
  }

  function StepsLeft(phase: Phase): nat {
    match phase
    case Open => 7 case Entered => 6 case Farewell => 5 case Parted => 4
    case Signalled => 3 case Unregistered => 2 case Draining => 1 case Closed => 0
  }

  /** The next step of `close`. */
  ghost function NextClose(conn: Conn): CloseAct
    requires !conn.phase.Open? && !conn.phase.Closed?
  {
    match conn.phase
    case Entered => BeginFarewell
    case Farewell => EndFarewell
    case Parted => Signal
    case Signalled => Unregister
    case Unregistered => LockPending
    case Draining => if conn.pending == map[] then Finish else var id :| id in conn.pending; DrainOne(id)
  }

  function Left(conn: Conn): nat { StepsLeft(conn.phase) + |conn.pending| }

  predicate MidClose(conn: Conn) { !conn.phase.Open? && !(conn.phase.Entered? && conn.writer.Some?) }

  /** The next step is possible unless somebody is writing, and brings the end nearer. */
  lemma NextCloseWorks(conn: Conn)
    requires MidClose(conn) && !conn.phase.Closed?
    ensures CloseReady(conn, NextClose(conn)) && !NextClose(conn).Enter?
    ensures MidClose(ConnAfterClose(conn, NextClose(conn))) && Left(ConnAfterClose(conn, NextClose(conn))) < Left(conn)
  {
    var pending := conn.pending;
    if conn.phase.Draining? && pending != map[] {
      var a := NextClose(conn);
      assert a.id in pending && |pending| == |pending.Keys|;
      assert (pending - {a.id}).Keys == pending.Keys - {a.id};
      assert |pending - {a.id}| == |(pending - {a.id}).Keys|;
    }
  }

  lemma NextCloseEnabled(h: Hub, c: nat)
    requires Inv(h) && c < |h.conns| && MidClose(h.conns[c]) && !h.conns[c].phase.Closed?
    ensures var e := OfClose(c, NextClose(h.conns[c]));
            && Enabled(h, e) && c < |Step(h, e).conns|
            && Step(h, e).conns[c] == ConnAfterClose(h.conns[c], NextClose(h.conns[c]))
  {
    hide NextClose, Calls, Slots, Registry;
    assert Targets(h, c);
    NextCloseWorks(h.conns[c]);
  }

  lemma {:induction false} CloseAlone(h: Hub, c: nat) returns (events: seq<Event>)
    requires Inv(h) && c < |h.conns| && MidClose(h.conns[c])
    ensures IsRun(h, events) && OwnClose(events, c)
    ensures c < |After(h, events).conns| && After(h, events).conns[c].phase.Closed?
    decreases Left(h.conns[c])
  {
    hide Step, Enabled, Inv, NextClose, Left;
    events := [];
    if !h.conns[c].phase.Closed? {
      var e := OfClose(c, NextClose(h.conns[c]));
      NextCloseWorks(h.conns[c]);
      NextCloseEnabled(h, c);
      InvStep(h, e);
      var rest := CloseAlone(Step(h, e), c);
      events := [e] + rest;
      assert events[1..] == rest;
    }
  }

  /**
   A `close` under way can finish by its own steps, the end of its own write among them, exactly
   when it is not held up by another writer.  Whether that end comes is another matter.
   */
  lemma CloseFinishesAlone(h: Hub, c: nat)
    requires Reachable(h) && c < |h.conns| && !h.conns[c].phase.Open?
    ensures (exists events: seq<Event> :: IsRun(h, events) && OwnClose(events, c)
                && c < |After(h, events).conns| && After(h, events).conns[c].phase.Closed?)
       <==> (forall w :: !HeldUp(h, c, w))
  {
    hide Reachable;
    ReachableInv(h);
    if h.conns[c].phase.Entered? && h.conns[c].writer.Some? {
      assert HeldUp(h, c, h.conns[c].writer.value);
      assert Sound(h.conns[c]);
      forall a: CloseAct | true ensures !CloseReady(h.conns[c], a) { }
      forall events: seq<Event> | IsRun(h, events) && OwnClose(events, c) ensures events == [] { }
    } else {
      var events := CloseAlone(h, c);
    }
  }

  /** On a connection that is done, a call only takes entries out of `pending`. */
  lemma DoneOnlyShrinks(i: nat, call: Call, conn: Conn, m: nat, a: CallAct)
    requires CallReady(call, conn, m, a) && conn.Done()
    ensures ConnAfterCall(i, call, conn, m, a).phase == conn.phase
    ensures ConnAfterCall(i, call, conn, m, a).pending.Keys <= conn.pending.Keys
  {
  }

  lemma CloseUsesUp(conn: Conn, a: CloseAct)
    requires CloseReady(conn, a) && conn.Done()
    ensures var b := ConnAfterClose(conn, a);
            && StepsLeft(b.phase) <= StepsLeft(conn.phase) && b.pending.Keys <= conn.pending.Keys
            && (StepsLeft(b.phase) < StepsLeft(conn.phase) || b.pending.Keys < conn.pending.Keys)
  {
    if a.DrainOne? { assert a.id in conn.pending.Keys && a.id !in ConnAfterClose(conn, a).pending.Keys; }
  }

  lemma ReadKeepsPending(conn: Conn, a: ReadAct)
    requires ReadReady(conn, a)
    ensures ConnAfterRead(conn, a).phase == conn.phase && ConnAfterRead(conn, a).pending == conn.pending
  {
  }

  /**
   After `done` nothing grows again: no event adds a pending entry or goes back a phase, and
   every step of `close` uses something up, so the drain ends whatever else is running.
   */
  lemma ClosingTerminates(h: Hub, e: Event, c: nat)
    requires Enabled(h, e) && c < |h.conns| && h.conns[c].Done()
    ensures c < |Step(h, e).conns|
    ensures var a, b := h.conns[c], Step(h, e).conns[c];
            && StepsLeft(b.phase) <= StepsLeft(a.phase) && b.pending.Keys <= a.pending.Keys
            && (e.OfClose? && e.conn == c ==>
                  StepsLeft(b.phase) < StepsLeft(a.phase) || b.pending.Keys < a.pending.Keys)
  {
    hide CallReady, CallAfter, ConnAfterCall, ConnAfterClose, ConnAfterRead, CloseReady, ReadReady, StepsLeft,
      Conn.Done;
    match e {
      case OfCall(i, a) => if ConnOf(h, i).Done() { DoneOnlyShrinks(i, h.calls[i], ConnOf(h, i), h.maxInFlight, a); }
      case OfClose(d, a) => if d == c { CloseUsesUp(h.conns[c], a); }
      case OfReader(d, a) => ReadKeepsPending(h.conns[d], a);
      case _ =>
    }
  }
}
