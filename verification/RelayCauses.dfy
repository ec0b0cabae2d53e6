/**
 Why a connection is closed and why a call fails, said of the events of a run: somebody
 disconnected that very device, registered it anew, its read loop ended, or a call on it failed
 to write.
*/
module RelayCauses {
  import opened Common
  import opened Relay
  import opened RelayProofs
  import opened RelayTheorems
  import opened RelayHistory

  // ---------------------------------------------------------------- the four causes

  /** Event `j` disconnected the device of connection `c` while `c` was registered. */
  ghost predicate Disconnects(events: seq<Event>, c: nat, j: nat) {
    && j < |events| && events[j].DisconnectLookup? && RegisteredNow(events[..j], c)
    && exists owner :: IsFor(events[..j], c, events[j].device, owner)
  }

  /** Event `j` registered the device of connection `c` anew, as connection `r`, while `c` was registered. */
  ghost predicate Replaces(events: seq<Event>, r: nat, c: nat, j: nat) {
    && j < |events| && events[j].RegisterSwap? && Swaps(events[..j]) == r && RegisteredNow(events[..j], c)
    && exists owner :: IsFor(events[..j], c, events[j].device, owner)
  }

  /** Event `i` is the last ping of the device before event `j`. */
  predicate LastPing(events: seq<Event>, c: nat, i: nat, control: bool) {
    && i < |events| && events[i] == OfReader(c, Ping(control))
    && (forall k :: i < k < |events| ==> !(events[k].OfReader? && events[k].conn == c && events[k].read.Ping?))
  }

  /** Event `j` ended the read loop: its input ended, or a pong of the WebSocket layer failed. */
  ghost predicate EndsReading(events: seq<Event>, c: nat, j: nat) {
    && j < |events|
    && (events[j] == OfReader(c, Stop)
        || (events[j] == OfReader(c, EndPong(false)) && exists i: nat :: LastPing(events[..j], c, i, true)))
  }

  /** Event `j` is the failed write of call `i`. */
  predicate FailsToWrite(events: seq<Event>, i: nat, j: nat) {
    j < |events| && (events[j] == OfCall(i, EndWrite(false)) || events[j] == OfCall(i, Oversize))
  }

  /** What happened earlier that lets this goroutine close connection `c`. */
  ghost predicate Cause(events: seq<Event>, c: nat, who: Closer) {
    match who
    case ByDisconnect => exists j: nat :: Disconnects(events, c, j)
    case ByRegister(r) => exists j: nat :: Replaces(events, r, c, j)
    case ByReader => exists j: nat :: EndsReading(events, c, j)
    case ByCall(i) => (exists k: nat :: FoundAt(events, i, c, k)) && exists j: nat :: FailsToWrite(events, i, j)
  }

  // ---------------------------------------------------------------- disconnecting

  lemma RequestsStep(h: Hub, e: Event, c: nat)
    requires Registry(h) && Enabled(h, e)
    ensures c in Step(h, e).closeRequests <==>
              c in h.closeRequests || (e.DisconnectLookup? && IsRegistered(h, c) && h.conns[c].device == e.device)
  {
    hide CallReady, CallAfter, ConnAfterCall, ConnAfterRead, ConnAfterClose, Listed;
  }

  lemma DisconnectsKept(front: seq<Event>, last: Event, c: nat)
    ensures (exists j: nat :: Disconnects(front + [last], c, j)) <==>
              (exists j: nat :: Disconnects(front, c, j))
              || (last.DisconnectLookup? && RegisteredNow(front, c)
                  && exists owner :: IsFor(front, c, last.device, owner))
  {
    hide RegisteredNow, IsFor;
    var events := front + [last];
    assert events[..|front|] == front && events[|front|] == last;
    assert Disconnects(events, c, |front|) <==>
             last.DisconnectLookup? && RegisteredNow(front, c) && exists owner :: IsFor(front, c, last.device, owner);
    forall j: nat | j < |front| ensures Disconnects(events, c, j) <==> Disconnects(front, c, j) {
      assert events[..j] == front[..j] && events[j] == front[j];
    }
  }

  /** Exactly the connections that were registered for a disconnected device are to be closed for it. */
  lemma {:induction false} DisconnectsByHistory(m: int, events: seq<Event>, c: nat)
    requires IsHistory(m, events)
    ensures c in HubAfter(m, events).closeRequests <==> exists j: nat :: Disconnects(events, c, j)
    decreases |events|
  {
    hide IsRun, Step, Enabled, RegisteredNow, IsFor, IsRegistered;
    if events != [] {
      var front, last := HistoryFront(m, events);
      var h := HubAfter(m, front);
      DisconnectsByHistory(m, front, c);
      HistoryInv(m, front);
      RegistryOf(h);
      hide Inv;
      RequestsStep(h, last, c);
      RegistryByHistory(m, front, c);
      RegisteredIsThere(h, c);
      ConnsByHistory(m, front, c);
      if c < |h.conns| { assert IsFor(front, c, h.conns[c].device, h.conns[c].owner); }
      DisconnectsKept(front, last, c);
    }
  }

  /** After `Disconnect` of a device, its registered connection may be closed for it as long as it is open. */
  lemma DisconnectReaches(m: int, events: seq<Event>, c: nat, j: nat)
    requires IsHistory(m, events) && Disconnects(events, c, j) && c < |HubAfter(m, events).conns|
    ensures HubAfter(m, events).conns[c].phase.Open? ==> Enabled(HubAfter(m, events), OfClose(c, Enter(ByDisconnect)))
  {
    hide IsRun, Step, Disconnects;
    DisconnectsByHistory(m, events, c);
  }

  // ---------------------------------------------------------------- replacing

  lemma SupersedesStep(h: Hub, e: Event, r: nat)
    requires Registry(h) && Enabled(h, e) && r < |Step(h, e).conns|
    ensures Step(h, e).conns[r].supersedes ==
              if e.RegisterSwap? && r == |h.conns| then
                (if e.device in h.devices then Some(h.devices[e.device]) else None)
              else if e == RegisterFinish(r) then None
              else if r < |h.conns| then h.conns[r].supersedes else None
  {
    hide CallReady, CallAfter, ConnAfterCall, ConnAfterRead, ConnAfterClose, Listed;
    if r < |h.conns| && (e.OfCall? || e.OfClose? || e.OfReader?) { ConnMovesOn(h, e, r); }
  }

  lemma ReplacesKept(front: seq<Event>, last: Event, r: nat, c: nat)
    requires exists j: nat :: Replaces(front, r, c, j)
    ensures exists j: nat :: Replaces(front + [last], r, c, j)
  {
    hide RegisteredNow, IsFor, Swaps;
    var j: nat :| Replaces(front, r, c, j);
    assert (front + [last])[..j] == front[..j] && (front + [last])[j] == front[j];
    assert Replaces(front + [last], r, c, j);
  }

  /** A registration still has to close only the connection it replaced. */
  lemma {:induction false} ReplacesByHistory(m: int, events: seq<Event>, r: nat, c: nat)
    requires IsHistory(m, events)
    requires r < |HubAfter(m, events).conns| && HubAfter(m, events).conns[r].supersedes == Some(c)
    ensures exists j: nat :: Replaces(events, r, c, j)
    decreases |events|
  {
    hide IsRun, Step, Enabled, RegisteredNow, IsFor, IsRegistered, Replaces;
    var front, last := HistoryFront(m, events);
    var h := HubAfter(m, front);
    HistoryInv(m, front);
    RegistryOf(h);
    SupersedesStep(h, last, r);
    if last.RegisterSwap? && r == |h.conns| {
      RegistryByHistory(m, front, c);
      ConnsByHistory(m, front, c);
      InDevices(h, last.device);
      assert IsFor(front, c, last.device, h.conns[c].owner);
      ReplacesNow(front, last, r, c);
    } else {
      ReplacesByHistory(m, front, r, c);
      ReplacesKept(front, last, r, c);
    }
  }

  lemma InDevices(h: Hub, device: DeviceId)
    requires Registry(h) && device in h.devices
    ensures IsRegistered(h, h.devices[device]) && h.conns[h.devices[device]].device == device
  {
  }

  lemma ReplacesNow(front: seq<Event>, last: Event, r: nat, c: nat)
    requires last.RegisterSwap? && Swaps(front) == r && RegisteredNow(front, c)
    requires exists owner :: IsFor(front, c, last.device, owner)
    ensures Replaces(front + [last], r, c, |front|)
  {
    assert (front + [last])[..|front|] == front && (front + [last])[|front|] == last;
  }

  // ---------------------------------------------------------------- the end of reading

  lemma ReaderStep(h: Hub, e: Event, c: nat)
    requires Enabled(h, e) && c < |h.conns| && h.conns[c].reader != Step(h, e).conns[c].reader
    ensures e == RegisterFinish(c) || (e.OfReader? && e.conn == c)
  {
    hide CallReady, CallAfter, ConnAfterCall, ConnAfterRead, ConnAfterClose;
    match e {
      case OfCall(i, a) => CallMovesOn(i, h.calls[i], ConnOf(h, i), h.maxInFlight, a);
      case OfClose(d, a) => CloseKeepsReading(h.conns[d], a);
      case _ =>
    }
  }

  lemma CloseKeepsReading(conn: Conn, a: CloseAct)
    requires CloseReady(conn, a)
    ensures ConnAfterClose(conn, a).reader == conn.reader
  {
  }

  predicate Pongs(reader: Reader) { reader.Answering? || reader.Ponging? }

  lemma ReadActsOf(conn: Conn, a: ReadAct)
    requires ReadReady(conn, a)
    ensures var b := ConnAfterRead(conn, a).reader;
            && (Pongs(b) ==>
                  (if a.Ping? then b.control == a.control else Pongs(conn.reader) && b.control == conn.reader.control))
            && (b.Exited? ==> a.Stop? || (a == EndPong(false) && conn.reader.Ponging? && conn.reader.control))
            && !conn.reader.Exited?
  {
  }

  lemma ReaderOf(h: Hub, e: Event, c: nat)
    requires Enabled(h, e) && e.OfReader? && e.conn == c
    ensures c < |h.conns| == |Step(h, e).conns| && ReadReady(h.conns[c], e.read)
    ensures Step(h, e).conns[c] == ConnAfterRead(h.conns[c], e.read)
  {
    hide ConnAfterRead, ReadReady;
  }

  /** The pong under way answers the last ping. */
  lemma {:induction false} PingByHistory(m: int, events: seq<Event>, c: nat)
    requires IsHistory(m, events) && c < |HubAfter(m, events).conns| && Pongs(HubAfter(m, events).conns[c].reader)
    ensures exists i: nat :: LastPing(events, c, i, HubAfter(m, events).conns[c].reader.control)
    decreases |events|
  {
    hide IsRun, Step, Enabled, ReadReady, ConnAfterRead;
    var front, last := HistoryFront(m, events);
    var h, h' := HubAfter(m, front), HubAfter(m, events);
    var control := h'.conns[c].reader.control;
    if last.OfReader? && last.conn == c {
      ReaderOf(h, last, c);
      ReadActsOf(h.conns[c], last.read);
      if last.read.Ping? {
        assert LastPing(events, c, |front|, control);
      } else {
        PingByHistory(m, front, c);
        PingKept(front, last, c, control);
      }
    } else {
      NewConnIdle(h, last, c);
      ReaderKept(h, last, c);
      PingByHistory(m, front, c);
      PingKept(front, last, c, control);
    }
  }

  lemma ReaderKept(h: Hub, e: Event, c: nat)
    requires Enabled(h, e) && c < |h.conns| && c < |Step(h, e).conns| && Pongs(Step(h, e).conns[c].reader)
    requires !(e.OfReader? && e.conn == c)
    ensures Step(h, e).conns[c].reader == h.conns[c].reader
  {
    hide CallReady, CallAfter, ConnAfterCall, ConnAfterRead, ConnAfterClose;
    if h.conns[c].reader != Step(h, e).conns[c].reader { ReaderStep(h, e, c); }
  }

  lemma NewConnIdle(h: Hub, e: Event, c: nat)
    requires Enabled(h, e) && c < |Step(h, e).conns| && Step(h, e).conns[c].reader != NotStarted
    ensures c < |h.conns|
  {
    hide CallReady, CallAfter, ConnAfterCall, ConnAfterRead, ConnAfterClose;
  }

  lemma PingKept(front: seq<Event>, last: Event, c: nat, control: bool)
    requires exists i: nat :: LastPing(front, c, i, control)
    requires !(last.OfReader? && last.conn == c && last.read.Ping?)
    ensures exists i: nat :: LastPing(front + [last], c, i, control)
  {
    var i: nat :| LastPing(front, c, i, control);
    var events := front + [last];
    assert forall k :: 0 <= k < |front| ==> events[k] == front[k];
    assert LastPing(events, c, i, control);
  }

  lemma {:induction false} ReadingEnded(m: int, events: seq<Event>, c: nat)
    requires IsHistory(m, events) && c < |HubAfter(m, events).conns| && HubAfter(m, events).conns[c].reader.Exited?
    ensures exists j: nat :: EndsReading(events, c, j)
    decreases |events|
  {
    hide IsRun, Step, Enabled, ReadReady, ConnAfterRead, LastPing;
    var front, last := HistoryFront(m, events);
    var h := HubAfter(m, front);
    if last.OfReader? && last.conn == c {
      ReaderOf(h, last, c);
      ReadActsOf(h.conns[c], last.read);
      if last.read != Stop { PingByHistory(m, front, c); }
      assert events[..|front|] == front;
      assert EndsReading(events, c, |front|);
    } else {
      NewConnIdle(h, last, c);
      StillExited(h, last, c);
      ReadingEnded(m, front, c);
      var j: nat :| EndsReading(front, c, j);
      assert events[..j] == front[..j] && events[j] == front[j];
      assert EndsReading(events, c, j);
    }
  }

  lemma StillExited(h: Hub, e: Event, c: nat)
    requires Enabled(h, e) && c < |h.conns| && c < |Step(h, e).conns| && Step(h, e).conns[c].reader.Exited?
    requires !(e.OfReader? && e.conn == c)
    ensures h.conns[c].reader.Exited?
  {
    hide CallReady, CallAfter, ConnAfterCall, ConnAfterRead, ConnAfterClose;
    if h.conns[c].reader != Step(h, e).conns[c].reader { ReaderStep(h, e, c); }
  }

  // ---------------------------------------------------------------- failed writes

  lemma FailedWriteAct(call: Call, conn: Conn, m: nat, a: CallAct)
    requires CallReady(call, conn, m, a) && CallAfter(call, conn, m, a).pc.ClosingAfterWrite?
    ensures a == EndWrite(false) || a == Oversize
  {
  }

  lemma FailedWriteStep(h: Hub, e: Event, i: nat)
    requires Enabled(h, e) && i < |Step(h, e).calls| && Step(h, e).calls[i].pc.ClosingAfterWrite?
    ensures e == OfCall(i, EndWrite(false)) || e == OfCall(i, Oversize)
         || (i < |h.calls| && h.calls[i].pc.ClosingAfterWrite?)
  {
    hide CallReady, CallAfter, ConnAfterCall, ConnAfterRead, ConnAfterClose;
    if e.OfCall? && e.call == i { FailedWriteAct(h.calls[i], ConnOf(h, i), h.maxInFlight, e.act); }
  }

  lemma {:induction false} WriteFailedBefore(m: int, events: seq<Event>, i: nat)
    requires IsHistory(m, events) && i < |HubAfter(m, events).calls|
    requires HubAfter(m, events).calls[i].pc.ClosingAfterWrite?
    ensures exists j: nat :: FailsToWrite(events, i, j)
    decreases |events|
  {
    hide IsRun, Step, Enabled;
    var front, last := HistoryFront(m, events);
    FailedWriteStep(HubAfter(m, front), last, i);
    if last == OfCall(i, EndWrite(false)) || last == OfCall(i, Oversize) {
      assert FailsToWrite(events, i, |front|);
    } else {
      WriteFailedBefore(m, front, i);
      var j: nat :| FailsToWrite(front, i, j);
      assert FailsToWrite(events, i, j);
    }
  }

  // ---------------------------------------------------------------- every close has its cause

  /** Whoever is the first to close a connection has had its reason to, for this connection. */
  lemma CloseHasCause(m: int, events: seq<Event>, k: nat, c: nat, who: Closer)
    requires IsHistory(m, events) && k < |events| && events[k] == OfClose(c, Enter(who))
    ensures Cause(events[..k], c, who)
  {
    hide IsRun, Step, After;
    RunPrefix(NewHub(m), events, k);
    RunPrefix(NewHub(m), events, k + 1);
    var front := events[..k];
    RunFront(NewHub(m), events[..k + 1]);
    assert events[..k + 1][..k] == front && events[..k + 1][k] == events[k];
    var h := HubAfter(m, front);
    EnterAllowed(h, c, who);
    hide Enabled, Disconnects, Replaces, EndsReading, FailsToWrite, FoundAt, CallOn;
    match who {
      case ByDisconnect => DisconnectsByHistory(m, front, c);
      case ByRegister(r) => ReplacesByHistory(m, front, r, c);
      case ByReader => ReadingEnded(m, front, c);
      case ByCall(i) =>
        WriteFailedBefore(m, front, i);
        LookupByHistory(m, front, i, c);
    }
  }

  lemma EnterAllowed(h: Hub, c: nat, who: Closer)
    requires Enabled(h, OfClose(c, Enter(who)))
    ensures c < |h.conns|
    ensures match who
            case ByDisconnect => c in h.closeRequests
            case ByRegister(r) => r < |h.conns| && h.conns[r].supersedes == Some(c)
            case ByReader => h.conns[c].reader.Exited?
            case ByCall(i) => CallOn(h, i, c) && h.calls[i].pc.ClosingAfterWrite?
  {
  }

  /** A connection that is not open was closed by somebody, whose error is the one it reports. */
  ghost predicate ClosedBy(events: seq<Event>, c: nat, k: nat, who: Closer, error: Error) {
    && k < |events| && events[k] == OfClose(c, Enter(who))
    && error == (if who.ByCall? then WriteFailed else ConnectionClosed)
  }

  lemma PhaseStep(h: Hub, e: Event, c: nat)
    requires Enabled(h, e) && c < |Step(h, e).conns| && !Step(h, e).conns[c].phase.Open?
    ensures c < |h.conns|
    ensures (e.OfClose? && e.conn == c && e.close.Enter?
             && Step(h, e).conns[c].closeError == (if e.close.who.ByCall? then WriteFailed else ConnectionClosed))
         || (!h.conns[c].phase.Open? && Step(h, e).conns[c].closeError == h.conns[c].closeError)
  {
    hide CallReady, CallAfter, ConnAfterCall, ConnAfterRead, ConnAfterClose;
    match e {
      case OfCall(i, a) => CallKeepsError(i, h.calls[i], ConnOf(h, i), h.maxInFlight, a);
      case OfClose(d, a) => CloseSetsError(h.conns[d], a);
      case OfReader(d, a) => ReadKeepsError(h.conns[d], a);
      case _ =>
    }
  }

  lemma CallKeepsError(i: nat, call: Call, conn: Conn, m: nat, a: CallAct)
    requires CallReady(call, conn, m, a)
    ensures var b := ConnAfterCall(i, call, conn, m, a); b.phase == conn.phase && b.closeError == conn.closeError
  {
  }

  lemma ReadKeepsError(conn: Conn, a: ReadAct)
    requires ReadReady(conn, a)
    ensures ConnAfterRead(conn, a).phase == conn.phase && ConnAfterRead(conn, a).closeError == conn.closeError
  {
  }

  lemma CloseSetsError(conn: Conn, a: CloseAct)
    requires CloseReady(conn, a)
    ensures a.Enter? ==>
              ConnAfterClose(conn, a).closeError == (if a.who.ByCall? then WriteFailed else ConnectionClosed)
    ensures !a.Enter? ==> ConnAfterClose(conn, a).closeError == conn.closeError && !conn.phase.Open?
  {
  }

  lemma {:induction false} ClosedBySomebody(m: int, events: seq<Event>, c: nat) returns (k: nat, who: Closer)
    requires IsHistory(m, events) && c < |HubAfter(m, events).conns| && !HubAfter(m, events).conns[c].phase.Open?
    ensures ClosedBy(events, c, k, who, HubAfter(m, events).conns[c].closeError)
    decreases |events|
  {
    hide IsRun, Step, Enabled;
    var front, last := HistoryFront(m, events);
    var h := HubAfter(m, front);
    PhaseStep(h, last, c);
    if !h.conns[c].phase.Open? && HubAfter(m, events).conns[c].closeError == h.conns[c].closeError {
      k, who := ClosedBySomebody(m, front, c);
    } else {
      k, who := |front|, last.close.who;
    }
  }

  // ---------------------------------------------------------------- why a call fails

  /** Event `k` was the close of the connection of this call, by somebody who had cause to. */
  ghost predicate ClosedForCause(events: seq<Event>, c: nat, error: Error) {
    exists k: nat, who: Closer :: ClosedBy(events, c, k, who, error) && Cause(events[..k], c, who)
  }

  lemma ClosedHasCause(m: int, events: seq<Event>, c: nat)
    requires IsHistory(m, events) && c < |HubAfter(m, events).conns| && !HubAfter(m, events).conns[c].phase.Open?
    ensures ClosedForCause(events, c, HubAfter(m, events).conns[c].closeError)
  {
    hide IsRun, Step, Enabled, After, Cause;
    var k, who := ClosedBySomebody(m, events, c);
    CloseHasCause(m, events, k, c, who);
  }

  predicate FoundNothing(h: Hub, i: nat) {
    i < |h.calls| && h.calls[i].conn.None? && h.calls[i].pc.Returned?
  }

  lemma FoundNothingStep(h: Hub, e: Event, i: nat)
    requires Inv(h) && Enabled(h, e) && FoundNothing(Step(h, e), i)
    ensures FoundNothing(h, i) || (e == CallFind(i) && i < |h.calls| && Found(h, h.calls[i]).None?)
  {
    hide CallAfter, ConnAfterCall, CallReady, Inv, ConnAfterClose, ConnAfterRead;
    if e.OfCall? { CallKeepsConn(e.call, h.calls[e.call], ConnOf(h, e.call), h.maxInFlight, e.act); }
  }

  lemma {:induction false} NothingFound(m: int, events: seq<Event>, i: nat)
    requires IsHistory(m, events) && FoundNothing(HubAfter(m, events), i)
    ensures exists k: nat :: FoundNoneAt(events, i, k)
    decreases |events|
  {
    hide IsRun, Step, Enabled, FoundNothing, Found, FoundNoneAt;
    FoundNothingLater(m, i);
    var front, last := HistoryFront(m, events);
    HistoryInv(m, front);
    hide Inv;
    FoundNothingStep(HubAfter(m, front), last, i);
    if FoundNothing(HubAfter(m, front), i) {
      NothingFound(m, front, i);
      var k: nat :| FoundNoneAt(front, i, k);
      FoundNoneKept(front, last, i, k);
    } else {
      LookupNow(m, front, i);
    }
  }

  lemma FoundNothingLater(m: int, i: nat)
    ensures !FoundNothing(NewHub(m), i)
  {
  }

  lemma FoundNoneKept(front: seq<Event>, last: Event, i: nat, k: nat)
    requires FoundNoneAt(front, i, k)
    ensures FoundNoneAt(front + [last], i, k)
  {
    hide RegisteredNow, IsFor, IsCallFor;
    assert (front + [last])[..k] == front[..k] && (front + [last])[k] == front[k];
  }

  /**
   A call that fails has a reason.  On a connection: that is done and was closed by somebody with
   cause to close it (with exactly the error of that close, when the call reports one); or the
   context of this very call ended; or nothing was sent.  Without one: when the call looked, no
   registered connection was for its device and its owner.
   */
  lemma FailureHasReason(m: int, events: seq<Event>, i: nat)
    requires IsHistory(m, events) && i < |HubAfter(m, events).calls|
    requires HubAfter(m, events).calls[i].pc.Returned? && HubAfter(m, events).calls[i].pc.outcome.Failure?
    ensures var h := HubAfter(m, events);
            var call, error := h.calls[i], h.calls[i].pc.outcome.error;
            match error
            case Offline =>
              if call.conn.None? then exists k: nat :: FoundNoneAt(events, i, k)
              else OnConn(h, i) && ConnOf(h, i).Done()
                   && (ClosedForCause(events, call.conn.value, ConnectionClosed)
                       || ClosedForCause(events, call.conn.value, WriteFailed))
            case ConnectionClosed => call.conn.Some? && ClosedForCause(events, call.conn.value, ConnectionClosed)
            case WriteFailed => call.conn.Some? && ClosedForCause(events, call.conn.value, WriteFailed)
            case ContextDone => exists k :: 0 <= k < |events| && ContextEnds(events[k], i)
            case NotPrepared => !call.written
  {
    hide Step, Enabled, IsRun, After, Cause;
    var h := HubAfter(m, events);
    HistoryInv(m, events);
    assert CallOk(h, i);
    var call, error := h.calls[i], h.calls[i].pc.outcome.error;
    if call.conn.None? {
      NothingFound(m, events, i);
    } else {
      hide ClosedForCause;
      assert Honest(call, ConnOf(h, i)) && Sound(ConnOf(h, i));
      if ConnOf(h, i).Done() { ClosedHasCause(m, events, call.conn.value); }
      if error == ContextDone { ContextEnded(m, events, i); }
    }
  }

  lemma ContextEnded(m: int, events: seq<Event>, i: nat)
    requires IsHistory(m, events) && EndedByContext(HubAfter(m, events), i)
    ensures exists k :: 0 <= k < |events| && ContextEnds(events[k], i)
  {
    hide Step, Enabled, IsRun, Inv;
    InvInitially(m);
    var k := ContextRun(NewHub(m), events, i);
  }
}
