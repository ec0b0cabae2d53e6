/**
 The asynchronous audit writer over the in-memory store: callers put events into a bounded
 queue without blocking, one goroutine writes them, `Close` cancels it and waits.
 Every channel operation and every store write is one event of the machine.
*/
module Audit {
  import opened Common
  import opened Store

  /** The writing goroutine: in its main select, writing, draining after cancellation, gone. */
  datatype Loop = Idle | Writing(event: AuditEvent) | Draining | DrainWriting(event: AuditEvent) | Exited

  /** One call of `Close`: how many events had been accepted when it began, and whether it has returned. */
  datatype Closing = Closing(accepted: nat, late: bool, returned: bool)

  /** `accepted` and `written` are history; `log` is the store's audit log. */
  datatype Writer = Writer(capacity: nat, queue: seq<AuditEvent>, loop: Loop, cancelled: bool, closings: seq<Closing>,
                           accepted: seq<AuditEvent>, written: seq<AuditEvent>, log: seq<AuditEvent>)

  datatype Step = Record(event: AuditEvent) | Take | Write | SeeCancel | DrainDone | CloseBegin | CloseReturn(i: nat)

  function New(capacity: int): Writer {
    Writer(if capacity < 1 then 1024 else capacity, [], Idle, false, [], [], [], [])
  }

  predicate Enabled(w: Writer, s: Step) {
    match s
    case Record(_) => true
    case Take => (w.loop.Idle? || w.loop.Draining?) && w.queue != []
    case Write => w.loop.Writing? || w.loop.DrainWriting?
    case SeeCancel => w.loop.Idle? && w.cancelled
    case DrainDone => w.loop.Draining? && w.queue == []
    case CloseBegin => true
    case CloseReturn(i) => i < |w.closings| && w.loop.Exited?
  }

  /** `late` marks a `Close` that begins after the goroutine is gone while events sit in the queue. */
  function Next(w: Writer, s: Step): Writer
    requires Enabled(w, s)
  {
    match s
    case Record(e) =>
      if |w.queue| < w.capacity then w.(queue := w.queue + [e], accepted := w.accepted + [e]) else w
    case Take =>
      w.(queue := w.queue[1..], loop := if w.loop.Idle? then Writing(w.queue[0]) else DrainWriting(w.queue[0]))
    case Write =>
      var e := w.loop.event;
      w.(loop := if w.loop.Writing? then Idle else Draining, written := w.written + [e], log := Logged(w.log, e))
    case SeeCancel => w.(loop := Draining)
    case DrainDone => w.(loop := Exited)
    case CloseBegin =>
      w.(cancelled := true, closings := w.closings + [Closing(|w.accepted|, w.loop.Exited? && w.queue != [], false)])
    case CloseReturn(i) => w.(closings := w.closings[i := w.closings[i].(returned := true)])
  }

  ghost predicate IsRun(w: Writer, steps: seq<Step>)
    decreases |steps|
  {
    steps == [] || (Enabled(w, steps[0]) && IsRun(Next(w, steps[0]), steps[1..]))
  }

  ghost function After(w: Writer, steps: seq<Step>): Writer
    requires IsRun(w, steps)
    decreases |steps|
  {
    if steps == [] then w else After(Next(w, steps[0]), steps[1..])
  }

  /** Reachable from a new writer by some interleaving. */
  ghost predicate Reachable(w: Writer) {
    exists capacity: int, steps: seq<Step> :: IsRun(New(capacity), steps) && After(New(capacity), steps) == w
  }

  function InHand(w: Writer): seq<AuditEvent> {
    if w.loop.Writing? || w.loop.DrainWriting? then [w.loop.event] else []
  }

  /** Nothing is lost, repeated or reordered between acceptance and the store. */
  ghost predicate Conserved(w: Writer) {
    w.accepted == w.written + InHand(w) + w.queue && |w.queue| <= w.capacity
  }

  ghost predicate ClosingsOk(w: Writer) {
    forall i :: 0 <= i < |w.closings| ==>
      && (w.closings[i].returned ==> w.loop.Exited?)
      && w.closings[i].accepted <= |w.accepted|
      && (w.closings[i].late <==> w.loop.Exited? && w.closings[i].accepted > |w.written|)
  }

  /** The log is the tail of what was written, never over ten thousand events nor trimmed below 5001. */
  ghost predicate LogOk(w: Writer) {
    && |w.log| <= |w.written| && w.log == w.written[|w.written| - |w.log|..]
    && Min(|w.written|, AUDIT_KEPT + 1) <= |w.log| <= AUDIT_LIMIT
  }

  /** Only a `Close` makes the goroutine stop, and the first one finds it still there. */
  ghost predicate Cancelled(w: Writer) {
    && (w.loop.Draining? || w.loop.DrainWriting? || w.loop.Exited? ==> w.cancelled)
    && (w.cancelled ==> w.closings != [])
    && (w.closings != [] ==> !w.closings[0].late)
  }

  ghost predicate Inv(w: Writer) {
    Conserved(w) && ClosingsOk(w) && LogOk(w) && Cancelled(w)
  }

  lemma Regroup(a: seq<AuditEvent>, e: AuditEvent, b: seq<AuditEvent>)
    ensures a + [] + ([e] + b) == a + [e] + b && (a + [e]) + [] + b == a + [e] + b
  {
  }

  lemma ConservedStep(w: Writer, s: Step)
    requires Conserved(w) && Enabled(w, s)
    ensures Conserved(Next(w, s))
  {
    match s {
      case Record(e) => assert w.written + InHand(w) + w.queue + [e] == w.written + InHand(w) + (w.queue + [e]);
      case Take =>
        Regroup(w.written, w.queue[0], w.queue[1..]);
        assert w.queue == [w.queue[0]] + w.queue[1..];
      case Write => Regroup(w.written, w.loop.event, w.queue);
      case _ =>
    }
  }

  lemma LogStep(w: Writer, s: Step)
    requires LogOk(w) && Enabled(w, s)
    ensures LogOk(Next(w, s))
  {
    var w' := Next(w, s);
    if s.Write? {
      assert w'.log == w'.written[|w'.written| - |w'.log|..];
    }
  }

  lemma InvStep(w: Writer, s: Step)
    requires Inv(w) && Enabled(w, s)
    ensures Inv(Next(w, s))
  {
    ConservedStep(w, s);
    LogStep(w, s);
  }

  lemma {:induction false} InvRun(w: Writer, steps: seq<Step>)
    requires Inv(w) && IsRun(w, steps)
    ensures Inv(After(w, steps))
    decreases |steps|
  {
    if steps != [] {
      InvStep(w, steps[0]);
      InvRun(Next(w, steps[0]), steps[1..]);
    }
  }

  lemma ReachableInv(w: Writer)
    requires Reachable(w)
    ensures Inv(w)
  {
    var capacity: int, steps: seq<Step> :| IsRun(New(capacity), steps) && After(New(capacity), steps) == w;
    InvRun(New(capacity), steps);
  }

  /** Over every run the log is an in-order tail of the accepted events, within its bounds. */
  lemma LogIsRecentHistory(w: Writer)
    requires Reachable(w)
    ensures w.written <= w.accepted
    ensures |w.log| <= |w.written| && w.log == w.accepted[|w.written| - |w.log|..|w.written|]
    ensures Min(|w.written|, 5001) <= |w.log| <= 10000
    ensures |w.log| == LengthAfter(|w.written|)
  {
    ReachableInv(w);
    LengthReached(w);
    hide Reachable, LengthAfter;
    assert w.accepted[..|w.written|] == w.written;
    assert w.accepted[|w.written| - |w.log|..|w.written|] == w.accepted[..|w.written|][|w.written| - |w.log|..];
  }

  /** How long the log is, to the event: after ten thousand it is cut to half and grows back, again and again. */
  lemma {:induction false} LogLength(w: Writer, steps: seq<Step>)
    requires IsRun(w, steps) && |w.log| == LengthAfter(|w.written|)
    ensures |After(w, steps).log| == LengthAfter(|After(w, steps).written|)
    decreases |steps|
  {
    hide Enabled;
    if steps != [] {
      LogLengthStep(w, steps[0]);
      LogLength(Next(w, steps[0]), steps[1..]);
    }
  }

  lemma LengthReached(w: Writer)
    requires Reachable(w)
    ensures |w.log| == LengthAfter(|w.written|)
  {
    hide IsRun, After;
    var capacity: int, steps: seq<Step> :| IsRun(New(capacity), steps) && After(New(capacity), steps) == w;
    LogLength(New(capacity), steps);
  }

  function LengthAfter(written: nat): nat {
    if written <= 10000 then written else 5001 + (written - 10001) % 5000
  }

  lemma LogLengthStep(w: Writer, s: Step)
    requires Enabled(w, s) && |w.log| == LengthAfter(|w.written|)
    ensures |Next(w, s).log| == LengthAfter(|Next(w, s).written|)
  {
  }

  /** How many events of the queue these steps have taken. */
  function Taken(steps: seq<Step>): nat {
    if steps == [] then 0 else (if steps[0].Take? then 1 else 0) + Taken(steps[1..])
  }

  /** The queue holds what was accepted and not yet taken. */
  lemma {:induction false} QueueByHistory(w: Writer, steps: seq<Step>)
    requires IsRun(w, steps)
    ensures |After(w, steps).accepted| - |After(w, steps).queue| == |w.accepted| - |w.queue| + Taken(steps)
    ensures After(w, steps).capacity == w.capacity
    decreases |steps|
  {
    if steps != [] { QueueByHistory(Next(w, steps[0]), steps[1..]); }
  }

  /** An event is accepted exactly while the queue has room: fewer are accepted and not taken than it holds. */
  lemma AcceptedExactlyWithRoom(capacity: int, steps: seq<Step>, e: AuditEvent)
    requires IsRun(New(capacity), steps)
    ensures var w, room := After(New(capacity), steps), if capacity < 1 then 1024 else capacity;
            && (Next(w, Record(e)).accepted == w.accepted + [e] <==> |w.accepted| - Taken(steps) < room)
            && (Next(w, Record(e)).accepted == w.accepted <==> |w.accepted| - Taken(steps) >= room)
  {
    QueueByHistory(New(capacity), steps);
    var w := After(New(capacity), steps);
    assert w.accepted + [e] != w.accepted;
  }

  /**
   When a `Close` has returned, every event accepted before it began has been written exactly
   once, in order, unless it began after the goroutine had already gone with events queued.
   */
  lemma CloseFlushes(w: Writer, i: nat)
    requires Reachable(w) && i < |w.closings| && w.closings[i].returned
    ensures w.closings[i].accepted <= |w.accepted|
    ensures w.accepted[..w.closings[i].accepted] <= w.written <==> !w.closings[i].late
    ensures w.written <= w.accepted
  {
    ReachableInv(w);
    var n := w.closings[i].accepted;
    assert w.accepted[..|w.written|] == w.written;
    if n <= |w.written| { assert w.accepted[..n] == w.written[..n]; }
  }

  /** The first `Close` is never late: when it returns, all that was accepted before it began is written. */
  lemma FirstCloseFlushes(w: Writer)
    requires Reachable(w) && w.closings != [] && w.closings[0].returned
    ensures w.closings[0].accepted <= |w.accepted| && w.accepted[..w.closings[0].accepted] <= w.written <= w.accepted
  {
    hide Reachable;
    ReachableInv(w);
    CloseFlushes(w, 0);
  }

  /** The exception is real: an event recorded after one `Close` is never written, though a second `Close` returns. */
  lemma SecondCloseLosesEvent(e: AuditEvent)
    ensures exists w ::
              Reachable(w) && |w.closings| == 2 && w.closings[1].returned && w.accepted == [e] && w.written == []
  {
    var w0 := New(1);
    var w1 := Next(w0, CloseBegin);
    var w2 := Next(w1, SeeCancel);
    var w3 := Next(w2, DrainDone);
    var w4 := Next(w3, Record(e));
    var w5 := Next(w4, CloseBegin);
    var w6 := Next(w5, CloseReturn(1));
    Prepend(w5, CloseReturn(1), []);
    Prepend(w4, CloseBegin, [CloseReturn(1)]);
    Prepend(w3, Record(e), [CloseBegin, CloseReturn(1)]);
    Prepend(w2, DrainDone, [Record(e), CloseBegin, CloseReturn(1)]);
    Prepend(w1, SeeCancel, [DrainDone, Record(e), CloseBegin, CloseReturn(1)]);
    Prepend(w0, CloseBegin, [SeeCancel, DrainDone, Record(e), CloseBegin, CloseReturn(1)]);
    assert Reachable(w6);
  }

  lemma Prepend(w: Writer, s: Step, steps: seq<Step>)
    requires Enabled(w, s) && IsRun(Next(w, s), steps)
    ensures IsRun(w, [s] + steps) && After(w, [s] + steps) == After(Next(w, s), steps)
  {
    assert ([s] + steps)[1..] == steps;
  }
}
