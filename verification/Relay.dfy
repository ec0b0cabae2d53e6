/**
 The relay hub as a step machine.

 Every critical section under `hub.mu`, `d.mu` or the socket's write lock, every channel
 operation and every return from a blocking call is one event; any number of calls,
 registrations, disconnects and read loops interleave freely.  A step is a pure function of
 the state and the event, so a run is a sequence of events.  An event touches at most one
 connection and one call, and says what becomes of that pair.

 History kept for the statements only: `Conn.log` (result frames the read loop has read),
 positions in it (`at`, and `Call.regAt`: how many frames had been looked up when the call
 registered), `Call.written` (the call began to write its frame) and `Hub.used` (which call
 drew an id).
*/
module Relay {
  import opened Common

  type DeviceId = string
  type Subject = string
  type FrameId = string
  type Payload = string

  datatype Error = Offline | ConnectionClosed | ContextDone | WriteFailed | NotPrepared

  /** What travels through a call's one-slot channel. */
  datatype Message = Reply(payload: Payload, at: nat) | Failed(error: Error)

  datatype Outcome = Success(payload: Payload, at: nat) | Failure(error: Error)

  datatype ResultFrame = ResultFrame(id: FrameId, payload: Payload)

  /** Where a `Call` stands; `outcome` is fixed before the deferred steps run. */
  datatype CallPc =
    | Lookup
    | Admission
    | Preparing
    | Registered
    | Sending
    | Writing
    | ClosingAfterWrite
    | Waiting
    | Deleting(outcome: Outcome)
    | Releasing(outcome: Outcome)
    | Returned(outcome: Outcome)

  datatype Call = Call(owner: Subject, device: DeviceId, conn: Option<nat>, id: Option<FrameId>,
                       regAt: nat, written: bool, slot: Option<Message>, pc: CallPc)

  /**
   The once-only `close`: entered, writing the close frame, done writing it, `done` closed,
   unregistered, draining under `d.mu`, complete.
   */
  datatype Phase = Open | Entered | Farewell | Parted | Signalled | Unregistered | Draining | Closed

  /** `control` tells a ping of the WebSocket layer from one of the relay's own protocol. */
  datatype Reader =
    | NotStarted
    | Reading
    | Holding(frame: ResultFrame)
    | Delivering(call: nat, payload: Payload, at: nat)
    | Answering(control: bool)
    | Ponging(control: bool)
    | Exited

  /** Who holds the socket's write lock. */
  datatype Writer = CallWriter(call: nat) | ReaderWriter | CloseWriter

  /**
   `deadline` says that some call has set a write deadline on the socket; it is moved but never
   removed.  `supersedes` names the connection that the creating `Register` still has to close.
   */
  datatype Conn = Conn(device: DeviceId, owner: Subject, phase: Phase, closeError: Error, sem: nat,
                       pending: map<FrameId, nat>, reader: Reader, writer: Option<Writer>, deadline: bool,
                       log: seq<ResultFrame>, supersedes: Option<nat>)
  {
    predicate Done() { phase.Signalled? || phase.Unregistered? || phase.Draining? || phase.Closed? }

    /** Frames whose lookup in `pending` has happened. */
    function LookedUp(): nat {
      if reader.Holding? && log != [] then |log| - 1 else |log|
    }

    /** How many frames the read loop has finished with. */
    function Handled(): nat {
      if (reader.Holding? || reader.Delivering?) && log != [] then |log| - 1 else |log|
    }
  }

  datatype Hub = Hub(maxInFlight: nat, devices: map<DeviceId, nat>, conns: seq<Conn>, calls: seq<Call>,
                     closeRequests: set<nat>, used: map<FrameId, nat>)

  /** Which goroutine is about to run the body of `once.Do`. */
  datatype Closer = ByDisconnect | ByRegister(conn: nat) | ByReader | ByCall(call: nat)

  /** Steps of a call that has found its connection. */
  datatype CallAct =
    | Admit
    | Abandon(why: Error)
    | Unprepared
    | Enlist(id: FrameId)
    | SetDeadline
    | Oversize
    | BeginWrite
    | EndWrite(ok: bool)
    | JoinClose
    | Receive
    | GiveUp(why: Error)
    | Delete
    | Release

  /** Steps of the one goroutine inside `close`. */
  datatype CloseAct =
    | Enter(who: Closer)
    | BeginFarewell
    | EndFarewell
    | Signal
    | Unregister
    | LockPending
    | DrainOne(id: FrameId)
    | Finish

  /** Steps of the read loop. */
  datatype ReadAct =
    | Read(frame: ResultFrame)
    | Match
    | Send
    | Ping(control: bool)
    | BeginPong
    | EndPong(ok: bool)
    | Stop

  datatype Event =
    | RegisterSwap(device: DeviceId, owner: Subject)
    | RegisterFinish(conn: nat)
    | DisconnectLookup(device: DeviceId)
    | CallStart(owner: Subject, device: DeviceId)
    | CallFind(call: nat)
    | OfCall(call: nat, act: CallAct)
    | OfClose(conn: nat, close: CloseAct)
    | OfReader(conn: nat, read: ReadAct)

  /** `NewHub`: a limit below one becomes sixteen. */
  function NewHub(maxInFlight: int): (h: Hub) {
    Hub(if maxInFlight < 1 then 16 else maxInFlight, map[], [], [], {}, map[])
  }

  predicate OnConn(h: Hub, i: nat) {
    i < |h.calls| && h.calls[i].conn.Some? && h.calls[i].conn.value < |h.conns|
  }

  function ConnOf(h: Hub, i: nat): Conn
    requires OnConn(h, i)
  {
    h.conns[h.calls[i].conn.value]
  }

  // ---------------------------------------------------------------- calls

  predicate CallReady(call: Call, conn: Conn, maxInFlight: nat, a: CallAct) {
    match a
    case Admit => call.pc.Admission? && conn.sem < maxInFlight
    case Abandon(why) => call.pc.Admission? && (why == ContextDone || (why == Offline && conn.Done()))
    case Unprepared => call.pc.Preparing?
    case Enlist(_) => call.pc.Preparing? && !conn.phase.Draining?
    case SetDeadline => call.pc.Registered?
    case Oversize => call.pc.Sending?
    case BeginWrite => call.pc.Sending? && conn.writer.None?
    case EndWrite(_) => call.pc.Writing?
    case JoinClose => call.pc.ClosingAfterWrite? && conn.phase.Closed?
    case Receive => call.pc.Waiting? && call.slot.Some?
    case GiveUp(why) => call.pc.Waiting? && (why == ContextDone || (why == Offline && conn.Done()))
    case Delete => call.pc.Deleting? && call.id.Some? && !conn.phase.Draining?
    case Release => call.pc.Releasing? && conn.sem > 0
  }

  function OutcomeOf(m: Message): Outcome {
    match m
    case Reply(p, at) => Success(p, at)
    case Failed(err) => Failure(err)
  }

  /** What becomes of a call. */
  function CallAfter(call: Call, conn: Conn, maxInFlight: nat, a: CallAct): Call
    requires CallReady(call, conn, maxInFlight, a)
  {
    match a
    case Admit => call.(pc := Preparing)
    case Abandon(why) => call.(pc := Returned(Failure(why)))
    case Unprepared => call.(pc := Releasing(Failure(NotPrepared)))
    case Enlist(id) =>
      if conn.Done() then call.(pc := Releasing(Failure(Offline)))
      else call.(id := Some(id), regAt := conn.LookedUp(), slot := None, pc := Registered)
    case SetDeadline => call.(pc := Sending)
    case Oversize => call.(pc := ClosingAfterWrite)
    case BeginWrite => call.(written := true, pc := Writing)
    case EndWrite(ok) => call.(pc := if ok then Waiting else ClosingAfterWrite)
    case JoinClose => call.(pc := Deleting(Failure(Offline)))
    case Receive => call.(slot := None, pc := Deleting(OutcomeOf(call.slot.value)))
    case GiveUp(why) => call.(pc := Deleting(Failure(why)))
    case Delete => call.(pc := Releasing(call.pc.outcome))
    case Release => call.(pc := Returned(call.pc.outcome))
  }

  /** What a step of call `i` makes of its connection. */
  function ConnAfterCall(i: nat, call: Call, conn: Conn, maxInFlight: nat, a: CallAct): Conn
    requires CallReady(call, conn, maxInFlight, a)
  {
    match a
    case Admit => conn.(sem := conn.sem + 1)
    case Enlist(id) => if conn.Done() then conn else conn.(pending := conn.pending[id := i])
    case SetDeadline => conn.(deadline := true)
    case BeginWrite => conn.(writer := Some(CallWriter(i)))
    case EndWrite(_) => conn.(writer := None)
    case Delete => conn.(pending := conn.pending - {call.id.value})
    case Release => conn.(sem := conn.sem - 1)
    case _ => conn
  }

  // ---------------------------------------------------------------- close

  /** Some goroutine has called `close` on connection `c` and is the first to do so. */
  predicate MayEnterClose(h: Hub, c: nat, who: Closer)
    requires c < |h.conns|
  {
    match who
    case ByDisconnect => c in h.closeRequests
    case ByRegister(r) => r < |h.conns| && h.conns[r].supersedes == Some(c)
    case ByReader => h.conns[c].reader.Exited?
    case ByCall(i) => i < |h.calls| && h.calls[i].conn == Some(c) && h.calls[i].pc.ClosingAfterWrite?
  }

  predicate CloseReady(conn: Conn, a: CloseAct) {
    match a
    case Enter(_) => conn.phase.Open?
    case BeginFarewell => conn.phase.Entered? && conn.writer.None?
    case EndFarewell => conn.phase.Farewell?
    case Signal => conn.phase.Parted?
    case Unregister => conn.phase.Signalled?
    case LockPending => conn.phase.Unregistered?
    case DrainOne(id) => conn.phase.Draining? && id in conn.pending
    case Finish => conn.phase.Draining? && conn.pending == map[]
  }

  function CloseErrorOf(who: Closer): Error {
    if who.ByCall? then WriteFailed else ConnectionClosed
  }

  /** What becomes of the closing connection; the socket is shut between its farewell and `done`. */
  function ConnAfterClose(conn: Conn, a: CloseAct): Conn
    requires CloseReady(conn, a)
  {
    match a
    case Enter(who) => conn.(phase := Entered, closeError := CloseErrorOf(who))
    case BeginFarewell => conn.(phase := Farewell, writer := Some(CloseWriter))
    case EndFarewell => conn.(phase := Parted, writer := None)
    case Signal => conn.(phase := Signalled)
    case Unregister => conn.(phase := Unregistered)
    case LockPending => conn.(phase := Draining)
    case DrainOne(id) => conn.(pending := conn.pending - {id})
    case Finish => conn.(phase := Closed)
  }

  // ---------------------------------------------------------------- read loop

  predicate ReadReady(conn: Conn, a: ReadAct) {
    match a
    case Read(_) => conn.reader.Reading?
    case Match => conn.reader.Holding? && !conn.phase.Draining?
    case Send => conn.reader.Delivering?
    case Ping(_) => conn.reader.Reading?
    case BeginPong => conn.reader.Answering? && conn.writer.None?
    case EndPong(_) => conn.reader.Ponging?
    case Stop => conn.reader.Reading?
  }

  /** What becomes of the connection; a pong of the relay's own protocol may fail unnoticed. */
  function ConnAfterRead(conn: Conn, a: ReadAct): Conn
    requires ReadReady(conn, a)
  {
    match a
    case Read(frame) => conn.(reader := Holding(frame), log := conn.log + [frame])
    case Match =>
      var frame := conn.reader.frame;
      conn.(reader := if frame.id in conn.pending
                      then Delivering(conn.pending[frame.id], frame.payload, conn.LookedUp()) else Reading)
    case Send => conn.(reader := Reading)
    case Ping(control) => conn.(reader := Answering(control))
    case BeginPong => conn.(reader := Ponging(conn.reader.control), writer := Some(ReaderWriter))
    case EndPong(ok) => conn.(reader := if conn.reader.control && !ok then Exited else Reading, writer := None)
    case Stop => conn.(reader := Exited)
  }

  // ---------------------------------------------------------------- the machine

  function SetConn(h: Hub, c: nat, conn: Conn): Hub
    requires c < |h.conns|
  {
    h.(conns := h.conns[c := conn])
  }

  function SetCall(h: Hub, i: nat, call: Call): Hub
    requires i < |h.calls|
  {
    h.(calls := h.calls[i := call])
  }

  /** The non-blocking send on a one-slot channel: a full slot keeps its message. */
  function Offer(call: Call, m: Message): Call {
    if call.slot.None? then call.(slot := Some(m)) else call
  }

  predicate Enabled(h: Hub, e: Event) {
    match e
    case RegisterSwap(_, _) => true
    case RegisterFinish(c) =>
      && c < |h.conns| && h.conns[c].reader.NotStarted?
      && (h.conns[c].supersedes.Some? ==>
            h.conns[c].supersedes.value < |h.conns| && h.conns[h.conns[c].supersedes.value].phase.Closed?)
    case DisconnectLookup(_) => true
    case CallStart(_, _) => true
    case CallFind(i) => i < |h.calls| && h.calls[i].pc.Lookup?
    case OfCall(i, a) =>
      OnConn(h, i) && CallReady(h.calls[i], ConnOf(h, i), h.maxInFlight, a) && (a.Enlist? ==> a.id !in h.used)
    case OfClose(c, a) =>
      && c < |h.conns| && CloseReady(h.conns[c], a)
      && (a.Enter? ==> MayEnterClose(h, c, a.who))
      && (a.DrainOne? ==> h.conns[c].pending[a.id] < |h.calls|)
    case OfReader(c, a) =>
      && c < |h.conns| && ReadReady(h.conns[c], a)
      && (a.Send? ==> h.conns[c].reader.call < |h.calls|)
  }

  /** The connection a lookup gives this call. */
  function Found(h: Hub, call: Call): Option<nat> {
    if call.device in h.devices && h.devices[call.device] < |h.conns|
       && h.conns[h.devices[call.device]].owner == call.owner
    then Some(h.devices[call.device]) else None
  }

  function StepFind(h: Hub, i: nat): Hub
    requires Enabled(h, CallFind(i))
  {
    var found := Found(h, h.calls[i]);
    SetCall(h, i, h.calls[i].(conn := found, pc := if found.Some? then Admission else Returned(Failure(Offline))))
  }

  function StepCall(h: Hub, i: nat, a: CallAct): Hub
    requires Enabled(h, OfCall(i, a))
  {
    var call, c, conn := h.calls[i], h.calls[i].conn.value, ConnOf(h, i);
    SetCall(SetConn(h, c, ConnAfterCall(i, call, conn, h.maxInFlight, a)), i, CallAfter(call, conn, h.maxInFlight, a))
    .(used := if a.Enlist? then h.used[a.id := i] else h.used)
  }

  function StepClose(h: Hub, c: nat, a: CloseAct): Hub
    requires Enabled(h, OfClose(c, a))
  {
    var conn := h.conns[c];
    var h1 := SetConn(h, c, ConnAfterClose(conn, a));
    if a.Unregister? then
      h1.(devices := if conn.device in h.devices && h.devices[conn.device] == c then h.devices - {conn.device}
                     else h.devices)
    else if a.DrainOne? then
      SetCall(h1, conn.pending[a.id], Offer(h.calls[conn.pending[a.id]], Failed(conn.closeError)))
    else h1
  }

  function StepRead(h: Hub, c: nat, a: ReadAct): Hub
    requires Enabled(h, OfReader(c, a))
  {
    var reader := h.conns[c].reader;
    var h1 := SetConn(h, c, ConnAfterRead(h.conns[c], a));
    if a.Send? then SetCall(h1, reader.call, Offer(h.calls[reader.call], Reply(reader.payload, reader.at))) else h1
  }

  /** One event. */
  function Step(h: Hub, e: Event): Hub
    requires Enabled(h, e)
  {
    match e
    case RegisterSwap(device, owner) =>
      var previous := if device in h.devices then Some(h.devices[device]) else None;
      var conn := Conn(device, owner, Open, ConnectionClosed, 0, map[], NotStarted, None, false, [], previous);
      h.(conns := h.conns + [conn], devices := h.devices[device := |h.conns|])
    case RegisterFinish(c) => SetConn(h, c, h.conns[c].(reader := Reading, supersedes := None))
    case DisconnectLookup(device) =>
      if device in h.devices then h.(closeRequests := h.closeRequests + {h.devices[device]}) else h
    case CallStart(owner, device) =>
      h.(calls := h.calls + [Call(owner, device, None, None, 0, false, None, Lookup)])
    case CallFind(i) => StepFind(h, i)
    case OfCall(i, a) => StepCall(h, i, a)
    case OfClose(c, a) => StepClose(h, c, a)
    case OfReader(c, a) => StepRead(h, c, a)
  }

  // ---------------------------------------------------------------- runs

  /** The events can all be taken in order from `h`. */
  ghost predicate IsRun(h: Hub, events: seq<Event>)
    decreases |events|
  {
    events == [] || (Enabled(h, events[0]) && IsRun(Step(h, events[0]), events[1..]))
  }

  ghost function After(h: Hub, events: seq<Event>): Hub
    requires IsRun(h, events)
    decreases |events|
  {
    if events == [] then h else After(Step(h, events[0]), events[1..])
  }

  /** Reachable from a new hub by some interleaving. */
  ghost predicate Reachable(h: Hub) {
    exists maxInFlight: int, events: seq<Event> ::
      IsRun(NewHub(maxInFlight), events) && After(NewHub(maxInFlight), events) == h
  }
}
