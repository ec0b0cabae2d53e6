/**
 The hub and the store together: agents authenticate and then register, tool calls check
 ownership and then dispatch, and every store operation may come in between.  The hub keeps
 a copy of the device record, so its agreement with the store is a property of whole runs.
*/
module Dispatch {
  import opened Common
  import Relay
  import RelayProofs
  import Store

  /** An agent's connect request between authentication and registration. */
  datatype Agent = Authenticated(device: Store.Device) | Connected

  datatype ToolState = Begun | Checked | Refused | Calling(call: nat)

  /** A tool call; `revokedBefore` records whether the device was already revoked when it began. */
  datatype Tool = Tool(owner: Store.Subject, device: Store.DeviceId, revokedBefore: bool, state: ToolState)

  /** `callers[i]` is the tool call behind the hub's call `i`. */
  datatype System = System(db: Store.Db, hub: Relay.Hub, agents: seq<Agent>, tools: seq<Tool>, callers: seq<nat>)

  datatype Event =
    | StoreOp(op: Store.Op)
    | AgentAuthenticate(id: Store.DeviceId, tokenHash: Store.Hash)
    | AgentRegister(agent: nat)
    | ToolBegin(owner: Store.Subject, device: Store.DeviceId)
    | ToolCheck(tool: nat)
    | ToolCall(tool: nat)
    | HubStep(event: Relay.Event)

  predicate IsRevoked(db: Store.Db, id: Store.DeviceId) {
    id in db.devices && db.devices[id].device.revoked.Some?
  }

  function Initial(maxInFlight: int): System {
    System(Store.EMPTY, Relay.NewHub(maxInFlight), [], [], [])
  }

  predicate Enabled(s: System, e: Event) {
    match e
    case StoreOp(_) => true
    case AgentAuthenticate(_, _) => true
    case AgentRegister(a) => a < |s.agents| && s.agents[a].Authenticated?
    case ToolBegin(_, _) => true
    case ToolCheck(t) => t < |s.tools| && s.tools[t].state.Begun?
    case ToolCall(t) => t < |s.tools| && s.tools[t].state.Checked?
    case HubStep(h) => !h.RegisterSwap? && !h.CallStart? && Relay.Enabled(s.hub, h)
  }

  function Step(s: System, e: Event): System
    requires Enabled(s, e)
  {
    match e
    case StoreOp(op) => s.(db := Store.Apply(s.db, op).0)
    case AgentAuthenticate(id, tokenHash) =>
      var r := Store.Authenticate(s.db, id, tokenHash);
      if r.Ok? then s.(agents := s.agents + [Authenticated(r.value)]) else s
    case AgentRegister(a) =>
      var d := s.agents[a].device;
      s.(agents := s.agents[a := Connected], hub := Relay.Step(s.hub, Relay.RegisterSwap(d.id, d.owner)))
    case ToolBegin(owner, device) => s.(tools := s.tools + [Tool(owner, device, IsRevoked(s.db, device), Begun)])
    case ToolCheck(t) =>
      var tool := s.tools[t];
      var r := Store.GetDevice(s.db, tool.owner, tool.device);
      s.(tools := s.tools[t := tool.(state := if r.Ok? then Checked else Refused)])
    case ToolCall(t) =>
      var tool := s.tools[t];
      s.(tools := s.tools[t := tool.(state := Calling(|s.hub.calls|))], callers := s.callers + [t],
         hub := Relay.Step(s.hub, Relay.CallStart(tool.owner, tool.device)))
    case HubStep(h) => s.(hub := Relay.Step(s.hub, h))
  }

  ghost predicate IsRun(s: System, events: seq<Event>)
    decreases |events|
  {
    events == [] || (Enabled(s, events[0]) && IsRun(Step(s, events[0]), events[1..]))
  }

  ghost function After(s: System, events: seq<Event>): System
    requires IsRun(s, events)
    decreases |events|
  {
    if events == [] then s else After(Step(s, events[0]), events[1..])
  }

  ghost predicate Reachable(s: System) {
    exists maxInFlight: int, events: seq<Event> ::
      IsRun(Initial(maxInFlight), events) && After(Initial(maxInFlight), events) == s
  }

  // ---------------------------------------------------------------- the hub's own copy

  /** A call is bound only to a connection of its own device and owner. */
  ghost predicate Bound(h: Relay.Hub, i: nat)
    requires i < |h.calls|
  {
    h.calls[i].conn.Some? ==>
      && h.calls[i].conn.value < |h.conns|
      && h.conns[h.calls[i].conn.value].owner == h.calls[i].owner
      && h.conns[h.calls[i].conn.value].device == h.calls[i].device
  }

  /** A call that began to write has a connection. */
  ghost predicate SentOk(h: Relay.Hub, i: nat)
    requires i < |h.calls|
  {
    h.calls[i].written ==> h.calls[i].conn.Some? && !h.calls[i].pc.Lookup?
  }

  lemma ConnIdentity(h: Relay.Hub, e: Relay.Event, c: nat)
    requires Relay.Enabled(h, e) && c < |h.conns|
    ensures c < |Relay.Step(h, e).conns|
    ensures Relay.Step(h, e).conns[c].owner == h.conns[c].owner && Relay.Step(h, e).conns[c].device == h.conns[c].device
  {
    if e.OfCall? || e.OfClose? || e.OfReader? {
      hide Relay.Step, Relay.Enabled;
      RelayProofs.ConnMovesOn(h, e, c);
    }
  }

  /** A call's own steps leave it with its owner, device and connection. */
  lemma CallKeepsIdentity(call: Relay.Call, conn: Relay.Conn, m: nat, a: Relay.CallAct)
    requires Relay.CallReady(call, conn, m, a)
    ensures var b := Relay.CallAfter(call, conn, m, a);
            b.owner == call.owner && b.device == call.device && b.conn == call.conn && !b.pc.Lookup?
  {
  }

  lemma CallIdentity(h: Relay.Hub, e: Relay.Event, i: nat)
    requires Relay.Enabled(h, e) && i < |h.calls| && e != Relay.CallFind(i)
    ensures i < |Relay.Step(h, e).calls|
    ensures var a, b := h.calls[i], Relay.Step(h, e).calls[i];
            b.owner == a.owner && b.device == a.device && b.conn == a.conn
    ensures SentOk(h, i) ==> SentOk(Relay.Step(h, e), i)
  {
    hide Relay.CallReady, Relay.CallAfter, Relay.ConnAfterCall, Relay.ConnAfterRead, Relay.ConnAfterClose;
    if e.OfCall? { CallKeepsIdentity(h.calls[e.call], Relay.ConnOf(h, e.call), h.maxInFlight, e.act); }
  }

  lemma BoundStep(h: Relay.Hub, e: Relay.Event, i: nat)
    requires RelayProofs.Registry(h) && Relay.Enabled(h, e) && i < |h.calls| && Bound(h, i) && SentOk(h, i)
    ensures i < |Relay.Step(h, e).calls| && Bound(Relay.Step(h, e), i) && SentOk(Relay.Step(h, e), i)
    ensures Relay.Step(h, e).calls[i].owner == h.calls[i].owner && Relay.Step(h, e).calls[i].device == h.calls[i].device
  {
    if e == Relay.CallFind(i) {
      hide Relay.StepCall, Relay.StepClose, Relay.StepRead;
      assert Relay.Step(h, e).conns == h.conns;
    } else {
      hide Relay.Step, Relay.Enabled;
      CallIdentity(h, e, i);
      if h.calls[i].conn.Some? { ConnIdentity(h, e, h.calls[i].conn.value); }
    }
  }

  // ---------------------------------------------------------------- the invariant

  predicate Owns(db: Store.Db, id: Store.DeviceId, owner: Store.Subject) {
    id in db.devices && db.devices[id].device.owner == owner
  }

  /** The hub's call `i` was made by its tool call, for the same owner and device. */
  ghost predicate CallerOk(s: System, i: nat)
    requires i < |s.hub.calls| == |s.callers|
  {
    && s.callers[i] < |s.tools| && s.tools[s.callers[i]].state == Calling(i)
    && s.tools[s.callers[i]].owner == s.hub.calls[i].owner && s.tools[s.callers[i]].device == s.hub.calls[i].device
    && Bound(s.hub, i) && SentOk(s.hub, i)
  }

  /** A tool call begun on a revoked device gets no further than its check. */
  ghost predicate ToolOk(s: System, t: nat)
    requires t < |s.tools|
  {
    s.tools[t].revokedBefore ==>
        (s.tools[t].state.Begun? || s.tools[t].state.Refused?) && IsRevoked(s.db, s.tools[t].device)
  }

  ghost predicate Inv(s: System) {
    && RelayProofs.Registry(s.hub) && Store.Keyed(s.db)
    && (forall c :: 0 <= c < |s.hub.conns| ==> Owns(s.db, s.hub.conns[c].device, s.hub.conns[c].owner))
    && (forall a :: 0 <= a < |s.agents| && s.agents[a].Authenticated? ==>
          Owns(s.db, s.agents[a].device.id, s.agents[a].device.owner))
    && |s.callers| == |s.hub.calls| && (forall i :: 0 <= i < |s.hub.calls| ==> CallerOk(s, i))
    && (forall t :: 0 <= t < |s.tools| ==> ToolOk(s, t))
  }

  lemma InvStoreOp(s: System, e: Event)
    requires Inv(s) && Enabled(s, e) && e.StoreOp?
    ensures Inv(Step(s, e))
  {
    hide Store.Apply, RelayProofs.Registry, Bound, SentOk;
    var s' := Step(s, e);
    Store.KeyedStep(s.db, e.op);
    forall c | 0 <= c < |s'.hub.conns| ensures Owns(s'.db, s'.hub.conns[c].device, s'.hub.conns[c].owner) {
      Store.KeptByOp(s.db, e.op, s.hub.conns[c].device);
    }
    forall a | 0 <= a < |s'.agents| && s'.agents[a].Authenticated?
      ensures Owns(s'.db, s'.agents[a].device.id, s'.agents[a].device.owner)
    {
      Store.KeptByOp(s.db, e.op, s.agents[a].device.id);
    }
    forall t | 0 <= t < |s'.tools| ensures ToolOk(s', t) {
      assert ToolOk(s, t);
      Store.KeptByOp(s.db, e.op, s.tools[t].device);
    }
    forall i | 0 <= i < |s'.hub.calls| ensures CallerOk(s', i) { assert CallerOk(s, i); }
  }

  lemma InvHubStep(s: System, e: Event)
    requires Inv(s) && Enabled(s, e) && e.HubStep?
    ensures Inv(Step(s, e))
  {
    hide Relay.Step, Relay.Enabled, RelayProofs.Registry, Bound, SentOk, Store.Keyed;
    var s' := Step(s, e);
    RelayProofs.RegistryStep(s.hub, e.event);
    SameCounts(s.hub, e.event);
    forall c | 0 <= c < |s'.hub.conns| ensures Owns(s'.db, s'.hub.conns[c].device, s'.hub.conns[c].owner) {
      ConnIdentity(s.hub, e.event, c);
    }
    forall i | 0 <= i < |s'.hub.calls| ensures CallerOk(s', i) {
      assert CallerOk(s, i);
      BoundStep(s.hub, e.event, i);
    }
    forall t | 0 <= t < |s'.tools| ensures ToolOk(s', t) { assert ToolOk(s, t); }
  }

  lemma SameCounts(h: Relay.Hub, e: Relay.Event)
    requires Relay.Enabled(h, e) && !e.RegisterSwap? && !e.CallStart?
    ensures |Relay.Step(h, e).conns| == |h.conns| && |Relay.Step(h, e).calls| == |h.calls|
  {
  }

  lemma InvRegister(s: System, e: Event)
    requires Inv(s) && Enabled(s, e) && e.AgentRegister?
    ensures Inv(Step(s, e))
  {
    var s' := Step(s, e);
    var d := s.agents[e.agent].device;
    var h := Relay.RegisterSwap(d.id, d.owner);
    RelayProofs.RegistryStep(s.hub, h);
    forall i | 0 <= i < |s'.hub.calls| ensures CallerOk(s', i) {
      assert CallerOk(s, i);
      BoundStep(s.hub, h, i);
    }
    forall t | 0 <= t < |s'.tools| ensures ToolOk(s', t) { assert ToolOk(s, t); }
  }

  lemma InvToolCall(s: System, e: Event)
    requires Inv(s) && Enabled(s, e) && e.ToolCall?
    ensures Inv(Step(s, e))
  {
    var s' := Step(s, e);
    var h := Relay.CallStart(s.tools[e.tool].owner, s.tools[e.tool].device);
    RelayProofs.RegistryStep(s.hub, h);
    assert ToolOk(s, e.tool);
    forall i | 0 <= i < |s'.hub.calls| ensures CallerOk(s', i) {
      if i < |s.hub.calls| {
        assert CallerOk(s, i);
        BoundStep(s.hub, h, i);
      }
    }
    forall t | 0 <= t < |s'.tools| ensures ToolOk(s', t) { assert ToolOk(s, t); }
  }

  lemma InvLocal(s: System, e: Event)
    requires Inv(s) && Enabled(s, e) && (e.AgentAuthenticate? || e.ToolBegin? || e.ToolCheck?)
    ensures Inv(Step(s, e))
  {
    hide RelayProofs.Registry, Bound, SentOk;
    var s' := Step(s, e);
    forall i | 0 <= i < |s'.hub.calls| ensures CallerOk(s', i) { assert CallerOk(s, i); }
    forall t | 0 <= t < |s'.tools| ensures ToolOk(s', t) {
      if t < |s.tools| { assert ToolOk(s, t); }
    }
  }

  lemma InvStep(s: System, e: Event)
    requires Inv(s) && Enabled(s, e)
    ensures Inv(Step(s, e))
  {
    hide Inv, Step;
    match e {
      case StoreOp(_) => InvStoreOp(s, e);
      case HubStep(_) => InvHubStep(s, e);
      case AgentRegister(_) => InvRegister(s, e);
      case ToolCall(_) => InvToolCall(s, e);
      case _ => InvLocal(s, e);
    }
  }

  lemma {:induction false} InvRun(s: System, events: seq<Event>)
    requires Inv(s) && IsRun(s, events)
    ensures Inv(After(s, events))
    decreases |events|
  {
    hide Inv, Step, Enabled;
    if events != [] {
      InvStep(s, events[0]);
      InvRun(Step(s, events[0]), events[1..]);
    }
  }

  lemma ReachableInv(s: System)
    requires Reachable(s)
    ensures Inv(s)
  {
    hide Step, Enabled, IsRun, After;
    var maxInFlight: int, events: seq<Event> :|
      IsRun(Initial(maxInFlight), events) && After(Initial(maxInFlight), events) == s;
    InvRun(Initial(maxInFlight), events);
  }

  // ---------------------------------------------------------------- what follows

  /** Every connection's cached owner is the store's owner of that device. */
  lemma CachedOwnerAgrees(s: System, c: nat)
    requires Reachable(s) && c < |s.hub.conns|
    ensures Owns(s.db, s.hub.conns[c].device, s.hub.conns[c].owner)
  {
    hide Step, Enabled, IsRun, After;
    ReachableInv(s);
  }

  /**
   Every call frame handed to a socket was requested by a tool call of the owner the store
   names for that device, and that tool call did not begin after the device was revoked.
   */
  lemma SentFramesWereRequested(s: System, i: nat)
    requires Reachable(s) && i < |s.hub.calls| && s.hub.calls[i].written
    ensures Relay.OnConn(s.hub, i) && i < |s.callers| && s.callers[i] < |s.tools|
    ensures var conn, tool := Relay.ConnOf(s.hub, i), s.tools[s.callers[i]];
            && tool.state == Calling(i) && tool.device == conn.device && tool.owner == conn.owner
            && Owns(s.db, tool.device, tool.owner) && !tool.revokedBefore
  {
    hide Step, Enabled, IsRun, After;
    ReachableInv(s);
    assert CallerOk(s, i) && ToolOk(s, s.callers[i]);
  }

  /** A tool call begun after revocation never reaches the hub, whatever connections linger. */
  lemma NoDispatchAfterRevocation(s: System, t: nat)
    requires Reachable(s) && t < |s.tools| && s.tools[t].revokedBefore
    ensures !s.tools[t].state.Checked? && !s.tools[t].state.Calling?
    ensures forall i :: 0 <= i < |s.callers| ==> s.callers[i] != t
  {
    hide Step, Enabled, IsRun, After;
    ReachableInv(s);
    assert ToolOk(s, t);
    forall i | 0 <= i < |s.callers| ensures s.callers[i] != t { assert CallerOk(s, i); }
  }

  // ---------------------------------------------------------------- who may still connect

  lemma RevokedStays(s: System, e: Event, id: Store.DeviceId)
    requires Enabled(s, e) && IsRevoked(s.db, id)
    ensures IsRevoked(Step(s, e).db, id)
  {
    hide Store.Apply, Relay.Step, Relay.Enabled;
    if e.StoreOp? { Store.KeptByOp(s.db, e.op, id); }
  }

  /** An agent stays as it authenticated until it connects. */
  lemma AgentStep(s: System, e: Event, a: nat)
    requires Enabled(s, e)
    ensures |s.agents| <= |Step(s, e).agents|
    ensures a < |s.agents| && Step(s, e).agents[a].Authenticated? ==> s.agents[a] == Step(s, e).agents[a]
    ensures |s.agents| <= a < |Step(s, e).agents| ==>
              && a == |s.agents| && e.AgentAuthenticate? && Step(s, e).agents[a].Authenticated?
              && Store.Authenticate(s.db, e.id, e.tokenHash) == Ok(Step(s, e).agents[a].device)
  {
    hide Store.Apply, Relay.Step, Relay.Enabled, Store.Authenticate;
  }

  lemma {:induction false} AgentRun(s: System, events: seq<Event>, a: nat)
    requires IsRun(s, events) && a < |s.agents|
    ensures a < |After(s, events).agents|
    ensures After(s, events).agents[a].Authenticated? ==> s.agents[a] == After(s, events).agents[a]
    decreases |events|
  {
    hide Step, Enabled;
    if events != [] {
      AgentStep(s, events[0], a);
      AgentRun(Step(s, events[0]), events[1..], a);
    }
  }

  /** Event `j` authenticated this device, which had not been revoked at any time up to then. */
  ghost predicate AuthenticatedBefore(s: System, events: seq<Event>, j: nat, d: Store.Device) {
    && j < |events| && events[j].AgentAuthenticate? && events[j].id == d.id
    && (forall i :: 0 <= i <= j ==> IsRun(s, events[..i]) && !IsRevoked(After(s, events[..i]).db, d.id))
    && Store.Authenticate(After(s, events[..j]).db, d.id, events[j].tokenHash) == Ok(d)
  }

  lemma AuthenticatesUnrevoked(db: Store.Db, id: Store.DeviceId, tokenHash: Store.Hash)
    requires Store.Keyed(db) && Store.Authenticate(db, id, tokenHash).Ok?
    ensures !IsRevoked(db, id) && Store.Authenticate(db, id, tokenHash).value.id == id
  {
  }

  /** A run that starts one event earlier. */
  lemma AuthenticatedEarlier(s: System, events: seq<Event>, j: nat, d: Store.Device)
    requires IsRun(s, events) && events != [] && AuthenticatedBefore(Step(s, events[0]), events[1..], j, d)
    ensures AuthenticatedBefore(s, events, j + 1, d)
  {
    hide Step, Enabled, IsRevoked, Store.Authenticate;
    var s1, rest := Step(s, events[0]), events[1..];
    forall i | 1 <= i <= j + 1
      ensures IsRun(s, events[..i]) && After(s, events[..i]) == After(s1, rest[..i - 1])
    {
      assert events[..i][1..] == rest[..i - 1] && events[..i][0] == events[0];
    }
    assert rest[..0] == [] && After(s1, rest[..0]) == s1 && !IsRevoked(After(s1, rest[..0]).db, d.id);
    if IsRevoked(s.db, d.id) { RevokedStays(s, events[0], d.id); }
    assert events[..0] == [];
    assert events[j + 1] == rest[j];
  }

  lemma {:induction false} AuthenticationOf(s: System, events: seq<Event>, a: nat) returns (j: nat)
    requires Inv(s) && IsRun(s, events) && |s.agents| <= a < |After(s, events).agents|
    requires After(s, events).agents[a].Authenticated?
    ensures AuthenticatedBefore(s, events, j, After(s, events).agents[a].device)
    decreases |events|
  {
    hide Step, Enabled, Inv, IsRevoked, AuthenticatedBefore;
    var s1 := Step(s, events[0]);
    InvStep(s, events[0]);
    AgentStep(s, events[0], a);
    if a < |s1.agents| {
      AgentRun(s1, events[1..], a);
      AuthenticatedNow(s, events, s1.agents[a].device);
      j := 0;
    } else {
      j := AuthenticationOf(s1, events[1..], a);
      AuthenticatedEarlier(s, events, j, After(s, events).agents[a].device);
      j := j + 1;
    }
  }

  lemma AuthenticatedNow(s: System, events: seq<Event>, d: Store.Device)
    requires Inv(s) && events != [] && events[0].AgentAuthenticate?
    requires Store.Authenticate(s.db, events[0].id, events[0].tokenHash) == Ok(d)
    ensures AuthenticatedBefore(s, events, 0, d)
  {
    hide IsRevoked, Store.Authenticate;
    AuthenticatesUnrevoked(s.db, events[0].id, events[0].tokenHash);
    assert events[..0] == [];
  }

  /**
   Whoever registers, even after a revocation, had authenticated earlier in the run, at a time
   when the device had not yet been revoked.
   */
  lemma RegistersOnlyAuthenticatedBefore(maxInFlight: int, events: seq<Event>, a: nat) returns (j: nat)
    requires IsRun(Initial(maxInFlight), events) && Enabled(After(Initial(maxInFlight), events), AgentRegister(a))
    ensures AuthenticatedBefore(Initial(maxInFlight), events, j, After(Initial(maxInFlight), events).agents[a].device)
  {
    hide IsRun, After, Step, AuthenticatedBefore;
    j := AuthenticationOf(Initial(maxInFlight), events, a);
  }

  /** And that can happen: a connection of a revoked device, registered after `Disconnect` found none. */
  lemma RevokedDeviceConnects() returns (s: System)
    ensures Reachable(s) && IsRevoked(s.db, "d") && |s.hub.conns| == 1 && RelayProofs.IsRegistered(s.hub, 0)
    ensures s.hub.conns[0].device == "d" && s.hub.conns[0].phase.Open?
  {
    hide Reachable;
    var device := Store.Device("d", "u", "n", Some(0), None, None);
    StartReachable(1);
    s := Initial(1);
    s := Taken(s, StoreOp(Store.CreateDevice(0, device, "t")));
    s := Taken(s, AgentAuthenticate("d", "t"));
    s := Taken(s, StoreOp(Store.RevokeDevice(1, "u", "d")));
    s := Taken(s, HubStep(Relay.DisconnectLookup("d")));
    s := Taken(s, AgentRegister(0));
  }

  lemma StartReachable(maxInFlight: int)
    ensures Reachable(Initial(maxInFlight))
  {
    assert IsRun(Initial(maxInFlight), []);
  }

  lemma Taken(s: System, e: Event) returns (t: System)
    requires Reachable(s) && Enabled(s, e)
    ensures t == Step(s, e) && Reachable(t)
  {
    hide Step, Enabled, IsRun, After;
    var maxInFlight: int, events: seq<Event> :|
      IsRun(Initial(maxInFlight), events) && After(Initial(maxInFlight), events) == s;
    RunAppend(Initial(maxInFlight), events, e);
    t := Step(s, e);
  }

  lemma {:induction false} RunAppend(s: System, events: seq<Event>, e: Event)
    requires IsRun(s, events) && Enabled(After(s, events), e)
    ensures IsRun(s, events + [e]) && After(s, events + [e]) == Step(After(s, events), e)
    decreases |events|
  {
    hide Step, Enabled;
    if events == [] {
      assert [e][1..] == [] && ([] + [e])[0] == e;
      assert IsRun(Step(s, e), []);
    } else {
      RunAppend(Step(s, events[0]), events[1..], e);
      assert (events + [e])[1..] == events[1..] + [e];
    }
  }

  // ---------------------------------------------------------------- who is let through

  /** The operations of the store among these events. */
  function StoreOps(events: seq<Event>): seq<Store.Op> {
    if events == [] then [] else (if events[0].StoreOp? then [events[0].op] else []) + StoreOps(events[1..])
  }

  /** Nothing but its own operations changes the store. */
  lemma {:induction false} StoreByHistory(s: System, events: seq<Event>)
    requires IsRun(s, events)
    ensures After(s, events).db == Store.After(s.db, StoreOps(events))
    decreases |events|
  {
    hide Enabled, Store.Apply, Relay.Step, Relay.Enabled;
    if events != [] {
      var s1, rest := Step(s, events[0]), StoreOps(events[1..]);
      StoreByHistory(s1, events[1..]);
      if events[0].StoreOp? {
        var ops := [events[0].op] + rest;
        Store.AfterSplit(s.db, ops, 1);
        assert ops[..1] == [events[0].op] && ops[1..] == rest && [events[0].op][..0] == [];
      } else {
        assert [] + rest == rest;
      }
    }
  }

  /**
   A tool call passes its check exactly if the device was made for its owner and has not been
   revoked, and an agent is let in exactly with the device's token and before its revocation,
   as the operations of the store so far say.
   */
  lemma LetThroughExactly(maxInFlight: int, events: seq<Event>, t: nat, id: Store.DeviceId, tokenHash: Store.Hash)
    requires IsRun(Initial(maxInFlight), events)
    ensures var s, ops := After(Initial(maxInFlight), events), StoreOps(events);
            && (Enabled(s, ToolCheck(t)) ==>
                  var standing := Store.StandingOf(ops, s.tools[t].device);
                  && |Step(s, ToolCheck(t)).tools| == |s.tools|
                  && (Step(s, ToolCheck(t)).tools[t].state == Checked <==>
                        standing.Some? && standing.value.owner == s.tools[t].owner && !standing.value.revoked)
                  && (Step(s, ToolCheck(t)).tools[t].state == Refused <==>
                        !(standing.Some? && standing.value.owner == s.tools[t].owner && !standing.value.revoked)))
            && (|Step(s, AgentAuthenticate(id, tokenHash)).agents| == |s.agents| + 1 <==>
                  var standing := Store.StandingOf(ops, id);
                  standing.Some? && standing.value.tokenHash == tokenHash && !standing.value.revoked)
  {
    hide IsRun, After, Store.GetDevice, Store.Authenticate, Store.StandingOf;
    var s, ops := After(Initial(maxInFlight), events), StoreOps(events);
    StoreByHistory(Initial(maxInFlight), events);
    Store.AccessByHistory(ops, id, "", tokenHash);
    if Enabled(s, ToolCheck(t)) { Store.AccessByHistory(ops, s.tools[t].device, s.tools[t].owner, tokenHash); }
  }
}
