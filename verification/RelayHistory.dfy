/**
 The relay hub read off its history: which connection is registered, which one a call gets and
 why a connection was closed, each said of the events of a run alone.
*/
module RelayHistory {
  import opened Common
  import opened Relay
  import opened RelayProofs
  import opened RelayTheorems

  // ---------------------------------------------------------------- runs by their last event

  lemma {:induction false} RunFront(h: Hub, events: seq<Event>)
    requires IsRun(h, events) && events != []
    ensures var front, last := events[..|events| - 1], events[|events| - 1];
            IsRun(h, front) && Enabled(After(h, front), last) && After(h, events) == Step(After(h, front), last)
    decreases |events|
  {
    hide Step, Enabled;
    var front := events[..|events| - 1];
    if |events| == 1 {
      assert events[1..] == [];
    } else {
      RunFront(Step(h, events[0]), events[1..]);
      assert events[1..][..|events| - 2] == front[1..];
      assert events[1..][|events| - 2] == events[|events| - 1];
    }
  }

  lemma {:induction false} RunPrefix(h: Hub, events: seq<Event>, k: nat)
    requires IsRun(h, events) && k <= |events|
    ensures IsRun(h, events[..k])
    decreases |events|
  {
    hide IsRun;
    if k == |events| {
      assert events[..k] == events;
    } else {
      RunFront(h, events);
      RunPrefix(h, events[..|events| - 1], k);
      assert events[..|events| - 1][..k] == events[..k];
    }
  }

  /** Runs from a new hub. */
  ghost predicate IsHistory(m: int, events: seq<Event>) { IsRun(NewHub(m), events) }

  ghost function HubAfter(m: int, events: seq<Event>): Hub
    requires IsHistory(m, events)
  {
    After(NewHub(m), events)
  }

  lemma HistoryFront(m: int, events: seq<Event>) returns (front: seq<Event>, last: Event)
    requires IsHistory(m, events) && events != []
    ensures front == events[..|events| - 1] && last == events[|events| - 1] && events == front + [last]
    ensures IsHistory(m, front) && Enabled(HubAfter(m, front), last)
    ensures HubAfter(m, events) == Step(HubAfter(m, front), last)
  {
    hide IsRun, Step, Enabled;
    front, last := events[..|events| - 1], events[|events| - 1];
    RunFront(NewHub(m), events);
  }

  lemma HistoryInv(m: int, events: seq<Event>)
    requires IsHistory(m, events)
    ensures Inv(HubAfter(m, events))
  {
    hide IsRun, Step, Enabled, Inv;
    InvInitially(m);
    InvRun(NewHub(m), events);
  }

  /** The limit of calls in flight is the configured one, or sixteen, throughout. */
  lemma {:induction false} LimitIsConfigured(m: int, events: seq<Event>)
    requires IsHistory(m, events)
    ensures HubAfter(m, events).maxInFlight == if m < 1 then 16 else m
    decreases |events|
  {
    hide IsRun, Step, Enabled;
    if events != [] {
      var front, last := HistoryFront(m, events);
      LimitIsConfigured(m, front);
      LimitKept(HubAfter(m, front), last);
    }
  }

  // ---------------------------------------------------------------- who is registered

  /** How many registrations these events hold; connections are numbered in their order. */
  function Swaps(events: seq<Event>): nat
    decreases |events|
  {
    if events == [] then 0
    else Swaps(events[..|events| - 1]) + (if events[|events| - 1].RegisterSwap? then 1 else 0)
  }

  /** Event `j` is the registration that made connection `c`. */
  predicate Creates(events: seq<Event>, c: nat, j: nat) {
    j < |events| && events[j].RegisterSwap? && Swaps(events[..j]) == c
  }

  /** Connection `c` is for this device and owner. */
  ghost predicate IsFor(events: seq<Event>, c: nat, device: DeviceId, owner: Subject) {
    exists j: nat :: Creates(events, c, j) && events[j] == RegisterSwap(device, owner)
  }

  /** Registered as `j` made it: no newer registration of the device, and its own close did not get there. */
  predicate Lasting(events: seq<Event>, c: nat, j: nat) {
    && Creates(events, c, j)
    && (forall k :: j < k < |events| ==>
          events[k] != OfClose(c, Unregister) && !(events[k].RegisterSwap? && events[k].device == events[j].device))
  }

  ghost predicate RegisteredNow(events: seq<Event>, c: nat) {
    exists j: nat :: Lasting(events, c, j)
  }

  lemma SwapsGrow(front: seq<Event>, last: Event)
    ensures Swaps(front + [last]) == Swaps(front) + (if last.RegisterSwap? then 1 else 0)
  {
    assert (front + [last])[..|front|] == front;
  }

  lemma CreatesKept(front: seq<Event>, last: Event, c: nat, j: nat)
    requires j < |front|
    ensures Creates(front + [last], c, j) <==> Creates(front, c, j)
  {
    assert (front + [last])[..j] == front[..j];
  }

  /** The number of connections and what each is for. */
  lemma StepConns(h: Hub, e: Event, c: nat)
    requires Enabled(h, e)
    ensures |Step(h, e).conns| == |h.conns| + (if e.RegisterSwap? then 1 else 0)
    ensures c < |h.conns| ==>
              Step(h, e).conns[c].device == h.conns[c].device && Step(h, e).conns[c].owner == h.conns[c].owner
    ensures e.RegisterSwap? ==>
              Step(h, e).conns[|h.conns|].device == e.device && Step(h, e).conns[|h.conns|].owner == e.owner
  {
    hide CallReady, CallAfter, ConnAfterCall, ConnAfterRead, ConnAfterClose;
    if c < |h.conns| && (e.OfCall? || e.OfClose? || e.OfReader?) { ConnMovesOn(h, e, c); }
  }

  lemma {:induction false} ConnsByHistory(m: int, events: seq<Event>, c: nat)
    requires IsHistory(m, events)
    ensures |HubAfter(m, events).conns| == Swaps(events)
    ensures forall device, owner :: IsFor(events, c, device, owner) <==>
              c < |HubAfter(m, events).conns|
              && HubAfter(m, events).conns[c].device == device && HubAfter(m, events).conns[c].owner == owner
    decreases |events|
  {
    hide IsRun, Step, Enabled;
    if events != [] {
      var front, last := HistoryFront(m, events);
      ConnsByHistory(m, front, c);
      StepConns(HubAfter(m, front), last, c);
      SwapsGrow(front, last);
      IsForKept(front, last, c);
    }
  }

  lemma IsForKept(front: seq<Event>, last: Event, c: nat)
    ensures forall device, owner :: IsFor(front + [last], c, device, owner) <==>
              IsFor(front, c, device, owner) || (last == RegisterSwap(device, owner) && c == Swaps(front))
  {
    hide Creates;
    var events := front + [last];
    forall j: nat | j < |front| ensures Creates(events, c, j) <==> Creates(front, c, j) {
      CreatesKept(front, last, c, j);
    }
    assert events[..|front|] == front && events[|front|] == last;
    CreatesDef(events, c, |front|);
    forall j: nat | Creates(events, c, j) ensures j <= |front| { CreatesDef(events, c, j); }
    forall j: nat | Creates(front, c, j) ensures j < |front| { CreatesDef(front, c, j); }
    forall device, owner | IsFor(front, c, device, owner) ensures IsFor(events, c, device, owner) {
      var j: nat :| Creates(front, c, j) && front[j] == RegisterSwap(device, owner);
      assert Creates(events, c, j) && events[j] == front[j];
    }
    if last.RegisterSwap? && c == Swaps(front) { assert events[|front|] == last; }
  }

  lemma CreatesDef(events: seq<Event>, c: nat, j: nat)
    ensures Creates(events, c, j) <==> j < |events| && events[j].RegisterSwap? && Swaps(events[..j]) == c
  {
  }

  lemma LastingKept(front: seq<Event>, last: Event, c: nat, j: nat)
    requires j < |front|
    ensures Lasting(front + [last], c, j) <==>
              && Lasting(front, c, j) && last != OfClose(c, Unregister)
              && !(last.RegisterSwap? && last.device == front[j].device)
  {
    var events := front + [last];
    CreatesKept(front, last, c, j);
    assert events[j] == front[j] && events[|front|] == last;
    if Lasting(events, c, j) {
      forall k | j < k < |front|
        ensures front[k] != OfClose(c, Unregister) && !(front[k].RegisterSwap? && front[k].device == front[j].device)
      {
        assert events[k] == front[k];
      }
    }
  }

  lemma LastingAtOnce(front: seq<Event>, last: Event, c: nat)
    ensures Lasting(front + [last], c, |front|) <==> last.RegisterSwap? && c == Swaps(front)
  {
    assert (front + [last])[..|front|] == front && (front + [last])[|front|] == last;
  }

  /** What one event does to a registration. */
  lemma RegistrationStep(h: Hub, e: Event, c: nat)
    requires Registry(h) && Enabled(h, e)
    ensures IsRegistered(Step(h, e), c) <==>
              if e.RegisterSwap? then c == |h.conns| || (IsRegistered(h, c) && h.conns[c].device != e.device)
              else IsRegistered(h, c) && e != OfClose(c, Unregister)
  {
    hide CallReady, CallAfter, ConnAfterCall, ConnAfterRead, Listed;
    if c < |h.conns| && (e.OfCall? || e.OfReader?) { ConnMovesOn(h, e, c); }
  }

  /** And to what the events say of it. */
  lemma RegisteredStep(front: seq<Event>, last: Event, c: nat, device: DeviceId)
    requires forall j: nat :: Creates(front, c, j) ==> front[j].device == device
    ensures RegisteredNow(front + [last], c) <==>
              if last.RegisterSwap? then c == Swaps(front) || (RegisteredNow(front, c) && device != last.device)
              else RegisteredNow(front, c) && last != OfClose(c, Unregister)
  {
    var events := front + [last];
    LastingAtOnce(front, last, c);
    forall j: nat | j < |front|
      ensures Lasting(events, c, j) <==>
                && Lasting(front, c, j) && last != OfClose(c, Unregister)
                && !(last.RegisterSwap? && last.device == front[j].device)
    {
      LastingKept(front, last, c, j);
    }
    if RegisteredNow(events, c) {
      var j: nat :| Lasting(events, c, j);
      assert j < |front| ==> Lasting(front, c, j);
    }
    if RegisteredNow(front, c) {
      var j: nat :| Lasting(front, c, j);
      assert j < |front|;
    }
  }

  /**
   The registry is what the events say: a connection is registered exactly from its own
   registration until the next one of its device, or until its own close unregisters it.
   */
  lemma {:induction false} RegistryByHistory(m: int, events: seq<Event>, c: nat)
    requires IsHistory(m, events)
    ensures IsRegistered(HubAfter(m, events), c) <==> RegisteredNow(events, c)
    decreases |events|
  {
    hide IsRun, Step, Enabled, RegisteredNow, IsRegistered, Inv;
    if events == [] {
      NothingAtFirst(m, c);
    } else {
      var front, last := HistoryFront(m, events);
      var h := HubAfter(m, front);
      HistoryInv(m, front);
      RegistryByHistory(m, front, c);
      ConnsByHistory(m, front, c);
      RegistryOf(h);
      RegistrationStep(h, last, c);
      RegisteredIsThere(h, c);
      var device := if c < |h.conns| then h.conns[c].device else "";
      forall j: nat | Creates(front, c, j) ensures front[j].device == device {
        assert front[j] == RegisterSwap(front[j].device, front[j].owner);
        assert IsFor(front, c, front[j].device, front[j].owner);
      }
      RegisteredStep(front, last, c, device);
    }
  }

  lemma RegistryOf(h: Hub)
    requires Inv(h)
    ensures Registry(h)
  {
  }

  lemma RegisteredIsThere(h: Hub, c: nat)
    ensures IsRegistered(h, c) ==> c < |h.conns|
  {
  }

  lemma NothingAtFirst(m: int, c: nat)
    ensures !IsRegistered(NewHub(m), c) && !RegisteredNow([], c)
  {
  }

  // ---------------------------------------------------------------- which connection a call gets

  function Starts(events: seq<Event>): nat
    decreases |events|
  {
    if events == [] then 0
    else Starts(events[..|events| - 1]) + (if events[|events| - 1].CallStart? then 1 else 0)
  }

  /** Call `i` was started for this owner and device. */
  ghost predicate IsCallFor(events: seq<Event>, i: nat, owner: Subject, device: DeviceId) {
    exists j: nat :: j < |events| && events[j] == CallStart(owner, device) && Starts(events[..j]) == i
  }

  /** When call `i` looked, connection `c` was registered for its device and its owner. */
  ghost predicate FoundAt(events: seq<Event>, i: nat, c: nat, k: nat) {
    && k < |events| && events[k] == CallFind(i) && RegisteredNow(events[..k], c)
    && exists owner, device :: IsCallFor(events[..k], i, owner, device) && IsFor(events[..k], c, device, owner)
  }

  /** When call `i` looked, no registered connection was for its device and its owner. */
  ghost predicate FoundNoneAt(events: seq<Event>, i: nat, k: nat) {
    && k < |events| && events[k] == CallFind(i)
    && forall c: nat, owner, device ::
         RegisteredNow(events[..k], c) && IsCallFor(events[..k], i, owner, device) ==>
             !IsFor(events[..k], c, device, owner)
  }

  lemma StepCalls(h: Hub, e: Event, i: nat)
    requires Enabled(h, e)
    ensures |Step(h, e).calls| == |h.calls| + (if e.CallStart? then 1 else 0)
    ensures i < |h.calls| ==>
              && Step(h, e).calls[i].device == h.calls[i].device && Step(h, e).calls[i].owner == h.calls[i].owner
              && (e != CallFind(i) ==> Step(h, e).calls[i].conn == h.calls[i].conn)
              && (e == CallFind(i) ==> Step(h, e).calls[i].conn == Found(h, h.calls[i]))
    ensures e.CallStart? ==>
              && Step(h, e).calls[|h.calls|].device == e.device && Step(h, e).calls[|h.calls|].owner == e.owner
              && Step(h, e).calls[|h.calls|].conn.None?
  {
    hide CallReady, ConnAfterCall, ConnAfterRead, ConnAfterClose, CallAfter;
    if e.OfCall? { CallKeepsParties(h.calls[e.call], ConnOf(h, e.call), h.maxInFlight, e.act); }
  }

  lemma CallKeepsParties(call: Call, conn: Conn, m: nat, a: CallAct)
    requires CallReady(call, conn, m, a)
    ensures var b := CallAfter(call, conn, m, a);
            b.owner == call.owner && b.device == call.device && b.conn == call.conn
  {
  }

  lemma IsCallForKept(front: seq<Event>, last: Event, i: nat, owner: Subject, device: DeviceId)
    ensures IsCallFor(front + [last], i, owner, device) <==>
              IsCallFor(front, i, owner, device) || (last == CallStart(owner, device) && i == Starts(front))
  {
    var events := front + [last];
    assert events[..|front|] == front && events[|front|] == last;
    forall j: nat | j < |front| ensures events[j] == front[j] && events[..j] == front[..j] { }
  }

  lemma {:induction false} CallsByHistory(m: int, events: seq<Event>, i: nat)
    requires IsHistory(m, events)
    ensures |HubAfter(m, events).calls| == Starts(events)
    ensures forall owner, device :: IsCallFor(events, i, owner, device) <==>
              i < |HubAfter(m, events).calls|
              && HubAfter(m, events).calls[i].owner == owner && HubAfter(m, events).calls[i].device == device
    decreases |events|
  {
    hide IsRun, Step, Enabled, IsCallFor;
    if events == [] {
      forall owner, device ensures !IsCallFor(events, i, owner, device) { NoCallAtFirst(i, owner, device); }
    } else {
      var front, last := HistoryFront(m, events);
      CallsByHistory(m, front, i);
      StepCalls(HubAfter(m, front), last, i);
      forall owner, device
        ensures IsCallFor(events, i, owner, device) <==>
                  IsCallFor(front, i, owner, device) || (last == CallStart(owner, device) && i == Starts(front))
      {
        IsCallForKept(front, last, i, owner, device);
      }
    }
  }

  lemma NoCallAtFirst(i: nat, owner: Subject, device: DeviceId)
    ensures !IsCallFor([], i, owner, device)
  {
  }

  /** What a lookup gives, said of the events before it. */
  lemma LookupNow(m: int, front: seq<Event>, i: nat)
    requires IsHistory(m, front) && i < |HubAfter(m, front).calls|
    ensures var h, events := HubAfter(m, front), front + [CallFind(i)];
            && (forall c: nat :: Found(h, h.calls[i]) == Some(c) <==> FoundAt(events, i, c, |front|))
            && (Found(h, h.calls[i]).None? <==> FoundNoneAt(events, i, |front|))
  {
    hide IsRun, Step, Enabled, RegisteredNow, IsFor, IsCallFor;
    var h, events := HubAfter(m, front), front + [CallFind(i)];
    var call := h.calls[i];
    assert events[..|front|] == front && events[|front|] == CallFind(i);
    CallsByHistory(m, front, i);
    HistoryInv(m, front);
    RegistryOf(h);
    hide Inv;
    forall c: nat
      ensures Found(h, call) == Some(c) <==> RegisteredNow(front, c) && IsFor(front, c, call.device, call.owner)
    {
      RegistryByHistory(m, front, c);
      ConnsByHistory(m, front, c);
      FoundExactly(h, call, c);
    }
    assert IsCallFor(front, i, call.owner, call.device);
  }

  /** A lookup finds the registered connection of the device, if it is the owner's. */
  lemma FoundExactly(h: Hub, call: Call, c: nat)
    requires Registry(h)
    ensures Found(h, call) == Some(c) <==>
              IsRegistered(h, c) && h.conns[c].device == call.device && h.conns[c].owner == call.owner
  {
  }

  /** A call is on a connection exactly if it found it registered for its device and its owner. */
  lemma {:induction false} LookupByHistory(m: int, events: seq<Event>, i: nat, c: nat)
    requires IsHistory(m, events)
    ensures CallOn(HubAfter(m, events), i, c) <==> exists k: nat :: FoundAt(events, i, c, k)
    decreases |events|
  {
    hide IsRun, Step, Enabled, FoundAt, Inv;
    if events == [] {
      NoLookupAtFirst(i, c);
    } else {
      var front, last := HistoryFront(m, events);
      var h := HubAfter(m, front);
      LookupByHistory(m, front, i, c);
      StepCalls(h, last, i);
      forall k: nat | k < |front| ensures FoundAt(events, i, c, k) <==> FoundAt(front, i, c, k) {
        FoundAtKept(front, last, i, c, k);
      }
      forall k: nat | FoundAt(events, i, c, k) ensures k < |events| && (k == |front| ==> last == CallFind(i)) {
        FoundAtThere(events, i, c, k);
      }
      forall k: nat | FoundAt(front, i, c, k) ensures k < |front| { FoundAtThere(front, i, c, k); }
      if last == CallFind(i) {
        FindIsEnabled(h, i);
        HistoryInv(m, front);
        LookupUnboundIn(h, i);
        LookupNow(m, front, i);
      }
    }
  }

  lemma FindIsEnabled(h: Hub, i: nat)
    requires Enabled(h, CallFind(i))
    ensures i < |h.calls| && h.calls[i].pc.Lookup?
  {
  }

  lemma LookupUnboundIn(h: Hub, i: nat)
    requires Inv(h) && i < |h.calls| && h.calls[i].pc.Lookup?
    ensures h.calls[i].conn.None?
  {
    LookupUnbound(h, i);
  }

  lemma FoundAtThere(events: seq<Event>, i: nat, c: nat, k: nat)
    requires FoundAt(events, i, c, k)
    ensures k < |events| && events[k] == CallFind(i)
  {
  }

  lemma FoundAtKept(front: seq<Event>, last: Event, i: nat, c: nat, k: nat)
    requires k < |front|
    ensures FoundAt(front + [last], i, c, k) <==> FoundAt(front, i, c, k)
  {
    assert (front + [last])[..k] == front[..k];
  }

  lemma NoLookupAtFirst(i: nat, c: nat)
    ensures forall k: nat :: !FoundAt([], i, c, k)
  {
  }
}
