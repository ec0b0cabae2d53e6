/**
 The in-memory store: devices, the pairing state machine (modelled on RFC 8628) with its
 user-code index, and the trimmed audit log.  Codes and tokens appear as their hashes, which
 is how the store keeps them; times are arguments.
*/
module Store {
  import opened Common

  type Time = int
  type Hash = string
  type Subject = string
  type DeviceId = string

  datatype Device = Device(id: DeviceId, owner: Subject, name: string, created: Option<Time>,
                           lastSeen: Option<Time>, revoked: Option<Time>)

  datatype DeviceRecord = DeviceRecord(device: Device, tokenHash: Hash)

  datatype Pairing = Pairing(deviceCode: Hash, userCode: Hash, name: string, expires: Time,
                             owner: Subject, approved: Option<Time>, consumed: Option<Time>)

  datatype AuditEvent = AuditEvent(owner: Subject, device: DeviceId, tool: string, status: string)

  datatype Db = Db(devices: map<DeviceId, DeviceRecord>, pairings: map<Hash, Pairing>,
                   userCodes: map<Hash, Hash>, audit: seq<AuditEvent>)

  datatype Error = NotFound | Unauthorized | PairingPending | PairingExpired | PairingUsed | AlreadyExists

  datatype Op =
    | CreateDevice(now: Time, device: Device, tokenHash: Hash)
    | TouchDevice(now: Time, id: DeviceId)
    | RevokeDevice(now: Time, owner: Subject, id: DeviceId)
    | WriteAudit(event: AuditEvent)
    | CreatePairing(pairing: Pairing)
    | ApprovePairing(now: Time, userCode: Hash, owner: Subject)
    | ConsumePairing(now: Time, deviceCode: Hash, device: Device, tokenHash: Hash)

  datatype Reply = Done | Paired(device: Device) | Refused(error: Error)

  const EMPTY := Db(map[], map[], map[], [])

  const AUDIT_LIMIT: nat := 10000
  const AUDIT_KEPT: nat := 5000

  // ---------------------------------------------------------------- specification of the operations

  function Stamped(d: Device, now: Time): Device {
    if d.created.None? then d.(created := Some(now)) else d
  }

  predicate Visible(db: Db, owner: Subject, id: DeviceId) {
    id in db.devices && db.devices[id].device.owner == owner && db.devices[id].device.revoked.None?
  }

  function GetDevice(db: Db, owner: Subject, id: DeviceId): Result<Device, Error> {
    if Visible(db, owner, id) then Ok(db.devices[id].device) else Err(NotFound)
  }

  function Authenticate(db: Db, id: DeviceId, tokenHash: Hash): Result<Device, Error> {
    if id !in db.devices || db.devices[id].device.revoked.Some? || db.devices[id].tokenHash != tokenHash
    then Err(Unauthorized) else Ok(db.devices[id].device)
  }

  /** The audit log after one more event: a full log first drops all but its last five thousand. */
  function Logged(log: seq<AuditEvent>, e: AuditEvent): seq<AuditEvent> {
    (if |log| >= AUDIT_LIMIT then log[|log| - AUDIT_KEPT..] else log) + [e]
  }

  /** Why a pairing cannot be consumed, in the order the store looks. */
  function ConsumeError(db: Db, now: Time, deviceCode: Hash, id: DeviceId): Option<Error> {
    if deviceCode !in db.pairings then Some(NotFound)
    else
      var p := db.pairings[deviceCode];
      if now > p.expires then Some(PairingExpired)
      else if p.consumed.Some? then Some(PairingUsed)
      else if p.approved.None? || p.owner == "" then Some(PairingPending)
      else if id in db.devices then Some(AlreadyExists)
      else None
  }

  function ApproveError(db: Db, now: Time, userCode: Hash): Option<Error> {
    if userCode !in db.userCodes || db.userCodes[userCode] !in db.pairings then Some(NotFound)
    else
      var p := db.pairings[db.userCodes[userCode]];
      if now > p.expires then Some(PairingExpired)
      else if p.consumed.Some? then Some(PairingUsed)
      else None
  }

  function Apply(db: Db, op: Op): (Db, Reply) {
    match op
    case CreateDevice(now, d, tokenHash) =>
      if d.id in db.devices then (db, Refused(AlreadyExists))
      else (db.(devices := db.devices[d.id := DeviceRecord(Stamped(d, now), tokenHash)]), Done)
    case TouchDevice(now, id) =>
      if id !in db.devices then (db, Refused(NotFound))
      else
        var r := db.devices[id];
        (db.(devices := db.devices[id := r.(device := r.device.(lastSeen := Some(now)))]), Done)
    case RevokeDevice(now, owner, id) =>
      if !Visible(db, owner, id) then (db, Refused(NotFound))
      else
        var r := db.devices[id];
        (db.(devices := db.devices[id := r.(device := r.device.(revoked := Some(now)))]), Done)
    case WriteAudit(e) => (db.(audit := Logged(db.audit, e)), Done)
    case CreatePairing(p) =>
      if p.deviceCode in db.pairings || p.userCode in db.userCodes then (db, Refused(AlreadyExists))
      else (db.(pairings := db.pairings[p.deviceCode := p], userCodes := db.userCodes[p.userCode := p.deviceCode]),
            Done)
    case ApprovePairing(now, userCode, owner) =>
      var refused := ApproveError(db, now, userCode);
      if refused.Some? then (db, Refused(refused.value))
      else
        var h := db.userCodes[userCode];
        (db.(pairings := db.pairings[h := db.pairings[h].(owner := owner, approved := Some(now))]), Done)
    case ConsumePairing(now, deviceCode, d, tokenHash) =>
      var refused := ConsumeError(db, now, deviceCode, d.id);
      if refused.Some? then (db, Refused(refused.value))
      else
        var p := db.pairings[deviceCode];
        var device := Stamped(d.(owner := p.owner, name := p.name), now);
        (db.(devices := db.devices[d.id := DeviceRecord(device, tokenHash)],
             pairings := db.pairings[deviceCode := p.(consumed := Some(now))]), Paired(device))
  }

  /** The user-code index and the pairing table are inverse to each other. */
  ghost predicate Indexed(db: Db) {
    && (forall u :: u in db.userCodes ==> db.userCodes[u] in db.pairings && db.pairings[db.userCodes[u]].userCode == u)
    && (forall h :: h in db.pairings ==>
          && db.pairings[h].deviceCode == h
          && db.pairings[h].userCode in db.userCodes && db.userCodes[db.pairings[h].userCode] == h)
  }

  lemma IndexedUpdate(db: Db, h: Hash, p: Pairing, devices: map<DeviceId, DeviceRecord>)
    requires Indexed(db) && h in db.pairings
    requires p.deviceCode == db.pairings[h].deviceCode && p.userCode == db.pairings[h].userCode
    ensures Indexed(db.(pairings := db.pairings[h := p], devices := devices))
  {
  }

  lemma IndexedInsert(db: Db, p: Pairing)
    requires Indexed(db) && p.deviceCode !in db.pairings && p.userCode !in db.userCodes
    ensures Indexed(db.(pairings := db.pairings[p.deviceCode := p],
                        userCodes := db.userCodes[p.userCode := p.deviceCode]))
  {
  }

  lemma IndexedStep(db: Db, op: Op)
    requires Indexed(db)
    ensures Indexed(Apply(db, op).0)
  {
    var db' := Apply(db, op).0;
    if db'.pairings != db.pairings {
      match op {
        case CreatePairing(p) => IndexedInsert(db, p);
        case ApprovePairing(_, u, _) => IndexedUpdate(db, db.userCodes[u], db'.pairings[db.userCodes[u]], db.devices);
        case ConsumePairing(_, h, _, _) => IndexedUpdate(db, h, db'.pairings[h], db'.devices);
        case _ =>
      }
    }
  }

  // ---------------------------------------------------------------- the object

  class Memory {
    var devices: map<DeviceId, DeviceRecord>
    var pairings: map<Hash, Pairing>
    var userCodes: map<Hash, Hash>
    var audit: seq<AuditEvent>

    ghost function Snapshot(): Db
      reads this
    {
      Db(devices, pairings, userCodes, audit)
    }

    ghost predicate Valid()
      reads this
    {
      Indexed(Snapshot())
    }

    constructor ()
      ensures Valid() && Snapshot() == EMPTY
    {
      devices, pairings, userCodes, audit := map[], map[], map[], [];
    }

    method Create(now: Time, d: Device, tokenHash: Hash) returns (r: Reply)
      requires Valid()
      modifies this
      ensures Valid() && (Snapshot(), r) == Apply(old(Snapshot()), CreateDevice(now, d, tokenHash))
    {
      IndexedStep(Snapshot(), CreateDevice(now, d, tokenHash));
      if d.id in devices { return Refused(AlreadyExists); }
      var device := d;
      if device.created.None? { device := device.(created := Some(now)); }
      devices := devices[d.id := DeviceRecord(device, tokenHash)];
      return Done;
    }

    method Touch(now: Time, id: DeviceId) returns (r: Reply)
      requires Valid()
      modifies this
      ensures Valid() && (Snapshot(), r) == Apply(old(Snapshot()), TouchDevice(now, id))
    {
      IndexedStep(Snapshot(), TouchDevice(now, id));
      if id !in devices { return Refused(NotFound); }
      var record := devices[id];
      record := record.(device := record.device.(lastSeen := Some(now)));
      devices := devices[id := record];
      return Done;
    }

    method Revoke(now: Time, owner: Subject, id: DeviceId) returns (r: Reply)
      requires Valid()
      modifies this
      ensures Valid() && (Snapshot(), r) == Apply(old(Snapshot()), RevokeDevice(now, owner, id))
    {
      IndexedStep(Snapshot(), RevokeDevice(now, owner, id));
      if id !in devices || devices[id].device.owner != owner || devices[id].device.revoked.Some? {
        return Refused(NotFound);
      }
      var record := devices[id];
      record := record.(device := record.device.(revoked := Some(now)));
      devices := devices[id := record];
      return Done;
    }

    method Log(e: AuditEvent)
      requires Valid()
      modifies this
      ensures Valid() && Snapshot() == Apply(old(Snapshot()), WriteAudit(e)).0
    {
      IndexedStep(Snapshot(), WriteAudit(e));
      if |audit| >= AUDIT_LIMIT {
        audit := audit[|audit| - AUDIT_KEPT..];
      }
      audit := audit + [e];
    }

    method StartPairing(p: Pairing) returns (r: Reply)
      requires Valid()
      modifies this
      ensures Valid() && (Snapshot(), r) == Apply(old(Snapshot()), CreatePairing(p))
    {
      IndexedStep(Snapshot(), CreatePairing(p));
      if p.deviceCode in pairings { return Refused(AlreadyExists); }
      if p.userCode in userCodes { return Refused(AlreadyExists); }
      pairings := pairings[p.deviceCode := p];
      userCodes := userCodes[p.userCode := p.deviceCode];
      return Done;
    }

    method Approve(now: Time, userCode: Hash, owner: Subject) returns (r: Reply)
      requires Valid()
      modifies this
      ensures Valid() && (Snapshot(), r) == Apply(old(Snapshot()), ApprovePairing(now, userCode, owner))
    {
      IndexedStep(Snapshot(), ApprovePairing(now, userCode, owner));
      if userCode !in userCodes { return Refused(NotFound); }
      var h := userCodes[userCode];
      var p := pairings[h];
      if now > p.expires { return Refused(PairingExpired); }
      if p.consumed.Some? { return Refused(PairingUsed); }
      p := p.(owner := owner, approved := Some(now));
      pairings := pairings[h := p];
      return Done;
    }

    method Consume(now: Time, deviceCode: Hash, d: Device, tokenHash: Hash) returns (r: Reply)
      requires Valid()
      modifies this
      ensures Valid() && (Snapshot(), r) == Apply(old(Snapshot()), ConsumePairing(now, deviceCode, d, tokenHash))
    {
      IndexedStep(Snapshot(), ConsumePairing(now, deviceCode, d, tokenHash));
      if deviceCode !in pairings { return Refused(NotFound); }
      var p := pairings[deviceCode];
      if now > p.expires { return Refused(PairingExpired); }
      if p.consumed.Some? { return Refused(PairingUsed); }
      if p.approved.None? || p.owner == "" { return Refused(PairingPending); }
      if d.id in devices { return Refused(AlreadyExists); }
      var device := d.(owner := p.owner, name := p.name);
      if device.created.None? { device := device.(created := Some(now)); }
      devices := devices[d.id := DeviceRecord(device, tokenHash)];
      p := p.(consumed := Some(now));
      pairings := pairings[deviceCode := p];
      return Paired(device);
    }
  }

  // ---------------------------------------------------------------- runs

  function After(db: Db, ops: seq<Op>): Db
    decreases |ops|
  {
    if ops == [] then db else Apply(After(db, ops[..|ops| - 1]), ops[|ops| - 1]).0
  }

  /** What the `k`-th operation of a run from the empty store replied. */
  function ReplyAt(ops: seq<Op>, k: nat): Reply
    requires k < |ops|
  {
    Apply(After(EMPTY, ops[..k]), ops[k]).1
  }

  lemma {:induction false} AfterSplit(db: Db, ops: seq<Op>, k: nat)
    requires k <= |ops|
    ensures After(db, ops) == After(After(db, ops[..k]), ops[k..])
    decreases |ops|
  {
    if k == |ops| {
      assert ops[..k] == ops && ops[k..] == [];
    } else {
      var front := ops[..|ops| - 1];
      AfterSplit(db, front, k);
      assert front[..k] == ops[..k] && ops[k..][..|ops[k..]| - 1] == front[k..];
    }
  }

  lemma {:induction false} IndexIsInverse(ops: seq<Op>)
    ensures Indexed(After(EMPTY, ops))
    decreases |ops|
  {
    if ops != [] {
      IndexIsInverse(ops[..|ops| - 1]);
      IndexedStep(After(EMPTY, ops[..|ops| - 1]), ops[|ops| - 1]);
    }
  }

  // ---------------------------------------------------------------- devices

  /** What no operation ever takes back about a device. */
  ghost predicate DeviceKept(a: Db, b: Db, id: DeviceId) {
    id in a.devices ==>
      && id in b.devices
      && b.devices[id].tokenHash == a.devices[id].tokenHash
      && b.devices[id].device.owner == a.devices[id].device.owner
      && b.devices[id].device.name == a.devices[id].device.name
      && (a.devices[id].device.revoked.Some? ==> b.devices[id].device.revoked == a.devices[id].device.revoked)
  }

  lemma KeptByOp(db: Db, op: Op, id: DeviceId)
    ensures DeviceKept(db, Apply(db, op).0, id)
  {
    hide ApproveError, Logged;
  }

  /** Devices are never removed, re-owned or re-keyed, and a revocation is never undone. */
  lemma {:induction false} RevocationIsPermanent(db: Db, ops: seq<Op>, id: DeviceId)
    ensures DeviceKept(db, After(db, ops), id)
    decreases |ops|
  {
    hide Apply;
    if ops != [] {
      RevocationIsPermanent(db, ops[..|ops| - 1], id);
      KeptByOp(After(db, ops[..|ops| - 1]), ops[|ops| - 1], id);
    }
  }

  /** Every record is filed under its own id. */
  ghost predicate Keyed(db: Db) {
    forall id :: id in db.devices ==> db.devices[id].device.id == id
  }

  lemma KeyedStep(db: Db, op: Op)
    requires Keyed(db)
    ensures Keyed(Apply(db, op).0)
  {
    hide ApproveError, Logged;
  }

  /** A revoked device neither authenticates nor is visible, for any token and any caller, ever after. */
  lemma RevokedIsLockedOut(db: Db, ops: seq<Op>, id: DeviceId, tokenHash: Hash, owner: Subject)
    requires id in db.devices && db.devices[id].device.revoked.Some?
    ensures Authenticate(After(db, ops), id, tokenHash) == Err(Unauthorized)
    ensures GetDevice(After(db, ops), owner, id) == Err(NotFound)
  {
    RevocationIsPermanent(db, ops, id);
  }

  /** What the operations alone say about a device: who it was made for, its token, and whether it was revoked. */
  datatype Standing = Standing(owner: Subject, tokenHash: Hash, revoked: bool)

  function StandingOf(ops: seq<Op>, id: DeviceId): Option<Standing>
    decreases |ops|
  {
    if ops == [] then None
    else
      var front, op := ops[..|ops| - 1], ops[|ops| - 1];
      var before := StandingOf(front, id);
      match op
      case CreateDevice(_, d, token) =>
        if d.id == id && before.None? then Some(Standing(d.owner, token, d.revoked.Some?)) else before
      case ConsumePairing(_, _, d, token) =>
        if d.id == id && ReplyAt(ops, |ops| - 1).Paired?
        then Some(Standing(ReplyAt(ops, |ops| - 1).device.owner, token, d.revoked.Some?)) else before
      case RevokeDevice(_, owner, target) =>
        if target == id && before.Some? && before.value.owner == owner then Some(before.value.(revoked := true))
        else before
      case _ => before
  }

  function StandingIn(db: Db, id: DeviceId): Option<Standing> {
    if id in db.devices
    then Some(Standing(db.devices[id].device.owner, db.devices[id].tokenHash, db.devices[id].device.revoked.Some?))
    else None
  }

  lemma StandingStep(db: Db, op: Op, id: DeviceId)
    ensures var before, after := StandingIn(db, id), StandingIn(Apply(db, op).0, id);
            match op
            case CreateDevice(_, d, token) =>
              after == if d.id == id && before.None? then Some(Standing(d.owner, token, d.revoked.Some?)) else before
            case ConsumePairing(_, _, d, token) =>
              after == if d.id == id && Apply(db, op).1.Paired?
                       then Some(Standing(Apply(db, op).1.device.owner, token, d.revoked.Some?)) else before
            case RevokeDevice(_, owner, target) =>
              after == if target == id && before.Some? && before.value.owner == owner
                       then Some(before.value.(revoked := true)) else before
            case _ => after == before
  {
    hide ApproveError, Logged;
  }

  lemma {:induction false} StandingIsStored(ops: seq<Op>, id: DeviceId)
    ensures StandingOf(ops, id) == StandingIn(After(EMPTY, ops), id)
    decreases |ops|
  {
    hide Apply, StandingIn;
    if ops != [] {
      StandingIsStored(ops[..|ops| - 1], id);
      StandingStep(After(EMPTY, ops[..|ops| - 1]), ops[|ops| - 1], id);
    } else {
      StandingAtStart(id);
    }
  }

  lemma StandingAtStart(id: DeviceId)
    ensures StandingIn(EMPTY, id) == None
  {
  }

  /** Exactly who may see a device and exactly which token opens it, in terms of the operations performed. */
  lemma AccessByHistory(ops: seq<Op>, id: DeviceId, owner: Subject, tokenHash: Hash)
    ensures var st := StandingOf(ops, id);
            && (GetDevice(After(EMPTY, ops), owner, id).Ok? <==>
                  st.Some? && st.value.owner == owner && !st.value.revoked)
            && (Authenticate(After(EMPTY, ops), id, tokenHash).Ok? <==>
                  st.Some? && st.value.tokenHash == tokenHash && !st.value.revoked)
  {
    hide After, Apply;
    StandingIsStored(ops, id);
  }

  // ---------------------------------------------------------------- pairings

  predicate ConsumedAt(ops: seq<Op>, k: nat, deviceCode: Hash) {
    k < |ops| && ops[k].ConsumePairing? && ops[k].deviceCode == deviceCode && ReplyAt(ops, k).Paired?
  }

  /** A consumed pairing's record is frozen. */
  lemma {:induction false} ConsumedIsFrozen(db: Db, ops: seq<Op>, h: Hash)
    requires h in db.pairings && db.pairings[h].consumed.Some?
    ensures h in After(db, ops).pairings && After(db, ops).pairings[h] == db.pairings[h]
    decreases |ops|
  {
    if ops != [] { ConsumedIsFrozen(db, ops[..|ops| - 1], h); }
  }

  /** Just before it is consumed, a pairing is approved, unexpired and unused; just after, it is used. */
  lemma ConsumeConditions(ops: seq<Op>, k: nat, h: Hash)
    requires ConsumedAt(ops, k, h)
    ensures var before := After(EMPTY, ops[..k]);
            && h in before.pairings && before.pairings[h].approved.Some? && before.pairings[h].consumed.None?
            && ops[k].now <= before.pairings[h].expires
            && ops[k].device.id !in before.devices
            && ReplyAt(ops, k).device.owner == before.pairings[h].owner != ""
    ensures var after := After(EMPTY, ops[..k + 1]);
            && h in after.pairings && after.pairings[h].consumed == Some(ops[k].now)
            && ops[k].device.id in after.devices
            && after.devices[ops[k].device.id].device == ReplyAt(ops, k).device
            && after.devices[ops[k].device.id].tokenHash == ops[k].tokenHash
  {
    assert ops[..k + 1][..k] == ops[..k];
  }

  /** Each pairing is consumed at most once in any run. */
  lemma ConsumedAtMostOnce(ops: seq<Op>, j: nat, k: nat, h: Hash)
    requires j < k && ConsumedAt(ops, j, h)
    ensures !ConsumedAt(ops, k, h)
  {
    if ConsumedAt(ops, k, h) {
      ConsumeConditions(ops, j, h);
      ConsumeConditions(ops, k, h);
      AfterSplit(EMPTY, ops[..k], j + 1);
      assert ops[..k][..j + 1] == ops[..j + 1];
      ConsumedIsFrozen(After(EMPTY, ops[..j + 1]), ops[..k][j + 1..], h);
    }
  }

  /** Different consumptions make different devices. */
  lemma ConsumedDevicesAreDistinct(ops: seq<Op>, j: nat, g: Hash, k: nat, h: Hash)
    requires j < k && ConsumedAt(ops, j, g) && ConsumedAt(ops, k, h)
    ensures ops[j].device.id != ops[k].device.id
  {
    ConsumeConditions(ops, j, g);
    ConsumeConditions(ops, k, h);
    AfterSplit(EMPTY, ops[..k], j + 1);
    assert ops[..k][..j + 1] == ops[..j + 1];
    RevocationIsPermanent(After(EMPTY, ops[..j + 1]), ops[..k][j + 1..], ops[j].device.id);
  }

  /**
   Who approved the pairing last, read off the operations alone: the latest successful
   approval of a user code that stood for it, or the approval it was created with.
   */
  function LastApprover(ops: seq<Op>, h: Hash): Option<Subject>
    decreases |ops|
  {
    if ops == [] then None
    else
      var front, op := ops[..|ops| - 1], ops[|ops| - 1];
      var before := After(EMPTY, front);
      if op.ApprovePairing? && Apply(before, op).1.Done? && op.userCode in before.userCodes
        && before.userCodes[op.userCode] == h
      then Some(op.owner)
      else if op.CreatePairing? && Apply(before, op).1.Done? && op.pairing.deviceCode == h
      then (if op.pairing.approved.Some? then Some(op.pairing.owner) else None)
      else LastApprover(front, h)
  }

  /** One operation changes who approved a pairing exactly by approving it or creating it. */
  lemma ApprovalStep(db: Db, op: Op, h: Hash)
    requires h in Apply(db, op).0.pairings
    ensures var p := Apply(db, op).0.pairings[h];
            if op.ApprovePairing? && Apply(db, op).1.Done? && op.userCode in db.userCodes
              && db.userCodes[op.userCode] == h
            then p.approved.Some? && p.owner == op.owner
            else if op.CreatePairing? && Apply(db, op).1.Done? && op.pairing.deviceCode == h then p == op.pairing
            else h in db.pairings && p.approved == db.pairings[h].approved && p.owner == db.pairings[h].owner
  {
    hide Logged, Stamped;
  }

  lemma {:induction false} OwnerIsLastApprover(ops: seq<Op>, h: Hash)
    requires h in After(EMPTY, ops).pairings
    ensures var p := After(EMPTY, ops).pairings[h];
            LastApprover(ops, h) == if p.approved.Some? then Some(p.owner) else None
    decreases |ops|
  {
    hide Apply;
    if ops != [] {
      var front := ops[..|ops| - 1];
      ApprovalStep(After(EMPTY, front), ops[|ops| - 1], h);
      if h in After(EMPTY, front).pairings { OwnerIsLastApprover(front, h); }
    }
  }

  /** The device made from a pairing belongs to the last subject who approved it. */
  lemma DeviceBelongsToLastApprover(ops: seq<Op>, k: nat, h: Hash)
    requires ConsumedAt(ops, k, h)
    ensures LastApprover(ops[..k], h) == Some(ReplyAt(ops, k).device.owner)
  {
    ConsumeConditions(ops, k, h);
    OwnerIsLastApprover(ops[..k], h);
  }

  // ---------------------------------------------------------------- each operation, condition by condition

  /** A pairing that is known, not expired and not used. */
  predicate Usable(db: Db, now: Time, deviceCode: Hash) {
    deviceCode in db.pairings && now <= db.pairings[deviceCode].expires && db.pairings[deviceCode].consumed.None?
  }

  predicate Approved(p: Pairing) { p.approved.Some? && p.owner != "" }

  /** A consumption succeeds exactly when it should, makes exactly this device and refuses for exactly this reason. */
  lemma ConsumesExactly(db: Db, now: Time, h: Hash, d: Device, token: Hash)
    ensures var (after, r) := Apply(db, ConsumePairing(now, h, d, token));
            && (r == Refused(NotFound) <==> h !in db.pairings)
            && (r == Refused(PairingExpired) <==> h in db.pairings && now > db.pairings[h].expires)
            && (r == Refused(PairingUsed) <==>
                  h in db.pairings && now <= db.pairings[h].expires && db.pairings[h].consumed.Some?)
            && (r == Refused(PairingPending) <==> Usable(db, now, h) && !Approved(db.pairings[h]))
            && (r == Refused(AlreadyExists) <==>
                  Usable(db, now, h) && Approved(db.pairings[h]) && d.id in db.devices)
            && (r.Paired? <==> Usable(db, now, h) && Approved(db.pairings[h]) && d.id !in db.devices)
            && (!r.Paired? ==> after == db)
            && (r.Paired? ==>
                  var p := db.pairings[h];
                  && r.device.id == d.id && r.device.owner == p.owner && r.device.name == p.name
                  && r.device.created == (if d.created.Some? then d.created else Some(now))
                  && r.device.lastSeen == d.lastSeen && r.device.revoked == d.revoked
                  && after.devices == db.devices[d.id := DeviceRecord(r.device, token)]
                  && after.pairings == db.pairings[h := p.(consumed := Some(now))]
                  && after.userCodes == db.userCodes && after.audit == db.audit)
  {
    hide ApproveError, Logged;
  }

  /** An approval goes to the pairing its user code stands for, exactly while that is usable. */
  lemma ApprovesExactly(db: Db, now: Time, code: Hash, owner: Subject)
    requires Indexed(db)
    ensures var (after, r) := Apply(db, ApprovePairing(now, code, owner));
            && (r == Refused(NotFound) <==> code !in db.userCodes)
            && (code in db.userCodes ==>
                  var h := db.userCodes[code];
                  && h in db.pairings && db.pairings[h].userCode == code
                  && (r == Refused(PairingExpired) <==> now > db.pairings[h].expires)
                  && (r == Refused(PairingUsed) <==> now <= db.pairings[h].expires && db.pairings[h].consumed.Some?)
                  && (r == Done <==> Usable(db, now, h))
                  && (r == Done ==>
                        var p := db.pairings[h].(owner := owner, approved := Some(now));
                        after == db.(pairings := db.pairings[h := p])))
            && (r != Done ==> after == db && r.Refused?)
  {
    hide ConsumeError, Logged;
  }

  /** The operations on devices. */
  lemma DevicesExactly(db: Db, now: Time, id: DeviceId, owner: Subject, d: Device, token: Hash)
    ensures var (after, r) := Apply(db, CreateDevice(now, d, token));
            if d.id in db.devices then r == Refused(AlreadyExists) && after == db
            else
              && r == Done && after.devices.Keys == db.devices.Keys + {d.id}
              && (forall k :: k in db.devices ==> after.devices[k] == db.devices[k])
              && after.devices[d.id].tokenHash == token
              && after.devices[d.id].device == d.(created := if d.created.Some? then d.created else Some(now))
              && after.pairings == db.pairings && after.userCodes == db.userCodes && after.audit == db.audit
    ensures var (after, r) := Apply(db, TouchDevice(now, id));
            if id in db.devices then
              && r == Done && after.devices.Keys == db.devices.Keys
              && after.devices[id] == db.devices[id].(device := db.devices[id].device.(lastSeen := Some(now)))
              && (forall k :: k in db.devices && k != id ==> after.devices[k] == db.devices[k])
            else r == Refused(NotFound) && after == db
    ensures var (after, r) := Apply(db, RevokeDevice(now, owner, id));
            if id in db.devices && db.devices[id].device.owner == owner && db.devices[id].device.revoked.None? then
              && r == Done && after.devices.Keys == db.devices.Keys
              && after.devices[id] == db.devices[id].(device := db.devices[id].device.(revoked := Some(now)))
              && (forall k :: k in db.devices && k != id ==> after.devices[k] == db.devices[k])
            else r == Refused(NotFound) && after == db
  {
    hide ApproveError, ConsumeError, Logged;
  }

  /** A pairing starts exactly when neither of its codes is in use. */
  lemma StartsExactly(db: Db, p: Pairing)
    ensures var (after, r) := Apply(db, CreatePairing(p));
            if p.deviceCode in db.pairings || p.userCode in db.userCodes then r == Refused(AlreadyExists) && after == db
            else
              && r == Done && p.deviceCode in after.pairings && after.pairings[p.deviceCode] == p
              && p.userCode in after.userCodes && after.userCodes[p.userCode] == p.deviceCode
              && (forall h :: h in db.pairings ==> h in after.pairings && after.pairings[h] == db.pairings[h])
              && (forall u :: u in db.userCodes ==> u in after.userCodes && after.userCodes[u] == db.userCodes[u])
              && after.devices == db.devices && after.audit == db.audit
  {
    hide ApproveError, ConsumeError, Logged;
  }
}
