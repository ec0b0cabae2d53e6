/**
 Token introspection with a short cache (caching as discussed in section 4 of RFC 7662).
 Tokens appear as their digests, which is what the cache is keyed by.  A verification reads
 its clock, looks in the cache under the lock, and on a miss asks the endpoint and comes back
 under the lock later; any number of verifications interleave.
*/
module Introspection {
  import opened Common

  type Digest = string
  type Time = int

  const SECOND: int := 1_000_000_000
  const MAX_ENTRIES: nat := 1024

  datatype Identity = Identity(subject: string, scopes: set<string>, expiry: Time)

  /** `source` is history: which answered request the entry came from. */
  datatype CacheEntry = CacheEntry(identity: Identity, expires: Time, source: nat)

  type Cache = map<Digest, CacheEntry>

  /** The lifetime of an entry: a configured value out of range becomes fifteen seconds. */
  function TimeToLive(configured: int): (ttl: int)
    ensures 0 < ttl <= 30 * SECOND
  {
    if configured <= 0 || configured > 30 * SECOND then 15 * SECOND else configured
  }

  function Expiry(now: Time, ttl: int, identity: Identity): Time {
    if identity.expiry < now + ttl then identity.expiry else now + ttl
  }

  /** A verification without a cache: ask, and accept an identity that has not expired. */
  function Uncached(answer: Option<Identity>, now: Time): Option<Identity> {
    if answer.Some? && answer.value.expiry > now then answer else None
  }

  predicate Hit(cache: Cache, token: Digest, now: Time) {
    token in cache && now < cache[token].expires && now < cache[token].identity.expiry
  }

  function Unexpired(cache: Cache, now: Time): Cache {
    map k | k in cache && now <= cache[k].expires :: cache[k]
  }

  /** What is left before an insertion: a full cache loses its expired entries first. */
  function Swept(cache: Cache, now: Time): Cache {
    if |cache| >= MAX_ENTRIES then Unexpired(cache, now) else cache
  }

  predicate NeedsVictim(cache: Cache, now: Time) {
    |Swept(cache, now)| >= MAX_ENTRIES
  }

  /** The cache after inserting; when sweeping was not enough, some entry of the map's choosing goes. */
  function Inserted(cache: Cache, now: Time, token: Digest, entry: CacheEntry, victim: Digest): Cache {
    (if NeedsVictim(cache, now) then Swept(cache, now) - {victim} else Swept(cache, now))[token := entry]
  }

  /**
   Whether the answer accepted at `now` still counts at `t`: within the configured lifetime, if
   that is positive and at most thirty seconds, and else fifteen seconds; and while unexpired.
   */
  predicate RemainsLive(configured: int, now: Time, identity: Identity, t: Time) {
    && t < now + (if 0 < configured <= 30_000_000_000 then configured else 15_000_000_000)
    && t < identity.expiry
  }

  lemma RememberedUntil(cache: Cache, now: Time, token: Digest, ttl: int, id: Identity, source: nat, victim: Digest,
                        t: Time)
    ensures Hit(Inserted(cache, now, token, CacheEntry(id, Expiry(now, TimeToLive(ttl), id), source), victim), token, t)
       <==> RemainsLive(ttl, now, id, t)
  {
  }

  /** The tokens whose entries have not run out. */
  function Live(cache: Cache, now: Time): set<Digest> {
    set k | k in cache && now <= cache[k].expires
  }

  lemma SweptLive(cache: Cache, now: Time)
    ensures |cache| >= MAX_ENTRIES ==>
              Swept(cache, now).Keys == Live(cache, now) && |Swept(cache, now)| == |Live(cache, now)|
  {
    if |cache| >= MAX_ENTRIES { assert Swept(cache, now).Keys == Live(cache, now); }
  }

  /** The cached part of the verifier. */
  class Verifier {
    var cache: Cache

    constructor ()
      ensures cache == map[]
    {
      cache := map[];
    }

    /** The insertion with both eviction loops. */
    method Remember(now: Time, token: Digest, entry: CacheEntry) returns (victim: Digest)
      modifies this
      ensures NeedsVictim(old(cache), now) ==> victim in Swept(old(cache), now)
      ensures cache == Inserted(old(cache), now, token, entry, victim)
      ensures token in cache && cache[token] == entry
      ensures forall k :: k in cache && k != token ==> k in old(cache) && cache[k] == old(cache)[k]
      ensures |old(cache)| < 1024 ==> forall k :: k in old(cache) ==> k in cache
      ensures forall k :: k in old(cache) && now <= old(cache)[k].expires && k != victim ==> k in cache
      ensures |old(cache)| >= 1024 ==> forall k :: k in cache && k != token ==> now <= cache[k].expires
      ensures |Live(old(cache), now)| < 1024 ==> forall k :: k in Live(old(cache), now) ==> k in cache
    {
      victim := token;
      SweptLive(cache, now);
      if |cache| >= MAX_ENTRIES {
        var before := cache;
        var todo := before.Keys;
        while todo != {}
          invariant todo <= before.Keys
          invariant cache == map k | k in before && (k in todo || now <= before[k].expires) :: before[k]
          decreases |todo|
        {
          var k :| k in todo;
          todo := todo - {k};
          if now > before[k].expires { cache := cache - {k}; }
        }
        assert cache == Swept(before, now);
        if |cache| >= MAX_ENTRIES {
          assert cache.Keys != {};
          victim :| victim in cache;
          cache := cache - {victim};
        }
      }
      cache := cache[token := entry];
    }

    /**
     `Verify`: the cache first, else the endpoint's `answer`.  The lock is free while the request
     is out; `meanwhile` is what other verifications have made of the cache by its end.
     */
    method Verify(ttl: int, now: Time, token: Digest, answer: Option<Identity>, meanwhile: Cache, source: nat)
      returns (r: Option<Identity>, victim: Digest)
      modifies this
      ensures Hit(old(cache), token, now) ==> r == Some(old(cache)[token].identity) && cache == old(cache)
      ensures Hit(old(cache), token, now) <==>
                token in old(cache) && now < old(cache)[token].expires && now < old(cache)[token].identity.expiry
      ensures !Hit(old(cache), token, now) ==>
                r == if answer.Some? && now < answer.value.expiry then answer else None
      ensures !Hit(old(cache), token, now) && r.None? ==> cache == meanwhile
      ensures !Hit(old(cache), token, now) && r.Some? ==>
                var entry := CacheEntry(r.value, Expiry(now, TimeToLive(ttl), r.value), source);
                && (NeedsVictim(meanwhile, now) ==> victim in Swept(meanwhile, now))
                && cache == Inserted(meanwhile, now, token, entry, victim)
      ensures !Hit(old(cache), token, now) && r.Some? ==>
                forall t :: Hit(cache, token, t) <==> RemainsLive(ttl, now, r.value, t)
    {
      victim := token;
      if token in cache && now < cache[token].expires && now < cache[token].identity.expiry {
        return Some(cache[token].identity), victim;
      }
      cache := meanwhile;
      if answer.None? || answer.value.expiry <= now { return None, victim; }
      var id := answer.value;
      var lifetime := ttl;
      if lifetime <= 0 || lifetime > 30 * SECOND { lifetime := 15 * SECOND; }
      var expires := now + lifetime;
      if id.expiry < expires { expires := id.expiry; }
      victim := Remember(now, token, CacheEntry(id, expires, source));
      forall t ensures Hit(cache, token, t) <==> RemainsLive(ttl, now, id, t) {
        RememberedUntil(meanwhile, now, token, ttl, id, source, victim, t);
      }
      return Some(id), victim;
    }
  }

  /** Inserting never grows the cache past its limit. */
  lemma InsertionIsBounded(cache: Cache, now: Time, token: Digest, entry: CacheEntry, victim: Digest)
    requires |cache| <= MAX_ENTRIES && (NeedsVictim(cache, now) ==> victim in Swept(cache, now))
    ensures |Inserted(cache, now, token, entry, victim)| <= MAX_ENTRIES
  {
    var swept := Swept(cache, now);
    assert swept.Keys <= cache.Keys;
    SubsetBound(swept.Keys, cache.Keys);
    var room := if NeedsVictim(cache, now) then swept - {victim} else swept;
    assert NeedsVictim(cache, now) ==> room.Keys == swept.Keys - {victim};
    assert |room.Keys| < MAX_ENTRIES;
    assert room[token := entry].Keys == room.Keys + {token};
  }

  // ---------------------------------------------------------------- verifications interleaving

  /** A request the endpoint answered with an active token: whose, and when its verification began. */
  datatype Answered = Answered(token: Digest, begun: Time, identity: Identity)

  datatype Verification =
    | Asking(token: Digest, now: Time)
    | Accepted(token: Digest, now: Time, identity: Identity, source: nat)
    | Rejected(token: Digest, now: Time)

  datatype State = State(ttl: int, cache: Cache, answers: seq<Answered>, verifications: seq<Verification>)

  datatype Event =
    | Begin(token: Digest, now: Time)
    | Respond(i: nat, answer: Option<Identity>, victim: Digest)

  function New(configuredTtl: int): State {
    State(TimeToLive(configuredTtl), map[], [], [])
  }

  predicate Enabled(s: State, e: Event) {
    match e
    case Begin(_, _) => true
    case Respond(i, _, victim) =>
      && i < |s.verifications| && s.verifications[i].Asking?
      && (NeedsVictim(s.cache, s.verifications[i].now) ==> victim in Swept(s.cache, s.verifications[i].now))
  }

  function Step(s: State, e: Event): State
    requires Enabled(s, e)
  {
    match e
    case Begin(token, now) =>
      if Hit(s.cache, token, now) then
        s.(verifications := s.verifications + [Accepted(token, now, s.cache[token].identity, s.cache[token].source)])
      else s.(verifications := s.verifications + [Asking(token, now)])
    case Respond(i, answer, victim) =>
      var v := s.verifications[i];
      if Uncached(answer, v.now).None? then s.(verifications := s.verifications[i := Rejected(v.token, v.now)])
      else
        var id := answer.value;
        var entry := CacheEntry(id, Expiry(v.now, s.ttl, id), |s.answers|);
        s.(verifications := s.verifications[i := Accepted(v.token, v.now, id, |s.answers|)],
           answers := s.answers + [Answered(v.token, v.now, id)],
           cache := Inserted(s.cache, v.now, v.token, entry, victim))
  }

  ghost predicate IsRun(s: State, events: seq<Event>)
    decreases |events|
  {
    events == [] || (Enabled(s, events[0]) && IsRun(Step(s, events[0]), events[1..]))
  }

  ghost function After(s: State, events: seq<Event>): State
    requires IsRun(s, events)
    decreases |events|
  {
    if events == [] then s else After(Step(s, events[0]), events[1..])
  }

  ghost predicate Reachable(s: State) {
    exists ttl: int, events: seq<Event> :: IsRun(New(ttl), events) && After(New(ttl), events) == s
  }

  /** An entry vouches for what some answer said about this very token, for at most the lifetime. */
  ghost predicate EntryOk(s: State, token: Digest, e: CacheEntry) {
    && e.source < |s.answers| && s.answers[e.source].token == token && s.answers[e.source].identity == e.identity
    && e.expires <= s.answers[e.source].begun + s.ttl
  }

  ghost predicate AcceptOk(s: State, v: Verification) {
    v.Accepted? ==>
      && v.source < |s.answers| && s.answers[v.source].token == v.token && s.answers[v.source].identity == v.identity
      && v.now - s.answers[v.source].begun < 30 * SECOND
      && v.now < v.identity.expiry
  }

  ghost predicate Inv(s: State) {
    && 0 < s.ttl <= 30 * SECOND && |s.cache| <= MAX_ENTRIES
    && (forall k :: k in s.cache ==> EntryOk(s, k, s.cache[k]))
    && (forall i :: 0 <= i < |s.verifications| ==> AcceptOk(s, s.verifications[i]))
  }

  lemma InvBegin(s: State, e: Event)
    requires Inv(s) && Enabled(s, e) && e.Begin?
    ensures Inv(Step(s, e))
  {
    var s' := Step(s, e);
    if Hit(s.cache, e.token, e.now) { assert EntryOk(s, e.token, s.cache[e.token]); }
    forall k | k in s'.cache ensures EntryOk(s', k, s'.cache[k]) {
      assert EntryOk(s, k, s.cache[k]);
    }
    forall i | 0 <= i < |s'.verifications| ensures AcceptOk(s', s'.verifications[i]) {
      if i < |s.verifications| { assert AcceptOk(s, s.verifications[i]); }
    }
  }

  /** Everything but the new entry was there before. */
  lemma InsertedFrom(cache: Cache, now: Time, token: Digest, entry: CacheEntry, victim: Digest, k: Digest)
    requires k in Inserted(cache, now, token, entry, victim)
    ensures if k == token then Inserted(cache, now, token, entry, victim)[k] == entry
            else k in cache && Inserted(cache, now, token, entry, victim)[k] == cache[k]
  {
  }

  lemma InvRespond(s: State, e: Event)
    requires Inv(s) && Enabled(s, e) && e.Respond?
    ensures Inv(Step(s, e))
  {
    hide Inserted, NeedsVictim, Swept;
    var s' := Step(s, e);
    var v := s.verifications[e.i];
    if s'.answers != s.answers {
      var entry := CacheEntry(e.answer.value, Expiry(v.now, s.ttl, e.answer.value), |s.answers|);
      InsertionIsBounded(s.cache, v.now, v.token, entry, e.victim);
      forall k | k in s'.cache ensures EntryOk(s', k, s'.cache[k]) {
        InsertedFrom(s.cache, v.now, v.token, entry, e.victim, k);
        if k != v.token { assert EntryOk(s, k, s.cache[k]); }
      }
    }
    forall i | 0 <= i < |s'.verifications| ensures AcceptOk(s', s'.verifications[i]) {
      assert AcceptOk(s, s.verifications[i]);
    }
  }

  lemma InvStep(s: State, e: Event)
    requires Inv(s) && Enabled(s, e)
    ensures Inv(Step(s, e))
  {
    hide Inv, Step;
    if e.Begin? { InvBegin(s, e); } else { InvRespond(s, e); }
  }

  lemma {:induction false} InvRun(s: State, events: seq<Event>)
    requires Inv(s) && IsRun(s, events)
    ensures Inv(After(s, events))
    decreases |events|
  {
    hide Inv, Step, Enabled;
    if events != [] {
      InvStep(s, events[0]);
      InvRun(Step(s, events[0]), events[1..]);
    }
  }

  lemma ReachableInv(s: State)
    requires Reachable(s)
    ensures Inv(s)
  {
    hide Step, Enabled, IsRun, After;
    var ttl: int, events: seq<Event> :| IsRun(New(ttl), events) && After(New(ttl), events) == s;
    InvRun(New(ttl), events);
  }

  /**
   Every accepted identity was returned for that token by a request whose verification began
   less than thirty seconds earlier, and had not expired; and the cache stays within its limit.
   */
  lemma AcceptedWasVouchedFor(s: State, i: nat)
    requires Reachable(s) && i < |s.verifications| && s.verifications[i].Accepted?
    ensures var v := s.verifications[i];
            exists j :: 0 <= j < |s.answers| && s.answers[j].token == v.token && s.answers[j].identity == v.identity
                        && v.now - s.answers[j].begun < 30 * SECOND && v.now < v.identity.expiry
    ensures |s.cache| <= MAX_ENTRIES
  {
    ReachableInv(s);
    assert AcceptOk(s, s.verifications[i]);
  }

  // ---------------------------------------------------------------- agreement with the uncached verifier

  /** What the endpoint says about a token to a request begun at a time. */
  type Endpoint = (Digest, Time) -> Option<Identity>

  /** Every answer of the run is the endpoint's. */
  ghost predicate Faithful(s: State, endpoint: Endpoint, events: seq<Event>)
    requires IsRun(s, events)
    decreases |events|
  {
    events == [] ||
    ((events[0].Respond? ==>
        var v := s.verifications[events[0].i];
        events[0].answer == endpoint(v.token, v.now))
     && Faithful(Step(s, events[0]), endpoint, events[1..]))
  }

  /** Answers and decisions so far are what the endpoint said when asked. */
  ghost predicate Truthful(s: State, endpoint: Endpoint) {
    && (forall j :: 0 <= j < |s.answers| ==>
          endpoint(s.answers[j].token, s.answers[j].begun) == Some(s.answers[j].identity))
    && (forall i :: 0 <= i < |s.verifications| && s.verifications[i].Rejected? ==>
          Uncached(endpoint(s.verifications[i].token, s.verifications[i].now), s.verifications[i].now) == None)
  }

  lemma {:induction false} TruthfulRun(s: State, endpoint: Endpoint, events: seq<Event>)
    requires Truthful(s, endpoint) && IsRun(s, events) && Faithful(s, endpoint, events)
    ensures Truthful(After(s, events), endpoint)
    decreases |events|
  {
    hide Inserted, Hit, NeedsVictim, Swept;
    if events != [] { TruthfulRun(Step(s, events[0]), endpoint, events[1..]); }
  }

  /** Over the last thirty seconds the endpoint has not changed its mind about the token. */
  ghost predicate StableSince(s: State, endpoint: Endpoint, token: Digest, now: Time) {
    forall j :: 0 <= j < |s.answers| && s.answers[j].token == token && now - s.answers[j].begun < 30 * SECOND ==>
      endpoint(token, s.answers[j].begun) == endpoint(token, now)
  }

  /** Where the endpoint's answers are stable, the cached verifier decides as the uncached one would. */
  lemma CacheIsTransparent(ttl: int, endpoint: Endpoint, events: seq<Event>, i: nat)
    requires IsRun(New(ttl), events) && Faithful(New(ttl), endpoint, events)
    requires var s := After(New(ttl), events);
             i < |s.verifications| && !s.verifications[i].Asking?
             && StableSince(s, endpoint, s.verifications[i].token, s.verifications[i].now)
    ensures var v := After(New(ttl), events).verifications[i];
            Uncached(endpoint(v.token, v.now), v.now) == if v.Accepted? then Some(v.identity) else None
  {
    hide Step, Enabled, IsRun, After;
    var s := After(New(ttl), events);
    InvRun(New(ttl), events);
    TruthfulRun(New(ttl), endpoint, events);
    assert AcceptOk(s, s.verifications[i]);
  }
}
