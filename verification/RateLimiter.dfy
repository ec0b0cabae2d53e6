/**
 The token-bucket limiter of the pairing endpoints, with eviction of idle buckets.
 Times are seconds as reals and enter as arguments: the limiter reads the clock before it
 takes its lock, so successive times need not increase unless a statement says so.
*/
module RateLimiter {
  import opened Common

  type Key = string

  datatype Bucket = Bucket(tokens: real, last: real)

  type Buckets = map<Key, Bucket>

  datatype Config = Config(rate: real, burst: real)

  datatype Request = Request(key: Key, now: real)

  const MAX_BUCKETS: nat := 4096
  const IDLE: real := 1800.0

  /** The two configured limiters. */
  const PAIRING := Config(0.2, 5.0)
  const POLLING := Config(1.0, 10.0)

  function MinReal(a: real, b: real): real { if a > b then b else a }

  function Lookup(m: Buckets, k: Key): Option<Bucket> {
    if k in m then Some(m[k]) else None
  }

  /** The tokens earned between two times; negative when the clock was read out of order. */
  function Earned(rate: real, from: real, to: real): real {
    (to - from) * rate
  }

  lemma EarnedSplits(rate: real, from: real, to: real)
    ensures Earned(rate, from, to) == rate * to - rate * from
  {
  }

  lemma EarnedGrows(rate: real, from: real, to: real, span: real)
    requires rate >= 0.0 && to - from >= span
    ensures Earned(rate, from, to) >= rate * span
  {
    var extra := to - from - span;
    assert rate * extra >= 0.0;
    assert (to - from) * rate == rate * span + rate * extra;
  }

  /** The tokens available at `now`: a bucket never seen is full. */
  function Available(c: Config, b: Option<Bucket>, now: real): real {
    match b
    case None => c.burst
    case Some(b) => MinReal(b.tokens + Earned(c.rate, b.last, now), c.burst)
  }

  function Grants(c: Config, b: Option<Bucket>, now: real): bool {
    Available(c, b, now) >= 1.0
  }

  /** The bucket after a call. */
  function Charge(c: Config, b: Option<Bucket>, now: real): Bucket {
    var tokens := Available(c, b, now);
    Bucket(if tokens < 1.0 then tokens else tokens - 1.0, now)
  }

  /** The sweep: buckets last used before `cutoff` go. */
  function Prune(m: Buckets, cutoff: real): Buckets {
    map k | k in m && m[k].last >= cutoff :: m[k]
  }

  /** All buckets after a call: only a granted call sweeps, and only a crowded map. */
  function After(c: Config, m: Buckets, r: Request): Buckets {
    var charged := m[r.key := Charge(c, Lookup(m, r.key), r.now)];
    if Grants(c, Lookup(m, r.key), r.now) && |charged| > MAX_BUCKETS then Prune(charged, r.now - IDLE) else charged
  }

  class IpLimiter {
    const config: Config
    var buckets: Buckets

    constructor (rate: real, burst: int)
      ensures config == Config(rate, burst as real) && buckets == map[]
    {
      config := Config(rate, burst as real);
      buckets := map[];
    }

    method Allow(key: Key, now: real) returns (granted: bool)
      modifies this
      ensures granted == Grants(config, Lookup(old(buckets), key), now)
      ensures buckets == After(config, old(buckets), Request(key, now))
    {
      hide Earned, Prune;
      var tokens := config.burst;
      if key in buckets {
        tokens := buckets[key].tokens + Earned(config.rate, buckets[key].last, now);
        if tokens > config.burst { tokens := config.burst; }
      }
      if tokens < 1.0 {
        buckets := buckets[key := Bucket(tokens, now)];
        return false;
      }
      buckets := buckets[key := Bucket(tokens - 1.0, now)];
      if |buckets| > MAX_BUCKETS {
        Sweep(now - IDLE);
      }
      return true;
    }

    /** The loop that deletes while it ranges over the map. */
    method Sweep(cutoff: real)
      modifies this
      ensures buckets == Prune(old(buckets), cutoff)
    {
      var before := buckets;
      var todo := before.Keys;
      while todo != {}
        invariant todo <= before.Keys
        invariant buckets == map k | k in before && (k in todo || before[k].last >= cutoff) :: before[k]
        decreases |todo|
      {
        var k :| k in todo;
        todo := todo - {k};
        if before[k].last < cutoff {
          buckets := buckets - {k};
        }
      }
    }
  }

  // ---------------------------------------------------------------- the rate bound

  /** The bucket of `k` is there after every call. */
  ghost predicate Kept(c: Config, m: Buckets, k: Key, calls: seq<Request>)
    decreases |calls|
  {
    k in m && (calls == [] || Kept(c, After(c, m, calls[0]), k, calls[1..]))
  }

  function Final(c: Config, m: Buckets, calls: seq<Request>): Buckets
    decreases |calls|
  {
    if calls == [] then m else Final(c, After(c, m, calls[0]), calls[1..])
  }

  function GrantCount(c: Config, m: Buckets, k: Key, calls: seq<Request>): nat
    decreases |calls|
  {
    if calls == [] then 0
    else (if calls[0].key == k && Grants(c, Lookup(m, k), calls[0].now) then 1 else 0)
         + GrantCount(c, After(c, m, calls[0]), k, calls[1..])
  }

  /** Tokens not yet earned: no call raises it, whatever its clock says, and a grant costs one. */
  function Potential(c: Config, b: Bucket): real {
    b.tokens - c.rate * b.last
  }

  /** A call touches only its own bucket; a sweep only deletes. */
  lemma AfterAt(c: Config, m: Buckets, k: Key, r: Request)
    requires k in After(c, m, r)
    ensures r.key == k ==> After(c, m, r)[k] == Charge(c, Lookup(m, k), r.now)
    ensures r.key != k ==> k in m && After(c, m, r)[k] == m[k]
  {
    hide Charge, Grants;
  }

  lemma PotentialStep(c: Config, m: Buckets, k: Key, r: Request)
    requires k in m && k in After(c, m, r)
    ensures Potential(c, After(c, m, r)[k]) <=
            Potential(c, m[k]) - (if r.key == k && Grants(c, Lookup(m, k), r.now) then 1.0 else 0.0)
  {
    hide Earned, After;
    AfterAt(c, m, k, r);
    EarnedSplits(c.rate, m[k].last, r.now);
  }

  lemma {:induction false} PotentialFalls(c: Config, m: Buckets, k: Key, calls: seq<Request>)
    requires Kept(c, m, k, calls)
    ensures k in Final(c, m, calls)
    ensures Potential(c, Final(c, m, calls)[k]) <= Potential(c, m[k]) - GrantCount(c, m, k, calls) as real
    decreases |calls|
  {
    hide After, Potential, Grants;
    if calls != [] {
      PotentialStep(c, m, k, calls[0]);
      PotentialFalls(c, After(c, m, calls[0]), k, calls[1..]);
    }
  }

  /** After a granted call the bucket is not overdrawn and is stamped with the call's time. */
  lemma {:induction false} LastGrant(c: Config, m: Buckets, k: Key, calls: seq<Request>)
    requires calls != [] && Kept(c, m, k, calls)
    requires var last := calls[|calls| - 1];
             last.key == k && Grants(c, Lookup(Final(c, m, calls[..|calls| - 1]), k), last.now)
    ensures k in Final(c, m, calls)
    ensures Final(c, m, calls)[k].tokens >= 0.0 && Final(c, m, calls)[k].last == calls[|calls| - 1].now
    decreases |calls|
  {
    if |calls| == 1 {
      assert calls[..0] == [] && calls[1..] == [];
    } else {
      var tail := calls[1..];
      assert calls[..|calls| - 1][1..] == tail[..|tail| - 1] && calls[..|calls| - 1][0] == calls[0];
      LastGrant(c, After(c, m, calls[0]), k, tail);
    }
  }

  /**
   From a granted call at time s to a granted call at time t, with the bucket not evicted in
   between, at most burst + rate * (t - s) calls are granted, in whatever order clocks were read.
   */
  lemma RateBound(c: Config, m: Buckets, k: Key, first: Request, rest: seq<Request>)
    requires first.key == k && Grants(c, Lookup(m, k), first.now)
    requires Kept(c, After(c, m, first), k, rest)
    requires rest != [] ==>
               var last := rest[|rest| - 1];
               last.key == k && Grants(c, Lookup(Final(c, After(c, m, first), rest[..|rest| - 1]), k), last.now)
    ensures var t := if rest == [] then first.now else rest[|rest| - 1].now;
            GrantCount(c, m, k, [first] + rest) as real <= c.burst + c.rate * (t - first.now)
  {
    hide After, Kept, Final, Grants;
    var m1 := After(c, m, first);
    assert ([first] + rest)[1..] == rest && ([first] + rest)[0] == first;
    FirstGrant(c, m, first);
    if rest == [] {
      assert c.rate * (first.now - first.now) == 0.0;
    } else {
      KeptHas(c, m1, k, rest);
      PotentialFalls(c, m1, k, rest);
      LastGrant(c, m1, k, rest);
      AfterAt(c, m, k, first);
      var s, t := first.now, rest[|rest| - 1].now;
      assert c.rate * (t - s) == c.rate * t - c.rate * s;
    }
  }

  lemma FirstGrant(c: Config, m: Buckets, r: Request)
    requires Grants(c, Lookup(m, r.key), r.now)
    ensures c.burst >= 1.0
    ensures Charge(c, Lookup(m, r.key), r.now).tokens <= c.burst - 1.0
            && Charge(c, Lookup(m, r.key), r.now).last == r.now
  {
    hide Earned;
  }

  lemma KeptHas(c: Config, m: Buckets, k: Key, calls: seq<Request>)
    requires Kept(c, m, k, calls)
    ensures k in m
  {
  }

  // ---------------------------------------------------------------- patient callers

  /** Calls on `k` come at least one token's worth of time after the previous one. */
  ghost predicate Spaced(c: Config, k: Key, calls: seq<Request>, previous: Option<real>)
    decreases |calls|
  {
    calls == [] ||
    (if calls[0].key == k then
       (previous.Some? ==> Earned(c.rate, previous.value, calls[0].now) >= 1.0)
         && Spaced(c, k, calls[1..], Some(calls[0].now))
     else Spaced(c, k, calls[1..], previous))
  }

  /** Every call on `k` is granted. */
  ghost predicate AllGranted(c: Config, m: Buckets, k: Key, calls: seq<Request>)
    decreases |calls|
  {
    calls == [] ||
    ((calls[0].key == k ==> Grants(c, Lookup(m, k), calls[0].now))
     && AllGranted(c, After(c, m, calls[0]), k, calls[1..]))
  }

  /** A caller spaced by at least 1/rate is never refused, whatever others do and whatever is evicted. */
  lemma {:induction false} SpacedNeverRefused(c: Config, m: Buckets, k: Key, calls: seq<Request>,
                                              previous: Option<real>)
    requires c.burst >= 1.0 && Spaced(c, k, calls, previous)
    requires k in m ==> previous == Some(m[k].last) && m[k].tokens >= 0.0
    ensures AllGranted(c, m, k, calls)
    decreases |calls|
  {
    hide Earned, After;
    if calls != [] {
      var next := if calls[0].key == k then Some(calls[0].now) else previous;
      if k in After(c, m, calls[0]) { AfterAt(c, m, k, calls[0]); }
      SpacedNeverRefused(c, After(c, m, calls[0]), k, calls[1..], next);
    }
  }

  // ---------------------------------------------------------------- eviction is unobservable

  /** The decisions on `k`, in order. */
  function Decisions(c: Config, m: Buckets, k: Key, calls: seq<Request>): seq<bool>
    decreases |calls|
  {
    if calls == [] then []
    else (if calls[0].key == k then [Grants(c, Lookup(m, k), calls[0].now)] else [])
         + Decisions(c, After(c, m, calls[0]), k, calls[1..])
  }

  /** A single bucket that is never deleted and sees only its own calls. */
  function Alone(c: Config, b: Option<Bucket>, k: Key, calls: seq<Request>): seq<bool>
    decreases |calls|
  {
    if calls == [] then []
    else if calls[0].key == k then
      [Grants(c, b, calls[0].now)] + Alone(c, Some(Charge(c, b, calls[0].now)), k, calls[1..])
    else Alone(c, b, k, calls[1..])
  }

  /** A bucket idle long enough to be evicted would be full again. */
  predicate Refills(c: Config) {
    c.rate >= 0.0 && c.burst >= 0.0 && c.rate * IDLE >= c.burst
  }

  /** The map's bucket is the private one, or the private one is full again by now. */
  ghost predicate Agree(c: Config, held: Option<Bucket>, own: Option<Bucket>, now: real) {
    && (own.Some? ==> own.value.tokens >= 0.0 && own.value.last <= now)
    && (held == own || (held.None? && own.Some? && own.value.last < now - IDLE))
  }

  lemma AgreeDecides(c: Config, held: Option<Bucket>, own: Option<Bucket>, now: real)
    requires Refills(c) && Agree(c, held, own, now)
    ensures Available(c, held, now) == Available(c, own, now)
  {
    hide Earned;
    if held != own {
      var b := own.value;
      EarnedGrows(c.rate, b.last, now, IDLE);
    }
  }

  lemma AgreeStep(c: Config, m: Buckets, own: Option<Bucket>, k: Key, r: Request)
    requires Refills(c) && Agree(c, Lookup(m, k), own, r.now)
    ensures Agree(c, Lookup(After(c, m, r), k), if r.key == k then Some(Charge(c, own, r.now)) else own, r.now)
  {
    hide Earned;
    if r.key == k {
      AgreeDecides(c, Lookup(m, k), own, r.now);
      if own.Some? { EarnedGrows(c.rate, own.value.last, r.now, 0.0); }
    }
  }

  predicate Ordered(calls: seq<Request>) {
    forall i, j :: 0 <= i < j < |calls| ==> calls[i].now <= calls[j].now
  }

  lemma {:induction false} AgreeRun(c: Config, m: Buckets, own: Option<Bucket>, k: Key, calls: seq<Request>)
    requires Refills(c)
    requires Ordered(calls) && (calls != [] ==> Agree(c, Lookup(m, k), own, calls[0].now))
    ensures Decisions(c, m, k, calls) == Alone(c, own, k, calls)
    decreases |calls|
  {
    if calls != [] {
      var r, rest := calls[0], calls[1..];
      AgreeDecides(c, Lookup(m, k), own, r.now);
      AgreeStep(c, m, own, k, r);
      AgreeRun(c, After(c, m, r), if r.key == k then Some(Charge(c, own, r.now)) else own, k, rest);
    }
  }

  /**
   With clocks in order and idle buckets refilled before they may go, the decisions on a key
   are those of a bucket that is never evicted and never hears of any other key.
   */
  lemma EvictionIsUnobservable(c: Config, k: Key, calls: seq<Request>)
    requires Refills(c) && Ordered(calls)
    ensures Decisions(c, map[], k, calls) == Alone(c, None, k, calls)
  {
    AgreeRun(c, map[], None, k, calls);
  }

  /** Both configured limiters are within the condition. */
  lemma ConfiguredLimitersQualify()
    ensures Refills(PAIRING) && Refills(POLLING)
  {
  }

  function CallsOn(k: Key, calls: seq<Request>): seq<Request>
    decreases |calls|
  {
    if calls == [] then [] else (if calls[0].key == k then [calls[0]] else []) + CallsOn(k, calls[1..])
  }

  lemma {:induction false} AloneIgnoresOthers(c: Config, b: Option<Bucket>, k: Key, calls: seq<Request>)
    ensures Alone(c, b, k, calls) == Alone(c, b, k, CallsOn(k, calls))
    decreases |calls|
  {
    if calls != [] {
      var next := if calls[0].key == k then Some(Charge(c, b, calls[0].now)) else b;
      AloneIgnoresOthers(c, next, k, calls[1..]);
      if calls[0].key == k { assert CallsOn(k, calls)[1..] == CallsOn(k, calls[1..]); }
      else { assert [] + CallsOn(k, calls[1..]) == CallsOn(k, calls[1..]); }
    }
  }

  /** Calls on other keys never change the decisions on this one. */
  lemma KeysAreIndependent(c: Config, k: Key, calls: seq<Request>, others: seq<Request>)
    requires Refills(c)
    requires Ordered(calls) && Ordered(others) && CallsOn(k, calls) == CallsOn(k, others)
    ensures Decisions(c, map[], k, calls) == Decisions(c, map[], k, others)
  {
    EvictionIsUnobservable(c, k, calls);
    EvictionIsUnobservable(c, k, others);
    AloneIgnoresOthers(c, None, k, calls);
    AloneIgnoresOthers(c, None, k, others);
  }

  // ---------------------------------------------------------------- exactly who is never refused

  /** A bucket of its own grants calls at all these times. */
  ghost predicate GrantsAll(c: Config, b: Option<Bucket>, calls: seq<Request>)
    decreases |calls|
  {
    calls == [] || (Grants(c, b, calls[0].now) && GrantsAll(c, Some(Charge(c, b, calls[0].now)), calls[1..]))
  }

  /** No stretch of these calls, from the i-th to the j-th, outruns the burst and what is earned meanwhile. */
  ghost predicate Within(c: Config, calls: seq<Request>) {
    forall i, j :: 0 <= i <= j < |calls| ==> (j - i + 1) as real <= c.burst + Earned(c.rate, calls[i].now, calls[j].now)
  }

  /** Nor do they outrun what this bucket holds. */
  ghost predicate Covered(c: Config, b: Bucket, calls: seq<Request>) {
    forall j :: 0 <= j < |calls| ==> (j + 1) as real <= b.tokens + Earned(c.rate, b.last, calls[j].now)
  }

  lemma EarnedAdds(rate: real, a: real, b: real, c: real)
    ensures Earned(rate, a, b) + Earned(rate, b, c) == Earned(rate, a, c)
  {
    EarnedSplits(rate, a, b);
    EarnedSplits(rate, b, c);
    EarnedSplits(rate, a, c);
  }

  /** Being within bounds splits into the first call's stretches and those of the rest. */
  lemma WithinSplits(c: Config, calls: seq<Request>)
    requires calls != []
    ensures Within(c, calls) <==>
            Within(c, calls[1..]) && Covered(c, Bucket(c.burst, calls[0].now), calls)
  {
    hide Earned;
    var rest := calls[1..];
    if Within(c, calls) {
      forall i, j | 0 <= i <= j < |rest|
        ensures (j - i + 1) as real <= c.burst + Earned(c.rate, rest[i].now, rest[j].now)
      {
        assert rest[i] == calls[i + 1] && rest[j] == calls[j + 1];
      }
    }
    if Within(c, rest) && Covered(c, Bucket(c.burst, calls[0].now), calls) {
      forall i, j | 0 <= i <= j < |calls|
        ensures (j - i + 1) as real <= c.burst + Earned(c.rate, calls[i].now, calls[j].now)
      {
        if i > 0 { assert rest[i - 1] == calls[i] && rest[j - 1] == calls[j]; }
      }
    }
  }

  /** What a bucket covers from its first call on: that call, and the rest out of what it leaves. */
  lemma CoveredSplits(c: Config, held: real, calls: seq<Request>)
    requires calls != []
    ensures Covered(c, Bucket(held, calls[0].now), calls) <==>
            held >= 1.0 && Covered(c, Bucket(held - 1.0, calls[0].now), calls[1..])
  {
    var t := calls[0].now;
    assert Earned(c.rate, t, t) == 0.0;
    hide Earned;
    var rest := calls[1..];
    if Covered(c, Bucket(held, t), calls) {
      assert (0 + 1) as real <= held + Earned(c.rate, t, calls[0].now);
      forall j | 0 <= j < |rest| ensures (j + 1) as real <= held - 1.0 + Earned(c.rate, t, rest[j].now) {
        assert rest[j] == calls[j + 1] && (j + 1 + 1) as real == (j + 1) as real + 1.0;
      }
    }
    if held >= 1.0 && Covered(c, Bucket(held - 1.0, t), rest) {
      forall j | 0 <= j < |calls| ensures (j + 1) as real <= held + Earned(c.rate, t, calls[j].now) {
        if j > 0 { assert rest[j - 1] == calls[j] && (j + 1) as real == (j - 1 + 1) as real + 1.0; }
      }
    }
  }

  /** A bucket seen at the time of a call, before the cap. */
  lemma CoveredLater(c: Config, b: Bucket, now: real, calls: seq<Request>)
    ensures Covered(c, b, calls) <==> Covered(c, Bucket(b.tokens + Earned(c.rate, b.last, now), now), calls)
  {
    hide Earned;
    forall j | 0 <= j < |calls|
      ensures Earned(c.rate, b.last, now) + Earned(c.rate, now, calls[j].now) == Earned(c.rate, b.last, calls[j].now)
    {
      EarnedAdds(c.rate, b.last, now, calls[j].now);
    }
  }

  lemma CoveredByLesser(c: Config, x: real, y: real, now: real, calls: seq<Request>)
    ensures Covered(c, Bucket(MinReal(x, y), now), calls) <==>
              Covered(c, Bucket(x, now), calls) && Covered(c, Bucket(y, now), calls)
  {
    hide Earned;
  }

  lemma {:induction false} GrantsExactly(c: Config, b: Option<Bucket>, calls: seq<Request>)
    ensures GrantsAll(c, b, calls) <==> Within(c, calls) && (b.Some? ==> Covered(c, b.value, calls))
    decreases |calls|
  {
    if calls != [] {
      var now, rest := calls[0].now, calls[1..];
      var available := Available(c, b, now);
      WithinSplits(c, calls);
      CoveredSplits(c, available, calls);
      if b.Some? {
        CoveredLater(c, b.value, now, calls);
        CoveredByLesser(c, b.value.tokens + Earned(c.rate, b.value.last, now), c.burst, now, calls);
      }
      hide Earned, Within, Covered;
      if available >= 1.0 { GrantsExactly(c, Some(Charge(c, b, now)), rest); }
    }
  }

  /** The same calls, on a key of the map. */
  lemma {:induction false} GrantedAlone(c: Config, m: Buckets, own: Option<Bucket>, k: Key, calls: seq<Request>)
    requires Refills(c)
    requires Ordered(calls) && (calls != [] ==> Agree(c, Lookup(m, k), own, calls[0].now))
    ensures AllGranted(c, m, k, calls) <==> GrantsAll(c, own, CallsOn(k, calls))
    decreases |calls|
  {
    hide Refills, Available, Charge, Earned;
    if calls != [] {
      var r, rest := calls[0], calls[1..];
      AgreeDecides(c, Lookup(m, k), own, r.now);
      AgreeStep(c, m, own, k, r);
      GrantedAlone(c, After(c, m, r), if r.key == k then Some(Charge(c, own, r.now)) else own, k, rest);
      hide Agree, After;
      if r.key == k { assert CallsOn(k, calls)[1..] == CallsOn(k, rest); }
      else { assert [] + CallsOn(k, rest) == CallsOn(k, rest); }
    }
  }

  /**
   The law of the bucket.  With clocks in order, all calls on a new key are granted exactly when
   every stretch of them, from the i-th to the j-th, numbers at most burst + rate * (t_j - t_i).
   */
  lemma GrantedExactly(c: Config, m: Buckets, k: Key, calls: seq<Request>)
    requires Refills(c) && Ordered(calls) && k !in m
    ensures AllGranted(c, m, k, calls) <==> Within(c, CallsOn(k, calls))
  {
    GrantedAlone(c, m, None, k, calls);
    GrantsExactly(c, None, CallsOn(k, calls));
  }

  // ---------------------------------------------------------------- the agent's polling

  const INTERVAL: real := 3.0
  const MAX_DELAY: real := 24.0

  /**
   The polls of one agent: each takes a tick, ticks are an interval apart, and the ticker holds
   one tick at most, so a tick is newer than the poll before the one that takes it.
   */
  ghost predicate Ticked(ticks: seq<real>, sent: seq<real>) {
    && |ticks| == |sent|
    && (forall i :: 0 <= i < |sent| ==> ticks[i] <= sent[i])
    && (forall i :: 0 < i < |sent| ==> sent[i - 1] <= ticks[i] && ticks[i - 1] + INTERVAL <= ticks[i])
  }

  /** Each poll is charged some time after it is sent. */
  ghost predicate Charged(sent: seq<real>, calls: seq<Request>) {
    |calls| == |sent| && forall i :: 0 <= i < |sent| ==> sent[i] <= calls[i].now <= sent[i] + MAX_DELAY
  }

  lemma {:induction false} TicksApart(ticks: seq<real>, sent: seq<real>, i: nat, j: nat)
    requires Ticked(ticks, sent) && i <= j < |sent|
    ensures ticks[i] + (j - i) as real * INTERVAL <= ticks[j]
    decreases j - i
  {
    if i < j { TicksApart(ticks, sent, i, j - 1); }
  }

  /** One poll an interval, plus the tick that was pending. */
  lemma PollsApart(ticks: seq<real>, sent: seq<real>, i: nat, j: nat)
    requires Ticked(ticks, sent) && i < j < |sent|
    ensures sent[i] + (j - i - 1) as real * INTERVAL <= sent[j]
  {
    TicksApart(ticks, sent, i + 1, j);
  }

  lemma PollsWithin(ticks: seq<real>, sent: seq<real>, calls: seq<Request>, i: nat, j: nat)
    requires Ticked(ticks, sent) && Charged(sent, calls) && i <= j < |calls| && calls[i].now <= calls[j].now
    ensures (j - i + 1) as real <= POLLING.burst + Earned(POLLING.rate, calls[i].now, calls[j].now)
  {
    var n, elapsed := (j - i - 1) as real, calls[j].now - calls[i].now;
    assert Earned(POLLING.rate, calls[i].now, calls[j].now) == elapsed;
    if i < j {
      PollsApart(ticks, sent, i, j);
      assert n * 3.0 <= elapsed + MAX_DELAY;
      assert (j - i + 1) as real == n + 2.0;
    }
  }

  lemma {:induction false} CallsOnOrdered(k: Key, calls: seq<Request>)
    requires Ordered(calls)
    ensures Ordered(CallsOn(k, calls)) && (forall r :: r in CallsOn(k, calls) ==> r in calls)
    decreases |calls|
  {
    if calls != [] {
      var rest := CallsOn(k, calls[1..]);
      CallsOnOrdered(k, calls[1..]);
      if calls[0].key == k {
        var own := [calls[0]] + rest;
        forall i, j | 0 <= i < j < |own| ensures own[i].now <= own[j].now {
          assert own[j] == rest[j - 1] && own[j] in calls[1..];
          if i > 0 { assert own[i] == rest[i - 1]; }
        }
      } else {
        assert CallsOn(k, calls) == rest;
      }
    }
  }

  /**
   An agent that polls from its ticker is never told to slow down, even when slow polls make the
   next ones follow at once and each reaches the limiter up to twenty-four seconds late.
   */
  lemma PollingNeverRefused(m: Buckets, k: Key, calls: seq<Request>, ticks: seq<real>, sent: seq<real>)
    requires k !in m && Ordered(calls) && Ticked(ticks, sent) && Charged(sent, CallsOn(k, calls))
    ensures AllGranted(POLLING, m, k, calls)
  {
    hide AllGranted, Ticked, Charged, Earned;
    var own := CallsOn(k, calls);
    CallsOnOrdered(k, calls);
    forall i, j | 0 <= i <= j < |own|
      ensures (j - i + 1) as real <= POLLING.burst + Earned(POLLING.rate, own[i].now, own[j].now)
    {
      PollsWithin(ticks, sent, own, i, j);
    }
    GrantedExactly(POLLING, m, k, calls);
  }

  // ---------------------------------------------------------------- every single decision

  /** How many of these calls were granted. */
  function Granted(decisions: seq<bool>): nat {
    if decisions == [] then 0 else (if decisions[0] then 1 else 0) + Granted(decisions[1..])
  }

  /** From every call up to the `j`-th, what was granted since and itself are covered by burst and earnings. */
  ghost predicate Fits(c: Config, own: seq<Request>, decisions: seq<bool>, j: nat)
    requires j < |own| == |decisions|
  {
    forall i :: 0 <= i <= j ==>
      (Granted(decisions[i..j]) + 1) as real <= c.burst + Earned(c.rate, own[i].now, own[j].now)
  }

  /** It fits what this bucket holds, too. */
  ghost predicate Affords(c: Config, b: Bucket, own: seq<Request>, decisions: seq<bool>, j: nat)
    requires j < |own| == |decisions|
  {
    (Granted(decisions[..j]) + 1) as real <= b.tokens + Earned(c.rate, b.last, own[j].now)
  }

  lemma SliceLater(decisions: seq<bool>, i: nat, j: nat)
    requires i + 1 <= j <= |decisions|
    ensures decisions[i + 1..j] == decisions[1..][i..j - 1]
  {
    var a, b := decisions[i + 1..j], decisions[1..][i..j - 1];
    forall k | 0 <= k < |a| ensures a[k] == b[k] { }
  }

  lemma FitsSplits(c: Config, own: seq<Request>, decisions: seq<bool>, j: nat)
    requires 0 < j < |own| == |decisions|
    ensures Fits(c, own, decisions, j) <==>
              Fits(c, own[1..], decisions[1..], j - 1) && Affords(c, Bucket(c.burst, own[0].now), own, decisions, j)
  {
    hide Earned;
    var later, rest := own[1..], decisions[1..];
    assert later[j - 1] == own[j] && decisions[0..j] == decisions[..j];
    if Fits(c, own, decisions, j) {
      forall i | 0 <= i <= j - 1
        ensures (Granted(rest[i..j - 1]) + 1) as real <= c.burst + Earned(c.rate, later[i].now, later[j - 1].now)
      {
        SliceLater(decisions, i, j);
        assert (Granted(decisions[i + 1..j]) + 1) as real <= c.burst + Earned(c.rate, own[i + 1].now, own[j].now);
      }
      assert (Granted(decisions[0..j]) + 1) as real <= c.burst + Earned(c.rate, own[0].now, own[j].now);
    }
    if Fits(c, later, rest, j - 1) && Affords(c, Bucket(c.burst, own[0].now), own, decisions, j) {
      forall i | 0 <= i <= j
        ensures (Granted(decisions[i..j]) + 1) as real <= c.burst + Earned(c.rate, own[i].now, own[j].now)
      {
        if i > 0 {
          SliceLater(decisions, i - 1, j);
          assert (Granted(rest[i - 1..j - 1]) + 1) as real
                 <= c.burst + Earned(c.rate, later[i - 1].now, later[j - 1].now);
        }
      }
    }
  }

  /** After the first call the bucket is what was available, less a token if that was granted. */
  lemma AffordsAfter(c: Config, b: Option<Bucket>, own: seq<Request>, decisions: seq<bool>, j: nat)
    requires 0 < j < |own| == |decisions| && decisions[0] == Grants(c, b, own[0].now)
    ensures Affords(c, Charge(c, b, own[0].now), own[1..], decisions[1..], j - 1) <==>
              && Affords(c, Bucket(c.burst, own[0].now), own, decisions, j)
              && (b.Some? ==> Affords(c, b.value, own, decisions, j))
  {
    hide Earned;
    assert decisions[..j][1..] == decisions[1..][..j - 1] && decisions[..j][0] == decisions[0];
    if b.Some? { EarnedAdds(c.rate, b.value.last, own[0].now, own[j].now); }
  }

  lemma {:induction false} DecidedByBucket(c: Config, b: Option<Bucket>, k: Key, own: seq<Request>, j: nat)
    requires j < |own| && forall r :: r in own ==> r.key == k
    ensures var decisions := Alone(c, b, k, own);
            && |decisions| == |own|
            && (decisions[j] <==> Fits(c, own, decisions, j) && (b.Some? ==> Affords(c, b.value, own, decisions, j)))
    decreases |own|
  {
    var decisions := Alone(c, b, k, own);
    var next := Charge(c, b, own[0].now);
    assert own[0] in own;
    assert decisions == [Grants(c, b, own[0].now)] + Alone(c, Some(next), k, own[1..]);
    assert decisions[1..] == Alone(c, Some(next), k, own[1..]);
    AloneIsOwn(c, Some(next), k, own[1..]);
    if j == 0 {
      assert Granted(decisions[0..0]) == 0 && decisions[..0] == [] && Earned(c.rate, own[0].now, own[0].now) == 0.0;
      assert Fits(c, own, decisions, 0) <==> 1.0 <= c.burst;
    } else {
      assert own[1..][j - 1] == own[j];
      DecidedByBucket(c, Some(next), k, own[1..], j - 1);
      FitsSplits(c, own, decisions, j);
      AffordsAfter(c, b, own, decisions, j);
    }
  }

  lemma {:induction false} AloneIsOwn(c: Config, b: Option<Bucket>, k: Key, own: seq<Request>)
    requires forall r :: r in own ==> r.key == k
    ensures |Alone(c, b, k, own)| == |own|
    decreases |own|
  {
    if own != [] {
      assert own[0] in own;
      AloneIsOwn(c, Some(Charge(c, b, own[0].now)), k, own[1..]);
    }
  }

  lemma {:induction false} CallsOnKey(k: Key, calls: seq<Request>)
    ensures forall r :: r in CallsOn(k, calls) ==> r.key == k
    decreases |calls|
  {
    if calls != [] { CallsOnKey(k, calls[1..]); }
  }

  /** The calls granted from the `i`-th on and the `j`-th are covered by the burst and what is earned in between. */
  predicate CoveredFrom(c: Config, own: seq<Request>, decisions: seq<bool>, i: nat, j: nat)
    requires i <= j < |own| == |decisions|
  {
    (Granted(decisions[i..j]) + 1) as real <= c.burst + c.rate * (own[j].now - own[i].now)
  }

  lemma CoveredIsEarned(c: Config, own: seq<Request>, decisions: seq<bool>, i: nat, j: nat)
    requires i <= j < |own| == |decisions|
    ensures CoveredFrom(c, own, decisions, i, j) <==>
              (Granted(decisions[i..j]) + 1) as real <= c.burst + Earned(c.rate, own[i].now, own[j].now)
  {
    EarnedIs(c.rate, own[i].now, own[j].now);
    hide Earned;
  }

  lemma EarnedIs(rate: real, from: real, to: real)
    ensures Earned(rate, from, to) == rate * (to - from)
  {
  }

  lemma FitsIsCovered(c: Config, own: seq<Request>, decisions: seq<bool>, j: nat)
    requires j < |own| == |decisions|
    ensures Fits(c, own, decisions, j) <==> forall i :: 0 <= i <= j ==> CoveredFrom(c, own, decisions, i, j)
  {
    hide Earned, CoveredFrom;
    forall i | 0 <= i <= j
      ensures CoveredFrom(c, own, decisions, i, j) <==>
                (Granted(decisions[i..j]) + 1) as real <= c.burst + Earned(c.rate, own[i].now, own[j].now)
    {
      CoveredIsEarned(c, own, decisions, i, j);
    }
  }

  /**
   The law of every decision, refused calls among them.  With clocks in order, a call on a new
   key is granted exactly when, from every call on the key up to it, the calls granted since and
   itself number at most burst + rate * the time between the two.
   */
  lemma DecidedExactly(c: Config, m: Buckets, k: Key, calls: seq<Request>, j: nat)
    requires Refills(c) && Ordered(calls) && k !in m && j < |CallsOn(k, calls)|
    ensures var own, decisions := CallsOn(k, calls), Decisions(c, m, k, calls);
            && |decisions| == |own|
            && (decisions[j] <==> forall i :: 0 <= i <= j ==> CoveredFrom(c, own, decisions, i, j))
  {
    hide Alone, Decisions, Refills, Fits, CoveredFrom, Earned, Affords;
    var own := CallsOn(k, calls);
    CallsOnKey(k, calls);
    AgreeRun(c, m, None, k, calls);
    AloneIgnoresOthers(c, None, k, calls);
    DecidedByBucket(c, None, k, own, j);
    FitsIsCovered(c, own, Decisions(c, m, k, calls), j);
  }

  /** A sweep leaves no bucket that has been idle for half an hour, and every other one as it is. */
  lemma SweptOfIdle(c: Config, m: Buckets, r: Request)
    ensures var after, charged := After(c, m, r), m[r.key := Charge(c, Lookup(m, r.key), r.now)];
            && (forall k :: k in after ==> k in charged && after[k] == charged[k])
            && (Grants(c, Lookup(m, r.key), r.now) && |charged| > 4096 ==>
                  forall k :: k in charged ==> (k in after <==> charged[k].last >= r.now - 1800.0))
            && (!Grants(c, Lookup(m, r.key), r.now) || |charged| <= 4096 ==> after == charged)
  {
    hide Charge, Grants;
  }
}
