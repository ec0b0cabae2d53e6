/** Search sessions: paging over results that are still arriving, and the bound on running searches. */
module SearchSessions {
  import opened Common

  datatype Match = Match(path: seq<string>, line: nat, column: nat, preview: string, kind: string)

  /** One page: its results, whether the search is over and delivered, and the count so far. */
  datatype Page = Page(results: seq<Match>, done: bool, total: nat)

  /** How much one fetch gives at most: a hundred results unless told otherwise, and never above five hundred. */
  function PageLimit(limit: int): (r: nat)
    ensures 0 < r <= 500 && (1 <= limit <= 500 ==> r == limit) && (limit > 500 ==> r == 500) && (limit < 1 ==> r == 100)
  {
    if limit <= 0 then 100 else if limit > 500 then 500 else limit
  }

  /** The steps on a session, each under its lock: the walk adds and ends, clients fetch. */
  datatype Op = Added(v: Match) | Ended | Fetch(limit: int)

  /** The steps of a walk that finds these results. */
  function Adding(results: seq<Match>): (r: seq<Op>)
    ensures |r| == |results|
  {
    seq(|results|, i requires 0 <= i < |results| => Added(results[i]))
  }

  /** `walked` is the history of what the walk has done to the session. */
  class Session {
    var results: seq<Match>
    var next: nat
    var done: bool
    ghost var walked: seq<Op>

    ghost predicate Valid()
      reads this
    {
      next <= |results| && walked == Adding(results) + (if done then [Ended] else [])
    }

    constructor ()
      ensures Valid() && results == [] && next == 0 && !done
    {
      results, next, done, walked := [], 0, false, [];
    }

    method Add(v: Match)
      requires Valid() && !done
      modifies `results, `walked
      ensures Valid() && results == old(results) + [v]
    {
      results := results + [v];
      walked := walked + [Added(v)];
    }

    method Count() returns (n: nat)
      ensures n == |results|
    {
      n := |results|;
    }

    method Finish()
      requires Valid() && !done
      modifies `done, `walked
      ensures Valid() && done
    {
      done := true;
      walked := walked + [Ended];
    }

    method GetMore(limit: int) returns (page: Page)
      requires Valid()
      modifies `next
      ensures Valid() && next == Min(old(next) + PageLimit(limit), |results|)
      ensures page == Page(results[old(next)..next], done && next == |results|, |results|)
      ensures var size := if 1 <= limit <= 500 then limit else if limit > 500 then 500 else 100;
              |page.results| == if |results| - old(next) < size then |results| - old(next) else size
    {
      var n := limit;
      if n <= 0 { n := 100; }
      if n > 500 { n := 500; }
      var end := next + n;
      if end > |results| { end := |results|; }
      var out := results[next..end];
      next := end;
      page := Page(out, done && next >= |results|, |results|);
    }
  }

  // ---------------------------------------------------------------- paging over every interleaving

  datatype Paging = Paging(results: seq<Match>, next: nat, done: bool, pages: seq<Page>)

  /** The walk adds nothing after it has ended. */
  predicate Enabled(s: Paging, op: Op) {
    op.Added? || op.Ended? ==> !s.done
  }

  function Apply(s: Paging, op: Op): Paging
    requires s.next <= |s.results|
  {
    match op
    case Added(v) => s.(results := s.results + [v])
    case Ended => s.(done := true)
    case Fetch(limit) =>
      var end := Min(s.next + PageLimit(limit), |s.results|);
      s.(next := end, pages := s.pages + [Page(s.results[s.next..end], s.done && end == |s.results|, |s.results|)])
  }

  function Delivered(pages: seq<Page>): seq<Match>
    decreases |pages|
  {
    if pages == [] then [] else Delivered(pages[..|pages| - 1]) + pages[|pages| - 1].results
  }

  /** A page that says done: the walk has ended, all is delivered, and so says every later page, empty. */
  ghost predicate DoneOk(s: Paging) {
    && (forall i :: 0 <= i < |s.pages| && s.pages[i].done ==> s.done && s.next == |s.results|)
    && (forall i, j :: 0 <= i < j < |s.pages| && s.pages[i].done ==> s.pages[j].done && s.pages[j].results == [])
  }

  ghost predicate Inv(s: Paging) {
    s.next <= |s.results| && Delivered(s.pages) == s.results[..s.next] && DoneOk(s)
  }

  lemma InvApply(s: Paging, op: Op)
    requires Inv(s) && Enabled(s, op)
    ensures Inv(Apply(s, op))
  {
    var t := Apply(s, op);
    match op {
      case Added(v) =>
        assert t.results[..t.next] == s.results[..s.next];
      case Ended =>
      case Fetch(limit) =>
        assert t.pages[..|t.pages| - 1] == s.pages;
        assert t.results[..t.next] == s.results[..s.next] + s.results[s.next..t.next];
    }
  }

  ghost predicate IsRun(s: Paging, ops: seq<Op>)
    requires s.next <= |s.results|
    decreases |ops|
  {
    ops == [] || (Enabled(s, ops[0]) && IsRun(Apply(s, ops[0]), ops[1..]))
  }

  ghost function After(s: Paging, ops: seq<Op>): Paging
    requires s.next <= |s.results| && IsRun(s, ops)
    decreases |ops|
  {
    if ops == [] then s else After(Apply(s, ops[0]), ops[1..])
  }

  lemma {:induction false} InvRun(s: Paging, ops: seq<Op>)
    requires Inv(s) && IsRun(s, ops)
    ensures Inv(After(s, ops)) && s.results <= After(s, ops).results
    decreases |ops|
  {
    if ops != [] {
      InvApply(s, ops[0]);
      InvRun(Apply(s, ops[0]), ops[1..]);
    }
  }

  const START := Paging([], 0, false, [])

  /** A page holds as much as was asked for and is there. */
  lemma PageSize(s: Paging, limit: int)
    requires s.next <= |s.results|
    ensures var t := Apply(s, Fetch(limit));
            var size := if 1 <= limit <= 500 then limit else if limit > 500 then 500 else 100;
            var left := |s.results| - s.next;
            && |t.pages| == |s.pages| + 1 && t.pages[..|s.pages|] == s.pages
            && |t.pages[|s.pages|].results| == (if left < size then left else size)
            && t.pages[|s.pages|].total == |s.results|
  {
  }

  /**
   Whatever the interleaving, the pages concatenate to the results delivered so far, with no
   gap and no repeat; a page that says done comes after the walk has ended and everything is
   delivered, and every later page says so too and is empty.
   */
  lemma ExactlyOncePaging(ops: seq<Op>)
    requires IsRun(START, ops)
    ensures var s := After(START, ops);
            && s.next <= |s.results| && Delivered(s.pages) == s.results[..s.next]
            && (forall i :: 0 <= i < |s.pages| && s.pages[i].done ==> s.done && Delivered(s.pages) == s.results)
            && (forall i, j :: 0 <= i < j < |s.pages| && s.pages[i].done ==>
                  s.pages[j].done && s.pages[j].results == [])
  {
    InvRun(START, ops);
    var s := After(START, ops);
    assert s.next == |s.results| ==> s.results[..s.next] == s.results;
  }

  // ---------------------------------------------------------------- what a client ends up with

  /** The walk's own steps among these. */
  function WalkSteps(ops: seq<Op>): seq<Op>
    decreases |ops|
  {
    if ops == [] then [] else (if ops[0].Fetch? then [] else [ops[0]]) + WalkSteps(ops[1..])
  }

  /** Fetching changes nothing of what the walk has done: results and end are read off its steps. */
  lemma {:induction false} WalkDecides(s: Paging, ops: seq<Op>, before: seq<Op>)
    requires s.next <= |s.results| && IsRun(s, ops)
    requires before == Adding(s.results) + (if s.done then [Ended] else [])
    ensures var t := After(s, ops);
            before + WalkSteps(ops) == Adding(t.results) + (if t.done then [Ended] else [])
    decreases |ops|
  {
    if ops == [] {
      assert before + [] == before;
    } else {
      var step := if ops[0].Fetch? then [] else [ops[0]];
      var s1 := Apply(s, ops[0]);
      assert before + (step + WalkSteps(ops[1..])) == before + step + WalkSteps(ops[1..]);
      assert before + step == Adding(s1.results) + (if s1.done then [Ended] else []);
      WalkDecides(s1, ops[1..], before + step);
    }
  }

  /** Steps that begin those of a whole walk come from a beginning of its results, ended only at its end. */
  lemma AddingPrefix(some: seq<Match>, ended: bool, all: seq<Match>)
    requires Adding(some) + (if ended then [Ended] else []) <= Adding(all) + [Ended]
    ensures some <= all && (ended ==> some == all)
  {
    var a, b := Adding(some) + (if ended then [Ended] else []), Adding(all) + [Ended];
    forall i | 0 <= i < |some| ensures b[i] == Added(some[i]) { assert a[i] == b[i]; }
    assert b[|all|] == Ended;
    forall i | 0 <= i < |some| ensures some[i] == all[i] { assert b[i] == Added(all[i]); }
    assert some == all[..|some|];
    if ended { assert a[|some|] == Ended && a[|some|] == b[|some|]; }
  }

  /**
   However a walk with these results is interleaved with fetches, the pages give a beginning of
   the results in order, and all of them as soon as one page says done.
   */
  lemma PagesOfWalk(ops: seq<Op>, results: seq<Match>)
    requires IsRun(START, ops) && WalkSteps(ops) <= Adding(results) + [Ended]
    ensures Delivered(After(START, ops).pages) <= results
    ensures forall i :: 0 <= i < |After(START, ops).pages| && After(START, ops).pages[i].done ==>
              Delivered(After(START, ops).pages) == results
  {
    var s := After(START, ops);
    ExactlyOncePaging(ops);
    WalkDecides(START, ops, []);
    assert [] + WalkSteps(ops) == WalkSteps(ops);
    AddingPrefix(s.results, s.done, results);
  }

  /** Once the walk has ended, a client that keeps fetching gets to a page that says done. */
  lemma {:induction false} FetchingEnds(s: Paging, limits: seq<int>)
    requires Inv(s) && s.done && limits != [] && |limits| >= |s.results| - s.next
    ensures var ops := seq(|limits|, i requires 0 <= i < |limits| => Fetch(limits[i]));
            && IsRun(s, ops) && After(s, ops).pages != []
            && After(s, ops).pages[|After(s, ops).pages| - 1].done
    decreases |limits|
  {
    var ops := seq(|limits|, i requires 0 <= i < |limits| => Fetch(limits[i]));
    var rest := seq(|limits[1..]|, i requires 0 <= i < |limits[1..]| => Fetch(limits[1..][i]));
    assert ops[1..] == rest;
    InvApply(s, ops[0]);
    if |limits| > 1 {
      FetchingEnds(Apply(s, ops[0]), limits[1..]);
    } else {
      assert rest == [];
    }
  }

  // ---------------------------------------------------------------- the session table

  type Id = string

  /** The count that a `Start` is taking under the manager's lock, session by session. */
  datatype Scan = NoScan | Scan(todo: set<Id>, active: nat)

  /** `done[id]` is the session's own flag, which its walk may set while the count is going on. */
  datatype Manager = Manager(maxSessions: nat, done: map<Id, bool>, scan: Scan)

  datatype Event = ScanBegin | ScanOne(id: Id) | ScanEnd(newId: Id) | WalkEnds(id: Id) | Expire(id: Id)

  function New(maxSessions: int): Manager {
    Manager(if maxSessions <= 0 then 8 else maxSessions, map[], NoScan)
  }

  predicate CanHappen(m: Manager, e: Event) {
    match e
    case ScanBegin => m.scan.NoScan?
    case ScanOne(id) => m.scan.Scan? && id in m.scan.todo && id in m.done
    case ScanEnd(newId) => m.scan.Scan? && m.scan.todo == {} && newId !in m.done
    case WalkEnds(id) => id in m.done
    case Expire(id) => m.scan.NoScan?
  }

  /** The last step of `Start` refuses when the count has reached the limit. */
  function Happen(m: Manager, e: Event): Manager
    requires CanHappen(m, e)
  {
    match e
    case ScanBegin => m.(scan := Scan(m.done.Keys, 0))
    case ScanOne(id) => m.(scan := Scan(m.scan.todo - {id}, m.scan.active + (if m.done[id] then 0 else 1)))
    case ScanEnd(newId) =>
      m.(scan := NoScan, done := if m.scan.active >= m.maxSessions then m.done else m.done[newId := false])
    case WalkEnds(id) => m.(done := m.done[id := true])
    case Expire(id) => m.(done := m.done - {id})
  }

  function Undone(done: map<Id, bool>): (r: set<Id>) {
    set id | id in done && !done[id]
  }

  /** The running count covers every undone session already looked at. */
  ghost predicate Bounded(m: Manager) {
    && |Undone(m.done)| <= m.maxSessions
    && (m.scan.Scan? ==> m.scan.todo <= m.done.Keys && |Undone(m.done) - m.scan.todo| <= m.scan.active)
  }

  /** Looking at one more session counts it if it still runs. */
  lemma CountOne(u: set<Id>, todo: set<Id>, id: Id)
    requires id in todo
    ensures |u - (todo - {id})| == |u - todo| + (if id in u then 1 else 0)
  {
    if id in u {
      assert u - (todo - {id}) == (u - todo) + {id};
    } else {
      assert u - (todo - {id}) == u - todo;
    }
  }

  lemma UndoneInsert(done: map<Id, bool>, newId: Id)
    requires newId !in done
    ensures |Undone(done[newId := false])| == |Undone(done)| + 1
  {
    assert Undone(done[newId := false]) == Undone(done) + {newId};
  }

  lemma UndoneMember(done: map<Id, bool>, id: Id)
    requires id in done
    ensures id in Undone(done) <==> !done[id]
  {
  }

  lemma UndoneAreSessions(done: map<Id, bool>)
    ensures |Undone(done) - done.Keys| == 0
  {
    assert Undone(done) - done.Keys == {};
  }

  lemma BoundedScan(m: Manager, e: Event)
    requires Bounded(m) && CanHappen(m, e) && (e.ScanBegin? || e.ScanOne? || e.ScanEnd?)
    ensures Bounded(Happen(m, e))
  {
    hide Undone;
    match e {
      case ScanBegin => UndoneAreSessions(m.done);
      case ScanOne(id) =>
        UndoneMember(m.done, id);
        CountOne(Undone(m.done), m.scan.todo, id);
      case ScanEnd(newId) =>
        assert Undone(m.done) - m.scan.todo == Undone(m.done);
        UndoneInsert(m.done, newId);
    }
  }

  lemma BoundedShrink(m: Manager, e: Event)
    requires Bounded(m) && CanHappen(m, e) && (e.WalkEnds? || e.Expire?)
    ensures Bounded(Happen(m, e))
  {
    var u, v := Undone(m.done), Undone(Happen(m, e).done);
    assert v == u - {e.id};
    SubsetBound(v, u);
    if m.scan.Scan? { SubsetBound(v - m.scan.todo, u - m.scan.todo); }
  }

  lemma BoundedStep(m: Manager, e: Event)
    requires Bounded(m) && CanHappen(m, e)
    ensures Bounded(Happen(m, e))
  {
    if e.WalkEnds? || e.Expire? { BoundedShrink(m, e); } else { BoundedScan(m, e); }
  }

  ghost predicate IsHistory(m: Manager, events: seq<Event>)
    decreases |events|
  {
    events == [] || (CanHappen(m, events[0]) && IsHistory(Happen(m, events[0]), events[1..]))
  }

  ghost function Outcome(m: Manager, events: seq<Event>): Manager
    requires IsHistory(m, events)
    decreases |events|
  {
    if events == [] then m else Outcome(Happen(m, events[0]), events[1..])
  }

  lemma {:induction false} BoundedRun(m: Manager, events: seq<Event>)
    requires Bounded(m) && IsHistory(m, events)
    ensures Bounded(Outcome(m, events)) && Outcome(m, events).maxSessions == m.maxSessions
    decreases |events|
  {
    if events != [] {
      BoundedStep(m, events[0]);
      BoundedRun(Happen(m, events[0]), events[1..]);
    }
  }

  /** In every history at most `maxSessions` sessions in the table are still running. */
  lemma RunningSearchesAreBounded(maxSessions: int, events: seq<Event>)
    requires IsHistory(New(maxSessions), events)
    ensures |Undone(Outcome(New(maxSessions), events).done)| <= if maxSessions <= 0 then 8 else maxSessions
  {
    assert Undone(New(maxSessions).done) == {};
    BoundedRun(New(maxSessions), events);
  }

  /** Counting and the ends of walks, which is all that happens between the two ends of a count. */
  predicate WhileCounting(events: seq<Event>) {
    forall k :: 0 <= k < |events| ==> events[k].ScanOne? || events[k].WalkEnds?
  }

  lemma CountStep(m: Manager, e: Event, running: nat)
    requires CanHappen(m, e) && (e.ScanOne? || e.WalkEnds?) && m.scan.Scan?
    requires m.scan.active + |Undone(m.done) * m.scan.todo| <= running
    ensures var n := Happen(m, e);
            n.scan.Scan? && n.maxSessions == m.maxSessions && n.scan.active + |Undone(n.done) * n.scan.todo| <= running
  {
    var n := Happen(m, e);
    var before, after := Undone(m.done) * m.scan.todo, Undone(n.done) * n.scan.todo;
    assert after == before - {e.id};
    if e.ScanOne? && !m.done[e.id] {
      assert e.id in before;
    } else {
      SubsetBound(after, before);
    }
  }

  lemma {:induction false} CountRun(m: Manager, events: seq<Event>, running: nat)
    requires IsHistory(m, events) && WhileCounting(events) && m.scan.Scan?
    requires m.scan.active + |Undone(m.done) * m.scan.todo| <= running
    ensures var n := Outcome(m, events); n.scan.Scan? && n.maxSessions == m.maxSessions && n.scan.active <= running
    decreases |events|
  {
    if events != [] {
      CountStep(m, events[0], running);
      CountRun(Happen(m, events[0]), events[1..], running);
    }
  }

  /** A search starts whenever fewer than the limit were running when its count began, whatever ends meanwhile. */
  lemma StartsWithRoom(m: Manager, events: seq<Event>, newId: Id)
    requires m.scan.NoScan? && |Undone(m.done)| < m.maxSessions && WhileCounting(events)
    requires IsHistory(Happen(m, ScanBegin), events)
    requires CanHappen(Outcome(Happen(m, ScanBegin), events), ScanEnd(newId))
    ensures var n := Happen(Outcome(Happen(m, ScanBegin), events), ScanEnd(newId)); newId in n.done && !n.done[newId]
  {
    var begun := Happen(m, ScanBegin);
    assert Undone(m.done) * m.done.Keys == Undone(m.done);
    CountRun(begun, events, |Undone(m.done)|);
  }
}
