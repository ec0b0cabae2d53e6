/** The early-stopping search walk against the full ordered list of matches. */
module SearchWalk {
  import opened Common
  import opened SearchSessions

  /** A directory with its entries in lexical order, or anything else with what reading it gives. */
  datatype Entry =
    | Dir(name: string, entries: seq<Entry>)
    | File(name: string, link: bool, info: Option<FileInfo>, data: Option<FileData>)

  datatype FileInfo = FileInfo(regular: bool, size: int)

  /** `text`: valid UTF-8 without NUL. */
  datatype FileData = FileData(length: int, text: bool, lines: seq<string>)

  datatype Query = Query(filesMode: bool, includeHidden: bool, maxResults: nat, maxFileBytes: int, index: string -> int)

  predicate Hidden(name: string) { |name| > 1 && name[0] == '.' }

  predicate Skipped(q: Query, e: Entry, root: bool) {
    !root && !q.includeHidden && Hidden(e.name)
  }

  function Join(path: seq<string>): string {
    if path == [] then "." else if |path| == 1 then path[0] else Join(path[..|path| - 1]) + "/" + path[|path| - 1]
  }

  function Preview(line: string): string {
    if |line| > 1000 then line[..1000] else line
  }

  // ---------------------------------------------------------------- the full list

  /** Matching lines from number `from` on. */
  function LineMatches(q: Query, path: seq<string>, lines: seq<string>, from: nat): seq<Match>
    decreases |lines| - from
  {
    if from >= |lines| then []
    else (if q.index(lines[from]) >= 0
          then [Match(path, from + 1, (q.index(lines[from]) + 1) as nat, Preview(lines[from]), "content")] else [])
         + LineMatches(q, path, lines, from + 1)
  }

  predicate Eligible(q: Query, e: Entry) {
    && e.File? && e.info.Some? && e.info.value.regular && e.info.value.size <= q.maxFileBytes
    && e.data.Some? && e.data.value.length <= q.maxFileBytes && e.data.value.text
  }

  function FileMatches(q: Query, e: Entry, path: seq<string>): seq<Match>
    requires e.File?
  {
    if e.link then []
    else if q.filesMode then
      var at := q.index(Join(path));
      if at >= 0 then [Match(path, 0, at + 1, "", "file")] else []
    else if Eligible(q, e) then LineMatches(q, path, e.data.value.lines, 0)
    else []
  }

  /** Every match in the tree, in walk order: hidden directories pruned, the root never. */
  function AllMatches(q: Query, e: Entry, path: seq<string>, root: bool): seq<Match>
    decreases e, 1
  {
    if Skipped(q, e, root) then []
    else if e.Dir? then EntryMatches(q, e, path, 0)
    else FileMatches(q, e, path)
  }

  function EntryMatches(q: Query, e: Entry, path: seq<string>, from: nat): seq<Match>
    requires e.Dir?
    decreases e, 0, |e.entries| - from
  {
    if from >= |e.entries| then []
    else AllMatches(q, e.entries[from], path + [e.entries[from].name], false) + EntryMatches(q, e, path, from + 1)
  }

  /** The entry reached by following positions down from `e`. */
  function At(e: Entry, route: seq<nat>): Option<Entry>
    decreases |route|
  {
    if route == [] then Some(e)
    else if e.Dir? && route[0] < |e.entries| then At(e.entries[route[0]], route[1..])
    else None
  }

  /** The names on the way. */
  function Names(e: Entry, route: seq<nat>): seq<string>
    requires At(e, route).Some?
    decreases |route|
  {
    if route == [] then [] else [e.entries[route[0]].name] + Names(e.entries[route[0]], route[1..])
  }

  /** A file with nothing hidden on the way to it, the starting point aside when it is the root. */
  predicate VisibleFile(q: Query, e: Entry, route: seq<nat>, root: bool)
    decreases |route|
  {
    && !Skipped(q, e, root)
    && (if route == [] then e.File?
        else e.Dir? && route[0] < |e.entries| && VisibleFile(q, e.entries[route[0]], route[1..], false))
  }

  lemma {:induction false} VisibleIsThere(q: Query, e: Entry, route: seq<nat>, root: bool)
    requires VisibleFile(q, e, route, root)
    ensures At(e, route).Some? && At(e, route).value.File?
    decreases |route|
  {
    if route != [] { VisibleIsThere(q, e.entries[route[0]], route[1..], false); }
  }

  /** The match comes from the file at the end of this route. */
  ghost predicate FoundAt(q: Query, e: Entry, path: seq<string>, root: bool, m: Match, route: seq<nat>) {
    && VisibleFile(q, e, route, root) && At(e, route).Some? && At(e, route).value.File?
    && m in FileMatches(q, At(e, route).value, path + Names(e, route))
  }

  lemma {:induction false} MatchHasRoute(q: Query, e: Entry, path: seq<string>, root: bool, m: Match)
    returns (route: seq<nat>)
    requires m in AllMatches(q, e, path, root)
    ensures FoundAt(q, e, path, root, m, route)
    decreases e, 1
  {
    if e.Dir? {
      var i := MatchHasEntry(q, e, path, 0, m);
      var child := e.entries[i];
      var below := MatchHasRoute(q, child, path + [child.name], false, m);
      route := [i] + below;
      assert route[1..] == below;
      assert path + [child.name] + Names(child, below) == path + ([child.name] + Names(child, below));
    } else {
      route := [];
      assert path + [] == path;
    }
  }

  lemma {:induction false} MatchHasEntry(q: Query, e: Entry, path: seq<string>, from: nat, m: Match) returns (i: nat)
    requires e.Dir? && m in EntryMatches(q, e, path, from)
    ensures from <= i < |e.entries| && m in AllMatches(q, e.entries[i], path + [e.entries[i].name], false)
    decreases |e.entries| - from
  {
    if m in AllMatches(q, e.entries[from], path + [e.entries[from].name], false) {
      i := from;
    } else {
      i := MatchHasEntry(q, e, path, from + 1, m);
    }
  }

  lemma {:induction false} RouteHasMatch(q: Query, e: Entry, path: seq<string>, root: bool, m: Match, route: seq<nat>)
    requires FoundAt(q, e, path, root, m, route)
    ensures m in AllMatches(q, e, path, root)
    decreases |route|
  {
    if route == [] {
      assert path + [] == path;
    } else {
      var child, below := e.entries[route[0]], route[1..];
      VisibleIsThere(q, child, below, false);
      assert path + [child.name] + Names(child, below) == path + Names(e, route);
      RouteHasMatch(q, child, path + [child.name], false, m, below);
      EntryHasMatch(q, e, path, 0, route[0], m);
    }
  }

  lemma {:induction false} EntryHasMatch(q: Query, e: Entry, path: seq<string>, from: nat, i: nat, m: Match)
    requires e.Dir? && from <= i < |e.entries| && m in AllMatches(q, e.entries[i], path + [e.entries[i].name], false)
    ensures m in EntryMatches(q, e, path, from)
    decreases i - from
  {
    if from < i { EntryHasMatch(q, e, path, from + 1, i, m); }
  }

  /** The full list holds exactly the matches of the files one can reach without passing anything hidden. */
  lemma MatchesAreOfVisibleFiles(q: Query, root: Entry, m: Match)
    ensures m in AllMatches(q, root, [], true) <==> exists route :: FoundAt(q, root, [], true, m, route)
  {
    if m in AllMatches(q, root, [], true) {
      var route := MatchHasRoute(q, root, [], true, m);
    }
    if route :| FoundAt(q, root, [], true, m, route) {
      RouteHasMatch(q, root, [], true, m, route);
    }
  }

  // ---------------------------------------------------------------- the walk

  datatype Status = Continue | Enough | Cancelled

  /** What the session holds after part of the walk, against what that part would find in full. */
  ghost predicate Kept(q: Query, status: Status, before: seq<Match>, found: seq<Match>, now: seq<Match>) {
    && |now| <= q.maxResults && now <= before + found
    && (status.Continue? ==> now == before + found)
    && (status.Enough? ==> |now| == q.maxResults)
  }

  lemma KeptThen(q: Query, status: Status, before: seq<Match>, a: seq<Match>, b: seq<Match>, mid: seq<Match>,
                 now: seq<Match>)
    requires mid == before + a && Kept(q, status, mid, b, now)
    ensures Kept(q, status, before, a + b, now)
  {
    assert before + (a + b) == before + a + b;
  }

  lemma KeptStops(q: Query, status: Status, before: seq<Match>, a: seq<Match>, b: seq<Match>, now: seq<Match>)
    requires !status.Continue? && Kept(q, status, before, a, now)
    ensures Kept(q, status, before, a + b, now)
  {
    assert before + (a + b) == before + a + b;
  }

  /** The match of one line, if there is one. */
  function LineMatch(q: Query, path: seq<string>, lines: seq<string>, i: nat): (r: seq<Match>)
    requires i < |lines|
    ensures |r| <= 1
  {
    var at := q.index(lines[i]);
    if at >= 0 then [Match(path, i + 1, at + 1, Preview(lines[i]), "content")] else []
  }

  lemma NextLine(q: Query, path: seq<string>, lines: seq<string>, i: nat, found: seq<Match>)
    requires i < |lines|
    ensures found + LineMatches(q, path, lines, i) == found + LineMatch(q, path, lines, i)
            + LineMatches(q, path, lines, i + 1)
  {
  }

  /** The loop over the lines of a file, stopping as soon as the limit is reached. */
  method ScanLines(s: Session, q: Query, path: seq<string>, lines: seq<string>) returns (status: Status)
    requires s.Valid() && !s.done && |s.results| < q.maxResults
    modifies s`results, s`walked
    ensures s.Valid() && status != Cancelled
    ensures Kept(q, status, old(s.results), LineMatches(q, path, lines, 0), s.results)
  {
    hide LineMatches;
    ghost var before := s.results;
    ghost var found: seq<Match> := [];
    assert [] + LineMatches(q, path, lines, 0) == LineMatches(q, path, lines, 0);
    for i := 0 to |lines|
      invariant s.Valid() && s.results == before + found && |s.results| < q.maxResults
      invariant LineMatches(q, path, lines, 0) == found + LineMatches(q, path, lines, i)
    {
      NextLine(q, path, lines, i, found);
      var idx := q.index(lines[i]);
      if idx < 0 {
        assert found + [] == found;
        continue;
      }
      var preview := lines[i];
      if |preview| > 1000 { preview := preview[..1000]; }
      s.Add(Match(path, i + 1, idx + 1, preview, "content"));
      assert before + found + LineMatch(q, path, lines, i) == before + (found + LineMatch(q, path, lines, i));
      found := found + LineMatch(q, path, lines, i);
      var n := s.Count();
      if n >= q.maxResults {
        KeptEnough(q, before, found, LineMatches(q, path, lines, i + 1), s.results);
        return Enough;
      }
    }
    NoMoreLines(q, path, lines);
    assert found + [] == found;
    return Continue;
  }

  lemma KeptEnough(q: Query, before: seq<Match>, a: seq<Match>, b: seq<Match>, now: seq<Match>)
    requires now == before + a && |now| == q.maxResults
    ensures Kept(q, Enough, before, a + b, now)
  {
    assert before + (a + b) == before + a + b;
  }

  lemma NoMoreLines(q: Query, path: seq<string>, lines: seq<string>)
    ensures LineMatches(q, path, lines, |lines|) == []
  {
  }

  /** The callback on a file that is neither hidden nor a directory. */
  method VisitFile(s: Session, q: Query, e: Entry, path: seq<string>) returns (status: Status)
    requires s.Valid() && !s.done && |s.results| <= q.maxResults && e.File?
    modifies s`results, s`walked
    ensures s.Valid() && status != Cancelled
    ensures Kept(q, status, old(s.results), FileMatches(q, e, path), s.results)
  {
    if e.link { return Continue; }
    var n := s.Count();
    if n >= q.maxResults { return Enough; }
    if q.filesMode {
      var idx := q.index(Join(path));
      if idx >= 0 { s.Add(Match(path, 0, idx + 1, "", "file")); }
      return Continue;
    }
    if e.info.None? || !e.info.value.regular || e.info.value.size > q.maxFileBytes { return Continue; }
    if e.data.None? || e.data.value.length > q.maxFileBytes || !e.data.value.text { return Continue; }
    status := ScanLines(s, q, path, e.data.value.lines);
  }

  /**
   The walk from an entry down.  `polls` is how many more times the context may be polled
   before it is found cancelled; without a bound it never is.
   */
  method Walk(s: Session, q: Query, e: Entry, path: seq<string>, root: bool, polls: Option<nat>)
    returns (status: Status, left: Option<nat>)
    requires s.Valid() && !s.done && |s.results| <= q.maxResults
    modifies s`results, s`walked
    ensures s.Valid() && left.Some? == polls.Some?
    ensures Kept(q, status, old(s.results), AllMatches(q, e, path, root), s.results)
    ensures polls.None? ==> status != Cancelled
    decreases e, 1
  {
    left := polls;
    if polls == Some(0) { return Cancelled, left; }
    if polls.Some? { left := Some(polls.value - 1); }
    if Skipped(q, e, root) { return Continue, left; }
    if e.Dir? {
      status, left := WalkEntries(s, q, e, path, left);
    } else {
      status := VisitFile(s, q, e, path);
    }
  }

  method WalkEntries(s: Session, q: Query, e: Entry, path: seq<string>, polls: Option<nat>)
    returns (status: Status, left: Option<nat>)
    requires s.Valid() && !s.done && |s.results| <= q.maxResults && e.Dir?
    modifies s`results, s`walked
    ensures s.Valid() && left.Some? == polls.Some?
    ensures Kept(q, status, old(s.results), EntryMatches(q, e, path, 0), s.results)
    ensures polls.None? ==> status != Cancelled
    decreases e, 0
  {
    ghost var before := s.results;
    ghost var found: seq<Match> := [];
    left := polls;
    for i := 0 to |e.entries|
      invariant s.Valid() && s.results == before + found && |s.results| <= q.maxResults && left.Some? == polls.Some?
      invariant EntryMatches(q, e, path, 0) == found + EntryMatches(q, e, path, i)
    {
      var child := path + [e.entries[i].name];
      ghost var mid := s.results;
      ghost var here, later := AllMatches(q, e.entries[i], child, false), EntryMatches(q, e, path, i + 1);
      status, left := Walk(s, q, e.entries[i], child, false, left);
      assert found + (here + later) == found + here + later;
      if status != Continue {
        KeptStops(q, status, mid, here, later, s.results);
        KeptThen(q, status, before, found, here + later, mid, s.results);
        return status, left;
      }
      assert before + found + here == before + (found + here);
      found := found + here;
    }
    assert found + [] == found;
    return Continue, left;
  }

  /** The first `n` matches. */
  function Take(s: seq<Match>, n: nat): (r: seq<Match>)
    ensures r <= s && |r| == Min(n, |s|)
  {
    if |s| <= n then s else s[..n]
  }

  /**
   `run`: without cancellation the results are exactly the first `maxResults` matches of the
   full list; with it they are a prefix of those.  Either way the session ends up done.
   */
  method Run(s: Session, q: Query, root: Entry, polls: Option<nat>)
    requires s.Valid() && s.results == [] && s.next == 0 && !s.done
    modifies s
    ensures s.Valid() && s.done && s.walked == Adding(s.results) + [Ended]
    ensures s.results <= Take(AllMatches(q, root, [], true), q.maxResults)
    ensures polls.None? ==> s.results == Take(AllMatches(q, root, [], true), q.maxResults)
    ensures s.results <= AllMatches(q, root, [], true) && |s.results| <= q.maxResults
  {
    var status, left := Walk(s, q, root, [], true, polls);
    assert [] + AllMatches(q, root, [], true) == AllMatches(q, root, [], true);
    s.Finish();
  }

  /**
   A client that fetches from a search that is not cancelled, while it runs or after, gets a
   beginning of the first `maxResults` matches of the full list, in order, and exactly these
   as soon as a page says done.
   */
  lemma ClientsGetFirstMatches(q: Query, root: Entry, ops: seq<Op>)
    requires IsRun(START, ops)
    requires WalkSteps(ops) <= Adding(Take(AllMatches(q, root, [], true), q.maxResults)) + [Ended]
    ensures var s, found := After(START, ops), Take(AllMatches(q, root, [], true), q.maxResults);
            && Delivered(s.pages) <= found
            && (forall i :: 0 <= i < |s.pages| && s.pages[i].done ==> Delivered(s.pages) == found)
  {
    PagesOfWalk(ops, Take(AllMatches(q, root, [], true), q.maxResults));
  }

  // ---------------------------------------------------------------- what the full list is

  /** This match is one of this file: of its relative name, or of one of its lines when it is eligible. */
  predicate IsMatchOf(q: Query, e: Entry, path: seq<string>, m: Match) {
    && e.File? && !e.link && m.path == path
    && (if q.filesMode then
          q.index(Join(path)) >= 0 && m == Match(path, 0, q.index(Join(path)) + 1, "", "file")
        else
          && e.info.Some? && e.info.value.regular && e.info.value.size <= q.maxFileBytes
          && e.data.Some? && e.data.value.length <= q.maxFileBytes && e.data.value.text
          && 1 <= m.line <= |e.data.value.lines| && m.kind == "content"
          && var line := e.data.value.lines[m.line - 1];
             q.index(line) >= 0 && m.column == q.index(line) + 1
             && m.preview == (if |line| <= 1000 then line else line[..1000]))
  }

  /** The file at the end of this route has this match, and no name on the way is hidden, unless that is allowed. */
  ghost predicate MatchAt(q: Query, root: Entry, m: Match, route: seq<nat>) {
    && At(root, route).Some? && IsMatchOf(q, At(root, route).value, Names(root, route), m)
    && (q.includeHidden || forall name :: name in Names(root, route) ==> !(|name| > 1 && name[0] == '.'))
  }

  /** A relative name is the first component, a slash, and the relative name of the others. */
  lemma {:induction false} JoinedByLaw(first: string, others: seq<string>)
    requires others != []
    ensures Join([first]) == first && Join([first] + others) == first + "/" + Join(others)
    decreases |others|
  {
    var path := [first] + others;
    if |others| == 1 {
      assert path[..1] == [first];
    } else {
      var front := others[..|others| - 1];
      JoinedByLaw(first, front);
      assert path[..|path| - 1] == [first] + front;
      var last := others[|others| - 1];
      assert first + "/" + Join(front) + "/" + last == first + "/" + (Join(front) + "/" + last);
    }
  }

  lemma {:induction false} LinesOfFile(q: Query, path: seq<string>, lines: seq<string>, from: nat, m: Match)
    ensures m in LineMatches(q, path, lines, from) <==>
              && from < m.line <= |lines| && m.path == path && m.kind == "content"
              && var line := lines[m.line - 1];
                 q.index(line) >= 0 && m.column == q.index(line) + 1
                 && m.preview == (if |line| <= 1000 then line else line[..1000])
    decreases |lines| - from
  {
    if from < |lines| { LinesOfFile(q, path, lines, from + 1, m); }
  }

  lemma MatchesOfFile(q: Query, e: Entry, path: seq<string>, m: Match)
    requires e.File?
    ensures m in FileMatches(q, e, path) <==> IsMatchOf(q, e, path, m)
  {
    if Eligible(q, e) { LinesOfFile(q, path, e.data.value.lines, 0, m); }
  }

  lemma {:induction false} VisibleByNames(q: Query, e: Entry, route: seq<nat>, root: bool)
    ensures VisibleFile(q, e, route, root) <==>
              && At(e, route).Some? && At(e, route).value.File?
              && (root || q.includeHidden || !(|e.name| > 1 && e.name[0] == '.'))
              && (q.includeHidden || forall name :: name in Names(e, route) ==> !(|name| > 1 && name[0] == '.'))
    decreases |route|
  {
    if route != [] && e.Dir? && route[0] < |e.entries| {
      var child := e.entries[route[0]];
      VisibleByNames(q, child, route[1..], false);
      if At(e, route).Some? {
        assert Names(e, route) == [child.name] + Names(child, route[1..]);
        assert child.name in Names(e, route);
        forall name | name in Names(child, route[1..]) ensures name in Names(e, route) { }
      }
    }
  }

  lemma FoundMatches(q: Query, root: Entry, m: Match, route: seq<nat>)
    ensures FoundAt(q, root, [], true, m, route) <==> MatchAt(q, root, m, route)
  {
    VisibleByNames(q, root, route, true);
    if At(root, route).Some? && At(root, route).value.File? {
      MatchesOfFile(q, At(root, route).value, Names(root, route), m);
      assert [] + Names(root, route) == Names(root, route);
    }
  }

  /** The full list holds exactly the matches of all eligible files, hidden ones and links apart. */
  lemma MatchesExactly(q: Query, root: Entry, m: Match)
    ensures m in AllMatches(q, root, [], true) <==> exists route :: MatchAt(q, root, m, route)
  {
    MatchesAreOfVisibleFiles(q, root, m);
    if route :| FoundAt(q, root, [], true, m, route) { FoundMatches(q, root, m, route); }
    if route :| MatchAt(q, root, m, route) { FoundMatches(q, root, m, route); }
  }

  // ---------------------------------------------------------------- and in which order

  /** One route comes before another in walk order: at the first difference its position is smaller. */
  predicate Earlier(a: seq<nat>, b: seq<nat>) {
    a != [] && b != [] && (a[0] < b[0] || (a[0] == b[0] && Earlier(a[1..], b[1..])))
  }

  /** By route, and by line within a file; so no match of a file comes twice. */
  ghost predicate InOrder(routes: seq<seq<nat>>, ms: seq<Match>) {
    && |routes| == |ms|
    && (forall i, j :: 0 <= i < j < |ms| ==>
          Earlier(routes[i], routes[j]) || (routes[i] == routes[j] && ms[i].line < ms[j].line))
  }

  /** Matches of one file by line. */
  ghost predicate ByLine(ms: seq<Match>, from: nat) {
    && (forall i :: 0 <= i < |ms| ==> from < ms[i].line)
    && (forall i, j :: 0 <= i < j < |ms| ==> ms[i].line < ms[j].line)
  }

  lemma ByLineFurther(first: seq<Match>, rest: seq<Match>, from: nat)
    requires ByLine(rest, from + 1) && |first| <= 1 && (first != [] ==> first[0].line == from + 1)
    ensures ByLine(first + rest, from)
  {
  }

  lemma {:induction false} LinesInOrder(q: Query, path: seq<string>, lines: seq<string>, from: nat)
    ensures ByLine(LineMatches(q, path, lines, from), from)
    decreases |lines| - from
  {
    hide ByLine;
    if from < |lines| {
      LinesInOrder(q, path, lines, from + 1);
      ByLineFurther(LineMatch(q, path, lines, from), LineMatches(q, path, lines, from + 1), from);
    } else {
      NothingByLine(from);
    }
  }

  lemma NothingByLine(from: nat)
    ensures ByLine([], from)
  {
  }

  lemma FileInOrder(q: Query, e: Entry, path: seq<string>) returns (routes: seq<seq<nat>>)
    requires e.File?
    ensures InOrder(routes, FileMatches(q, e, path)) && forall r :: r in routes ==> r == []
  {
    var ms := FileMatches(q, e, path);
    routes := seq(|ms|, _ => []);
    if |ms| > 1 {
      assert ms == LineMatches(q, path, e.data.value.lines, 0);
      LinesInOrder(q, path, e.data.value.lines, 0);
    }
  }

  /** The matches of one subtree, and of the entries of a directory from some position on, with their routes. */
  lemma {:induction false} TreeInOrder(q: Query, e: Entry, path: seq<string>, root: bool)
    returns (routes: seq<seq<nat>>)
    ensures InOrder(routes, AllMatches(q, e, path, root))
    ensures forall i :: 0 <= i < |routes| ==> FoundAt(q, e, path, root, AllMatches(q, e, path, root)[i], routes[i])
    decreases e, 1
  {
    if Skipped(q, e, root) {
      routes := [];
    } else if e.Dir? {
      routes := EntriesInOrder(q, e, path, 0);
      forall i | 0 <= i < |routes| ensures FoundAt(q, e, path, root, AllMatches(q, e, path, root)[i], routes[i]) {
        FoundFurther(q, e, path, root, AllMatches(q, e, path, root)[i], routes[i]);
      }
    } else {
      routes := FileInOrder(q, e, path);
      forall i | 0 <= i < |routes| ensures FoundAt(q, e, path, root, AllMatches(q, e, path, root)[i], routes[i]) {
        assert routes[i] in routes && path + [] == path && FileMatches(q, e, path)[i] in FileMatches(q, e, path);
      }
    }
  }

  /** Found in the entry that the route enters first. */
  ghost predicate FoundBelow(q: Query, e: Entry, path: seq<string>, from: nat, m: Match, route: seq<nat>) {
    && e.Dir? && route != [] && from <= route[0] < |e.entries|
    && FoundAt(q, e.entries[route[0]], path + [e.entries[route[0]].name], false, m, route[1..])
  }

  lemma FoundFurther(q: Query, e: Entry, path: seq<string>, root: bool, m: Match, route: seq<nat>)
    requires !Skipped(q, e, root) && FoundBelow(q, e, path, 0, m, route)
    ensures FoundAt(q, e, path, root, m, route)
  {
    var child := e.entries[route[0]];
    assert path + [child.name] + Names(child, route[1..]) == path + ([child.name] + Names(child, route[1..]));
  }

  lemma FoundHere(q: Query, e: Entry, path: seq<string>, from: nat, m: Match, inner: seq<nat>)
    requires e.Dir? && from < |e.entries|
    requires FoundAt(q, e.entries[from], path + [e.entries[from].name], false, m, inner)
    ensures FoundBelow(q, e, path, from, m, [from] + inner)
  {
    assert ([from] + inner)[1..] == inner;
  }

  lemma {:induction false} EntriesInOrder(q: Query, e: Entry, path: seq<string>, from: nat)
    returns (routes: seq<seq<nat>>)
    requires e.Dir?
    ensures InOrder(routes, EntryMatches(q, e, path, from))
    ensures forall i :: 0 <= i < |routes| ==> FoundBelow(q, e, path, from, EntryMatches(q, e, path, from)[i], routes[i])
    decreases e, 0, |e.entries| - from
  {
    routes := [];
    if from < |e.entries| {
      var child, down := e.entries[from], path + [e.entries[from].name];
      var inner := TreeInOrder(q, child, down, false);
      var later := EntriesInOrder(q, e, path, from + 1);
      var here, there := AllMatches(q, child, down, false), EntryMatches(q, e, path, from + 1);
      assert EntryMatches(q, e, path, from) == here + there;
      forall i | 0 <= i < |later| ensures FoundBelow(q, e, path, from, there[i], later[i]) && later[i][0] > from {
        assert FoundBelow(q, e, path, from + 1, there[i], later[i]);
      }
      assert forall i :: 0 <= i < |later| ==> later[i] != [];
      hide AllMatches, EntryMatches, FoundAt, FoundBelow;
      var first := seq(|inner|, i requires 0 <= i < |inner| => [from] + inner[i]);
      Prefixed(inner, here, from, first);
      OneAfterTheOther(first, here, later, there, from);
      hide InOrder;
      routes := first + later;
      forall i | 0 <= i < |routes| ensures FoundBelow(q, e, path, from, (here + there)[i], routes[i]) {
        if i < |first| { FoundHere(q, e, path, from, here[i], inner[i]); }
      }
    }
  }

  lemma Prefixed(inner: seq<seq<nat>>, ms: seq<Match>, at: nat, routes: seq<seq<nat>>)
    requires InOrder(inner, ms) && |routes| == |inner| && forall i :: 0 <= i < |inner| ==> routes[i] == [at] + inner[i]
    ensures InOrder(routes, ms) && forall r :: r in routes ==> r != [] && r[0] == at
  {
    forall i, j | 0 <= i < j < |ms|
      ensures Earlier(routes[i], routes[j]) || (routes[i] == routes[j] && ms[i].line < ms[j].line)
    {
      assert routes[i][1..] == inner[i] && routes[j][1..] == inner[j];
    }
  }

  lemma OneAfterTheOther(first: seq<seq<nat>>, here: seq<Match>, later: seq<seq<nat>>, there: seq<Match>, at: nat)
    requires InOrder(first, here) && InOrder(later, there)
    requires forall r :: r in first ==> r != [] && r[0] == at
    requires forall i :: 0 <= i < |later| ==> later[i] != [] && later[i][0] > at
    ensures InOrder(first + later, here + there)
  {
    var routes, ms := first + later, here + there;
    forall i, j | 0 <= i < j < |ms|
      ensures Earlier(routes[i], routes[j]) || (routes[i] == routes[j] && ms[i].line < ms[j].line)
    {
      if i < |first| && j >= |first| { assert routes[i] in first && routes[j] == later[j - |first|]; }
    }
  }

  /** The full list is in walk order, entry by entry and line by line, with nothing in it twice. */
  lemma MatchesInWalkOrder(q: Query, root: Entry) returns (routes: seq<seq<nat>>)
    ensures InOrder(routes, AllMatches(q, root, [], true))
    ensures forall i :: 0 <= i < |routes| ==> MatchAt(q, root, AllMatches(q, root, [], true)[i], routes[i])
  {
    routes := TreeInOrder(q, root, [], true);
    forall i | 0 <= i < |routes| ensures MatchAt(q, root, AllMatches(q, root, [], true)[i], routes[i]) {
      FoundMatches(q, root, AllMatches(q, root, [], true)[i], routes[i]);
    }
  }
}
