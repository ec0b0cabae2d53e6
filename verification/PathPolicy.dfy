/**
 Link-aware containment of paths in allowed roots.

 The file system is a tree of nodes named by component lists; a link holds an unevaluated
 target.  `Walk` evaluates components left to right, following links, with a budget: the
 evaluation of symbolic links gives up after 255 of them and the kernel after its own limit.
*/
module PathPolicy {
  import opened Common

  type Name = string
  type Path = seq<Name>

  datatype Node = Directory | Regular | Link(absolute: bool, target: seq<Name>)

  datatype FileSystem = FileSystem(nodes: map<Path, Node>, kernelLinks: nat)

  datatype Error = Blank | NotExist | NotDirectory | TooManyLinks | OutsideRoots | NoRoots | RootNotDirectory

  /** A path argument split at its separators; parts may be empty, "." or "..". */
  datatype PathArg = PathArg(blank: bool, absolute: bool, parts: seq<Name>)

  const MAX_LINKS: nat := 255

  predicate Ordinary(c: Name) { c != "" && c != "." && c != ".." }

  predicate Clean(p: Path) { forall k :: 0 <= k < |p| ==> Ordinary(p[k]) }

  /** Every node but the root sits in a directory, under an ordinary name. */
  ghost predicate WellFormed(fs: FileSystem) {
    && [] in fs.nodes && fs.nodes[[]].Directory?
    && (forall p :: p in fs.nodes ==> Clean(p))
    && (forall p :: p in fs.nodes && p != [] ==> Parent(p) in fs.nodes && fs.nodes[Parent(p)].Directory?)
  }

  function Parent(p: Path): Path {
    if p == [] then [] else p[..|p| - 1]
  }

  /** Lexical evaluation of parts on top of a path; ".." stops at the root. */
  function CleanJoin(base: Path, parts: seq<Name>): (r: Path)
    ensures Clean(base) ==> Clean(r)
    decreases |parts|
  {
    if parts == [] then base
    else if parts[0] == "" || parts[0] == "." then CleanJoin(base, parts[1..])
    else if parts[0] == ".." then CleanJoin(Parent(base), parts[1..])
    else CleanJoin(base + [parts[0]], parts[1..])
  }

  function Abs(cwd: Path, arg: PathArg): (r: Path)
    ensures Clean(cwd) ==> Clean(r)
  {
    CleanJoin(if arg.absolute then [] else cwd, arg.parts)
  }

  // ---------------------------------------------------------------- resolution

  /** Evaluates `todo` from the link-free directory `dest`, following at most `links` links. */
  function Walk(fs: FileSystem, dest: Path, todo: seq<Name>, links: nat): (r: Result<Path, Error>)
    decreases links, |todo|
  {
    if todo == [] then Ok(dest)
    else
      var c, rest := todo[0], todo[1..];
      if c == "" || c == "." then Walk(fs, dest, rest, links)
      else if c == ".." then Walk(fs, Parent(dest), rest, links)
      else
        var next := dest + [c];
        if next !in fs.nodes then Err(NotExist)
        else
          match fs.nodes[next]
          case Directory => Walk(fs, next, rest, links)
          case Regular => if rest == [] then Ok(next) else Err(NotDirectory)
          case Link(absolute, target) =>
            if links == 0 then Err(TooManyLinks)
            else Walk(fs, if absolute then [] else dest, target + rest, links - 1)
  }

  function EvalSymlinks(fs: FileSystem, p: Path): Result<Path, Error> {
    Walk(fs, [], p, MAX_LINKS)
  }

  /** The kernel's `lstat`: links in front of the last component are followed, the last one is not. */
  function Lstat(fs: FileSystem, p: Path): Result<Node, Error> {
    if p == [] then (if [] in fs.nodes then Ok(fs.nodes[[]]) else Err(NotExist))
    else
      match Walk(fs, [], Parent(p), fs.kernelLinks)
      case Err(e) => Err(e)
      case Ok(dir) =>
        if dir in fs.nodes && !fs.nodes[dir].Directory? then Err(NotDirectory)
        else if dir + [p[|p| - 1]] in fs.nodes then Ok(fs.nodes[dir + [p[|p| - 1]]])
        else Err(NotExist)
  }

  /** A node that exists and is no link; in a tree nothing above it is a link either. */
  predicate LinkFree(fs: FileSystem, p: Path) {
    p in fs.nodes && !fs.nodes[p].Link?
  }

  predicate LinkFreeDirectory(fs: FileSystem, p: Path) {
    p in fs.nodes && fs.nodes[p].Directory?
  }

  /** What a walk arrives at is link-free. */
  lemma {:induction false} WalkArrivesLinkFree(fs: FileSystem, dest: Path, todo: seq<Name>, links: nat)
    requires WellFormed(fs) && LinkFreeDirectory(fs, dest) && Walk(fs, dest, todo, links).Ok?
    ensures LinkFree(fs, Walk(fs, dest, todo, links).value)
    decreases links, |todo|
  {
    if todo != [] {
      var c, rest := todo[0], todo[1..];
      if c == "" || c == "." {
        WalkArrivesLinkFree(fs, dest, rest, links);
      } else if c == ".." {
        WalkArrivesLinkFree(fs, Parent(dest), rest, links);
      } else {
        match fs.nodes[dest + [c]] {
          case Directory => WalkArrivesLinkFree(fs, dest + [c], rest, links);
          case Regular =>
          case Link(absolute, target) =>
            WalkArrivesLinkFree(fs, if absolute then [] else dest, target + rest, links - 1);
        }
      }
    }
  }

  /** In a tree every ancestor of a node is a directory. */
  lemma {:induction false} AncestorsAreDirectories(fs: FileSystem, p: Path, n: nat)
    requires WellFormed(fs) && p in fs.nodes && n < |p|
    ensures LinkFreeDirectory(fs, p[..n])
    decreases |p|
  {
    if n < |p| - 1 {
      AncestorsAreDirectories(fs, Parent(p), n);
      assert Parent(p)[..n] == p[..n];
    } else {
      assert p[..n] == Parent(p);
    }
  }

  /** Walking a link-free path from any of its ancestors goes straight down it, using no link. */
  lemma {:induction false} LinkFreeIsFixed(fs: FileSystem, p: Path, n: nat, links: nat)
    requires WellFormed(fs) && LinkFree(fs, p) && n <= |p|
    ensures Walk(fs, p[..n], p[n..], links) == Ok(p)
    decreases |p| - n
  {
    if n < |p| {
      assert p[..n] + [p[n]] == p[..n + 1] && p[n..][1..] == p[n + 1..] && p[n..][0] == p[n];
      if n + 1 < |p| {
        AncestorsAreDirectories(fs, p, n + 1);
        LinkFreeIsFixed(fs, p, n + 1, links);
      } else {
        assert p[..n + 1] == p && p[n + 1..] == [];
      }
    } else {
      assert p[..n] == p && p[n..] == [];
    }
  }

  /** The budget decides only whether the walk finishes, never where it arrives. */
  lemma {:induction false} WalkBudget(fs: FileSystem, dest: Path, todo: seq<Name>, k: nat, m: nat)
    requires k <= m && Walk(fs, dest, todo, k) != Err(TooManyLinks)
    ensures Walk(fs, dest, todo, m) == Walk(fs, dest, todo, k)
    decreases k, |todo|
  {
    if todo != [] {
      var c, rest := todo[0], todo[1..];
      if c == "" || c == "." {
        WalkBudget(fs, dest, rest, k, m);
      } else if c == ".." {
        WalkBudget(fs, Parent(dest), rest, k, m);
      } else if dest + [c] in fs.nodes {
        match fs.nodes[dest + [c]] {
          case Directory => WalkBudget(fs, dest + [c], rest, k, m);
          case Regular =>
          case Link(absolute, target) =>
            WalkBudget(fs, if absolute then [] else dest, target + rest, k - 1, m - 1);
        }
      }
    }
  }

  /** Two budgets that both suffice agree. */
  lemma WalkAgrees(fs: FileSystem, dest: Path, todo: seq<Name>, k: nat, m: nat)
    requires Walk(fs, dest, todo, k) != Err(TooManyLinks) && Walk(fs, dest, todo, m) != Err(TooManyLinks)
    ensures Walk(fs, dest, todo, k) == Walk(fs, dest, todo, m)
  {
    if k <= m { WalkBudget(fs, dest, todo, k, m); } else { WalkBudget(fs, dest, todo, m, k); }
  }

  // ---------------------------------------------------------------- containment

  function CommonPrefix(a: Path, b: Path): (n: nat)
    ensures n <= |a| && n <= |b| && a[..n] == b[..n]
    ensures n < |a| && n < |b| ==> a[n] != b[n]
  {
    if a == [] || b == [] || a[0] != b[0] then 0
    else
      var n := CommonPrefix(a[1..], b[1..]);
      assert a[..n + 1] == [a[0]] + a[1..][..n] && b[..n + 1] == [b[0]] + b[1..][..n];
      n + 1
  }

  /** `filepath.Rel` of two clean absolute paths, as components; the empty list is ".". */
  function Rel(base: Path, target: Path): Path {
    var n := CommonPrefix(base, target);
    seq(|base| - n, _ => "..") + target[n..]
  }

  /** The test on the relative path: it does not start by going up. */
  predicate Inside(root: Path, p: Path) {
    Rel(root, p) == [] || Rel(root, p)[0] != ".."
  }

  predicate Allowed(roots: seq<Path>, p: Path) {
    exists i :: 0 <= i < |roots| && Inside(roots[i], p)
  }

  /** The textual test is exactly component-wise containment. */
  lemma InsideIsPrefix(root: Path, p: Path)
    requires Clean(p)
    ensures Inside(root, p) <==> root <= p
  {
    var n := CommonPrefix(root, p);
    if n == |root| {
      assert root[..n] == root;
      if n < |p| { assert Rel(root, p)[0] == p[n]; }
    } else {
      assert Rel(root, p)[0] == "..";
    }
  }

  // ---------------------------------------------------------------- the resolvers

  function Confine(roots: seq<Path>, p: Path): Result<Path, Error> {
    if Allowed(roots, p) then Ok(p) else Err(OutsideRoots)
  }

  function ResolveExisting(fs: FileSystem, roots: seq<Path>, cwd: Path, arg: PathArg): Result<Path, Error> {
    if arg.blank then Err(Blank)
    else
      match EvalSymlinks(fs, Abs(cwd, arg))
      case Err(e) => Err(e)
      case Ok(p) => Confine(roots, p)
  }

  /** Length of the nearest ancestor that exists (itself included). */
  function Nearest(fs: FileSystem, cur: Path): (r: Result<nat, Error>)
    ensures r.Ok? ==> r.value <= |cur|
    decreases |cur|
  {
    match Lstat(fs, cur)
    case Ok(_) => Ok(|cur|)
    case Err(e) =>
      if e != NotExist then Err(e)
      else if cur == [] then Err(OutsideRoots)
      else Nearest(fs, Parent(cur))
  }

  function CreateTarget(fs: FileSystem, roots: seq<Path>, abs: Path): Result<Path, Error> {
    match Nearest(fs, abs)
    case Err(e) => Err(e)
    case Ok(n) =>
      match EvalSymlinks(fs, abs[..n])
      case Err(e) => Err(e)
      case Ok(existing) => Confine(roots, existing + abs[n..])
  }

  function CreateResult(fs: FileSystem, roots: seq<Path>, cwd: Path, arg: PathArg): Result<Path, Error> {
    if arg.blank then Err(Blank) else CreateTarget(fs, roots, Abs(cwd, arg))
  }

  /** `ResolveForCreate`: the ancestor loop collects the missing names last first, then puts them back. */
  method ResolveForCreate(fs: FileSystem, roots: seq<Path>, cwd: Path, arg: PathArg) returns (r: Result<Path, Error>)
    ensures r == CreateResult(fs, roots, cwd, arg)
  {
    hide Lstat, EvalSymlinks, Abs, Allowed;
    if arg.blank { return Err(Blank); }
    var abs := Abs(cwd, arg);
    var cur := abs;
    var suffix: seq<Name> := [];
    while true
      invariant cur == abs[..|cur|] && |cur| + |suffix| == |abs|
      invariant forall k :: 0 <= k < |suffix| ==> suffix[k] == abs[|abs| - 1 - k]
      invariant Nearest(fs, abs) == Nearest(fs, cur)
      decreases |cur|
    {
      var st := Lstat(fs, cur);
      if st.Ok? { break; }
      if st.error != NotExist { return Err(st.error); }
      var parent := Parent(cur);
      if parent == cur { return Err(OutsideRoots); }
      suffix := suffix + [cur[|cur| - 1]];
      cur := parent;
    }
    assert Nearest(fs, abs) == Ok(|cur|);
    var evaluated := EvalSymlinks(fs, cur);
    if evaluated.Err? { return Err(evaluated.error); }
    var resolved := evaluated.value;
    var i := |suffix|;
    while i > 0
      invariant 0 <= i <= |suffix|
      invariant resolved == evaluated.value + abs[|cur|..|abs| - i]
    {
      i := i - 1;
      resolved := resolved + [suffix[i]];
      assert abs[|cur|..|abs| - i] == abs[|cur|..|abs| - i - 1] + [abs[|abs| - 1 - i]];
    }
    assert abs[|cur|..|abs|] == abs[|cur|..];
    r := Confine(roots, resolved);
  }

  // ---------------------------------------------------------------- what the resolvers guarantee

  predicate UnderSomeRoot(roots: seq<Path>, p: Path) {
    exists i :: 0 <= i < |roots| && roots[i] <= p
  }

  lemma AllowedIsUnder(roots: seq<Path>, p: Path)
    requires Clean(p)
    ensures Allowed(roots, p) <==> UnderSomeRoot(roots, p)
  {
    if Allowed(roots, p) {
      var i :| 0 <= i < |roots| && Inside(roots[i], p);
      InsideIsPrefix(roots[i], p);
    }
    if UnderSomeRoot(roots, p) {
      var i :| 0 <= i < |roots| && roots[i] <= p;
      InsideIsPrefix(roots[i], p);
    }
  }

  /** A resolved path is link-free and under a root, and resolving it again gives itself. */
  lemma ResolvedExistingIsSafe(fs: FileSystem, roots: seq<Path>, cwd: Path, arg: PathArg)
    requires WellFormed(fs) && ResolveExisting(fs, roots, cwd, arg).Ok?
    ensures var p := ResolveExisting(fs, roots, cwd, arg).value;
            && UnderSomeRoot(roots, p) && LinkFree(fs, p)
            && (forall n :: 0 <= n < |p| ==> LinkFreeDirectory(fs, p[..n]))
            && ResolveExisting(fs, roots, cwd, PathArg(false, true, p)) == Ok(p)
  {
    var p := ResolveExisting(fs, roots, cwd, arg).value;
    WalkArrivesLinkFree(fs, [], Abs(cwd, arg), MAX_LINKS);
    AllowedIsUnder(roots, p);
    forall n | 0 <= n < |p| ensures LinkFreeDirectory(fs, p[..n]) { AncestorsAreDirectories(fs, p, n); }
    CleanIsFixed([], p);
    LinkFreeIsFixed(fs, p, 0, MAX_LINKS);
    assert p[..0] == [] && p[0..] == p && [] + p == p;
  }

  lemma {:induction false} CleanIsFixed(base: Path, p: Path)
    requires Clean(p)
    ensures CleanJoin(base, p) == base + p
    decreases |p|
  {
    if p != [] {
      CleanIsFixed(base + [p[0]], p[1..]);
      assert base + [p[0]] + p[1..] == base + p;
    } else {
      assert base + p == base;
    }
  }

  /** The ancestor loop stops where its successor is missing. */
  lemma {:induction false} NearestIsMaximal(fs: FileSystem, cur: Path, n: nat)
    requires Nearest(fs, cur) == Ok(n)
    ensures n <= |cur| && Lstat(fs, cur[..n]).Ok?
    ensures n < |cur| ==> Lstat(fs, cur[..n + 1]) == Err(NotExist)
    decreases |cur|
  {
    if Lstat(fs, cur).Ok? {
      assert cur[..n] == cur;
    } else {
      NearestIsMaximal(fs, Parent(cur), n);
      assert Parent(cur)[..n] == cur[..n];
      if n < |cur| - 1 {
        assert Parent(cur)[..n + 1] == cur[..n + 1];
      } else {
        assert cur[..n + 1] == cur;
      }
    }
  }

  /** Where the nearest ancestor resolves, the first missing name really is missing, in a directory. */
  lemma MissingAfterResolved(fs: FileSystem, abs: Path, n: nat)
    requires WellFormed(fs) && Nearest(fs, abs) == Ok(n) && n < |abs| && EvalSymlinks(fs, abs[..n]).Ok?
    ensures var existing := EvalSymlinks(fs, abs[..n]).value;
            LinkFreeDirectory(fs, existing) && existing + [abs[n]] !in fs.nodes
  {
    NearestIsMaximal(fs, abs, n);
    WalkArrivesLinkFree(fs, [], abs[..n], MAX_LINKS);
    assert Parent(abs[..n + 1]) == abs[..n];
    WalkAgrees(fs, [], abs[..n], fs.kernelLinks, MAX_LINKS);
  }

  /**
   A path to create is a link-free existing directory (or node) followed by exactly the
   requested missing names, lies under a root, and resolves for creation to itself.
   */
  lemma CreateIsSafe(fs: FileSystem, roots: seq<Path>, cwd: Path, arg: PathArg) returns (n: nat)
    requires WellFormed(fs) && Clean(cwd) && CreateResult(fs, roots, cwd, arg).Ok?
    ensures var p, abs := CreateResult(fs, roots, cwd, arg).value, Abs(cwd, arg);
            n <= |abs| && |abs| - n <= |p| &&
            var m := |p| - (|abs| - n);
            && UnderSomeRoot(roots, p)
            && LinkFree(fs, p[..m]) && p[m..] == abs[n..]
            && (m < |p| ==> LinkFreeDirectory(fs, p[..m]) && p[..m + 1] !in fs.nodes)
            && CreateResult(fs, roots, cwd, PathArg(false, true, p)) == Ok(p)
  {
    hide Nearest, Walk, Allowed, CleanJoin, UnderSomeRoot;
    var p, abs := CreateResult(fs, roots, cwd, arg).value, Abs(cwd, arg);
    n := Nearest(fs, abs).value;
    var existing := EvalSymlinks(fs, abs[..n]).value;
    var m := |existing|;
    assert p == existing + abs[n..] && p[..m] == existing && p[m..] == abs[n..];
    ExistingPart(fs, abs, n, p);
    AllowedIsUnder(roots, p);
    CreateIsFixed(fs, roots, p, m);
    CleanIsFixed([], p);
    assert [] + p == p;
  }

  lemma ExistingPart(fs: FileSystem, abs: Path, n: nat, p: Path)
    requires WellFormed(fs) && Clean(abs) && Nearest(fs, abs) == Ok(n) && EvalSymlinks(fs, abs[..n]).Ok?
    requires p == EvalSymlinks(fs, abs[..n]).value + abs[n..]
    ensures var m := |EvalSymlinks(fs, abs[..n]).value|;
            && Clean(p) && LinkFree(fs, p[..m])
            && (m < |p| ==> LinkFreeDirectory(fs, p[..m]) && p[..m + 1] !in fs.nodes)
  {
    hide Nearest, Walk;
    var existing := EvalSymlinks(fs, abs[..n]).value;
    var m := |existing|;
    assert p[..m] == existing;
    WalkArrivesLinkFree(fs, [], abs[..n], MAX_LINKS);
    if m < |p| {
      MissingAfterResolved(fs, abs, n);
      assert p[..m + 1] == existing + [abs[n]];
    }
  }

  lemma CreateIsFixed(fs: FileSystem, roots: seq<Path>, p: Path, m: nat)
    requires WellFormed(fs) && Clean(p) && m <= |p| && LinkFree(fs, p[..m]) && Allowed(roots, p)
    requires m < |p| ==> LinkFreeDirectory(fs, p[..m]) && p[..m + 1] !in fs.nodes
    ensures CreateTarget(fs, roots, p) == Ok(p)
  {
    hide Nearest, Walk, Allowed;
    NearestOfResolved(fs, p, m);
    var existing := p[..m];
    LinkFreeIsFixed(fs, existing, 0, MAX_LINKS);
    assert existing[..0] == [] && existing[0..] == existing && existing + p[m..] == p;
  }

  /** Of a link-free path with a missing tail, the nearest existing ancestor is the link-free part. */
  lemma {:induction false} NearestOfResolved(fs: FileSystem, p: Path, m: nat)
    requires WellFormed(fs) && Clean(p) && m <= |p| && LinkFree(fs, p[..m])
    requires m < |p| ==> LinkFreeDirectory(fs, p[..m]) && p[..m + 1] !in fs.nodes
    ensures Nearest(fs, p) == Ok(m)
    decreases |p|
  {
    if m == |p| {
      assert p[..m] == p;
      LstatLinkFree(fs, p);
    } else {
      LstatMissing(fs, p, m);
      assert Parent(p)[..m] == p[..m];
      if m < |p| - 1 { assert Parent(p)[..m + 1] == p[..m + 1]; }
      NearestOfResolved(fs, Parent(p), m);
    }
  }

  lemma LstatLinkFree(fs: FileSystem, p: Path)
    requires WellFormed(fs) && LinkFree(fs, p)
    ensures Lstat(fs, p) == Ok(fs.nodes[p])
  {
    if p != [] {
      var q := Parent(p);
      LinkFreeIsFixed(fs, q, 0, fs.kernelLinks);
      assert q[..0] == [] && q[0..] == q && q + [p[|p| - 1]] == p;
    }
  }

  lemma WalkMissing(fs: FileSystem, dest: Path, c: Name, rest: seq<Name>, links: nat)
    requires Ordinary(c) && dest + [c] !in fs.nodes
    ensures Walk(fs, dest, [c] + rest, links) == Err(NotExist)
  {
    assert ([c] + rest)[0] == c;
  }

  lemma WalkToDirectory(fs: FileSystem, d: Path, more: seq<Name>)
    requires WellFormed(fs) && LinkFreeDirectory(fs, d)
    ensures Walk(fs, [], d + more, fs.kernelLinks) == Walk(fs, d, more, fs.kernelLinks)
  {
    hide Walk, WellFormed;
    WalkPrefix(fs, d, 0, more, fs.kernelLinks);
    assert d[..0] == [] && d[0..] == d;
  }

  /** The parent of a path, taken apart around component `m`. */
  lemma ParentAround(p: Path, m: nat)
    requires m < |p|
    ensures p[..m] + [p[m]] == p[..m + 1]
    ensures m == |p| - 1 ==> Parent(p) == p[..m] + []
    ensures m < |p| - 1 ==> Parent(p) == p[..m] + ([p[m]] + p[m + 1..|p| - 1])
  {
  }

  /** `lstat` of a name in a directory, or below a name that it lacks. */
  lemma LstatLacking(fs: FileSystem, d: Path, c: Name, p: Path, rest: seq<Name>)
    requires WellFormed(fs) && LinkFreeDirectory(fs, d) && Ordinary(c) && d + [c] !in fs.nodes && p != []
    requires (Parent(p) == d + [] && p[|p| - 1] == c) || Parent(p) == d + ([c] + rest)
    ensures Lstat(fs, p) == Err(NotExist)
  {
    assert Walk(fs, d, [], fs.kernelLinks) == Ok(d);
    hide WellFormed, Walk, Parent;
    WalkToDirectory(fs, d, []);
    WalkToDirectory(fs, d, [c] + rest);
    WalkMissing(fs, d, c, rest, fs.kernelLinks);
  }

  /** Below a link-free directory, a missing first name makes every longer path missing. */
  lemma LstatMissing(fs: FileSystem, p: Path, m: nat)
    requires WellFormed(fs) && m < |p| && LinkFreeDirectory(fs, p[..m]) && p[..m + 1] !in fs.nodes && Clean(p[m..])
    ensures Lstat(fs, p) == Err(NotExist)
  {
    assert Ordinary(p[m..][0]);
    hide *;
    ParentAround(p, m);
    LstatLacking(fs, p[..m], p[m], p, if m < |p| - 1 then p[m + 1..|p| - 1] else []);
  }

  /** A walk steps into a directory. */
  lemma WalkInto(fs: FileSystem, dest: Path, c: Name, rest: seq<Name>, links: nat)
    requires Ordinary(c) && LinkFreeDirectory(fs, dest + [c])
    ensures Walk(fs, dest, [c] + rest, links) == Walk(fs, dest + [c], rest, links)
  {
    assert ([c] + rest)[0] == c && ([c] + rest)[1..] == rest;
  }

  /** The next name of a path, moved across. */
  lemma NextName(d: Path, n: nat, more: seq<Name>)
    requires n < |d|
    ensures d[n..] + more == [d[n]] + (d[n + 1..] + more) && d[..n] + [d[n]] == d[..n + 1]
  {
  }

  /** A walk that starts down a link-free directory continues from there. */
  lemma {:induction false} WalkPrefix(fs: FileSystem, d: Path, n: nat, more: seq<Name>, links: nat)
    requires WellFormed(fs) && LinkFreeDirectory(fs, d) && n <= |d|
    ensures Walk(fs, d[..n], d[n..] + more, links) == Walk(fs, d, more, links)
    decreases |d| - n
  {
    hide Walk;
    if n < |d| {
      assert Clean(d) && Ordinary(d[n]);
      NextName(d, n, more);
      if n + 1 < |d| { AncestorsAreDirectories(fs, d, n + 1); } else { assert d[..n + 1] == d; }
      hide WellFormed, Clean;
      WalkInto(fs, d[..n], d[n], d[n + 1..] + more, links);
      WalkPrefix(fs, d, n + 1, more, links);
    } else {
      assert d[..n] == d && d[n..] + more == more;
    }
  }

  /** On a path that exists the two resolvers give the same answer, errors included. */
  lemma ResolversAgree(fs: FileSystem, roots: seq<Path>, cwd: Path, arg: PathArg)
    requires Lstat(fs, Abs(cwd, arg)).Ok?
    ensures CreateResult(fs, roots, cwd, arg) == ResolveExisting(fs, roots, cwd, arg)
  {
    var abs := Abs(cwd, arg);
    assert abs[..|abs|] == abs && abs[|abs|..] == [];
    if EvalSymlinks(fs, abs).Ok? {
      assert EvalSymlinks(fs, abs).value + [] == EvalSymlinks(fs, abs).value;
    }
  }

  /** Evaluating an ordinary last name means evaluating the rest to a directory that has it. */
  lemma {:induction false} WalkSnoc(fs: FileSystem, dest: Path, todo: seq<Name>, c: Name, links: nat)
    requires WellFormed(fs) && LinkFreeDirectory(fs, dest) && Ordinary(c) && Walk(fs, dest, todo + [c], links).Ok?
    ensures Walk(fs, dest, todo, links).Ok?
    ensures LinkFreeDirectory(fs, Walk(fs, dest, todo, links).value)
            && Walk(fs, dest, todo, links).value + [c] in fs.nodes
    decreases links, |todo|
  {
    if todo == [] {
      assert todo + [c] == [c];
    } else {
      var a, rest := todo[0], todo[1..];
      assert (todo + [c])[1..] == rest + [c] && (todo + [c])[0] == a;
      if a == "" || a == "." {
        WalkSnoc(fs, dest, rest, c, links);
      } else if a == ".." {
        WalkSnoc(fs, Parent(dest), rest, c, links);
      } else {
        match fs.nodes[dest + [a]] {
          case Directory => WalkSnoc(fs, dest + [a], rest, c, links);
          case Regular =>
          case Link(absolute, target) =>
            assert target + (rest + [c]) == target + rest + [c];
            WalkSnoc(fs, if absolute then [] else dest, target + rest, c, links - 1);
        }
      }
    }
  }

  /**
   Exactly when the resolvers differ on a path whose links evaluate: the kernel, whose link
   limit is lower, gives up on it.
   */
  lemma ResolversDifferOnlyAtKernelLimit(fs: FileSystem, roots: seq<Path>, cwd: Path, arg: PathArg)
    requires WellFormed(fs) && Clean(cwd) && !arg.blank && EvalSymlinks(fs, Abs(cwd, arg)).Ok?
    ensures CreateResult(fs, roots, cwd, arg) == ResolveExisting(fs, roots, cwd, arg)
            <==> Lstat(fs, Abs(cwd, arg)) != Err(TooManyLinks)
  {
    hide Walk, Allowed, CleanJoin;
    var abs := Abs(cwd, arg);
    if abs != [] {
      assert abs == Parent(abs) + [abs[|abs| - 1]];
      WalkSnoc(fs, [], Parent(abs), abs[|abs| - 1], MAX_LINKS);
      if Lstat(fs, abs) != Err(TooManyLinks) { WalkAgrees(fs, [], Parent(abs), fs.kernelLinks, MAX_LINKS); }
    }
    if Lstat(fs, abs).Ok? { ResolversAgree(fs, roots, cwd, arg); }
  }

  /** With a kernel limit no lower than the evaluator's they never differ there. */
  lemma HighKernelLimitIsNotFelt(fs: FileSystem, roots: seq<Path>, cwd: Path, arg: PathArg)
    requires WellFormed(fs) && Clean(cwd) && !arg.blank && EvalSymlinks(fs, Abs(cwd, arg)).Ok?
    requires fs.kernelLinks >= MAX_LINKS
    ensures CreateResult(fs, roots, cwd, arg) == ResolveExisting(fs, roots, cwd, arg)
  {
    hide Walk, Allowed, CleanJoin;
    var abs := Abs(cwd, arg);
    if abs != [] {
      assert abs == Parent(abs) + [abs[|abs| - 1]];
      WalkSnoc(fs, [], Parent(abs), abs[|abs| - 1], MAX_LINKS);
      WalkBudget(fs, [], Parent(abs), MAX_LINKS, fs.kernelLinks);
    }
    ResolversDifferOnlyAtKernelLimit(fs, roots, cwd, arg);
  }

  /** A root directory with a file and a link to the directory itself. */
  function Looping(kernelLinks: nat): FileSystem {
    FileSystem(map[[] := Directory, ["l"] := Link(false, ["."]), ["x"] := Regular], kernelLinks)
  }

  function Links(n: nat): seq<Name> { seq(n, _ => "l") }

  lemma {:induction false} LoopingWalk(kernelLinks: nat, n: nat, rest: seq<Name>, links: nat)
    ensures Walk(Looping(kernelLinks), [], Links(n) + rest, links) ==
            if n <= links then Walk(Looping(kernelLinks), [], rest, links - n) else Err(TooManyLinks)
    decreases n
  {
    var fs, todo := Looping(kernelLinks), Links(n) + rest;
    if n == 0 {
      assert todo == rest;
    } else {
      var tail := Links(n - 1) + rest;
      assert todo[0] == "l" && todo[1..] == tail && [] + ["l"] == ["l"];
      if links > 0 {
        assert (["."] + tail)[0] == "." && (["."] + tail)[1..] == tail;
        assert Walk(fs, [], todo, links) == Walk(fs, [], ["."] + tail, links - 1) == Walk(fs, [], tail, links - 1);
        LoopingWalk(kernelLinks, n - 1, rest, links - 1);
      }
    }
  }

  lemma LoopingIsWellFormed(kernelLinks: nat)
    ensures WellFormed(Looping(kernelLinks))
  {
    var fs := Looping(kernelLinks);
    forall p | p in fs.nodes ensures Clean(p) && (p != [] ==> Parent(p) == []) { }
  }

  lemma LoopingExisting(kernelLinks: nat, n: nat)
    requires n <= MAX_LINKS
    ensures ResolveExisting(Looping(kernelLinks), [[]], [], PathArg(false, true, Links(n) + ["x"])) == Ok(["x"])
  {
    var fs, abs := Looping(kernelLinks), Links(n) + ["x"];
    assert Walk(fs, [], ["x"], MAX_LINKS - n) == Ok(["x"]) by { assert [] + ["x"] == ["x"]; }
    InsideIsPrefix([], ["x"]);
    hide Walk, CleanJoin, Inside;
    LoopingWalk(kernelLinks, n, ["x"], MAX_LINKS);
    CleanIsFixed([], abs);
    assert [] + abs == abs;
    assert Inside([[]][0], ["x"]);
  }

  lemma LoopingCreate(kernelLinks: nat, n: nat)
    requires n > kernelLinks
    ensures CreateResult(Looping(kernelLinks), [[]], [], PathArg(false, true, Links(n) + ["x"])) == Err(TooManyLinks)
  {
    hide Walk, CleanJoin, Allowed;
    var abs := Links(n) + ["x"];
    LoopingWalk(kernelLinks, n, [], kernelLinks);
    CleanIsFixed([], abs);
    assert [] + abs == abs && Parent(abs) == Links(n) && Links(n) + [] == Links(n);
  }

  /** With a lower one, such as Linux's forty, there is a path on which they do. */
  lemma LowKernelLimitIsFelt(kernelLinks: nat) returns (fs: FileSystem, arg: PathArg)
    requires kernelLinks < MAX_LINKS
    ensures WellFormed(fs) && fs.kernelLinks == kernelLinks && !arg.blank
    ensures ResolveExisting(fs, [[]], [], arg) == Ok(["x"]) && CreateResult(fs, [[]], [], arg) == Err(TooManyLinks)
  {
    hide ResolveExisting, CreateResult, WellFormed;
    fs, arg := Looping(kernelLinks), PathArg(false, true, Links(kernelLinks + 1) + ["x"]);
    LoopingIsWellFormed(kernelLinks);
    LoopingExisting(kernelLinks, kernelLinks + 1);
    LoopingCreate(kernelLinks, kernelLinks + 1);
  }

  // ---------------------------------------------------------------- roots

  function FirstOccurrences(values: seq<Path>): seq<Path>
    decreases |values|
  {
    if values == [] then []
    else
      var front, last := values[..|values| - 1], values[|values| - 1];
      FirstOccurrences(front) + (if last in front then [] else [last])
  }

  /** These positions go up, and each holds a value that does not occur before it. */
  ghost predicate AreFirsts(values: seq<Path>, at: seq<nat>) {
    && (forall i :: 0 <= i < |at| ==> at[i] < |values| && values[at[i]] !in values[..at[i]])
    && (forall i, j :: 0 <= i < j < |at| ==> at[i] < at[j])
  }

  /** What is kept are the values at their first positions, in order, and none is left out. */
  lemma {:induction false} KeptAreFirsts(values: seq<Path>) returns (at: seq<nat>)
    ensures AreFirsts(values, at) && |FirstOccurrences(values)| == |at|
    ensures forall i :: 0 <= i < |at| ==> FirstOccurrences(values)[i] == values[at[i]]
    ensures forall v :: v in values ==> v in FirstOccurrences(values)
    decreases |values|
  {
    at := [];
    if values != [] {
      var front, last := values[..|values| - 1], values[|values| - 1];
      at := KeptAreFirsts(front);
      forall i | 0 <= i < |at| ensures values[at[i]] == front[at[i]] && values[..at[i]] == front[..at[i]] { }
      if last !in front { at := at + [|front|]; }
      assert values == front + [last];
    }
  }

  /** `dedupe`: the first occurrence of every value, in order. */
  method Dedupe(values: seq<Path>) returns (out: seq<Path>)
    ensures out == FirstOccurrences(values)
    ensures forall v :: v in out <==> v in values
    ensures forall i, j :: 0 <= i < j < |out| ==> out[i] != out[j]
  {
    var seen: set<Path> := {};
    out := [];
    for i := 0 to |values|
      invariant out == FirstOccurrences(values[..i])
      invariant forall v :: v in seen <==> v in out
      invariant forall v :: v in out <==> v in values[..i]
      invariant forall a, b :: 0 <= a < b < |out| ==> out[a] != out[b]
    {
      assert values[..i + 1] == values[..i] + [values[i]];
      if values[i] !in seen {
        seen := seen + {values[i]};
        out := out + [values[i]];
      }
    }
    assert values[..|values|] == values;
  }

  /** An evaluated path is what `lstat` sees there. */
  lemma EvaluatedIsThere(fs: FileSystem, p: Path)
    requires WellFormed(fs) && EvalSymlinks(fs, p).Ok?
    ensures LinkFree(fs, EvalSymlinks(fs, p).value)
    ensures Lstat(fs, EvalSymlinks(fs, p).value) == Ok(fs.nodes[EvalSymlinks(fs, p).value])
  {
    WalkArrivesLinkFree(fs, [], p, MAX_LINKS);
    LstatLinkFree(fs, EvalSymlinks(fs, p).value);
  }

  /** `New`: the roots of a policy are link-free directories, one for every configured root, without repeats. */
  method New(fs: FileSystem, cwd: Path, args: seq<PathArg>) returns (r: Result<seq<Path>, Error>)
    requires WellFormed(fs)
    ensures args == [] ==> r == Err(NoRoots)
    ensures r.Ok? ==> forall i :: 0 <= i < |r.value| ==> LinkFreeDirectory(fs, r.value[i])
    ensures r.Ok? ==> forall i, j :: 0 <= i < j < |r.value| ==> r.value[i] != r.value[j]
    ensures r.Ok? ==> forall p :: p in r.value <==>
              exists k :: 0 <= k < |args| && EvalSymlinks(fs, Abs(cwd, args[k])) == Ok(p)
    ensures r.Ok? <==> args != [] && forall k :: 0 <= k < |args| ==>
              && EvalSymlinks(fs, Abs(cwd, args[k])).Ok?
              && LinkFreeDirectory(fs, EvalSymlinks(fs, Abs(cwd, args[k])).value)
  {
    hide WellFormed, Walk, Lstat, EvalSymlinks, Abs, CleanJoin, FirstOccurrences;
    if args == [] { return Err(NoRoots); }
    var out: seq<Path> := [];
    for i := 0 to |args|
      invariant |out| == i
      invariant forall k :: 0 <= k < i ==>
                  EvalSymlinks(fs, Abs(cwd, args[k])) == Ok(out[k]) && LinkFreeDirectory(fs, out[k])
    {
      var resolved := EvalSymlinks(fs, Abs(cwd, args[i]));
      if resolved.Err? { return Err(resolved.error); }
      var st := Lstat(fs, resolved.value);
      EvaluatedIsThere(fs, Abs(cwd, args[i]));
      if st.Err? || !st.value.Directory? { return Err(RootNotDirectory); }
      out := out + [resolved.value];
    }
    var roots := Dedupe(out);
    forall p ensures p in roots <==> exists k :: 0 <= k < |args| && EvalSymlinks(fs, Abs(cwd, args[k])) == Ok(p) {
      if p in roots {
        var k :| 0 <= k < |out| && out[k] == p;
        assert EvalSymlinks(fs, Abs(cwd, args[k])) == Ok(p);
      }
    }
    forall i | 0 <= i < |roots| ensures LinkFreeDirectory(fs, roots[i]) {
      assert roots[i] in out;
    }
    r := Ok(roots);
  }
}
