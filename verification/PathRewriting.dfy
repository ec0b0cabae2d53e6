/**
 What following links means, apart from how a walk does it: a path is rewritten at the name
 behind an existing directory, until it is an existing path without links.  In a tree of nodes
 all components of an existing directory are directories, so that name is the first that is not plain.
*/
module PathRewriting {
  import opened Common
  import opened PathPolicy

  // ---------------------------------------------------------------- rewriting whole paths

  /** A path taken apart behind `before`. */
  datatype Cut = Cut(before: Path, name: Name, rest: seq<Name>) {
    function Whole(): Path { before + ([name] + rest) }
  }

  /** Behind an existing directory. */
  predicate Within(fs: FileSystem, cut: Cut) { cut.before in fs.nodes && fs.nodes[cut.before].Directory? }

  /** There, an empty name or "." goes. */
  ghost predicate DropsDot(fs: FileSystem, cut: Cut, r: Path) {
    Within(fs, cut) && (cut.name == "" || cut.name == ".") && r == cut.before + cut.rest
  }

  /** ".." goes and takes the component before it along, if there is one. */
  ghost predicate GoesUp(fs: FileSystem, cut: Cut, r: Path) {
    && Within(fs, cut) && cut.name == ".."
    && r == (if cut.before == [] then [] else cut.before[..|cut.before| - 1]) + cut.rest
  }

  predicate IsLink(fs: FileSystem, cut: Cut) {
    && Within(fs, cut) && cut.name != "" && cut.name != "." && cut.name != ".."
    && cut.before + [cut.name] in fs.nodes && fs.nodes[cut.before + [cut.name]].Link?
  }

  /** The target of a link takes its place; an absolute one takes that of all before it, too. */
  ghost predicate FollowsLink(fs: FileSystem, cut: Cut, r: Path) {
    && IsLink(fs, cut)
    && var link := fs.nodes[cut.before + [cut.name]];
       r == (if link.absolute then [] else cut.before) + (link.target + cut.rest)
  }

  /** From `p` one gets to `q` in so many rewritings, of which so many follow a link. */
  ghost predicate RewritesTo(fs: FileSystem, p: Path, q: Path, steps: nat, links: nat)
    decreases steps
  {
    if steps == 0 then p == q && links == 0
    else
      || (exists cut: Cut, r: Path ::
            p == cut.Whole() && DropsDot(fs, cut, r) && RewritesTo(fs, r, q, steps - 1, links))
      || (exists cut: Cut, r: Path :: p == cut.Whole() && GoesUp(fs, cut, r) && RewritesTo(fs, r, q, steps - 1, links))
      || (links > 0 && exists cut: Cut, r: Path ::
            p == cut.Whole() && FollowsLink(fs, cut, r) && RewritesTo(fs, r, q, steps - 1, links - 1))
  }

  predicate Missing(fs: FileSystem, cut: Cut) {
    && Within(fs, cut) && cut.name != "" && cut.name != "." && cut.name != ".."
    && cut.before + [cut.name] !in fs.nodes
  }

  /** A path at which rewriting ends, and what evaluating it gives with `left` links still allowed. */
  ghost predicate Verdict(fs: FileSystem, p: Path, left: nat, result: Result<Path, Error>) {
    match result
    case Ok(q) => p == q && p in fs.nodes && !fs.nodes[p].Link?
    case Err(NotExist) => exists cut: Cut :: p == cut.Whole() && Missing(fs, cut)
    case Err(NotDirectory) =>
      exists cut: Cut :: p == cut.Whole() && cut.before in fs.nodes && fs.nodes[cut.before].Regular?
    case Err(TooManyLinks) => left == 0 && exists cut: Cut :: p == cut.Whole() && IsLink(fs, cut)
    case Err(_) => false
  }

  /** Rewriting ends there, within so many links. */
  ghost predicate Evaluates(fs: FileSystem, p: Path, limit: nat, result: Result<Path, Error>) {
    exists steps: nat, links: nat, q: Path ::
      links <= limit && RewritesTo(fs, p, q, steps, links) && Verdict(fs, q, limit - links, result)
  }

  // ---------------------------------------------------------------- a walk rewrites

  /** A verdict one rewriting on is a verdict here. */
  lemma DotEvaluates(fs: FileSystem, cut: Cut, r: Path, limit: nat, result: Result<Path, Error>)
    requires DropsDot(fs, cut, r) && Evaluates(fs, r, limit, result)
    ensures Evaluates(fs, cut.Whole(), limit, result)
  {
    hide DropsDot, Verdict, Cut.Whole;
    var steps: nat, links: nat, q: Path :|
      links <= limit && RewritesTo(fs, r, q, steps, links) && Verdict(fs, q, limit - links, result);
    assert RewritesTo(fs, cut.Whole(), q, steps + 1, links);
  }

  lemma UpEvaluates(fs: FileSystem, cut: Cut, r: Path, limit: nat, result: Result<Path, Error>)
    requires GoesUp(fs, cut, r) && Evaluates(fs, r, limit, result)
    ensures Evaluates(fs, cut.Whole(), limit, result)
  {
    hide GoesUp, Verdict, Cut.Whole;
    var steps: nat, links: nat, q: Path :|
      links <= limit && RewritesTo(fs, r, q, steps, links) && Verdict(fs, q, limit - links, result);
    assert RewritesTo(fs, cut.Whole(), q, steps + 1, links);
  }

  lemma LinkEvaluates(fs: FileSystem, cut: Cut, r: Path, limit: nat, result: Result<Path, Error>)
    requires FollowsLink(fs, cut, r) && limit > 0 && Evaluates(fs, r, limit - 1, result)
    ensures Evaluates(fs, cut.Whole(), limit, result)
  {
    hide FollowsLink, Verdict, Cut.Whole;
    var steps: nat, links: nat, q: Path :|
      links <= limit - 1 && RewritesTo(fs, r, q, steps, links) && Verdict(fs, q, limit - 1 - links, result);
    assert RewritesTo(fs, cut.Whole(), q, steps + 1, links + 1);
  }

  lemma VerdictAtOnce(fs: FileSystem, p: Path, limit: nat, result: Result<Path, Error>)
    requires Verdict(fs, p, limit, result)
    ensures Evaluates(fs, p, limit, result)
  {
    hide Verdict;
    assert RewritesTo(fs, p, p, 0, 0);
  }

  /** The laws of a walk, one name at a time. */
  lemma WalkName(fs: FileSystem, dest: Path, c: Name, rest: seq<Name>, links: nat)
    ensures Walk(fs, dest, [c] + rest, links) ==
              if c == "" || c == "." then Walk(fs, dest, rest, links)
              else if c == ".." then Walk(fs, Parent(dest), rest, links)
              else if dest + [c] !in fs.nodes then Err(NotExist)
              else
                match fs.nodes[dest + [c]]
                case Directory => Walk(fs, dest + [c], rest, links)
                case Regular => if rest == [] then Ok(dest + [c]) else Err(NotDirectory)
                case Link(absolute, target) =>
                  if links == 0 then Err(TooManyLinks)
                  else Walk(fs, if absolute then [] else dest, target + rest, links - 1)
  {
    assert ([c] + rest)[0] == c && ([c] + rest)[1..] == rest;
  }

  lemma {:induction false} WalkEvaluates(fs: FileSystem, dest: Path, todo: seq<Name>, links: nat)
    requires WellFormed(fs) && LinkFreeDirectory(fs, dest)
    ensures Evaluates(fs, dest + todo, links, Walk(fs, dest, todo, links))
    decreases links, |todo|
  {
    if todo == [] {
      assert dest + todo == dest;
      VerdictAtOnce(fs, dest, links, Ok(dest));
    } else {
      var c, rest := todo[0], todo[1..];
      TreeFacts(fs, dest);
      hide Evaluates, Walk, WellFormed;
      assert todo == [c] + rest;
      if c == "" || c == "." {
        WalkEvaluates(fs, dest, rest, links);
        DotStep(fs, Cut(dest, c, rest), links);
      } else if c == ".." {
        WalkEvaluates(fs, Parent(dest), rest, links);
        UpStep(fs, Cut(dest, c, rest), links);
      } else if dest + [c] in fs.nodes && fs.nodes[dest + [c]].Directory? {
        WalkEvaluates(fs, dest + [c], rest, links);
        DownStep(fs, Cut(dest, c, rest), links);
      } else if links > 0 && dest + [c] in fs.nodes && fs.nodes[dest + [c]].Link? {
        var link := fs.nodes[dest + [c]];
        WalkEvaluates(fs, if link.absolute then [] else dest, link.target + rest, links - 1);
        LinkStep(fs, Cut(dest, c, rest), links);
      } else {
        LastStep(fs, Cut(dest, c, rest), links);
      }
    }
  }

  lemma DotStep(fs: FileSystem, cut: Cut, links: nat)
    requires Within(fs, cut) && (cut.name == "" || cut.name == ".")
    requires Evaluates(fs, cut.before + cut.rest, links, Walk(fs, cut.before, cut.rest, links))
    ensures Evaluates(fs, cut.before + ([cut.name] + cut.rest), links,
                      Walk(fs, cut.before, [cut.name] + cut.rest, links))
  {
    hide Evaluates, Walk;
    WalkName(fs, cut.before, cut.name, cut.rest, links);
    DotEvaluates(fs, cut, cut.before + cut.rest, links, Walk(fs, cut.before, cut.rest, links));
  }

  lemma UpStep(fs: FileSystem, cut: Cut, links: nat)
    requires Within(fs, cut) && cut.name == ".."
    requires Evaluates(fs, Parent(cut.before) + cut.rest, links, Walk(fs, Parent(cut.before), cut.rest, links))
    ensures Evaluates(fs, cut.before + ([cut.name] + cut.rest), links,
                      Walk(fs, cut.before, [cut.name] + cut.rest, links))
  {
    hide Evaluates, Walk;
    WalkName(fs, cut.before, cut.name, cut.rest, links);
    UpEvaluates(fs, cut, Parent(cut.before) + cut.rest, links, Walk(fs, Parent(cut.before), cut.rest, links));
  }

  lemma DownStep(fs: FileSystem, cut: Cut, links: nat)
    requires Ordinary(cut.name) && LinkFreeDirectory(fs, cut.before + [cut.name])
    requires Evaluates(fs, cut.before + [cut.name] + cut.rest, links,
                       Walk(fs, cut.before + [cut.name], cut.rest, links))
    ensures Evaluates(fs, cut.before + ([cut.name] + cut.rest), links,
                      Walk(fs, cut.before, [cut.name] + cut.rest, links))
  {
    hide Evaluates, Walk;
    WalkName(fs, cut.before, cut.name, cut.rest, links);
    assert cut.before + [cut.name] + cut.rest == cut.before + ([cut.name] + cut.rest);
  }

  lemma LinkStep(fs: FileSystem, cut: Cut, links: nat)
    requires IsLink(fs, cut) && links > 0
    requires var link := fs.nodes[cut.before + [cut.name]];
             var base := if link.absolute then [] else cut.before;
             Evaluates(fs, base + (link.target + cut.rest), links - 1,
                       Walk(fs, base, link.target + cut.rest, links - 1))
    ensures Evaluates(fs, cut.before + ([cut.name] + cut.rest), links,
                      Walk(fs, cut.before, [cut.name] + cut.rest, links))
  {
    hide Evaluates, Walk;
    var link := fs.nodes[cut.before + [cut.name]];
    var base := if link.absolute then [] else cut.before;
    WalkName(fs, cut.before, cut.name, cut.rest, links);
    LinkEvaluates(fs, cut, base + (link.target + cut.rest), links, Walk(fs, base, link.target + cut.rest, links - 1));
  }

  /** Where a walk ends at once. */
  lemma LastStep(fs: FileSystem, cut: Cut, links: nat)
    requires Within(fs, cut) && Ordinary(cut.name)
    requires var next := cut.before + [cut.name];
             next in fs.nodes ==> fs.nodes[next].Regular? || (fs.nodes[next].Link? && links == 0)
    ensures Evaluates(fs, cut.before + ([cut.name] + cut.rest), links,
                      Walk(fs, cut.before, [cut.name] + cut.rest, links))
  {
    hide Evaluates, Walk;
    var next := cut.before + [cut.name];
    WalkName(fs, cut.before, cut.name, cut.rest, links);
    if next !in fs.nodes {
      assert Missing(fs, cut);
      VerdictAtOnce(fs, cut.Whole(), links, Err(NotExist));
    } else if fs.nodes[next].Regular? {
      RegularEvaluates(fs, cut, links);
    } else {
      assert IsLink(fs, cut);
      VerdictAtOnce(fs, cut.Whole(), links, Err(TooManyLinks));
    }
  }

  lemma RegularEvaluates(fs: FileSystem, cut: Cut, links: nat)
    requires cut.before + [cut.name] in fs.nodes && fs.nodes[cut.before + [cut.name]].Regular?
    ensures Evaluates(fs, cut.Whole(), links,
                      if cut.rest == [] then Ok(cut.before + [cut.name]) else Err(NotDirectory))
  {
    hide Evaluates;
    var file := cut.before + [cut.name];
    if cut.rest == [] {
      assert cut.Whole() == file;
      VerdictAtOnce(fs, file, links, Ok(file));
    } else {
      var further := Cut(file, cut.rest[0], cut.rest[1..]);
      assert [further.name] + further.rest == cut.rest && further.Whole() == cut.Whole();
      VerdictAtOnce(fs, cut.Whole(), links, Err(NotDirectory));
    }
  }

  // ---------------------------------------------------------------- and only so

  /** A walk goes straight down a link-free directory. */
  lemma WalkDown(fs: FileSystem, d: Path, more: seq<Name>, links: nat)
    requires WellFormed(fs) && LinkFreeDirectory(fs, d)
    ensures Walk(fs, [], d + more, links) == Walk(fs, d, more, links)
  {
    hide Walk, WellFormed;
    WalkPrefix(fs, d, 0, more, links);
    assert d[..0] == [] && d[0..] == d;
  }

  lemma TreeFacts(fs: FileSystem, d: Path)
    requires WellFormed(fs) && d in fs.nodes
    ensures LinkFreeDirectory(fs, [])
    ensures d != [] ==> LinkFreeDirectory(fs, Parent(d)) && Ordinary(d[|d| - 1])
  {
  }

  lemma DotWalks(fs: FileSystem, cut: Cut, r: Path, links: nat)
    requires WellFormed(fs) && DropsDot(fs, cut, r)
    ensures Walk(fs, [], cut.Whole(), links) == Walk(fs, [], r, links)
  {
    hide WellFormed, Walk;
    WalkDown(fs, cut.before, [cut.name] + cut.rest, links);
    WalkDown(fs, cut.before, cut.rest, links);
    WalkName(fs, cut.before, cut.name, cut.rest, links);
  }

  lemma UpWalks(fs: FileSystem, cut: Cut, r: Path, links: nat)
    requires WellFormed(fs) && GoesUp(fs, cut, r)
    ensures Walk(fs, [], cut.Whole(), links) == Walk(fs, [], r, links)
  {
    TreeFacts(fs, cut.before);
    hide WellFormed, Walk;
    WalkDown(fs, cut.before, [cut.name] + cut.rest, links);
    WalkDown(fs, Parent(cut.before), cut.rest, links);
    WalkName(fs, cut.before, cut.name, cut.rest, links);
  }

  lemma LinkWalks(fs: FileSystem, cut: Cut, r: Path, links: nat)
    requires WellFormed(fs) && FollowsLink(fs, cut, r)
    ensures Walk(fs, [], cut.Whole(), links) == if links == 0 then Err(TooManyLinks) else Walk(fs, [], r, links - 1)
  {
    TreeFacts(fs, cut.before);
    hide WellFormed, Walk;
    var link := fs.nodes[cut.before + [cut.name]];
    WalkDown(fs, cut.before, [cut.name] + cut.rest, links);
    WalkName(fs, cut.before, cut.name, cut.rest, links);
    if links > 0 { WalkDown(fs, if link.absolute then [] else cut.before, link.target + cut.rest, links - 1); }
  }

  lemma VerdictWalks(fs: FileSystem, p: Path, left: nat, result: Result<Path, Error>)
    requires WellFormed(fs) && Verdict(fs, p, left, result)
    ensures Walk(fs, [], p, left) == result
  {
    hide WellFormed, Walk;
    match result {
      case Ok(_) =>
        LinkFreeIsFixed(fs, p, 0, left);
        assert p[..0] == [] && p[0..] == p;
      case Err(NotExist) =>
        var cut: Cut :| p == cut.Whole() && Missing(fs, cut);
        WalkDown(fs, cut.before, [cut.name] + cut.rest, left);
        WalkName(fs, cut.before, cut.name, cut.rest, left);
      case Err(NotDirectory) =>
        var cut: Cut :| p == cut.Whole() && cut.before in fs.nodes && fs.nodes[cut.before].Regular?;
        NotADirectory(fs, cut, left);
      case Err(TooManyLinks) =>
        var cut: Cut :| p == cut.Whole() && IsLink(fs, cut);
        WalkDown(fs, cut.before, [cut.name] + cut.rest, left);
        WalkName(fs, cut.before, cut.name, cut.rest, left);
    }
  }

  lemma LastApart(p: Path, more: seq<Name>)
    requires p != []
    ensures Parent(p) + [p[|p| - 1]] == p && p + more == Parent(p) + ([p[|p| - 1]] + more)
  {
  }

  lemma NotADirectory(fs: FileSystem, cut: Cut, left: nat)
    requires WellFormed(fs) && cut.before in fs.nodes && fs.nodes[cut.before].Regular?
    ensures Walk(fs, [], cut.Whole(), left) == Err(NotDirectory)
  {
    TreeFacts(fs, cut.before);
    hide WellFormed, Walk;
    var d, c, rest := Parent(cut.before), cut.before[|cut.before| - 1], [cut.name] + cut.rest;
    LastApart(cut.before, rest);
    WalkDown(fs, d, [c] + rest, left);
    WalkName(fs, d, c, rest, left);
  }

  lemma {:induction false} RewritingWalks(fs: FileSystem, p: Path, q: Path, steps: nat, links: nat, limit: nat,
                                          result: Result<Path, Error>)
    requires WellFormed(fs) && RewritesTo(fs, p, q, steps, links) && links <= limit
    requires Verdict(fs, q, limit - links, result)
    ensures Walk(fs, [], p, limit) == result
    decreases steps
  {
    hide WellFormed, Walk, Verdict, DropsDot, GoesUp, FollowsLink, Cut.Whole;
    if steps == 0 {
      VerdictWalks(fs, p, limit, result);
    } else if cut: Cut, r: Path :| p == cut.Whole() && DropsDot(fs, cut, r) && RewritesTo(fs, r, q, steps - 1, links) {
      DotWalks(fs, cut, r, limit);
      RewritingWalks(fs, r, q, steps - 1, links, limit, result);
    } else if cut: Cut, r: Path :| p == cut.Whole() && GoesUp(fs, cut, r) && RewritesTo(fs, r, q, steps - 1, links) {
      UpWalks(fs, cut, r, limit);
      RewritingWalks(fs, r, q, steps - 1, links, limit, result);
    } else {
      var cut: Cut, r: Path :|
        p == cut.Whole() && FollowsLink(fs, cut, r) && RewritesTo(fs, r, q, steps - 1, links - 1);
      LinkWalks(fs, cut, r, limit);
      RewritingWalks(fs, r, q, steps - 1, links - 1, limit - 1, result);
    }
  }

  /**
   Evaluating a path gives exactly what rewriting it gives: the existing link-free path it ends
   in, or the error of the place where it cannot go on, or that links do not end within the limit.
   */
  lemma EvaluationIsRewriting(fs: FileSystem, p: Path, limit: nat, result: Result<Path, Error>)
    requires WellFormed(fs)
    ensures Walk(fs, [], p, limit) == result <==> Evaluates(fs, p, limit, result)
  {
    hide Walk, RewritesTo, Verdict;
    assert LinkFreeDirectory(fs, []);
    WalkEvaluates(fs, [], p, limit);
    assert [] + p == p;
    if Evaluates(fs, p, limit, result) {
      var steps: nat, links: nat, q: Path :|
        links <= limit && RewritesTo(fs, p, q, steps, links) && Verdict(fs, q, limit - links, result);
      RewritingWalks(fs, p, q, steps, links, limit, result);
    }
  }

  // ---------------------------------------------------------------- the resolvers

  /** Lexical cleaning of a path argument, by its laws: one part after the other. */
  lemma {:induction false} CleaningIsStepwise(base: Path, a: seq<Name>, part: Name)
    ensures CleanJoin(base, []) == base
    ensures var before := CleanJoin(base, a);
            CleanJoin(base, a + [part]) ==
              if part == "" || part == "." then before
              else if part == ".." then (if before == [] then [] else before[..|before| - 1])
              else before + [part]
    decreases |a|
  {
    if a == [] {
      assert [] + [part] == [part] && [part][1..] == [];
    } else {
      assert (a + [part])[0] == a[0] && (a + [part])[1..] == a[1..] + [part];
      var next := if a[0] == "" || a[0] == "." then base else if a[0] == ".." then Parent(base) else base + [a[0]];
      CleaningIsStepwise(next, a[1..], part);
    }
  }

  /** `ResolveExisting` gives a path exactly if the cleaned argument evaluates to it and it lies under a root. */
  lemma ResolvesExactly(fs: FileSystem, roots: seq<Path>, cwd: Path, arg: PathArg, q: Path)
    requires WellFormed(fs)
    ensures var p := CleanJoin(if arg.absolute then [] else cwd, arg.parts);
            && (ResolveExisting(fs, roots, cwd, arg) == Ok(q) <==>
                  && !arg.blank && Evaluates(fs, p, 255, Ok(q)) && UnderSomeRoot(roots, q))
            && (!arg.blank && Evaluates(fs, p, 255, Ok(q)) && !UnderSomeRoot(roots, q) ==>
                  ResolveExisting(fs, roots, cwd, arg) == Err(OutsideRoots))
  {
    hide Evaluates, Allowed, CleanJoin, Walk;
    var p := Abs(cwd, arg);
    EvaluationIsRewriting(fs, p, 255, Ok(q));
    if EvalSymlinks(fs, p) == Ok(q) {
      WalkArrivesLinkFree(fs, [], p, MAX_LINKS);
      AllowedIsUnder(roots, q);
    }
  }

  /** `lstat` sees a node where the path before its last name evaluates to the directory that holds it. */
  lemma LstatSees(fs: FileSystem, p: Path, x: Node)
    requires WellFormed(fs) && p != []
    ensures Lstat(fs, p) == Ok(x) <==>
              exists d: Path :: Evaluates(fs, p[..|p| - 1], fs.kernelLinks, Ok(d)) && Holds(fs, d, p[|p| - 1], x)
  {
    hide Evaluates, Walk;
    forall d: Path
      ensures Evaluates(fs, Parent(p), fs.kernelLinks, Ok(d)) <==> Walk(fs, [], Parent(p), fs.kernelLinks) == Ok(d)
    {
      EvaluationIsRewriting(fs, Parent(p), fs.kernelLinks, Ok(d));
    }
    if Walk(fs, [], Parent(p), fs.kernelLinks).Ok? {
      var d := Walk(fs, [], Parent(p), fs.kernelLinks).value;
      assert d + [p[|p| - 1]] in fs.nodes ==> Parent(d + [p[|p| - 1]]) == d;
    }
  }

  /** The directory `d` has this node under this name. */
  ghost predicate Holds(fs: FileSystem, d: Path, c: Name, x: Node) {
    d + [c] in fs.nodes && fs.nodes[d + [c]] == x
  }

  /** It finds nothing where that path, or the last name in its directory, is missing. */
  lemma LstatMisses(fs: FileSystem, p: Path)
    requires WellFormed(fs) && p != []
    ensures Lstat(fs, p) == Err(NotExist) <==>
              || Evaluates(fs, p[..|p| - 1], fs.kernelLinks, Err(NotExist))
              || exists d: Path :: Evaluates(fs, p[..|p| - 1], fs.kernelLinks, Ok(d)) && Lacks(fs, d, p[|p| - 1])
  {
    hide Evaluates, Walk;
    EvaluationIsRewriting(fs, Parent(p), fs.kernelLinks, Err(NotExist));
    forall d: Path
      ensures Evaluates(fs, Parent(p), fs.kernelLinks, Ok(d)) <==> Walk(fs, [], Parent(p), fs.kernelLinks) == Ok(d)
    {
      EvaluationIsRewriting(fs, Parent(p), fs.kernelLinks, Ok(d));
    }
    if Walk(fs, [], Parent(p), fs.kernelLinks).Ok? {
      WalkArrivesLinkFree(fs, [], Parent(p), fs.kernelLinks);
    }
  }

  ghost predicate Lacks(fs: FileSystem, d: Path, c: Name) {
    d in fs.nodes && fs.nodes[d].Directory? && d + [c] !in fs.nodes
  }

  /** The ancestor that is resolved for a path to create: the longest one that `lstat` sees. */
  ghost predicate NearestSeen(fs: FileSystem, abs: Path, n: nat) {
    && n <= |abs| && Lstat(fs, abs[..n]).Ok?
    && (forall k :: n < k <= |abs| ==> Lstat(fs, abs[..k]) == Err(NotExist))
  }

  lemma {:induction false} NearestExactly(fs: FileSystem, abs: Path, n: nat)
    ensures Nearest(fs, abs) == Ok(n) <==> NearestSeen(fs, abs, n)
    decreases |abs|
  {
    hide Lstat;
    assert abs[..|abs|] == abs;
    if abs != [] && Lstat(fs, abs) == Err(NotExist) {
      var up := Parent(abs);
      NearestExactly(fs, up, n);
      forall k | 0 <= k < |abs| ensures up[..k] == abs[..k] { }
      assert NearestSeen(fs, up, n) <==> NearestSeen(fs, abs, n);
    }
  }

  /** The longest existing ancestor evaluates to `e`, and `p` is that with the missing names behind it. */
  ghost predicate Completes(fs: FileSystem, abs: Path, p: Path, n: nat, e: Path) {
    n <= |abs| && NearestSeen(fs, abs, n) && Evaluates(fs, abs[..n], 255, Ok(e)) && p == e + abs[n..]
  }

  ghost predicate CreatesFrom(fs: FileSystem, roots: seq<Path>, abs: Path, p: Path) {
    UnderSomeRoot(roots, p) && exists n: nat, e: Path :: Completes(fs, abs, p, n, e)
  }

  /**
   `ResolveForCreate` gives a path exactly if that is what the longest existing ancestor
   evaluates to, followed by the missing names, and it lies under a root.
   */
  lemma CreatesExactly(fs: FileSystem, roots: seq<Path>, cwd: Path, arg: PathArg, p: Path)
    requires WellFormed(fs) && Clean(cwd)
    ensures CreateResult(fs, roots, cwd, arg) == Ok(p) <==>
              !arg.blank && CreatesFrom(fs, roots, CleanJoin(if arg.absolute then [] else cwd, arg.parts), p)
  {
    var abs := CleanJoin(if arg.absolute then [] else cwd, arg.parts);
    assert CreateResult(fs, roots, cwd, arg) == if arg.blank then Err(Blank) else CreateTarget(fs, roots, abs);
    hide CreateResult, CreateTarget, UnderSomeRoot, Completes, CleanJoin;
    if CreateTarget(fs, roots, abs) == Ok(p) { var n, e := CreatedIsSeen(fs, roots, abs, p); }
    forall n: nat, e: Path | Completes(fs, abs, p, n, e)
      ensures UnderSomeRoot(roots, p) ==> CreateTarget(fs, roots, abs) == Ok(p)
    {
      SeenIsCreated(fs, roots, abs, p, n, e);
    }
  }

  lemma CreatedIsSeen(fs: FileSystem, roots: seq<Path>, abs: Path, p: Path) returns (n: nat, e: Path)
    requires WellFormed(fs) && Clean(abs) && CreateTarget(fs, roots, abs) == Ok(p)
    ensures Completes(fs, abs, p, n, e) && UnderSomeRoot(roots, p)
  {
    hide Evaluates, Allowed, Walk, Nearest, NearestSeen, WellFormed, Clean;
    n := Nearest(fs, abs).value;
    e := EvalSymlinks(fs, abs[..n]).value;
    NearestExactly(fs, abs, n);
    CreatedUnder(fs, roots, abs, n, e);
  }

  lemma SeenIsCreated(fs: FileSystem, roots: seq<Path>, abs: Path, p: Path, n: nat, e: Path)
    requires WellFormed(fs) && Clean(abs) && Completes(fs, abs, p, n, e)
    ensures UnderSomeRoot(roots, p) ==> CreateTarget(fs, roots, abs) == Ok(p)
  {
    hide Evaluates, Allowed, Walk, Nearest, NearestSeen, WellFormed, Clean;
    NearestExactly(fs, abs, n);
    EvaluationIsRewriting(fs, abs[..n], 255, Ok(e));
    CreatedUnder(fs, roots, abs, n, e);
  }

  lemma CreatedUnder(fs: FileSystem, roots: seq<Path>, abs: Path, n: nat, e: Path)
    requires WellFormed(fs) && Clean(abs) && n <= |abs| && EvalSymlinks(fs, abs[..n]) == Ok(e)
    ensures Evaluates(fs, abs[..n], 255, Ok(e))
    ensures Allowed(roots, e + abs[n..]) <==> UnderSomeRoot(roots, e + abs[n..])
  {
    EvaluationIsRewriting(fs, abs[..n], 255, Ok(e));
    hide Evaluates;
    WalkArrivesLinkFree(fs, [], abs[..n], MAX_LINKS);
    AllowedIsUnder(roots, e + abs[n..]);
  }

  // ---------------------------------------------------------------- where links lead

  /** A root "a" with a file and three links: to that file, up and out, and out from the top. */
  const HOME := FileSystem(map[
    [] := Directory, ["a"] := Directory, ["x"] := Regular, ["a", "x"] := Regular,
    ["a", "near"] := Link(false, ["x"]), ["a", "up"] := Link(false, ["..", "x"]),
    ["a", "top"] := Link(true, ["x"])], 40)

  lemma HomeWalks(name: Name)
    requires name == "near" || name == "up" || name == "top"
    ensures EvalSymlinks(HOME, ["a", name]) == Ok(if name == "near" then ["a", "x"] else ["x"])
  {
    var fs, link := HOME, HOME.nodes[["a", name]];
    assert ["a", name][0] == "a" && ["a", name][1..] == [name] && [] + ["a"] == ["a"] && ["a"] + [name] == ["a", name];
    assert Walk(fs, [], ["a", name], 255) == Walk(fs, ["a"], [name], 255);
    var base: Path := if link.absolute then [] else ["a"];
    assert [name][1..] == [] && link.target + [] == link.target;
    assert Walk(fs, ["a"], [name], 255) == Walk(fs, base, link.target, 254);
    assert [] + ["x"] == ["x"] && ["a"] + ["x"] == ["a", "x"] && ["..", "x"][1..] == ["x"] && ["x"][1..] == [];
    assert Walk(fs, [], ["x"], 254) == Ok(["x"]);
    assert Parent(["a"]) == [];
  }

  /** A relative link leads from where it lies; links that lead out of the root are refused. */
  lemma LinksInAndOut()
    ensures WellFormed(HOME)
    ensures ResolveExisting(HOME, [["a"]], [], PathArg(false, true, ["a", "near"])) == Ok(["a", "x"])
    ensures ResolveExisting(HOME, [["a"]], [], PathArg(false, true, ["a", "up"])) == Err(OutsideRoots)
    ensures ResolveExisting(HOME, [["a"]], [], PathArg(false, true, ["a", "top"])) == Err(OutsideRoots)
  {
    HomeIsWellFormed();
    hide WellFormed, Walk, CleanJoin, Inside;
    HomeResolves("near");
    HomeResolves("up");
    HomeResolves("top");
  }

  lemma HomeNode(p: Path)
    requires p in HOME.nodes
    ensures |p| <= 2 && (|p| == 2 ==> p[0] == "a") && forall k :: 0 <= k < |p| ==> Ordinary(p[k])
  {
  }

  lemma HomeIsWellFormed()
    ensures WellFormed(HOME)
  {
    forall p | p in HOME.nodes ensures Clean(p) && (p != [] ==> Parent(p) == [] || Parent(p) == ["a"]) {
      HomeNode(p);
    }
  }

  lemma HomeResolves(name: Name)
    requires name == "near" || name == "up" || name == "top"
    ensures ResolveExisting(HOME, [["a"]], [], PathArg(false, true, ["a", name])) ==
            if name == "near" then Ok(["a", "x"]) else Err(OutsideRoots)
  {
    HomeWalks(name);
    CleanIsFixed([], ["a", name]);
    assert [] + ["a", name] == ["a", name];
    hide Walk, CleanJoin;
    var q := if name == "near" then ["a", "x"] else ["x"];
    AllowedIsUnder([["a"]], q);
    assert UnderSomeRoot([["a"]], ["a", "x"]) by { assert [["a"]][0] <= ["a", "x"]; }
    assert !UnderSomeRoot([["a"]], ["x"]);
  }
}
