/** Exact-string replacement: leftmost, non-overlapping, counted. */
module Replacement {
  import opened Common

  type Bytes = seq<bv8>

  predicate Occurs(s: Bytes, sep: Bytes, i: nat) {
    i + |sep| <= |s| && s[i..i + |sep|] == sep
  }

  /** The first position at or after `from` where `sep` occurs. */
  function Find(s: Bytes, sep: Bytes, from: nat): (r: Option<nat>)
    ensures r.Some? ==>
              && from <= r.value && Occurs(s, sep, r.value)
              && forall j :: from <= j < r.value ==> !Occurs(s, sep, j)
    ensures r.None? ==> forall j :: from <= j ==> !Occurs(s, sep, j)
    decreases |s| - from
  {
    if from + |sep| > |s| then None
    else if s[from..from + |sep|] == sep then Some(from)
    else Find(s, sep, from + 1)
  }

  /** What lies between the occurrences, taken from the left. */
  function Pieces(s: Bytes, sep: Bytes): (r: seq<Bytes>)
    requires sep != []
    ensures r != []
    decreases |s|
  {
    match Find(s, sep, 0)
    case None => [s]
    case Some(i) => [s[..i]] + Pieces(s[i + |sep|..], sep)
  }

  function Join(pieces: seq<Bytes>, sep: Bytes): Bytes
    requires pieces != []
    decreases |pieces|
  {
    if |pieces| == 1 then pieces[0] else pieces[0] + sep + Join(pieces[1..], sep)
  }

  /** The replacement as a specification: cut at the leftmost occurrences, join with the new text. */
  function Replaced(s: Bytes, sep: Bytes, with: Bytes): Bytes
    requires sep != []
  {
    Join(Pieces(s, sep), with)
  }

  function Occurrences(s: Bytes, sep: Bytes): nat
    requires sep != []
  {
    |Pieces(s, sep)| - 1
  }

  /** No occurrence starts among the first `n` positions. */
  ghost predicate NoStart(s: Bytes, n: nat, sep: Bytes) {
    forall j :: 0 <= j < n ==> !Occurs(s, sep, j)
  }

  /** A cutting is leftmost when no occurrence starts inside a piece, looking past its end too. */
  ghost predicate Leftmost(pieces: seq<Bytes>, sep: Bytes)
    requires pieces != []
    decreases |pieces|
  {
    if |pieces| == 1 then NoStart(pieces[0], |pieces[0]|, sep)
    else NoStart(pieces[0] + sep, |pieces[0]|, sep) && Leftmost(pieces[1..], sep)
  }

  /** Before its own end, a separator seen after `head` is seen in `head + sep` already. */
  lemma OccursInContext(head: Bytes, sep: Bytes, tail: Bytes, j: nat)
    requires j < |head|
    ensures Occurs(head + sep + tail, sep, j) <==> Occurs(head + sep, sep, j)
  {
    assert (head + sep + tail)[j..j + |sep|] == (head + sep)[j..j + |sep|];
  }

  lemma CutAt(s: Bytes, sep: Bytes, i: nat)
    requires Occurs(s, sep, i)
    ensures s == s[..i] + sep + s[i + |sep|..]
  {
    assert s[..i] + s[i..i + |sep|] == s[..i + |sep|];
  }

  lemma PiecesStep(s: Bytes, sep: Bytes, i: nat)
    requires sep != [] && Find(s, sep, 0) == Some(i)
    ensures s == s[..i] + sep + s[i + |sep|..]
    ensures Pieces(s, sep) == [s[..i]] + Pieces(s[i + |sep|..], sep)
    ensures NoStart(s[..i] + sep, i, sep)
  {
    var head, tail := s[..i], s[i + |sep|..];
    CutAt(s, sep, i);
    forall j | 0 <= j < i ensures !Occurs(head + sep, sep, j) { OccursInContext(head, sep, tail, j); }
  }

  lemma JoinStep(head: Bytes, rest: seq<Bytes>, sep: Bytes)
    requires rest != []
    ensures Join([head] + rest, sep) == head + sep + Join(rest, sep)
  {
    assert ([head] + rest)[1..] == rest;
  }

  lemma {:induction false} PiecesAreLeftmost(s: Bytes, sep: Bytes)
    requires sep != []
    ensures Join(Pieces(s, sep), sep) == s && Leftmost(Pieces(s, sep), sep)
    decreases |s|
  {
    var found := Find(s, sep, 0);
    if found.Some? {
      var i := found.value;
      var rest := Pieces(s[i + |sep|..], sep);
      PiecesStep(s, sep, i);
      PiecesAreLeftmost(s[i + |sep|..], sep);
      JoinStep(s[..i], rest, sep);
      assert ([s[..i]] + rest)[1..] == rest;
    }
  }

  /** There is only one leftmost cutting, so the replacement is determined by the text alone. */
  lemma {:induction false} LeftmostIsUnique(s: Bytes, sep: Bytes, pieces: seq<Bytes>)
    requires sep != [] && pieces != [] && Join(pieces, sep) == s && Leftmost(pieces, sep)
    ensures pieces == Pieces(s, sep)
    decreases |pieces|
  {
    var head := pieces[0];
    if |pieces| == 1 {
      assert Find(s, sep, 0).None?;
      assert pieces == [s];
    } else {
      var tail := Join(pieces[1..], sep);
      FirstIsAfterHead(head, sep, tail);
      LeftmostIsUnique(tail, sep, pieces[1..]);
      assert pieces == [head] + pieces[1..];
    }
  }

  lemma FirstIsAfterHead(head: Bytes, sep: Bytes, tail: Bytes)
    requires sep != [] && NoStart(head + sep, |head|, sep)
    ensures Pieces(head + sep + tail, sep) == [head] + Pieces(tail, sep)
  {
    var s, at := head + sep + tail, |head|;
    forall j | 0 <= j < at ensures !Occurs(s, sep, j) { OccursInContext(head, sep, tail, j); }
    assert s[at..at + |sep|] == sep;
    assert Occurs(s, sep, at);
    assert Find(s, sep, 0) == Some(at);
    assert s[..at] == head && s[at + |sep|..] == tail;
  }

  /** Every replacement changes the length by the same amount. */
  lemma {:induction false} JoinLength(pieces: seq<Bytes>, a: Bytes, b: Bytes)
    requires pieces != []
    ensures |Join(pieces, b)| == |Join(pieces, a)| + (|pieces| - 1) * (|b| - |a|)
    decreases |pieces|
  {
    if |pieces| > 1 {
      JoinLength(pieces[1..], a, b);
      var n, d := |pieces| - 1, |b| - |a|;
      assert n * d == (n - 1) * d + d;
    }
  }

  lemma ReplacedLength(s: Bytes, sep: Bytes, with: Bytes)
    requires sep != []
    ensures |Replaced(s, sep, with)| == |s| + Occurrences(s, sep) * (|with| - |sep|)
  {
    PiecesAreLeftmost(s, sep);
    JoinLength(Pieces(s, sep), sep, with);
  }

  lemma WholePiece(s: Bytes, sep: Bytes, with: Bytes)
    requires sep != [] && Find(s, sep, 0).None?
    ensures Pieces(s, sep) == [s] && Replaced(s, sep, with) == s
  {
  }

  method IndexFrom(s: Bytes, sep: Bytes, from: nat) returns (r: Option<nat>)
    ensures r == Find(s, sep, from)
  {
    var i := from;
    while i + |sep| <= |s|
      invariant Find(s, sep, from) == Find(s, sep, i)
      decreases |s| - i
    {
      if s[i..i + |sep|] == sep { return Some(i); }
      i := i + 1;
    }
    return None;
  }

  /** `bytes.Count` and `bytes.ReplaceAll` in one pass from the left. */
  method ReplaceAll(s: Bytes, sep: Bytes, with: Bytes) returns (count: nat, out: Bytes)
    requires sep != []
    ensures count == Occurrences(s, sep) && out == Replaced(s, sep, with)
  {
    hide Pieces, Join;
    count, out := 0, [];
    var rest := s;
    while true
      invariant |Pieces(s, sep)| == count + |Pieces(rest, sep)|
      invariant Replaced(s, sep, with) == out + Replaced(rest, sep, with)
      decreases |rest|
    {
      var at := IndexFrom(rest, sep, 0);
      if at.None? {
        WholePiece(rest, sep, with);
        out := out + rest;
        return;
      }
      ghost var head, tail := rest[..at.value], rest[at.value + |sep|..];
      PiecesStep(rest, sep, at.value);
      JoinStep(head, Pieces(tail, sep), with);
      assert out + (head + with + Replaced(tail, sep, with)) == out + head + with + Replaced(tail, sep, with);
      out := out + rest[..at.value] + with;
      rest := rest[at.value + |sep|..];
      count := count + 1;
    }
  }

  /** A text occurs at `i` exactly if the whole is that text between something of length `i` and something more. */
  lemma OccursBetween(s: Bytes, sep: Bytes, i: nat)
    ensures Occurs(s, sep, i) <==>
              exists before: Bytes, after: Bytes :: |before| == i && IsBetween(s, before, sep, after)
  {
    if Occurs(s, sep, i) {
      CutAt(s, sep, i);
      assert IsBetween(s, s[..i], sep, s[i + |sep|..]);
    }
    if before: Bytes, after: Bytes :| |before| == i && IsBetween(s, before, sep, after) {
      assert (before + sep + after)[i..i + |sep|] == sep;
    }
  }

  predicate IsBetween(s: Bytes, before: Bytes, sep: Bytes, after: Bytes) { s == before + sep + after }

  /**
   Replacing by its laws: at the first place where the text occurs the new text takes its place
   and replacing goes on behind it; where it occurs nowhere nothing changes.
   */
  lemma ReplacedByLaw(s: Bytes, sep: Bytes, with: Bytes, i: nat)
    requires sep != []
    ensures (forall j :: 0 <= j ==> !Occurs(s, sep, j)) ==> Replaced(s, sep, with) == s && Occurrences(s, sep) == 0
    ensures Occurs(s, sep, i) && (forall j :: 0 <= j < i ==> !Occurs(s, sep, j)) ==>
              && Replaced(s, sep, with) == s[..i] + with + Replaced(s[i + |sep|..], sep, with)
              && Occurrences(s, sep) == 1 + Occurrences(s[i + |sep|..], sep)
  {
    if Occurs(s, sep, i) && (forall j :: 0 <= j < i ==> !Occurs(s, sep, j)) {
      assert Find(s, sep, 0) == Some(i);
      PiecesStep(s, sep, i);
      JoinStep(s[..i], Pieces(s[i + |sep|..], sep), with);
    }
    if forall j :: 0 <= j ==> !Occurs(s, sep, j) {
      WholePiece(s, sep, with);
    }
  }
}
