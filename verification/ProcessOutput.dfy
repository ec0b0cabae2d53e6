/**
 The output ring of a process session: a bounded buffer addressed by absolute cursors.
 The whole output of the process is the specification; the buffer keeps its tail.
*/
module ProcessOutput {
  import opened Common

  type Bytes = seq<bv8>

  /** A ring that records anything has room for at least one byte. */
  type Capacity = n: int | n > 0 witness 1

  /** The last `n` bytes, or all of them. */
  function Tail(s: Bytes, n: nat): (r: Bytes)
    ensures |r| == Min(n, |s|)
  {
    s[|s| - Min(n, |s|)..]
  }

  lemma TailOfTail(s: Bytes, p: Bytes, n: nat)
    ensures Tail(Tail(s, n) + p, n) == Tail(s + p, n)
  {
    var a, b := Tail(Tail(s, n) + p, n), Tail(s + p, n);
    forall k | 0 <= k < |b| ensures a[k] == b[k] {
    }
  }

  lemma SliceOfTail(s: Bytes, base: nat, i: nat, j: nat)
    requires base <= |s| && i <= j <= |s| - base
    ensures s[base..][i..j] == s[base + i..base + j]
  {
  }

  /** Where a read from `cursor` starts and ends when the buffer covers positions `base..end`. */
  function ReadStart(base: nat, end: nat, cursor: int): int
    requires base <= end
  {
    if cursor < base then base else Min(cursor, end)
  }

  function ReadEnd(base: nat, end: nat, cursor: int, limit: nat): int
    requires base <= end
  {
    Min(ReadStart(base, end, cursor) + limit, end)
  }

  class Ring {
    const max: int
    var data: Bytes
    var base: nat
    ghost var stream: Bytes

    /** The buffer is the tail of everything written; a ring without capacity records nothing. */
    ghost predicate Valid()
      reads this
    {
      if max <= 0 then data == [] && base == 0 && stream == []
      else data == Tail(stream, max) && base + |data| == |stream|
    }

    constructor (max: int)
      ensures Valid() && this.max == max && stream == [] && base == 0
    {
      this.max, data, base, stream := max, [], 0, [];
    }

    method Write(p: Bytes)
      requires Valid()
      modifies this
      ensures Valid()
      ensures stream == if max <= 0 then [] else old(stream) + p
      ensures max > 0 ==> base == (if |stream| <= max then 0 else |stream| - max) && data == stream[base..]
      ensures old(base) <= base
    {
      if max <= 0 { return; }
      TailOfTail(stream, p, max);
      stream := stream + p;
      if |p| >= max {
        base := base + |data| + |p| - max;
        data := p[|p| - max..];
        return;
      }
      data := data + p;
      if |data| > max {
        var drop := |data| - max;
        data := data[drop..];
        base := base + drop;
      }
    }

    /** A copy of buffered bytes, the cursor after them, and whether the cursor was too old. */
    method Read(cursor: int, limit: nat) returns (bytes: Bytes, next: int, truncated: bool)
      requires Valid()
      ensures base <= |stream| && (max > 0 ==> base == Base(max, stream))
      ensures var start, end := ReadStart(base, |stream|, cursor), ReadEnd(base, |stream|, cursor, limit);
              0 <= start <= end <= |stream| && bytes == stream[start..end] && next == end
      ensures truncated <==> cursor < base
      ensures |bytes| <= limit && (|bytes| < limit ==> next == |stream|)
      ensures next == |stream| || |bytes| == limit
      ensures base <= cursor <= |stream| ==> bytes == stream[cursor..next]
      ensures cursor < base ==> bytes == stream[base..next]
      ensures cursor > |stream| ==> bytes == [] && next == |stream|
    {
      truncated := cursor < base;
      var at := if cursor < base then base else cursor;
      var end := base + |data|;
      if at > end { at := end; }
      var startIdx := at - base;
      var available := |data| - startIdx;
      if available > limit { available := limit; }
      bytes := data[startIdx..startIdx + available];
      if max > 0 { SliceOfTail(stream, base, startIdx, startIdx + available); }
      next := at + available;
    }
  }

  /** `outputWriter.Write`: standard error is marked, in one critical section with its bytes. */
  method WriteOutput(ring: Ring, prefix: Bytes, b: Bytes)
    requires ring.Valid()
    modifies ring
    ensures ring.Valid()
    ensures ring.stream == if ring.max <= 0 then [] else old(ring.stream) + (if |b| > 0 then prefix else []) + b
  {
    if |prefix| > 0 && |b| > 0 { ring.Write(prefix); }
    ring.Write(b);
  }

  // ---------------------------------------------------------------- chained reads

  const DEFAULT_READ := 64 * 1024
  const MAX_READ := 256 * 1024

  /** The limit `Manager.Read` passes on. */
  function ReadLimit(maxBytes: int): (r: nat)
    ensures 0 < r <= MAX_READ
  {
    if maxBytes <= 0 || maxBytes > MAX_READ then DEFAULT_READ else maxBytes
  }

  /** What happens to a session: output arrives, or the client reads on from its last `next_cursor`. */
  datatype Op = Output(bytes: Bytes) | ReadOn(maxBytes: int)

  /**
   One read: the cursor given, the piece of the whole output returned, and the truncation flag;
   with the size that was asked for and how much output there was.
   */
  datatype Piece = Piece(cursor: nat, start: nat, bytes: Bytes, truncated: bool, asked: int, total: nat) {
    function Next(): nat { start + |bytes| }
  }

  datatype Session = Session(stream: Bytes, cursor: nat, pieces: seq<Piece>)

  /** The ring reduced to its specification: positions from `Base` on are still buffered. */
  function Base(max: Capacity, stream: Bytes): nat {
    |stream| - Min(max, |stream|)
  }

  function Apply(max: Capacity, s: Session, op: Op): Session {
    match op
    case Output(b) => s.(stream := s.stream + b)
    case ReadOn(maxBytes) =>
      var base := Base(max, s.stream);
      var start := ReadStart(base, |s.stream|, s.cursor);
      var end := ReadEnd(base, |s.stream|, s.cursor, ReadLimit(maxBytes));
      var piece := Piece(s.cursor, start, s.stream[start..end], s.cursor < base, maxBytes, |s.stream|);
      s.(cursor := end, pieces := s.pieces + [piece])
  }

  function Play(max: Capacity, s: Session, ops: seq<Op>): Session
    decreases |ops|
  {
    if ops == [] then s else Play(max, Apply(max, s, ops[0]), ops[1..])
  }

  /** Where the first `i` pieces end. */
  function EndOf(pieces: seq<Piece>, i: nat): nat
    requires i <= |pieces|
  {
    if i == 0 then 0 else pieces[i - 1].Next()
  }

  /** Each piece starts where the last one ended, or later exactly when it is flagged. */
  ghost predicate PieceOk(s: Session, i: nat)
    requires i < |s.pieces|
  {
    var p := s.pieces[i];
    && p.cursor == EndOf(s.pieces, i) <= p.start && p.Next() <= |s.stream|
    && p.bytes == s.stream[p.start..p.Next()]
    && (p.truncated <==> p.cursor < p.start)
  }

  /**
   A read starts at its cursor, or at the oldest byte still buffered, and gives the most that is
   there and that the size asked for allows: that size when it is in range, else sixty-four kilobytes.
   */
  predicate PieceFull(max: Capacity, p: Piece) {
    && p.start == (if p.cursor + max >= p.total then p.cursor else p.total - max)
    && p.start <= p.total
    && var size := if 1 <= p.asked <= 256 * 1024 then p.asked else 64 * 1024;
       |p.bytes| == if p.total - p.start < size then p.total - p.start else size
  }

  /** Every read gives the most it may. */
  lemma {:induction false} ReadsAreFull(max: Capacity, s: Session, ops: seq<Op>)
    requires s.cursor <= |s.stream| && forall p :: p in s.pieces ==> PieceFull(max, p)
    ensures forall p :: p in Play(max, s, ops).pieces ==> PieceFull(max, p)
    decreases |ops|
  {
    if ops != [] { ReadsAreFull(max, Apply(max, s, ops[0]), ops[1..]); }
  }

  ghost predicate Chained(s: Session) {
    && (forall i :: 0 <= i < |s.pieces| ==> PieceOk(s, i))
    && s.cursor == EndOf(s.pieces, |s.pieces|)
  }

  lemma ChainedApply(max: Capacity, s: Session, op: Op)
    requires Chained(s)
    ensures Chained(Apply(max, s, op))
  {
    var t := Apply(max, s, op);
    if s.pieces != [] { assert PieceOk(s, |s.pieces| - 1); }
    forall i | 0 <= i < |t.pieces| ensures PieceOk(t, i) {
      if i < |s.pieces| {
        assert PieceOk(s, i);
        var p := s.pieces[i];
        assert t.stream[p.start..p.Next()] == s.stream[p.start..p.Next()];
      }
    }
  }

  /** Reads chained from cursor zero, interleaved with any output, are disjoint in-order pieces of the whole output. */
  lemma {:induction false} ChainedReads(max: Capacity, s: Session, ops: seq<Op>)
    requires Chained(s)
    ensures Chained(Play(max, s, ops))
    decreases |ops|
  {
    if ops != [] {
      ChainedApply(max, s, ops[0]);
      ChainedReads(max, Apply(max, s, ops[0]), ops[1..]);
    }
  }

  /** Pieces never overlap and come in order. */
  lemma {:induction false} PiecesAreOrdered(s: Session, i: nat, j: nat)
    requires Chained(s) && i < j < |s.pieces|
    ensures s.pieces[i].Next() <= s.pieces[j].start
    decreases j - i
  {
    assert PieceOk(s, j);
    if i + 1 < j {
      PiecesAreOrdered(s, i, j - 1);
      assert PieceOk(s, j - 1);
    }
  }

  function Concat(pieces: seq<Piece>): Bytes
    decreases |pieces|
  {
    if pieces == [] then [] else Concat(pieces[..|pieces| - 1]) + pieces[|pieces| - 1].bytes
  }

  /** As long as no read is flagged, the pieces add up to exactly the output so far. */
  lemma {:induction false} UnflaggedReadsAreComplete(s: Session, n: nat)
    requires Chained(s) && n <= |s.pieces| && forall i :: 0 <= i < n ==> !s.pieces[i].truncated
    ensures EndOf(s.pieces, n) <= |s.stream| && Concat(s.pieces[..n]) == s.stream[..EndOf(s.pieces, n)]
  {
    if n > 0 {
      UnflaggedReadsAreComplete(s, n - 1);
      assert PieceOk(s, n - 1);
      var p := s.pieces[n - 1];
      assert s.pieces[..n][..n - 1] == s.pieces[..n - 1];
      assert s.stream[..p.Next()] == s.stream[..p.start] + s.stream[p.start..p.Next()];
    }
  }

  /**
   The client's view of a whole run: every piece is a slice of the output, in order, without
   overlap, flagged exactly when bytes were skipped; and everything, unless something was flagged.
   */
  lemma WholeOutputOrFlag(max: Capacity, ops: seq<Op>)
    ensures var s := Play(max, Session([], 0, []), ops);
            && (forall i :: 0 <= i < |s.pieces| ==> PieceOk(s, i))
            && (forall i, j :: 0 <= i < j < |s.pieces| ==> s.pieces[i].Next() <= s.pieces[j].start)
    ensures forall p :: p in Play(max, Session([], 0, []), ops).pieces ==> PieceFull(max, p)
    ensures var s := Play(max, Session([], 0, []), ops);
            (forall p :: p in s.pieces ==> !p.truncated) ==>
                s.cursor <= |s.stream| && Concat(s.pieces) == s.stream[..s.cursor]
  {
    ChainedReads(max, Session([], 0, []), ops);
    ReadsAreFull(max, Session([], 0, []), ops);
    var s := Play(max, Session([], 0, []), ops);
    forall i, j | 0 <= i < j < |s.pieces| ensures s.pieces[i].Next() <= s.pieces[j].start { PiecesAreOrdered(s, i, j); }
    if forall p :: p in s.pieces ==> !p.truncated {
      UnflaggedReadsAreComplete(s, |s.pieces|);
      assert s.pieces[..|s.pieces|] == s.pieces;
    }
  }

  /** A client that is behind always gets something, so it catches up. */
  lemma ReadsMakeProgress(max: Capacity, s: Session, maxBytes: int)
    requires Chained(s) && s.cursor < |s.stream|
    ensures Apply(max, s, ReadOn(maxBytes)).cursor > s.cursor
    ensures Apply(max, s, ReadOn(maxBytes)).pieces[|s.pieces|].bytes != []
  {
  }

  /** How many bytes of output lie between the cursor and where the read starts. */
  function Skipped(base: nat, end: nat, cursor: int): int
    requires base <= end
  {
    ReadStart(base, end, cursor) - (if cursor < 0 then 0 else cursor)
  }

  /** The flag means skipped bytes exactly when the cursor is a real position or something has been dropped. */
  lemma FlagMeansSkipped(base: nat, end: nat, cursor: int)
    requires base <= end
    ensures (cursor < base <==> Skipped(base, end, cursor) > 0) <==> (cursor >= 0 || base > 0)
  {
  }

  /** A negative cursor on output that has lost nothing is flagged although nothing was skipped. */
  lemma NegativeCursorIsFlaggedInVain()
    ensures -1 < Base(8, []) && Skipped(Base(8, []), 0, -1) == 0
  {
  }
}
