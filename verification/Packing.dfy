/** Splitting a list of lines into bounded segments: the greedy rule of the segmented
    writer, and why no other split needs fewer (scripts/process-tree-memory.py). */
module Packing {
  import opened Common

  type Line = seq<Byte>

  function Size(lines: seq<Line>): nat {
    if lines == [] then 0 else Size(lines[..|lines| - 1]) + |lines[|lines| - 1]|
  }

  lemma SizeSnoc(lines: seq<Line>, line: Line)
    ensures Size(lines + [line]) == Size(lines) + |line|
  {
    assert (lines + [line])[..|lines|] == lines;
  }

  /** A segment holds at least one and at most `samples` lines, in at most `bytes` bytes. */
  predicate Fits(segment: seq<Line>, samples: nat, bytes: nat) {
    0 < |segment| <= samples && Size(segment) <= bytes
  }

  /** A split into segments, in order. */
  ghost predicate IsSplit(pieces: seq<seq<Line>>, lines: seq<Line>, samples: nat, bytes: nat) {
    Concat(pieces) == lines && forall p :: p in pieces ==> Fits(p, samples, bytes)
  }

  /** Some split has at most `limit` segments. */
  ghost predicate CanSplit(lines: seq<Line>, samples: nat, bytes: nat, limit: nat) {
    exists pieces :: IsSplit(pieces, lines, samples, bytes) && |pieces| <= limit
  }

  /** The writer's segments: those closed, and the one being filled. */
  datatype Packed = Packed(closed: seq<seq<Line>>, current: seq<Line>) {
    function Pieces(): seq<seq<Line>> {
      closed + [current]
    }
  }

  predicate NeedsRollover(p: Packed, line: Line, samples: nat, bytes: nat) {
    |p.current| >= samples || Size(p.current) + |line| > bytes
  }

  function Put(p: Packed, line: Line, samples: nat, bytes: nat): Packed {
    if NeedsRollover(p, line, samples, bytes) then Packed(p.Pieces(), [line])
    else Packed(p.closed, p.current + [line])
  }

  function Pack(lines: seq<Line>, samples: nat, bytes: nat): Packed {
    if lines == [] then Packed([], [])
    else Put(Pack(lines[..|lines| - 1], samples, bytes), lines[|lines| - 1], samples, bytes)
  }

  predicate Packable(lines: seq<Line>, samples: nat, bytes: nat) {
    samples > 0 && forall line :: line in lines ==> |line| <= bytes
  }

  /** The segments hold the lines: nothing is lost or reordered, every closed segment fits,
      and none is empty. */
  predicate Holds(p: Packed, lines: seq<Line>, samples: nat, bytes: nat) {
    && Concat(p.Pieces()) == lines
    && (forall s :: s in p.closed ==> Fits(s, samples, bytes))
    && (if lines == [] then p == Packed([], []) else Fits(p.current, samples, bytes))
  }

  lemma {:induction false} PackHolds(lines: seq<Line>, samples: nat, bytes: nat)
    requires Packable(lines, samples, bytes)
    ensures Holds(Pack(lines, samples, bytes), lines, samples, bytes)
  {
    hide Holds, Put;
    if lines == [] {
      NothingHolds(samples, bytes);
    } else {
      var front, line := lines[..|lines| - 1], lines[|lines| - 1];
      PackHolds(front, samples, bytes);
      assert line in lines;
      PutHolds(Pack(front, samples, bytes), front, line, samples, bytes);
      assert front + [line] == lines;
    }
  }

  lemma NothingHolds(samples: nat, bytes: nat)
    ensures Holds(Packed([], []), [], samples, bytes)
  {
    assert Packed([], []).Pieces() == [[]];
  }

  lemma PutHolds(p: Packed, front: seq<Line>, line: Line, samples: nat, bytes: nat)
    requires Holds(p, front, samples, bytes) && samples > 0 && |line| <= bytes
    ensures Holds(Put(p, line, samples, bytes), front + [line], samples, bytes)
    ensures NeedsRollover(p, line, samples, bytes) ==> p.current != []
  {
    SizeSnoc([], line);
    SizeSnoc(p.current, line);
    assert [] + [line] == [line];
    if NeedsRollover(p, line, samples, bytes) {
      ConcatSnoc(p.Pieces(), [line]);
    } else {
      ConcatSnoc(p.closed, p.current);
      ConcatSnoc(p.closed, p.current + [line]);
      assert Concat(p.closed) + (p.current + [line]) == Concat(p.closed) + p.current + [line];
    }
  }

  // ------------------------------------------------------------------ optimality

  /** `a` is the shorter end of `b`. */
  predicate IsSuffix(a: seq<Line>, b: seq<Line>) {
    |a| <= |b| && b[|b| - |a|..] == a
  }

  lemma {:induction false} SuffixIsSmaller(a: seq<Line>, b: seq<Line>)
    requires IsSuffix(a, b)
    ensures Size(a) <= Size(b)
  {
    if a != [] {
      var a', b' := a[..|a| - 1], b[..|b| - 1];
      assert b'[|b'| - |a'|..] == a';
      SuffixIsSmaller(a', b');
    }
  }

  lemma SuffixesOfOne(a: seq<Line>, b: seq<Line>, whole: seq<Line>)
    requires IsSuffix(a, whole) && IsSuffix(b, whole) && |a| <= |b|
    ensures IsSuffix(a, b)
  {
    assert b[|b| - |a|..] == whole[|whole| - |a|..];
  }

  lemma {:induction false} LastIsSuffix(pieces: seq<seq<Line>>)
    requires pieces != []
    ensures IsSuffix(pieces[|pieces| - 1], Concat(pieces))
  {
    var front, last := pieces[..|pieces| - 1], pieces[|pieces| - 1];
    assert front + [last] == pieces;
    ConcatSnoc(front, last);
  }

  /** Greedy stays ahead: against any split, it has used fewer segments, or as many and its
      current one is no longer than the split's last. */
  predicate Ahead(p: Packed, pieces: seq<seq<Line>>) {
    |p.Pieces()| < |pieces| || (|p.Pieces()| == |pieces| && |p.current| <= |pieces[|pieces| - 1]|)
  }

  /** The split's last segment is the new line alone. */
  lemma AheadOfNewPiece(p: Packed, line: Line, others: seq<seq<Line>>, samples: nat, bytes: nat)
    requires p == Packed([], []) || Ahead(p, others)
    requires samples > 0 && |line| <= bytes
    ensures Ahead(Put(p, line, samples, bytes), others + [[line]])
  {
    if p == Packed([], []) {
      assert Put(p, line, samples, bytes) == Packed([], [line]);
    }
  }

  /** The split's last segment is extended by the new line. */
  lemma AheadOfLongerPiece(p: Packed, line: Line, others: seq<seq<Line>>, shorter: seq<Line>, samples: nat, bytes: nat)
    requires Ahead(p, others + [shorter]) && Fits(shorter + [line], samples, bytes)
    requires |p.Pieces()| == |others| + 1 ==> Size(p.current) <= Size(shorter)
    ensures Ahead(Put(p, line, samples, bytes), others + [shorter + [line]])
  {
    SizeSnoc(shorter, line);
  }

  lemma {:induction false} GreedyStaysAhead(lines: seq<Line>, pieces: seq<seq<Line>>, samples: nat, bytes: nat)
    requires Packable(lines, samples, bytes) && IsSplit(pieces, lines, samples, bytes) && lines != []
    ensures Ahead(Pack(lines, samples, bytes), pieces)
    decreases |lines|
  {
    hide Ahead, Fits, Put, Size;
    var front, line := lines[..|lines| - 1], lines[|lines| - 1];
    var p := Pack(front, samples, bytes);
    assert line in lines;
    var others, last := LastPiece(pieces, lines, samples, bytes);
    if |last| == 1 {
      if front != [] {
        GreedyStaysAhead(front, others, samples, bytes);
      }
      AheadOfNewPiece(p, line, others, samples, bytes);
    } else {
      var shorter := last[..|last| - 1];
      GreedyStaysAhead(front, others + [shorter], samples, bytes);
      LastFits(front, others + [shorter], samples, bytes);
      AheadOfLongerPiece(p, line, others, shorter, samples, bytes);
    }
  }

  /** Taking the last line off a split. */
  lemma LastPiece(pieces: seq<seq<Line>>, lines: seq<Line>, samples: nat, bytes: nat)
    returns (others: seq<seq<Line>>, last: seq<Line>)
    requires IsSplit(pieces, lines, samples, bytes) && lines != []
    ensures pieces == others + [last] && 0 < |last| <= |lines| && Fits(last, samples, bytes)
    ensures last == last[..|last| - 1] + [lines[|lines| - 1]]
    ensures |last| == 1 ==> last == [lines[|lines| - 1]] && IsSplit(others, lines[..|lines| - 1], samples, bytes)
    ensures |last| > 1 ==> IsSplit(others + [last[..|last| - 1]], lines[..|lines| - 1], samples, bytes)
  {
    others, last := pieces[..|pieces| - 1], pieces[|pieces| - 1];
    assert others + [last] == pieces && last in pieces;
    ConcatSnoc(others, last);
    var shorter := last[..|last| - 1];
    ConcatSnoc(others, shorter);
    assert Concat(others) + shorter == lines[..|lines| - 1];
    SizeSnoc(shorter, last[|last| - 1]);
    assert shorter + [last[|last| - 1]] == last;
  }

  /** When greedy is level with a split, its current segment is an end of the split's last. */
  lemma LastFits(lines: seq<Line>, pieces: seq<seq<Line>>, samples: nat, bytes: nat)
    requires Packable(lines, samples, bytes) && lines != [] && IsSplit(pieces, lines, samples, bytes)
    requires Ahead(Pack(lines, samples, bytes), pieces)
    ensures var p := Pack(lines, samples, bytes);
            pieces != [] && (|p.Pieces()| == |pieces| ==> Size(p.current) <= Size(pieces[|pieces| - 1]))
  {
    hide Pack, Fits, Size;
    var p := Pack(lines, samples, bytes);
    PackHolds(lines, samples, bytes);
    LastIsSuffix(p.Pieces());
    LastIsSuffix(pieces);
    if |p.Pieces()| == |pieces| {
      SuffixesOfOne(p.current, pieces[|pieces| - 1], lines);
      SuffixIsSmaller(p.current, pieces[|pieces| - 1]);
    }
  }

  /** A split into at most `limit` segments exists just when greedy uses at most `limit`. */
  lemma GreedyIsOptimal(lines: seq<Line>, samples: nat, bytes: nat, limit: nat)
    requires Packable(lines, samples, bytes) && lines != []
    ensures |Pack(lines, samples, bytes).Pieces()| <= limit <==> CanSplit(lines, samples, bytes, limit)
  {
    hide Pack, Fits;
    PackHolds(lines, samples, bytes);
    assert IsSplit(Pack(lines, samples, bytes).Pieces(), lines, samples, bytes);
    forall pieces | IsSplit(pieces, lines, samples, bytes)
      ensures |Pack(lines, samples, bytes).Pieces()| <= |pieces|
    {
      GreedyStaysAhead(lines, pieces, samples, bytes);
    }
  }

  /** More lines never need fewer segments. */
  lemma {:induction false} PackGrows(lines: seq<Line>, n: nat, samples: nat, bytes: nat)
    requires n <= |lines|
    ensures |Pack(lines[..n], samples, bytes).Pieces()| <= |Pack(lines, samples, bytes).Pieces()|
    decreases |lines|
  {
    if n == |lines| {
      assert lines[..n] == lines;
    } else {
      var front := lines[..|lines| - 1];
      assert front[..n] == lines[..n];
      PackGrows(front, n, samples, bytes);
    }
  }
}
