/** Interval subtraction: `_text_after_ignored_ranges` (app/evals/chunk_metrics.py)
    cuts the ignored ranges out of one structure unit. */
module IgnoredRanges {
  import opened Ranges
  import opened Strings
  import opened Sweep

  /** The characters of `source[from..limit]` outside every ignored range, in
      source order, each once. */
  ghost function Kept(source: string, ignored: seq<Range>, from: int, limit: int): string
    requires 0 <= from <= limit <= |source|
    decreases limit - from
  {
    if from == limit then ""
    else (if Ignored(ignored, from) then "" else [source[from]]) + Kept(source, ignored, from + 1, limit)
  }

  /** The text of the runs that survive. */
  ghost function Pieces(source: string, ignored: seq<Range>, from: int, limit: int): (pieces: seq<string>)
    requires 0 <= from <= limit <= |source|
  {
    RunsInOrder(ignored, from, limit);
    var runs := Runs(ignored, from, limit);
    seq(|runs|, i requires 0 <= i < |runs| => source[runs[i].start..runs[i].end])
  }

  lemma PiecesCut(source: string, sorted: seq<Range>, done: nat, cursor: int, limit: int, stop: int)
    requires 0 <= cursor < stop <= limit <= |source|
    requires Swept(sorted, done, cursor, limit)
    requires if done < |sorted| then stop == sorted[done].start else stop == limit
    ensures Pieces(source, sorted, cursor, limit) ==
            [source[cursor..stop]] + Pieces(source, sorted, stop, limit)
  {
    CutStep(sorted, done, cursor, limit, stop);
    RunsInOrder(sorted, cursor, limit);
    RunsInOrder(sorted, stop, limit);
  }

  /** `_text_after_ignored_ranges`: the sweep over the sorted ranges. */
  method TextAfterIgnoredRanges(source: string, unit: Range, ignored: seq<Range>) returns (text: string)
    requires 0 <= unit.start <= unit.end <= |source|
    requires WellFormed(ignored)
    ensures text == JoinWith(" ", Pieces(source, ignored, unit.start, unit.end))
  {
    hide Pieces, Runs, JoinWith, Sorted, Ordered;
    var cursor := unit.start;
    var parts: seq<string> := [];
    var sorted := Sorted(ignored);
    SortedIsOrdered(ignored);
    ghost var all := Pieces(source, sorted, unit.start, unit.end);
    for k := 0 to |sorted|
      invariant unit.start <= cursor <= unit.end
      invariant Swept(sorted, k, cursor, unit.end)
      invariant all == parts + Pieces(source, sorted, cursor, unit.end)
    {
      var Range(start, end) := sorted[k];
      assert sorted[k] in ignored;
      if end <= cursor || start >= unit.end {
        continue;
      }
      var clippedStart := if start < unit.start then unit.start else start;
      var clippedEnd := if end < unit.end then end else unit.end;
      ghost var mid := if cursor < clippedStart then clippedStart else cursor;
      if cursor < clippedStart {
        PiecesCut(source, sorted, k, cursor, unit.end, clippedStart);
        parts := parts + [source[cursor..clippedStart]];
      }
      cursor := if cursor < clippedEnd then clippedEnd else cursor;
      AdvanceStep(sorted, k, mid, cursor, unit.end);
      PiecesSameRuns(source, sorted, mid, sorted, cursor, unit.end);
    }
    if cursor < unit.end {
      PiecesCut(source, sorted, |sorted|, cursor, unit.end, unit.end);
      parts := parts + [source[cursor..unit.end]];
    }
    NoPieces(source, sorted, unit.end);
    assert parts == all;
    RunsSameRanges(sorted, ignored, unit.start, unit.end);
    PiecesSameRuns(source, sorted, unit.start, ignored, unit.start, unit.end);
    text := JoinWith(" ", parts);
  }

  lemma PiecesSameRuns(source: string, a: seq<Range>, from: int, b: seq<Range>, mid: int, limit: int)
    requires 0 <= from <= limit <= |source| && 0 <= mid <= limit
    requires Runs(a, from, limit) == Runs(b, mid, limit)
    ensures Pieces(source, a, from, limit) == Pieces(source, b, mid, limit)
  {
  }

  lemma NoPieces(source: string, ignored: seq<Range>, limit: int)
    requires 0 <= limit <= |source|
    ensures Pieces(source, ignored, limit, limit) == [] && JoinWith("", []) == ""
  {
  }

  lemma PiecesHead(source: string, ignored: seq<Range>, from: int, limit: int)
    requires 0 <= from < limit <= |source| && !Ignored(ignored, from)
    ensures var stop := RunEnd(ignored, from, limit);
            Pieces(source, ignored, from, limit) == [source[from..stop]] + Pieces(source, ignored, stop, limit)
  {
  }

  /** Main result: concatenated, the surviving pieces are exactly the unit's
      characters outside every ignored range. */
  lemma {:induction false} PiecesAreKept(source: string, ignored: seq<Range>, from: int, limit: int)
    requires 0 <= from <= limit <= |source| && WellFormed(ignored)
    ensures JoinWith("", Pieces(source, ignored, from, limit)) == Kept(source, ignored, from, limit)
    decreases limit - from
  {
    hide Pieces, JoinWith;
    NoPieces(source, ignored, limit);
    if from < limit {
      if Ignored(ignored, from) {
        PiecesAreKept(source, ignored, from + 1, limit);
        PiecesSameRuns(source, ignored, from, ignored, from + 1, limit);
      } else {
        var stop := RunEnd(ignored, from, limit);
        PiecesAreKept(source, ignored, stop, limit);
        RunTextIsKept(source, ignored, from, stop, limit);
        PiecesHead(source, ignored, from, limit);
        JoinHead(source[from..stop], Pieces(source, ignored, stop, limit));
      }
    }
  }

  lemma JoinHead(head: string, rest: seq<string>)
    ensures JoinWith("", [head] + rest) == head + JoinWith("", rest)
  {
  }

  lemma {:induction false} RunTextIsKept(source: string, ignored: seq<Range>, from: int, stop: int, limit: int)
    requires 0 <= from < stop <= limit <= |source| && WellFormed(ignored)
    requires !Ignored(ignored, from)
    requires forall p :: from < p < stop ==> !StartsAt(ignored, p)
    ensures Kept(source, ignored, from, limit) == source[from..stop] + Kept(source, ignored, stop, limit)
    decreases stop - from
  {
    SliceHead(source, from, stop);
    if from + 1 < stop {
      RunIsKept(ignored, from, stop, from + 1);
      RunTextIsKept(source, ignored, from + 1, stop, limit);
      ConcatAssociative([source[from]], source[from + 1..stop], Kept(source, ignored, stop, limit));
    }
  }
}
