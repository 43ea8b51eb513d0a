/** Structure units of a page: `_structure_text_units` (app/evals/chunk_metrics.py)
    combines the layout lines it can locate with what the text lines have left over. */
module LayoutPartition {
  import opened MatchText
  import opened Options
  import opened Ranges
  import opened SourceText
  import opened Strings
  import opened Sweep

  /** A physical line reported by the parser, with its source range if it is located. */
  datatype LayoutLine = LayoutLine(text: string, start: Option<int>, end: Option<int>)

  /** `_StructureTextUnit`. */
  datatype Unit = Unit(text: string, start: int, end: int)

  ghost predicate Within(r: Range, length: int) { 0 <= r.start && r.end <= length }

  predicate VisibleAt(f: Folding, text: string, p: int) {
    0 <= p < |text| && !f.isSpace(text[p])
  }

  /** A non-empty range whose first and last characters are not white space. */
  predicate Tight(f: Folding, text: string, r: Range) {
    0 <= r.start < r.end <= |text| && VisibleAt(f, text, r.start) && VisibleAt(f, text, r.end - 1)
  }

  /** A range without the white space at its two ends. */
  function Trimmed(f: Folding, text: string, r: Range): Range
    requires 0 <= r.start && r.end <= |text|
    decreases r.end - r.start
  {
    if r.start < r.end && f.isSpace(text[r.start]) then Trimmed(f, text, Range(r.start + 1, r.end))
    else if r.start < r.end && f.isSpace(text[r.end - 1]) then Trimmed(f, text, Range(r.start, r.end - 1))
    else r
  }

  /** Trimming drops only white space. */
  lemma {:induction false} TrimmedKeepsVisible(f: Folding, text: string, r: Range)
    requires 0 <= r.start && r.end <= |text|
    ensures var t := Trimmed(f, text, r);
            && r.start <= t.start && t.end <= r.end
            && (t.start < t.end ==> Tight(f, text, t))
            && (r.start <= r.end ==> t.start <= t.end)
            && (forall p :: VisibleAt(f, text, p) ==> (t.Covers(p) <==> r.Covers(p)))
    decreases r.end - r.start
  {
    if r.start < r.end && f.isSpace(text[r.start]) {
      TrimmedKeepsVisible(f, text, Range(r.start + 1, r.end));
    } else if r.start < r.end && f.isSpace(text[r.end - 1]) {
      TrimmedKeepsVisible(f, text, Range(r.start, r.end - 1));
    }
  }

  /** The two trimming loops, which the source repeats wherever it closes a range. */
  method TrimSpaces(f: Folding, text: string, r: Range) returns (start: int, end: int)
    requires 0 <= r.start && r.end <= |text|
    ensures Range(start, end) == Trimmed(f, text, r)
  {
    start, end := r.start, r.end;
    while start < end && f.isSpace(text[start])
      invariant 0 <= start && (start <= end || (start == r.start && end == r.end))
      invariant end == r.end
      invariant Trimmed(f, text, Range(start, end)) == Trimmed(f, text, r)
    {
      start := start + 1;
    }
    while end > start && f.isSpace(text[end - 1])
      invariant 0 <= start && end <= |text|
      invariant start < end ==> !f.isSpace(text[start])
      invariant Trimmed(f, text, Range(start, end)) == Trimmed(f, text, r)
    {
      end := end - 1;
    }
  }

  // ----- The text lines

  /** The next match of the pattern for a newline or the end, from `from`. */
  function NextBreak(text: string, from: nat): (at: nat)
    requires from <= |text|
    ensures from <= at <= |text|
    ensures at < |text| ==> text[at] == '\n'
    ensures forall p :: from <= p < at ==> text[p] != '\n'
    decreases |text| - from
  {
    if from == |text| || text[from] == '\n' then from else NextBreak(text, from + 1)
  }

  function KeepNonEmpty(r: Range): seq<Range> { if r.start < r.end then [r] else [] }

  /** The trimmed, non-empty lines from position `from` on. */
  function LinesFrom(f: Folding, text: string, from: nat): seq<Range>
    requires from <= |text|
    decreases |text| - from
  {
    var at := NextBreak(text, from);
    KeepNonEmpty(Trimmed(f, text, Range(from, at))) + (if at == |text| then [] else LinesFrom(f, text, at + 1))
  }

  lemma LinesStep(f: Folding, text: string, lines: seq<Range>, from: nat)
    requires from <= |text|
    ensures var at := NextBreak(text, from);
            lines + LinesFrom(f, text, from) ==
            lines + KeepNonEmpty(Trimmed(f, text, Range(from, at))) +
            (if at == |text| then [] else LinesFrom(f, text, at + 1))
  {
    hide Trimmed;
    var at := NextBreak(text, from);
    ConcatAssociative(lines, KeepNonEmpty(Trimmed(f, text, Range(from, at))),
                      if at == |text| then [] else LinesFrom(f, text, at + 1));
  }

  lemma KeptIfNonEmpty(lines: seq<Range>, start: int, end: int)
    ensures lines + KeepNonEmpty(Range(start, end)) == if start < end then lines + [Range(start, end)] else lines
  {
  }

  /** `fallback_ranges`. */
  method FallbackRanges(f: Folding, text: string) returns (lines: seq<Range>)
    ensures lines == LinesFrom(f, text, 0)
  {
    hide LinesFrom, Trimmed, NextBreak, KeepNonEmpty;
    lines := [];
    var normalizedStart := 0;
    assert [] + LinesFrom(f, text, 0) == LinesFrom(f, text, 0);
    while true
      invariant 0 <= normalizedStart <= |text|
      invariant LinesFrom(f, text, 0) == lines + LinesFrom(f, text, normalizedStart)
      decreases |text| - normalizedStart
    {
      var matchStart := NextBreak(text, normalizedStart);
      var start, end := TrimSpaces(f, text, Range(normalizedStart, matchStart));
      LinesStep(f, text, lines, normalizedStart);
      KeptIfNonEmpty(lines, start, end);
      if start < end {
        lines := lines + [Range(start, end)];
      }
      if matchStart == |text| {
        assert lines + [] == lines;
        break;
      }
      normalizedStart := matchStart + 1;
    }
  }

  /** Tight ranges, one after the other, from position `from` on. */
  ghost predicate Chain(f: Folding, text: string, ranges: seq<Range>, from: int) {
    && (forall i :: 0 <= i < |ranges| ==> Tight(f, text, ranges[i]) && from <= ranges[i].start)
    && (forall i, j :: 0 <= i < j < |ranges| ==> ranges[i].end <= ranges[j].start)
  }

  lemma ChainConcat(f: Folding, text: string, a: seq<Range>, b: seq<Range>, from: int, mid: int)
    requires Chain(f, text, a, from) && Chain(f, text, b, mid) && from <= mid
    requires forall i :: 0 <= i < |a| ==> a[i].end <= mid
    ensures Chain(f, text, a + b, from)
  {
  }

  lemma InSomeConcat(a: seq<Range>, b: seq<Range>, p: int)
    ensures InSome(a + b, p) <==> InSome(a, p) || InSome(b, p)
  {
  }

  /** The kept part of a trimmed range holds exactly the range's visible characters. */
  lemma KeptIsExact(f: Folding, text: string, r: Range)
    requires 0 <= r.start <= r.end <= |text|
    ensures var kept := KeepNonEmpty(Trimmed(f, text, r));
            && Chain(f, text, kept, r.start)
            && (forall i :: 0 <= i < |kept| ==> kept[i].end <= r.end)
            && (forall p :: VisibleAt(f, text, p) ==> (InSome(kept, p) <==> r.Covers(p)))
  {
    hide Trimmed;
    TrimmedKeepsVisible(f, text, r);
    var t := Trimmed(f, text, r);
    forall p | VisibleAt(f, text, p)
      ensures InSome(KeepNonEmpty(t), p) <==> r.Covers(p)
    {
      if t.start < t.end {
        assert t in KeepNonEmpty(t);
      }
    }
  }

  /** The lines are disjoint and hold every character that is not white space. */
  lemma {:induction false} LinesPartition(f: Folding, text: string, from: nat)
    requires Sound(f) && from <= |text|
    ensures Chain(f, text, LinesFrom(f, text, from), from)
    ensures forall p :: from <= p && VisibleAt(f, text, p) ==> InSome(LinesFrom(f, text, from), p)
    decreases |text| - from
  {
    hide Trimmed, Chain, InSome, KeepNonEmpty;
    var at := NextBreak(text, from);
    KeptIsExact(f, text, Range(from, at));
    var head := KeepNonEmpty(Trimmed(f, text, Range(from, at)));
    var rest := if at == |text| then [] else LinesFrom(f, text, at + 1);
    if at < |text| {
      LinesPartition(f, text, at + 1);
      ChainConcat(f, text, head, rest, from, at + 1);
    } else {
      assert head + rest == head;
    }
    forall p | from <= p && VisibleAt(f, text, p)
      ensures InSome(head + rest, p)
    {
      InSomeConcat(head, rest, p);
    }
  }

  // ----- The residual ranges

  function TrimmedAll(f: Folding, text: string, runs: seq<Range>): seq<Range>
    requires forall i :: 0 <= i < |runs| ==> 0 <= runs[i].start && runs[i].end <= |text|
  {
    if runs == [] then []
    else KeepNonEmpty(Trimmed(f, text, runs[0])) + TrimmedAll(f, text, runs[1..])
  }

  /** What the located ranges leave of one line. */
  ghost function LineResiduals(f: Folding, text: string, located: seq<Range>, line: Range): seq<Range>
    requires 0 <= line.start <= line.end <= |text|
  {
    RunsInOrder(located, line.start, line.end);
    TrimmedAll(f, text, Runs(located, line.start, line.end))
  }

  ghost function Residuals(f: Folding, text: string, located: seq<Range>, lines: seq<Range>): seq<Range>
    requires forall i :: 0 <= i < |lines| ==> 0 <= lines[i].start <= lines[i].end <= |text|
  {
    if lines == [] then []
    else Residuals(f, text, located, lines[..|lines| - 1]) + LineResiduals(f, text, located, lines[|lines| - 1])
  }

  ghost predicate EndsBetween(runs: seq<Range>, a: int, b: int) {
    exists k :: 0 <= k < |runs| && a <= runs[k].end <= b
  }

  /** Each two of the ranges have the end of one of the runs between them. */
  ghost predicate SeparatedByRunEnds(runs: seq<Range>, ranges: seq<Range>) {
    forall i, j :: 0 <= i < j < |ranges| ==> EndsBetween(runs, ranges[i].end, ranges[j].start)
  }

  ghost predicate RunsBetween(runs: seq<Range>, from: int, limit: int) {
    && (forall i :: 0 <= i < |runs| ==> from <= runs[i].start < runs[i].end <= limit)
    && (forall i, j :: 0 <= i < j < |runs| ==> runs[i].end <= runs[j].start)
  }

  lemma {:induction false} TrimmedAllIsExact(f: Folding, text: string, runs: seq<Range>, from: int, limit: int)
    requires 0 <= from <= limit <= |text| && RunsBetween(runs, from, limit)
    ensures var kept := TrimmedAll(f, text, runs);
            && Chain(f, text, kept, from)
            && (forall i :: 0 <= i < |kept| ==> kept[i].end <= limit)
            && (forall p :: VisibleAt(f, text, p) ==> (InSome(kept, p) <==> InSome(runs, p)))
  {
    if runs == [] {
    } else {
      hide Trimmed, KeepNonEmpty, Chain, InSome, VisibleAt;
      var run, rest := runs[0], runs[1..];
      var head, tail := KeepNonEmpty(Trimmed(f, text, run)), TrimmedAll(f, text, rest);
      KeptIsExact(f, text, run);
      TrimmedAllIsExact(f, text, rest, run.end, limit);
      ChainWeaken(f, text, head, run.start, from);
      ChainConcat(f, text, head, tail, from, run.end);
      forall p | VisibleAt(f, text, p)
        ensures InSome(head + tail, p) <==> InSome(runs, p)
      {
        InSomeConcat(head, tail, p);
        InSomeConcat([run], rest, p);
        assert runs == [run] + rest;
        InSomeOne(run, p);
      }
    }
  }

  lemma ChainWeaken(f: Folding, text: string, ranges: seq<Range>, from: int, lower: int)
    requires Chain(f, text, ranges, from) && lower <= from
    ensures Chain(f, text, ranges, lower)
  {
  }

  lemma InSomeOne(r: Range, p: int)
    ensures InSome([r], p) <==> r.Covers(p)
  {
  }

  /** Every kept range lies inside one run, and run ends separate them. */
  lemma {:induction false} TrimmedAllInsideRuns(f: Folding, text: string, runs: seq<Range>, from: int, limit: int)
    requires 0 <= from <= limit <= |text| && RunsBetween(runs, from, limit)
    ensures forall p :: InSome(TrimmedAll(f, text, runs), p) ==> InSome(runs, p)
    ensures SeparatedByRunEnds(runs, TrimmedAll(f, text, runs))
  {
    if runs != [] {
      hide Trimmed, InSome, Chain;
      var run, rest := runs[0], runs[1..];
      var t := Trimmed(f, text, run);
      var head, tail := KeepNonEmpty(t), TrimmedAll(f, text, rest);
      TrimmedKeepsVisible(f, text, run);
      TrimmedAllInsideRuns(f, text, rest, run.end, limit);
      TrimmedAllIsExact(f, text, rest, run.end, limit);
      assert runs == [run] + rest;
      forall p
        ensures InSome(head + tail, p) ==> InSome(runs, p)
      {
        InSomeConcat(head, tail, p);
        InSomeConcat([run], rest, p);
        InSomeOne(run, p);
        InSomeOne(t, p);
        NotInNone(p);
      }
      SeparateHead(f, text, runs, head, tail);
    }
  }

  lemma NotInNone(p: int)
    ensures !InSome([], p)
  {
  }

  lemma SeparateHead(f: Folding, text: string, runs: seq<Range>, head: seq<Range>, tail: seq<Range>)
    requires runs != [] && |head| <= 1 && Chain(f, text, tail, runs[0].end)
    requires forall i :: 0 <= i < |head| ==> head[i].end <= runs[0].end
    requires SeparatedByRunEnds(runs[1..], tail)
    ensures SeparatedByRunEnds(runs, head + tail)
  {
  }

  ghost predicate StartsBetween(located: seq<Range>, a: int, b: int) {
    exists l :: l in located && a <= l.start <= b
  }

  /** Each two of the ranges have the start of a located range between them. */
  ghost predicate SeparatedByLocated(located: seq<Range>, ranges: seq<Range>) {
    forall i, j :: 0 <= i < j < |ranges| ==> StartsBetween(located, ranges[i].end, ranges[j].start)
  }

  ghost predicate EndBy(ranges: seq<Range>, stop: int) {
    forall i :: 0 <= i < |ranges| ==> ranges[i].end <= stop
  }

  /** The ranges hold exactly the line's visible characters that no located range holds, and
      nothing outside the line or in a located range. */
  ghost predicate LeftOverOf(f: Folding, text: string, located: seq<Range>, line: Range, ranges: seq<Range>) {
    && (forall p :: VisibleAt(f, text, p) ==> (InSome(ranges, p) <==> line.Covers(p) && !Ignored(located, p)))
    && (forall p :: InSome(ranges, p) ==> line.Covers(p) && !Ignored(located, p))
  }

  /** Main facts about one line: its residuals are tight, in order, hold exactly the
      visible characters that no located range holds, touch no located range, and
      have a located range between each two of them. */
  lemma LineResidualsAreExact(f: Folding, text: string, located: seq<Range>, line: Range)
    requires 0 <= line.start <= line.end <= |text| && WellFormed(located)
    ensures var residuals := LineResiduals(f, text, located, line);
            && Chain(f, text, residuals, line.start)
            && EndBy(residuals, line.end)
            && LeftOverOf(f, text, located, line, residuals)
            && SeparatedByLocated(located, residuals)
  {
    hide Trimmed, InSome, Chain, Runs, VisibleAt;
    var runs := Runs(located, line.start, line.end);
    RunsInOrder(located, line.start, line.end);
    TrimmedAllIsExact(f, text, runs, line.start, line.end);
    TrimmedAllInsideRuns(f, text, runs, line.start, line.end);
    var residuals := LineResiduals(f, text, located, line);
    assert residuals == TrimmedAll(f, text, runs);
    forall p
      ensures InSome(runs, p) <==> line.Covers(p) && !Ignored(located, p)
    {
      RunsAreExact(located, line.start, line.end, p);
    }
    RunEndsAreLocated(f, text, located, line, residuals);
  }

  lemma RunEndsAreLocated(f: Folding, text: string, located: seq<Range>, line: Range, ranges: seq<Range>)
    requires line.start <= line.end && Chain(f, text, ranges, line.start)
    requires forall i :: 0 <= i < |ranges| ==> ranges[i].end <= line.end
    requires SeparatedByRunEnds(Runs(located, line.start, line.end), ranges)
    ensures SeparatedByLocated(located, ranges)
  {
    hide Runs;
    var runs := Runs(located, line.start, line.end);
    RunsInOrder(located, line.start, line.end);
    forall i, j | 0 <= i < j < |ranges|
      ensures StartsBetween(located, ranges[i].end, ranges[j].start)
    {
      assert EndsBetween(runs, ranges[i].end, ranges[j].start);
      var k :| 0 <= k < |runs| && ranges[i].end <= runs[k].end <= ranges[j].start;
      assert ranges[j].start < ranges[j].end;
      assert StartsAt(located, runs[k].end);
    }
  }

  /** The ranges hold exactly the lines' visible characters that no located range
      holds, and no position of any located range. */
  ghost predicate LeftOver(f: Folding, text: string, located: seq<Range>, lines: seq<Range>, ranges: seq<Range>) {
    && (forall p :: VisibleAt(f, text, p) ==> (InSome(ranges, p) <==> InSome(lines, p) && !Ignored(located, p)))
    && (forall p :: InSome(ranges, p) ==> !Ignored(located, p))
  }

  lemma LeftOverConcat(f: Folding, text: string, located: seq<Range>, front: seq<Range>, line: Range,
                       before: seq<Range>, within: seq<Range>)
    requires LeftOver(f, text, located, front, before)
    requires LeftOverOf(f, text, located, line, within)
    ensures LeftOver(f, text, located, front + [line], before + within)
  {
  }

  lemma LastOfChain(f: Folding, text: string, lines: seq<Range>)
    requires Chain(f, text, lines, 0) && lines != []
    ensures var n := |lines| - 1;
            && Chain(f, text, lines[..n], 0) && (n > 0 ==> lines[n - 1].end <= lines[n].start)
            && forall i :: 0 <= i < |lines| ==> 0 <= lines[i].start < lines[i].end <= |text|
  {
  }

  lemma ResidualsStep(f: Folding, text: string, line: Range, before: seq<Range>, within: seq<Range>)
    requires Chain(f, text, before, 0) && EndBy(before, line.start) && 0 <= line.start <= line.end
    requires Chain(f, text, within, line.start) && EndBy(within, line.end)
    ensures Chain(f, text, before + within, 0) && EndBy(before + within, line.end)
  {
    ChainConcat(f, text, before, within, 0, line.start);
  }

  lemma LastResiduals(f: Folding, text: string, located: seq<Range>, lines: seq<Range>)
    requires lines != [] && forall i :: 0 <= i < |lines| ==> 0 <= lines[i].start <= lines[i].end <= |text|
    ensures var n := |lines| - 1;
            Residuals(f, text, located, lines) ==
              Residuals(f, text, located, lines[..n]) + LineResiduals(f, text, located, lines[n])
  {
    hide LineResiduals;
  }

  /** The residuals of some lines are tight, in order, and what these leave over. */
  ghost predicate ExactResiduals(f: Folding, text: string, located: seq<Range>, lines: seq<Range>, ranges: seq<Range>) {
    && Chain(f, text, ranges, 0) && EndBy(ranges, if lines == [] then 0 else lines[|lines| - 1].end)
    && LeftOver(f, text, located, lines, ranges)
  }

  lemma ResidualsOfOneMore(f: Folding, text: string, located: seq<Range>, front: seq<Range>, line: Range,
                           before: seq<Range>, within: seq<Range>)
    requires ExactResiduals(f, text, located, front, before)
    requires 0 <= line.start <= line.end && (front != [] ==> front[|front| - 1].end <= line.start)
    requires Chain(f, text, within, line.start) && EndBy(within, line.end)
    requires LeftOverOf(f, text, located, line, within)
    ensures ExactResiduals(f, text, located, front + [line], before + within)
  {
    hide LeftOver, LeftOverOf, Chain, EndBy;
    EndByLater(before, if front == [] then 0 else front[|front| - 1].end, line.start);
    ResidualsStep(f, text, line, before, within);
    LeftOverConcat(f, text, located, front, line, before, within);
  }

  lemma NothingLeftOver(f: Folding, text: string, located: seq<Range>)
    ensures ExactResiduals(f, text, located, [], Residuals(f, text, located, []))
  {
    assert Residuals(f, text, located, []) == [];
    hide Ignored, VisibleAt, Residuals;
    forall p
      ensures !InSome([], p)
    {
      NotInNone(p);
    }
  }

  lemma {:induction false} ResidualsAreExact(f: Folding, text: string, located: seq<Range>, lines: seq<Range>)
    requires Chain(f, text, lines, 0) && WellFormed(located)
    ensures ExactResiduals(f, text, located, lines, Residuals(f, text, located, lines))
  {
    hide LineResiduals, Residuals, ExactResiduals, LeftOverOf, WellFormed, SeparatedByLocated, EndBy, Chain;
    if lines == [] {
      NothingLeftOver(f, text, located);
    } else {
      var n := |lines| - 1;
      var front, line := lines[..n], lines[n];
      LastOfChain(f, text, lines);
      ResidualsAreExact(f, text, located, front);
      LineResidualsAreExact(f, text, located, line);
      LastResiduals(f, text, located, lines);
      ResidualsOfOneMore(f, text, located, front, line, Residuals(f, text, located, front),
                         LineResiduals(f, text, located, line));
      assert lines == front + [line];
    }
  }

  lemma EndByLater(ranges: seq<Range>, stop: int, later: int)
    requires EndBy(ranges, stop) && stop <= later
    ensures EndBy(ranges, later)
  {
  }

  // ----- The ranges of the units

  /** Lines if nothing is located; otherwise the located ranges and the residuals, as a sorted set. */
  ghost function UnitRanges(f: Folding, text: string, located: seq<Range>): seq<Range>
    requires Sound(f)
  {
    LinesPartition(f, text, 0);
    var lines := LinesFrom(f, text, 0);
    if located == [] then lines else SortedSet(located + Residuals(f, text, located, lines))
  }

  ghost predicate Located(f: Folding, text: string, located: seq<Range>) {
    forall i :: 0 <= i < |located| ==> Tight(f, text, located[i])
  }

  ghost predicate Disjoint(a: Range, b: Range) { a.end <= b.start || b.end <= a.start }

  /** Main result: the unit ranges are tight, every located range is among them, and
      each of the others touches no other range at all. */
  lemma UnitRangesAreTight(f: Folding, text: string, located: seq<Range>)
    requires Sound(f) && Located(f, text, located)
    ensures forall r :: r in UnitRanges(f, text, located) ==> Tight(f, text, r)
    ensures forall r :: r in located ==> r in UnitRanges(f, text, located)
    ensures forall r, s ::
              r in UnitRanges(f, text, located) && r !in located && s in UnitRanges(f, text, located) && r != s ==>
                Disjoint(r, s)
  {
    hide LinesFrom, Residuals, InSome, VisibleAt;
    LinesPartition(f, text, 0);
    var lines := LinesFrom(f, text, 0);
    LocatedIsWellFormed(f, text, located);
    ResidualsAreExact(f, text, located, lines);
    var residuals := Residuals(f, text, located, lines);
    forall r, s | r in residuals && s in located
      ensures Disjoint(r, s)
    {
      ResidualIsClear(f, text, located, lines, residuals, r, s);
    }
    ChainIsDisjoint(f, text, residuals);
    ChainIsDisjoint(f, text, lines);
  }

  lemma LocatedIsWellFormed(f: Folding, text: string, located: seq<Range>)
    requires Located(f, text, located)
    ensures WellFormed(located)
  {
  }

  lemma ChainIsDisjoint(f: Folding, text: string, ranges: seq<Range>)
    requires Chain(f, text, ranges, 0)
    ensures forall r :: r in ranges ==> Tight(f, text, r)
    ensures forall r, s :: r in ranges && s in ranges && r != s ==> Disjoint(r, s)
  {
  }

  lemma ResidualIsClear(f: Folding, text: string, located: seq<Range>, lines: seq<Range>, residuals: seq<Range>,
                        r: Range, s: Range)
    requires LeftOver(f, text, located, lines, residuals)
    requires r in residuals && s in located && r.start < r.end && s.start < s.end
    ensures Disjoint(r, s)
  {
    if !Disjoint(r, s) {
      var p := if r.start < s.start then s.start else r.start;
      assert r.Covers(p) && s.Covers(p);
      assert InSome(residuals, p);
    }
  }

  /** Main result: no character that is not white space is lost. */
  lemma UnitRangesCover(f: Folding, text: string, located: seq<Range>, p: int)
    requires Sound(f) && Located(f, text, located) && VisibleAt(f, text, p)
    ensures InSome(UnitRanges(f, text, located), p)
  {
    hide LinesFrom, Residuals, VisibleAt, InSome, Located, Ignored, WellFormed, LeftOver;
    LinesPartition(f, text, 0);
    var lines := LinesFrom(f, text, 0);
    VisibleInText(f, text, p);
    if located != [] {
      LocatedIsWellFormed(f, text, located);
      ResidualsAreExact(f, text, located, lines);
      var residuals := Residuals(f, text, located, lines);
      LeftOverAt(f, text, located, lines, residuals, p);
      InSomeOfBoth(located, residuals, UnitRanges(f, text, located), p);
    }
  }

  lemma LeftOverAt(f: Folding, text: string, located: seq<Range>, lines: seq<Range>, residuals: seq<Range>, p: int)
    requires LeftOver(f, text, located, lines, residuals) && VisibleAt(f, text, p) && InSome(lines, p)
    ensures InSome(located, p) || InSome(residuals, p)
  {
  }

  lemma InSomeOfBoth(a: seq<Range>, b: seq<Range>, both: seq<Range>, p: int)
    requires forall r :: r in both <==> r in a + b
    requires InSome(a, p) || InSome(b, p)
    ensures InSome(both, p)
  {
  }

  lemma VisibleInText(f: Folding, text: string, p: int)
    requires VisibleAt(f, text, p)
    ensures 0 <= p < |text|
  {
  }

  ghost predicate ExactlyOnce(f: Folding, text: string, ranges: seq<Range>) {
    && (forall p :: VisibleAt(f, text, p) ==> InSome(ranges, p))
    && (forall p, r, s :: VisibleAt(f, text, p) && r in ranges && s in ranges && r.Covers(p) && s.Covers(p) ==> r == s)
  }

  /** Main result: the units hold every visible character exactly once if and only if
      no two different located ranges overlap. */
  lemma PartitionExactlyWhenDisjoint(f: Folding, text: string, located: seq<Range>)
    requires Sound(f) && Located(f, text, located)
    ensures ExactlyOnce(f, text, UnitRanges(f, text, located)) <==>
            forall r, s :: r in located && s in located && r != s ==> Disjoint(r, s)
  {
    hide UnitRanges, InSome;
    var ranges := UnitRanges(f, text, located);
    UnitRangesAreTight(f, text, located);
    forall p | VisibleAt(f, text, p)
      ensures InSome(ranges, p)
    {
      UnitRangesCover(f, text, located, p);
    }
    forall r, s | r in located && s in located && r != s && !Disjoint(r, s)
      ensures !ExactlyOnce(f, text, ranges)
    {
      var p := if r.start < s.start then s.start else r.start;
      assert VisibleAt(f, text, p) && r.Covers(p) && s.Covers(p);
      assert r in ranges && s in ranges;
    }
  }

  // ----- The sweep over one line

  lemma TrimmedAllStep(f: Folding, text: string, done: seq<Range>, run: Range, rest: seq<Range>)
    requires 0 <= run.start && run.end <= |text|
    requires forall i :: 0 <= i < |rest| ==> 0 <= rest[i].start && rest[i].end <= |text|
    ensures done + TrimmedAll(f, text, [run] + rest) ==
            done + KeepNonEmpty(Trimmed(f, text, run)) + TrimmedAll(f, text, rest)
  {
  }

  /** What is still to come on this line. */
  ghost function ResidualsAfter(f: Folding, text: string, sorted: seq<Range>, cursor: int, line: Range): seq<Range>
    requires 0 <= line.start <= cursor && line.start <= line.end <= |text|
  {
    var from := if cursor < line.end then cursor else line.end;
    RunsInOrder(sorted, from, line.end);
    TrimmedAll(f, text, Runs(sorted, from, line.end))
  }

  lemma ResidualCut(f: Folding, text: string, sorted: seq<Range>, done: nat, cursor: int, line: Range, stop: int,
                    residuals: seq<Range>)
    requires 0 <= line.start <= cursor < stop <= line.end <= |text|
    requires Swept(sorted, done, cursor, line.end)
    requires if done < |sorted| then stop == sorted[done].start else stop == line.end
    ensures residuals + ResidualsAfter(f, text, sorted, cursor, line) ==
            residuals + KeepNonEmpty(Trimmed(f, text, Range(cursor, stop))) +
              ResidualsAfter(f, text, sorted, stop, line)
  {
    hide Trimmed, Runs, TrimmedAll;
    CutStep(sorted, done, cursor, line.end, stop);
    RunsInOrder(sorted, stop, line.end);
    TrimmedAllStep(f, text, residuals, Range(cursor, stop), Runs(sorted, stop, line.end));
  }

  lemma ResidualAdvance(f: Folding, text: string, sorted: seq<Range>, done: nat, cursor: int, next: int, line: Range)
    requires 0 <= line.start <= cursor && line.start <= line.end <= |text|
    requires done < |sorted| && sorted[done].start <= cursor
    requires next == if cursor < sorted[done].end then sorted[done].end else cursor
    ensures ResidualsAfter(f, text, sorted, cursor, line) == ResidualsAfter(f, text, sorted, next, line)
  {
    hide Trimmed, Runs, TrimmedAll;
    var from := if cursor < line.end then cursor else line.end;
    var mid := if next < line.end then next else line.end;
    if from < mid {
      AdvanceStep(sorted, done, from, mid, line.end);
    }
  }

  lemma SweepBegins(f: Folding, text: string, sorted: seq<Range>, line: Range)
    requires 0 <= line.start <= line.end <= |text|
    ensures LineResiduals(f, text, sorted, line) == ResidualsAfter(f, text, sorted, line.start, line)
  {
  }

  lemma SweepEnds(f: Folding, text: string, sorted: seq<Range>, cursor: int, line: Range)
    requires 0 <= line.start <= line.end <= |text| && line.end <= cursor
    ensures ResidualsAfter(f, text, sorted, cursor, line) == []
  {
  }

  lemma NothingToTrim(f: Folding, text: string, r: Range)
    requires 0 <= r.start && r.end <= |text| && r.end <= r.start
    ensures Trimmed(f, text, r) == r
  {
  }

  /** The cursor loop that `_structure_text_units` runs over one text line. */
  method SweepLine(f: Folding, text: string, sorted: seq<Range>, line: Range) returns (residuals: seq<Range>)
    requires 0 <= line.start <= line.end <= |text| && Ordered(sorted)
    requires forall r :: r in sorted ==> r.start <= r.end <= |text|
    ensures residuals == LineResiduals(f, text, sorted, line)
  {
    hide Trimmed, Runs, TrimmedAll, Ordered, ResidualsAfter, LineResiduals;
    residuals := [];
    var cursor := line.start;
    SweepBegins(f, text, sorted, line);
    for k := 0 to |sorted|
      invariant line.start <= cursor <= |text|
      invariant Swept(sorted, k, cursor, line.end)
      invariant LineResiduals(f, text, sorted, line) == residuals + ResidualsAfter(f, text, sorted, cursor, line)
    {
      var Range(start, end) := sorted[k];
      assert sorted[k] in sorted;
      if end <= line.start || start >= line.end {
        continue;
      }
      var residualEnd := if cursor < start then start else cursor;
      var rs, re := TrimSpaces(f, text, Range(cursor, residualEnd));
      if cursor < start {
        ResidualCut(f, text, sorted, k, cursor, line, start, residuals);
      } else {
        NothingToTrim(f, text, Range(cursor, residualEnd));
      }
      if rs < re {
        residuals := residuals + [Range(rs, re)];
      }
      cursor := if residualEnd < end then end else residualEnd;
      ResidualAdvance(f, text, sorted, k, residualEnd, cursor, line);
    }
    var rs, re := TrimSpaces(f, text, Range(cursor, line.end));
    if cursor < line.end {
      ResidualCut(f, text, sorted, |sorted|, cursor, line, line.end, residuals);
    } else {
      NothingToTrim(f, text, Range(cursor, line.end));
      SweepEnds(f, text, sorted, cursor, line);
    }
    if rs < re {
      residuals := residuals + [Range(rs, re)];
    }
    SweepEnds(f, text, sorted, line.end, line);
  }

  // ----- Locating the layout lines

  /** The normalised positions whose source range meets that of the layout line. */
  function Meeting(characters: seq<SourceCharacter>, start: int, end: int): (indexes: seq<nat>)
    ensures forall k :: 0 <= k < |indexes| ==> indexes[k] < |characters|
    ensures forall i :: i in indexes <==>
              0 <= i < |characters| && characters[i].end > start && characters[i].start < end
    ensures forall i, j :: 0 <= i < j < |indexes| ==> indexes[i] < indexes[j]
  {
    if characters == [] then []
    else
      var n := |characters| - 1;
      var front := Meeting(characters[..n], start, end);
      if characters[n].end > start && characters[n].start < end then front + [n] else front
  }

  /** The located range of one layout line, if its text is found where it claims to be. */
  ghost function LocatedRange(f: Folding, characters: seq<SourceCharacter>, line: LayoutLine): seq<Range> {
    if line.start.None? || line.end.None? then []
    else
      var indexes := Meeting(characters, line.start.value, line.end.value);
      if indexes == [] then []
      else
        var text := Text(characters);
        var r := Trimmed(f, text, Range(indexes[0], indexes[|indexes| - 1] + 1));
        if r.start < r.end && Within(r, |text|) &&
           MatchNormalize(f, text[r.start..r.end]) == MatchNormalize(f, line.text)
        then [r] else []
  }

  ghost function LocatedRanges(f: Folding, characters: seq<SourceCharacter>, lines: seq<LayoutLine>): seq<Range> {
    if lines == [] then []
    else LocatedRanges(f, characters, lines[..|lines| - 1]) + LocatedRange(f, characters, lines[|lines| - 1])
  }

  /** The loop that fills `located_ranges`. */
  method LocateLines(f: Folding, characters: seq<SourceCharacter>, lines: seq<LayoutLine>) returns (located: seq<Range>)
    requires Sound(f)
    ensures located == LocatedRanges(f, characters, lines)
  {
    hide Trimmed, MatchNormalize, LocatedRanges, VisibleAt;
    var text := Text(characters);
    located := [];
    LocatedNothing(f, characters, lines);
    for i := 0 to |lines|
      invariant located == LocatedRanges(f, characters, lines[..i])
    {
      var line := lines[i];
      LocatedPrefix(f, characters, lines, i);
      if line.start.None? || line.end.None? {
        continue;
      }
      var indexes := Meeting(characters, line.start.value, line.end.value);
      if indexes == [] {
        continue;
      }
      var span := Range(indexes[0], indexes[|indexes| - 1] + 1);
      var start, end := TrimSpaces(f, text, span);
      TrimmedKeepsVisible(f, text, span);
      if start < end {
        var found, _ := MatchNormalizeWithPositions(f, text[start..end]);
        var expected, _ := MatchNormalizeWithPositions(f, line.text);
        if found == expected {
          located := located + [Range(start, end)];
        }
      }
    }
    assert lines[..|lines|] == lines;
  }

  lemma LocatedRangeIsTight(f: Folding, characters: seq<SourceCharacter>, line: LayoutLine)
    ensures Located(f, Text(characters), LocatedRange(f, characters, line))
  {
    hide Trimmed, MatchNormalize, VisibleAt;
    if line.start.Some? && line.end.Some? {
      var indexes := Meeting(characters, line.start.value, line.end.value);
      if indexes != [] {
        TrimmedKeepsVisible(f, Text(characters), Range(indexes[0], indexes[|indexes| - 1] + 1));
      }
    }
  }

  lemma {:induction false} LocatedRangesAreTight(f: Folding, characters: seq<SourceCharacter>, lines: seq<LayoutLine>)
    ensures Located(f, Text(characters), LocatedRanges(f, characters, lines))
  {
    if lines != [] {
      hide LocatedRange, Tight;
      LocatedRangesAreTight(f, characters, lines[..|lines| - 1]);
      LocatedRangeIsTight(f, characters, lines[|lines| - 1]);
    }
  }

  lemma LocatedNothing(f: Folding, characters: seq<SourceCharacter>, lines: seq<LayoutLine>)
    ensures LocatedRanges(f, characters, lines[..0]) == []
  {
  }

  lemma LocatedPrefix(f: Folding, characters: seq<SourceCharacter>, lines: seq<LayoutLine>, i: nat)
    requires i < |lines|
    ensures LocatedRanges(f, characters, lines[..i + 1]) ==
            LocatedRanges(f, characters, lines[..i]) + LocatedRange(f, characters, lines[i])
  {
    assert lines[..i + 1][..i] == lines[..i];
  }

  // ----- The whole function

  lemma SameRangesSameResiduals(f: Folding, text: string, a: seq<Range>, b: seq<Range>, lines: seq<Range>)
    requires forall r :: r in a <==> r in b
    requires forall i :: 0 <= i < |lines| ==> 0 <= lines[i].start <= lines[i].end <= |text|
    ensures Residuals(f, text, a, lines) == Residuals(f, text, b, lines)
  {
    if lines != [] {
      hide Runs, TrimmedAll;
      var line := lines[|lines| - 1];
      SameRangesSameResiduals(f, text, a, b, lines[..|lines| - 1]);
      RunsSameRanges(a, b, line.start, line.end);
    }
  }

  lemma ResidualsPrefix(f: Folding, text: string, located: seq<Range>, lines: seq<Range>, i: nat)
    requires i < |lines|
    requires forall i :: 0 <= i < |lines| ==> 0 <= lines[i].start <= lines[i].end <= |text|
    ensures Residuals(f, text, located, lines[..0]) == []
    ensures Residuals(f, text, located, lines[..i + 1]) ==
            Residuals(f, text, located, lines[..i]) + LineResiduals(f, text, located, lines[i])
  {
    hide LineResiduals;
    assert lines[..i + 1][..i] == lines[..i];
  }

  lemma SortedLocatedSameUnits(f: Folding, text: string, located: seq<Range>)
    requires Sound(f) && located != []
    ensures var lines := LinesFrom(f, text, 0);
            && Chain(f, text, lines, 0)
            && SortedSet(Sorted(located) + Residuals(f, text, Sorted(located), lines)) == UnitRanges(f, text, located)
  {
    hide LinesFrom, Residuals, Sorted, VisibleAt;
    LinesPartition(f, text, 0);
    var lines := LinesFrom(f, text, 0);
    SortedIsOrdered(located);
    SameRangesSameResiduals(f, text, Sorted(located), located, lines);
    var residuals := Residuals(f, text, located, lines);
    StrictlyOrderedIsUnique(SortedSet(Sorted(located) + residuals), SortedSet(located + residuals));
  }

  /** `_source_units_from_normalized_ranges`. */
  function UnitsOf(source: string, characters: seq<SourceCharacter>, ranges: seq<Range>): seq<Unit>
    requires InSource(characters, |source|) && InSourceOrder(characters)
    requires forall r :: r in ranges ==> 0 <= r.start < r.end <= |characters|
  {
    seq(|ranges|, i requires 0 <= i < |ranges| => assert ranges[i] in ranges; UnitOf(source, characters, ranges[i]))
  }

  function UnitOf(source: string, characters: seq<SourceCharacter>, r: Range): Unit
    requires InSource(characters, |source|) && InSourceOrder(characters)
    requires 0 <= r.start < r.end <= |characters|
  {
    var start, end := characters[r.start].start, characters[r.end - 1].end;
    Unit(source[start..end], start, end)
  }

  /** What `_structure_text_units` returns. */
  ghost function StructureUnits(f: Folding, source: string, characters: seq<SourceCharacter>, isPdf: bool,
                                lines: seq<LayoutLine>): seq<Unit>
    requires Sound(f) && InSource(characters, |source|) && InSourceOrder(characters)
  {
    if characters == [] then []
    else if !isPdf then [UnitOf(source, characters, Range(0, |characters|))]
    else
      var located := LocatedRanges(f, characters, lines);
      LocatedRangesAreTight(f, characters, lines);
      UnitRangesAreTight(f, Text(characters), located);
      UnitsOf(source, characters, UnitRanges(f, Text(characters), located))
  }

  /** `_structure_text_units`. */
  method StructureTextUnits(f: Folding, source: string, characters: seq<SourceCharacter>, isPdf: bool,
                            lines: seq<LayoutLine>)
    returns (units: seq<Unit>)
    requires Sound(f) && InSource(characters, |source|) && InSourceOrder(characters)
    ensures units == StructureUnits(f, source, characters, isPdf, lines)
  {
    hide LinesFrom, Residuals, LocatedRanges, Sorted, UnitRanges, VisibleAt, LineResiduals;
    var text := Text(characters);
    if text == "" {
      return [];
    }
    if !isPdf {
      return [UnitOf(source, characters, Range(0, |characters|))];
    }
    var fallback := FallbackRanges(f, text);
    var located := LocateLines(f, characters, lines);
    LocatedRangesAreTight(f, characters, lines);
    UnitRangesAreTight(f, text, located);
    if located == [] {
      NoneLocated(f, text);
      return UnitsOf(source, characters, fallback);
    }
    var sorted := Sorted(located);
    SortedIsOrdered(located);
    SortedLocatedSameUnits(f, text, located);
    LocatedIsWellFormed(f, text, located);
    var result := sorted;
    ResidualsNothing(f, text, sorted, fallback);
    for i := 0 to |fallback|
      invariant result == sorted + Residuals(f, text, sorted, fallback[..i])
    {
      var residuals := SweepLine(f, text, sorted, fallback[i]);
      ResidualsPrefix(f, text, sorted, fallback, i);
      ConcatAssociative(sorted, Residuals(f, text, sorted, fallback[..i]), residuals);
      result := result + residuals;
    }
    assert fallback[..|fallback|] == fallback;
    units := UnitsOf(source, characters, SortedSet(result));
  }

  lemma NoneLocated(f: Folding, text: string)
    requires Sound(f)
    ensures UnitRanges(f, text, []) == LinesFrom(f, text, 0)
  {
  }

  lemma ResidualsNothing(f: Folding, text: string, located: seq<Range>, lines: seq<Range>)
    ensures Residuals(f, text, located, lines[..0]) == []
  {
  }

  /** Main result, in source positions: every visible normalised character's source
      range lies inside one unit, and each unit's text is what the source has there. */
  lemma UnitsHoldEveryCharacter(f: Folding, source: string, characters: seq<SourceCharacter>, isPdf: bool,
                                lines: seq<LayoutLine>, p: int)
    requires Sound(f) && InSource(characters, |source|) && InSourceOrder(characters)
    requires VisibleAt(f, Text(characters), p)
    ensures exists unit ::
              && unit in StructureUnits(f, source, characters, isPdf, lines)
              && unit.start <= characters[p].start && characters[p].end <= unit.end
              && 0 <= unit.start <= unit.end <= |source| && unit.text == source[unit.start..unit.end]
  {
    hide UnitRanges, LocatedRanges, VisibleAt;
    var text := Text(characters);
    VisibleInText(f, text, p);
    var units := StructureUnits(f, source, characters, isPdf, lines);
    if !isPdf {
      assert units[0] in units;
    } else {
      var located := LocatedRanges(f, characters, lines);
      LocatedRangesAreTight(f, characters, lines);
      UnitRangesAreTight(f, text, located);
      UnitRangesCover(f, text, located, p);
      UnitsHold(source, characters, UnitRanges(f, text, located), p);
    }
  }

  lemma UnitsHold(source: string, characters: seq<SourceCharacter>, ranges: seq<Range>, p: int)
    requires InSource(characters, |source|) && InSourceOrder(characters)
    requires forall r :: r in ranges ==> 0 <= r.start < r.end <= |characters|
    requires 0 <= p < |characters| && InSome(ranges, p)
    ensures exists unit ::
              && unit in UnitsOf(source, characters, ranges)
              && unit.start <= characters[p].start && characters[p].end <= unit.end
              && 0 <= unit.start <= unit.end <= |source| && unit.text == source[unit.start..unit.end]
  {
    var r :| r in ranges && r.Covers(p);
    var i :| 0 <= i < |ranges| && ranges[i] == r;
    var units := UnitsOf(source, characters, ranges);
    assert units[i] == UnitOf(source, characters, r);
    assert units[i] in units;
  }
}
