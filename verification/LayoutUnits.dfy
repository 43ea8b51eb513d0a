/** Which characters a unit of `_structure_text_units` puts together, and where it lies in the source
    (app/evals/chunk_metrics.py). */
module LayoutUnits {
  import opened LayoutLines
  import opened LayoutPartition
  import opened MatchText
  import opened Options
  import opened Ranges
  import opened SourceText
  import opened Sweep

  // ----- Lines

  /** No line break from `p` up to `q`. */
  ghost predicate NoBreak(text: string, p: int, q: int) {
    forall k :: p <= k < q && 0 <= k < |text| ==> text[k] != '\n'
  }

  ghost predicate OneHolds(ranges: seq<Range>, p: int, q: int) {
    exists r :: r in ranges && r.Covers(p) && r.Covers(q)
  }

  /** Two visible characters are on one line exactly if there is no line break between them. */
  lemma {:induction false} LinesBreakExactly(f: Folding, text: string, from: nat, p: int, q: int)
    requires Sound(f) && from <= p < q && VisibleAt(f, text, p) && VisibleAt(f, text, q)
    ensures OneHolds(LinesFrom(f, text, from), p, q) <==> NoBreak(text, p, q)
    decreases |text| - from
  {
    hide LayoutPartition.Trimmed, KeepNonEmpty, InSome, Chain, OneHolds, NoBreak, LinesFrom;
    var at := NextBreak(text, from);
    var head := KeepNonEmpty(LayoutPartition.Trimmed(f, text, Range(from, at)));
    KeptIsExact(f, text, Range(from, at));
    AtMostOneKept(LayoutPartition.Trimmed(f, text, Range(from, at)));
    if at < |text| {
      var rest := LinesFrom(f, text, at + 1);
      LinesPartition(f, text, at + 1);
      FirstLine(f, text, from);
      if p < at {
        HeadHolds(f, text, head, rest, from, at, p, q);
      } else {
        LinesBreakExactly(f, text, at + 1, p, q);
        RestHolds(f, text, head, rest, from, at, p, q);
      }
    } else {
      LastLine(f, text, from);
      HeadHoldsAll(f, text, head, from, p, q);
    }
  }

  lemma AtMostOneKept(r: Range)
    ensures |KeepNonEmpty(r)| <= 1
  {
  }

  lemma FirstLine(f: Folding, text: string, from: nat)
    requires from <= |text| && NextBreak(text, from) < |text|
    ensures var at := NextBreak(text, from);
            LinesFrom(f, text, from) ==
              KeepNonEmpty(LayoutPartition.Trimmed(f, text, Range(from, at))) + LinesFrom(f, text, at + 1)
  {
  }

  lemma LastLine(f: Folding, text: string, from: nat)
    requires from <= |text| && NextBreak(text, from) == |text|
    ensures LinesFrom(f, text, from) == KeepNonEmpty(LayoutPartition.Trimmed(f, text, Range(from, |text|)))
  {
  }

  lemma HeadHolds(f: Folding, text: string, head: seq<Range>, rest: seq<Range>, from: int, at: int, p: int, q: int)
    requires from <= p < q && p < at < |text| && VisibleAt(f, text, p) && VisibleAt(f, text, q) && Sound(f)
    requires |head| <= 1 && Chain(f, text, rest, at + 1) && text[at] == '\n' && NoBreak(text, from, at)
    requires forall k :: VisibleAt(f, text, k) ==> (InSome(head, k) <==> from <= k < at)
    ensures OneHolds(head + rest, p, q) <==> NoBreak(text, p, q)
  {
    assert InSome(head, p);
    assert head[0].Covers(p);
    if q < at {
      assert InSome(head, q);
      assert head[0] in head + rest;
    } else {
      assert text[at] == '\n' && p <= at < q;
      assert !InSome(head, q);
      assert !head[0].Covers(q);
    }
  }

  lemma RestHolds(f: Folding, text: string, head: seq<Range>, rest: seq<Range>, from: int, at: int, p: int, q: int)
    requires from <= at <= p < q && VisibleAt(f, text, p)
    requires forall k :: VisibleAt(f, text, k) ==> (InSome(head, k) <==> from <= k < at)
    ensures OneHolds(head + rest, p, q) <==> OneHolds(rest, p, q)
  {
    assert !InSome(head, p);
    if OneHolds(rest, p, q) {
      var r :| r in rest && r.Covers(p) && r.Covers(q);
      assert r in head + rest;
    }
  }

  lemma HeadHoldsAll(f: Folding, text: string, head: seq<Range>, from: int, p: int, q: int)
    requires from <= p < q && VisibleAt(f, text, p) && VisibleAt(f, text, q)
    requires |head| <= 1 && NoBreak(text, from, |text|)
    requires forall k :: VisibleAt(f, text, k) ==> (InSome(head, k) <==> from <= k < |text|)
    ensures OneHolds(head, p, q) && NoBreak(text, p, q)
  {
    assert InSome(head, p) && InSome(head, q);
    assert head[0] in head;
  }

  // ----- Units

  /** No located character from `p` to `q`. */
  ghost predicate Unlocated(located: seq<Range>, p: int, q: int) {
    forall k :: p <= k <= q ==> !Ignored(located, k)
  }

  /** Neither a line break nor a located character from `p` to `q`. */
  ghost predicate Unbroken(text: string, located: seq<Range>, p: int, q: int) {
    NoBreak(text, p, q) && Unlocated(located, p, q)
  }

  lemma {:induction false} ResidualOfLine(f: Folding, text: string, located: seq<Range>, lines: seq<Range>, r: Range)
    requires forall i :: 0 <= i < |lines| ==> 0 <= lines[i].start <= lines[i].end <= |text|
    ensures r in Residuals(f, text, located, lines) <==>
              exists i :: 0 <= i < |lines| && r in LineResiduals(f, text, located, lines[i])
  {
    hide LineResiduals;
    if lines != [] {
      var n := |lines| - 1;
      ResidualOfLine(f, text, located, lines[..n], r);
      if i :| 0 <= i < |lines| && r in LineResiduals(f, text, located, lines[i]) {
        assert i == n || lines[..n][i] == lines[i];
      }
    }
  }

  /** Within a line: the residuals are cut exactly at located characters. */
  lemma ResidualsBreakExactly(f: Folding, text: string, located: seq<Range>, line: Range, p: int, q: int)
    requires 0 <= line.start <= line.end <= |text| && Located(f, text, located)
    requires p < q && VisibleAt(f, text, p) && VisibleAt(f, text, q) && line.Covers(p) && line.Covers(q)
    requires !Ignored(located, p) && !Ignored(located, q)
    ensures OneHolds(LineResiduals(f, text, located, line), p, q) <==> Unlocated(located, p, q)
  {
    hide LineResiduals, VisibleAt, Chain, InSome, Ignored, SeparatedByLocated, OneHolds, Unlocated, Tight;
    LocatedIsWellFormed(f, text, located);
    LineResidualsAreExact(f, text, located, line);
    PiecesBreakExactly(f, text, located, line, LineResiduals(f, text, located, line), p, q);
  }

  lemma PiecesBreakExactly(f: Folding, text: string, located: seq<Range>, line: Range, pieces: seq<Range>, p: int,
                           q: int)
    requires Located(f, text, located) && Chain(f, text, pieces, line.start) && SeparatedByLocated(located, pieces)
    requires LeftOverOf(f, text, located, line, pieces)
    requires p < q && InSome(pieces, p) && InSome(pieces, q)
    ensures OneHolds(pieces, p, q) <==> Unlocated(located, p, q)
  {
    hide VisibleAt;
    var i :| 0 <= i < |pieces| && pieces[i].Covers(p);
    var j :| 0 <= j < |pieces| && pieces[j].Covers(q);
    if i == j {
      assert pieces[i] in pieces;
      forall k | p <= k <= q
        ensures !Ignored(located, k)
      {
        assert InSome(pieces, k);
      }
    } else {
      PiecesApart(f, text, located, line.start, pieces, i, j, p, q);
    }
  }

  lemma PiecesApart(f: Folding, text: string, located: seq<Range>, from: int, pieces: seq<Range>, i: nat, j: nat,
                    p: int, q: int)
    requires Located(f, text, located) && Chain(f, text, pieces, from) && SeparatedByLocated(located, pieces)
    requires i < |pieces| && j < |pieces| && i != j && pieces[i].Covers(p) && pieces[j].Covers(q) && p < q
    ensures !OneHolds(pieces, p, q) && !Unlocated(located, p, q)
  {
    hide VisibleAt;
    assert i < j;
    assert StartsBetween(located, pieces[i].end, pieces[j].start);
    var l :| l in located && pieces[i].end <= l.start <= pieces[j].start;
    assert l.Covers(l.start);
    assert p <= l.start && Ignored(located, l.start);
  }

  lemma LinesAreInText(f: Folding, text: string)
    requires Sound(f)
    ensures var lines := LinesFrom(f, text, 0);
            && Chain(f, text, lines, 0)
            && forall i :: 0 <= i < |lines| ==> 0 <= lines[i].start <= lines[i].end <= |text|
  {
    hide LinesFrom;
    LinesPartition(f, text, 0);
  }

  /** Residuals lie in their lines. */
  lemma ResidualInLine(f: Folding, text: string, located: seq<Range>, line: Range, r: Range, p: int)
    requires 0 <= line.start <= line.end <= |text| && Located(f, text, located)
    requires r in LineResiduals(f, text, located, line) && r.Covers(p)
    ensures line.Covers(p)
  {
    hide LineResiduals, VisibleAt;
    LocatedIsWellFormed(f, text, located);
    LineResidualsAreExact(f, text, located, line);
    assert InSome(LineResiduals(f, text, located, line), p);
  }

  /** Main result: two visible characters that no layout line is located at are in one unit exactly if
      neither a line break nor a located character is between them. */
  lemma TogetherExactly(f: Folding, text: string, located: seq<Range>, p: int, q: int)
    requires Sound(f) && Located(f, text, located) && p < q && VisibleAt(f, text, p) && VisibleAt(f, text, q)
    requires !Ignored(located, p) && !Ignored(located, q)
    ensures OneHolds(UnitRanges(f, text, located), p, q) <==> Unbroken(text, located, p, q)
  {
    hide LinesFrom, LineResiduals, VisibleAt, Chain, NoBreak;
    LinesAreInText(f, text);
    VisibleInText(f, text, p);
    LinesBreakExactly(f, text, 0, p, q);
    var lines := LinesFrom(f, text, 0);
    if located != [] {
      var units := UnitRanges(f, text, located);
      if r :| r in units && r.Covers(p) && r.Covers(q) {
        assert r !in located;
        ResidualOfLine(f, text, located, lines, r);
        var i :| 0 <= i < |lines| && r in LineResiduals(f, text, located, lines[i]);
        ResidualInLine(f, text, located, lines[i], r, p);
        ResidualInLine(f, text, located, lines[i], r, q);
        ResidualsBreakExactly(f, text, located, lines[i], p, q);
        assert OneHolds(lines, p, q);
      }
      if Unbroken(text, located, p, q) {
        var line :| line in lines && line.Covers(p) && line.Covers(q);
        var i :| 0 <= i < |lines| && lines[i] == line;
        ResidualsBreakExactly(f, text, located, line, p, q);
        var r :| r in LineResiduals(f, text, located, line) && r.Covers(p) && r.Covers(q);
        ResidualOfLine(f, text, located, lines, r);
        assert r in units;
      }
    }
  }

  // ----- Located lines

  /** The range begins and ends with visible characters, holds exactly those that the line meets, and
      its text is the line's text, case and white space aside. */
  ghost predicate IsLocatedAt(f: Folding, characters: seq<SourceCharacter>, line: LayoutLine, r: Range) {
    var text := Text(characters);
    && Tight(f, text, r)
    && (forall p :: VisibleAt(f, text, p) ==> (r.Covers(p) <==> Meets(characters[p], line)))
    && MatchNormalize(f, text[r.start..r.end]) == MatchNormalize(f, line.text)
  }

  /** Main result: a layout line is located where the visible characters that it meets have its text,
      and nowhere else. */
  lemma LocatedExactly(f: Folding, characters: seq<SourceCharacter>, line: LayoutLine, r: Range)
    requires InSourceOrder(characters)
    ensures LocatedRange(f, characters, line) == [r] <==> IsLocatedAt(f, characters, line, r)
    ensures |LocatedRange(f, characters, line)| <= 1
  {
    hide LocatedRange, IsLocatedAt, InSourceOrder;
    AtMostOne(f, characters, line);
    if LocatedRange(f, characters, line) == [r] {
      LocatedIsThere(f, characters, line, r);
    }
    if IsLocatedAt(f, characters, line, r) {
      ThereIsLocated(f, characters, line, r);
    }
  }

  lemma LocatedIsThere(f: Folding, characters: seq<SourceCharacter>, line: LayoutLine, r: Range)
    requires InSourceOrder(characters) && LocatedRange(f, characters, line) == [r]
    ensures IsLocatedAt(f, characters, line, r)
  {
    hide MatchNormalize, LayoutPartition.Trimmed, InSourceOrder, LocatedRange;
    var first, stop := LocatedSpan(f, characters, line);
    TrimmedKeepsVisible(f, Text(characters), Range(first, stop));
  }

  lemma ThereIsLocated(f: Folding, characters: seq<SourceCharacter>, line: LayoutLine, r: Range)
    requires InSourceOrder(characters) && IsLocatedAt(f, characters, line, r)
    ensures LocatedRange(f, characters, line) == [r]
  {
    hide MatchNormalize, LayoutPartition.Trimmed, InSourceOrder, Meeting;
    assert Meets(characters[r.start], line);
    var indexes := Meeting(characters, line.start.value, line.end.value);
    assert r.start as nat in indexes;
    MeetingIsASpan(characters, line);
    var span := Range(indexes[0], indexes[|indexes| - 1] + 1);
    TrimmedKeepsVisible(f, Text(characters), span);
    SameTightRange(f, Text(characters), r, LayoutPartition.Trimmed(f, Text(characters), span));
  }

  /** Tight ranges that hold the same visible characters are the same. */
  lemma SameTightRange(f: Folding, text: string, a: Range, b: Range)
    requires Tight(f, text, a) && (b.start < b.end ==> Tight(f, text, b))
    requires forall p :: VisibleAt(f, text, p) ==> (a.Covers(p) <==> b.Covers(p))
    ensures a == b
  {
    assert b.Covers(a.start) && b.Covers(a.end - 1);
    assert a.Covers(b.start) && a.Covers(b.end - 1);
  }

  // ----- Source positions

  /** The unit is the source text from the first character of the range to its last. */
  ghost predicate IsSourceOf(source: string, characters: seq<SourceCharacter>, unit: Unit, r: Range) {
    && 0 <= r.start < r.end <= |characters|
    && unit.start == characters[r.start].start && unit.end == characters[r.end - 1].end
    && 0 <= unit.start <= unit.end <= |source| && unit.text == source[unit.start..unit.end]
  }

  /** Main result: in a PDF there is one unit for each range, in ascending order, and elsewhere one unit
      for the whole text; each is the source text from its first character to its last. */
  lemma UnitsAreSource(f: Folding, source: string, characters: seq<SourceCharacter>, isPdf: bool,
                       lines: seq<LayoutLine>)
    requires Sound(f) && InSource(characters, |source|) && InSourceOrder(characters)
    ensures var units := StructureUnits(f, source, characters, isPdf, lines);
            var ranges := if characters == [] then []
                          else if isPdf then UnitRanges(f, Text(characters), LocatedRanges(f, characters, lines))
                          else [Range(0, |characters|)];
            && |units| == |ranges|
            && (forall i :: 0 <= i < |units| ==> IsSourceOf(source, characters, units[i], ranges[i]))
            && Ordered(ranges)
  {
    hide UnitRanges, LocatedRanges, Tight, VisibleAt;
    if characters != [] && isPdf {
      var text, located := Text(characters), LocatedRanges(f, characters, lines);
      LocatedRangesAreTight(f, characters, lines);
      UnitRangesAreTight(f, text, located);
      UnitRangesAreOrdered(f, text, located);
      var ranges := UnitRanges(f, text, located);
      forall i | 0 <= i < |ranges|
        ensures 0 <= ranges[i].start < ranges[i].end <= |characters|
      {
        assert ranges[i] in ranges;
        TightIsInText(f, text, ranges[i]);
      }
    }
  }

  lemma TightIsInText(f: Folding, text: string, r: Range)
    requires Tight(f, text, r)
    ensures 0 <= r.start < r.end <= |text|
  {
  }

  lemma UnitRangesAreOrdered(f: Folding, text: string, located: seq<Range>)
    requires Sound(f)
    ensures Ordered(UnitRanges(f, text, located))
  {
    hide LinesFrom, Residuals, SortedSet;
    LinesAreInText(f, text);
  }
}
