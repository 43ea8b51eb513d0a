/** The partition of `_structure_text_units` (app/evals/chunk_metrics.py) for the layout lines
    that a text block admits (`ArtifactTextBlock.validate_location`,
    app/services/documents/artifacts.py): their source ranges do not overlap. */
module LayoutLines {
  import opened LayoutPartition
  import opened MatchText
  import opened Options
  import opened Ranges
  import opened SourceText
  import opened Strings

  // ----- What the validators admit

  /** `ArtifactPdfLayoutLine.validate_location`: a range is complete and not empty, or absent. */
  predicate ValidLine(line: LayoutLine) {
    (line.start.Some? <==> line.end.Some?) && (line.start.Some? && line.end.Some? ==> line.start.value < line.end.value)
  }

  predicate Mapped(line: LayoutLine) { line.start.Some? && line.end.Some? }

  function MappedRanges(lines: seq<LayoutLine>): seq<Range> {
    if lines == [] then []
    else
      var last := lines[|lines| - 1];
      MappedRanges(lines[..|lines| - 1]) + (if Mapped(last) then [Range(last.start.value, last.end.value)] else [])
  }

  /** No range begins before the one before it has ended. */
  predicate NeighboursApart(sorted: seq<Range>) {
    forall i :: 0 < i < |sorted| ==> sorted[i - 1].end <= sorted[i].start
  }

  /** The loops of the block's validator over its layout lines, for their ranges. */
  method LineRangesAccepted(lines: seq<LayoutLine>) returns (accepted: bool)
    ensures accepted == NeighboursApart(Sorted(MappedRanges(lines)))
  {
    var mapped: seq<Range> := [];
    for i := 0 to |lines|
      invariant mapped == MappedRanges(lines[..i])
    {
      assert lines[..i + 1][..i] == lines[..i];
      if lines[i].start.None? || lines[i].end.None? {
        assert mapped + [] == mapped;
        continue;
      }
      mapped := mapped + [Range(lines[i].start.value, lines[i].end.value)];
    }
    assert lines[..|lines|] == lines;
    var ordered := Sorted(mapped);
    var i := 1;
    while i < |ordered|
      invariant 1 <= i
      invariant forall k :: 0 < k < i && k < |ordered| ==> ordered[k - 1].end <= ordered[k].start
    {
      if ordered[i].start < ordered[i - 1].end {
        return false;
      }
      i := i + 1;
    }
    return true;
  }

  ghost predicate PairwiseDisjoint(ranges: seq<Range>) {
    forall i, j :: 0 <= i < j < |ranges| ==> Disjoint(ranges[i], ranges[j])
  }

  predicate Positive(ranges: seq<Range>) { forall i :: 0 <= i < |ranges| ==> ranges[i].start < ranges[i].end }

  /** For sorted ranges it is enough to compare neighbours. */
  lemma {:induction false} NeighboursSuffice(sorted: seq<Range>)
    requires Ordered(sorted) && Positive(sorted)
    ensures NeighboursApart(sorted) <==> PairwiseDisjoint(sorted)
  {
    if |sorted| > 1 {
      var n := |sorted| - 1;
      var front := sorted[..n];
      NeighboursSuffice(front);
      assert sorted[n - 1].Before(sorted[n]);
      if NeighboursApart(sorted) {
        forall i | 0 <= i < n
          ensures Disjoint(sorted[i], sorted[n])
        {
          assert i < n - 1 ==> Disjoint(front[i], front[n - 1]) && sorted[i].Before(sorted[n - 1]);
        }
      }
      if PairwiseDisjoint(sorted) {
        forall k | 0 < k < |sorted|
          ensures sorted[k - 1].end <= sorted[k].start
        {
          assert Disjoint(sorted[k - 1], sorted[k]) && sorted[k - 1].Before(sorted[k]);
        }
      }
    }
  }

  lemma {:induction false} MultisetDistinct(ranges: seq<Range>)
    ensures Strings.Distinct(ranges) <==> forall r :: multiset(ranges)[r] <= 1
  {
    if ranges != [] {
      var front, last := ranges[..|ranges| - 1], ranges[|ranges| - 1];
      MultisetDistinct(front);
      assert ranges == front + [last];
      assert multiset(ranges) == multiset(front) + multiset{last};
      if Strings.Distinct(ranges) {
        assert last !in front;
      }
      if forall r :: multiset(ranges)[r] <= 1 {
        forall r
          ensures multiset(front)[r] <= 1
        {
          assert multiset(ranges)[r] <= 1;
        }
        assert multiset(ranges)[last] <= 1;
        assert last !in front by { assert last in front ==> last in multiset(front); }
      }
    }
  }

  /** Disjointness does not depend on the order of the ranges. */
  lemma DisjointInAnyOrder(a: seq<Range>, b: seq<Range>)
    requires Positive(a) && Positive(b) && multiset(a) == multiset(b)
    ensures PairwiseDisjoint(a) ==> PairwiseDisjoint(b)
  {
    if PairwiseDisjoint(a) {
      MultisetDistinct(a);
      MultisetDistinct(b);
      forall i, j | 0 <= i < j < |b|
        ensures Disjoint(b[i], b[j])
      {
        assert b[i] in multiset(a) && b[j] in multiset(a);
        var k, l :| 0 <= k < |a| && 0 <= l < |a| && a[k] == b[i] && a[l] == b[j];
        assert k < l || l < k;
      }
    }
  }

  lemma {:induction false} MappedArePositive(lines: seq<LayoutLine>)
    requires forall i :: 0 <= i < |lines| ==> ValidLine(lines[i])
    ensures Positive(MappedRanges(lines))
  {
    if lines != [] {
      MappedArePositive(lines[..|lines| - 1]);
    }
  }

  /** The source ranges of any two lines are apart. */
  ghost predicate LinesApart(lines: seq<LayoutLine>) {
    forall i, j :: 0 <= i < j < |lines| && Mapped(lines[i]) && Mapped(lines[j]) ==>
      Disjoint(Range(lines[i].start.value, lines[i].end.value), Range(lines[j].start.value, lines[j].end.value))
  }

  lemma {:induction false} MappedHasEach(lines: seq<LayoutLine>, i: nat)
    requires i < |lines| && Mapped(lines[i])
    ensures Range(lines[i].start.value, lines[i].end.value) in MappedRanges(lines)
  {
    if i < |lines| - 1 {
      MappedHasEach(lines[..|lines| - 1], i);
    }
  }

  lemma {:induction false} MappedAreApart(lines: seq<LayoutLine>)
    ensures PairwiseDisjoint(MappedRanges(lines)) ==> LinesApart(lines)
    ensures LinesApart(lines) ==> PairwiseDisjoint(MappedRanges(lines))
  {
    if lines != [] {
      var n := |lines| - 1;
      var front, last := MappedRanges(lines[..n]), lines[n];
      MappedAreApart(lines[..n]);
      if Mapped(last) {
        var r := Range(last.start.value, last.end.value);
        if PairwiseDisjoint(MappedRanges(lines)) {
          FrontIsDisjoint(front, r);
          forall i | 0 <= i < n && Mapped(lines[i])
            ensures Disjoint(Range(lines[i].start.value, lines[i].end.value), r)
          {
            MappedHasEach(lines[..n], i);
          }
        }
        if LinesApart(lines) {
          assert LinesApart(lines[..n]);
          forall k | 0 <= k < |front|
            ensures Disjoint(front[k], r)
          {
            var i := LineOf(lines[..n], k);
          }
        }
      } else {
        assert front + [] == front;
        assert LinesApart(lines) ==> LinesApart(lines[..n]);
      }
    }
  }

  lemma FrontIsDisjoint(front: seq<Range>, r: Range)
    requires PairwiseDisjoint(front + [r])
    ensures PairwiseDisjoint(front) && forall s :: s in front ==> Disjoint(s, r)
  {
    var all := front + [r];
    assert forall i :: 0 <= i < |front| ==> all[i] == front[i];
    assert all[|front|] == r;
  }

  lemma {:induction false} LineOf(lines: seq<LayoutLine>, k: nat) returns (i: nat)
    requires k < |MappedRanges(lines)|
    ensures i < |lines| && Mapped(lines[i])
    ensures Range(lines[i].start.value, lines[i].end.value) == MappedRanges(lines)[k]
  {
    var n := |lines| - 1;
    if k < |MappedRanges(lines[..n])| {
      i := LineOf(lines[..n], k);
    } else {
      i := n;
    }
  }

  /** Main result: comparing neighbours of the sorted ranges accepts exactly the lines of which no
      two overlap. */
  lemma AcceptedExactlyWhenApart(lines: seq<LayoutLine>)
    requires forall i :: 0 <= i < |lines| ==> ValidLine(lines[i])
    ensures NeighboursApart(Sorted(MappedRanges(lines))) <==> LinesApart(lines)
  {
    hide MappedRanges, Sorted, LinesApart, PairwiseDisjoint, NeighboursApart, Ordered;
    var mapped := MappedRanges(lines);
    MappedArePositive(lines);
    SortedIsOrdered(mapped);
    SortedIsPermutation(mapped);
    forall i | 0 <= i < |Sorted(mapped)|
      ensures Sorted(mapped)[i].start < Sorted(mapped)[i].end
    {
      assert Sorted(mapped)[i] in mapped;
    }
    NeighboursSuffice(Sorted(mapped));
    DisjointInAnyOrder(mapped, Sorted(mapped));
    DisjointInAnyOrder(Sorted(mapped), mapped);
    MappedAreApart(lines);
  }

  // ----- Which characters a located range holds

  predicate Meets(c: SourceCharacter, line: LayoutLine) {
    Mapped(line) && c.end > line.start.value && c.start < line.end.value
  }

  /** The characters that a located line meets, and the text it is matched with. */
  lemma LocatedSpan(f: Folding, characters: seq<SourceCharacter>, line: LayoutLine) returns (first: nat, stop: nat)
    requires InSourceOrder(characters) && LocatedRange(f, characters, line) != []
    ensures first < stop <= |characters| && Mapped(line)
    ensures forall m :: 0 <= m < |characters| ==> (Meets(characters[m], line) <==> first <= m < stop)
    ensures var r := LayoutPartition.Trimmed(f, Text(characters), Range(first, stop));
            && first <= r.start < r.end <= stop && LocatedRange(f, characters, line) == [r]
            && MatchNormalize(f, Text(characters)[r.start..r.end]) == MatchNormalize(f, line.text)
  {
    hide MatchNormalize, LayoutPartition.Trimmed, Meeting, InSourceOrder;
    var indexes := Meeting(characters, line.start.value, line.end.value);
    first, stop := indexes[0], indexes[|indexes| - 1] + 1;
    MeetingIsASpan(characters, line);
    TrimmedKeepsVisible(f, Text(characters), Range(first, stop));
  }

  lemma MeetingIsASpan(characters: seq<SourceCharacter>, line: LayoutLine)
    requires InSourceOrder(characters) && Mapped(line)
    requires Meeting(characters, line.start.value, line.end.value) != []
    ensures var indexes := Meeting(characters, line.start.value, line.end.value);
            var first, stop := indexes[0], indexes[|indexes| - 1] + 1;
            && first < stop <= |characters|
            && forall m :: 0 <= m < |characters| ==> (Meets(characters[m], line) <==> first <= m < stop)
  {
    hide Meeting;
    var indexes := Meeting(characters, line.start.value, line.end.value);
    var first, stop := indexes[0], indexes[|indexes| - 1] + 1;
    assert indexes[0] in indexes && indexes[|indexes| - 1] in indexes;
    forall m | 0 <= m < |characters|
      ensures Meets(characters[m], line) <==> first <= m < stop
    {
      if m in indexes {
        var k :| 0 <= k < |indexes| && indexes[k] == m;
      }
    }
  }

  /** A located range holds exactly the visible characters that meet its line. */
  lemma LocatedHoldsExactly(f: Folding, characters: seq<SourceCharacter>, line: LayoutLine, p: nat)
    requires InSourceOrder(characters) && LocatedRange(f, characters, line) != [] && VisibleAt(f, Text(characters), p)
    ensures LocatedRange(f, characters, line)[0].Covers(p) <==> Meets(characters[p], line)
  {
    hide MatchNormalize, LayoutPartition.Trimmed, LocatedRange, InSourceOrder;
    var first, stop := LocatedSpan(f, characters, line);
    TrimmedKeepsVisible(f, Text(characters), Range(first, stop));
  }

  lemma {:induction false} LocatedOfSome(f: Folding, characters: seq<SourceCharacter>, lines: seq<LayoutLine>, r: Range)
    requires r in LocatedRanges(f, characters, lines)
    ensures exists i :: 0 <= i < |lines| && LocatedRange(f, characters, lines[i]) == [r]
  {
    hide LocatedRange;
    var n := |lines| - 1;
    AtMostOne(f, characters, lines[n]);
    if r in LocatedRanges(f, characters, lines[..n]) {
      LocatedOfSome(f, characters, lines[..n], r);
      var i :| 0 <= i < n && LocatedRange(f, characters, lines[..n][i]) == [r];
      assert lines[i] == lines[..n][i];
    }
  }

  lemma AtMostOne(f: Folding, characters: seq<SourceCharacter>, line: LayoutLine)
    ensures |LocatedRange(f, characters, line)| <= 1
  {
  }

  lemma {:induction false} LocatedHasEach(f: Folding, characters: seq<SourceCharacter>, lines: seq<LayoutLine>, i: nat)
    requires i < |lines| && LocatedRange(f, characters, lines[i]) != []
    ensures LocatedRange(f, characters, lines[i])[0] in LocatedRanges(f, characters, lines)
  {
    hide LocatedRange;
    if i < |lines| - 1 {
      LocatedHasEach(f, characters, lines[..|lines| - 1], i);
    }
  }

  /** The character is visible and meets two lines that are located at different ranges. */
  ghost predicate Straddles(f: Folding, characters: seq<SourceCharacter>, lines: seq<LayoutLine>, p: int, i: int,
                            j: int) {
    && VisibleAt(f, Text(characters), p) && 0 <= i < |lines| && 0 <= j < |lines|
    && LocatedRange(f, characters, lines[i]) != [] && LocatedRange(f, characters, lines[j]) != []
    && LocatedRange(f, characters, lines[i]) != LocatedRange(f, characters, lines[j])
    && Meets(characters[p], lines[i]) && Meets(characters[p], lines[j])
  }

  ghost predicate NoneStraddles(f: Folding, characters: seq<SourceCharacter>, lines: seq<LayoutLine>) {
    forall p, i, j :: !Straddles(f, characters, lines, p, i, j)
  }

  lemma LocatedDisjointExactly(f: Folding, characters: seq<SourceCharacter>, lines: seq<LayoutLine>)
    requires Sound(f) && InSourceOrder(characters)
    ensures NoneStraddles(f, characters, lines) <==>
              forall r, s ::
                r in LocatedRanges(f, characters, lines) && s in LocatedRanges(f, characters, lines) && r != s ==>
                  Disjoint(r, s)
  {
    hide LocatedRange, LocatedRanges, VisibleAt, Meets, InSourceOrder;
    var located := LocatedRanges(f, characters, lines);
    LocatedRangesAreTight(f, characters, lines);
    forall r, s | r in located && s in located && r != s && !Disjoint(r, s)
      ensures !NoneStraddles(f, characters, lines)
    {
      var p := if r.start < s.start then s.start else r.start;
      assert VisibleAt(f, Text(characters), p) && r.Covers(p) && s.Covers(p);
      LocatedOfSome(f, characters, lines, r);
      LocatedOfSome(f, characters, lines, s);
      var i :| 0 <= i < |lines| && LocatedRange(f, characters, lines[i]) == [r];
      var j :| 0 <= j < |lines| && LocatedRange(f, characters, lines[j]) == [s];
      VisibleInText(f, Text(characters), p);
      LocatedHoldsExactly(f, characters, lines[i], p);
      LocatedHoldsExactly(f, characters, lines[j], p);
      assert Straddles(f, characters, lines, p, i, j);
    }
    forall p, i, j | Straddles(f, characters, lines, p, i, j)
      ensures exists r, s :: r in located && s in located && r != s && !Disjoint(r, s)
    {
      VisibleInText(f, Text(characters), p);
      LocatedHasEach(f, characters, lines, i);
      LocatedHasEach(f, characters, lines, j);
      AtMostOne(f, characters, lines[i]);
      AtMostOne(f, characters, lines[j]);
      LocatedHoldsExactly(f, characters, lines[i], p);
      LocatedHoldsExactly(f, characters, lines[j], p);
      var r, s := LocatedRange(f, characters, lines[i])[0], LocatedRange(f, characters, lines[j])[0];
      assert r.Covers(p) && s.Covers(p) && r != s && !Disjoint(r, s);
    }
  }

  /** Main result: for any layout lines, the produced ranges hold every visible character exactly
      once if and only if no visible character straddles two lines located differently. */
  lemma PartitionExactlyWhenNoneStraddles(f: Folding, characters: seq<SourceCharacter>, lines: seq<LayoutLine>)
    requires Sound(f) && InSourceOrder(characters)
    ensures ExactlyOnce(f, Text(characters), UnitRanges(f, Text(characters), LocatedRanges(f, characters, lines))) <==>
              NoneStraddles(f, characters, lines)
  {
    hide UnitRanges, ExactlyOnce, NoneStraddles, LocatedRanges;
    LocatedRangesAreTight(f, characters, lines);
    PartitionExactlyWhenDisjoint(f, Text(characters), LocatedRanges(f, characters, lines));
    LocatedDisjointExactly(f, characters, lines);
  }

  /** No line begins or ends inside the source range of a visible character. */
  ghost predicate LinesEndBetweenCharacters(f: Folding, characters: seq<SourceCharacter>, lines: seq<LayoutLine>) {
    forall p, i :: VisibleAt(f, Text(characters), p) && 0 <= i < |lines| && Mapped(lines[i]) ==>
      && !(characters[p].start < lines[i].start.value < characters[p].end)
      && !(characters[p].start < lines[i].end.value < characters[p].end)
  }

  /** Without a straddling character, located ranges are disjoint, and the units that are produced
      hold every visible character exactly once. */
  lemma UnitsOfUnstraddled(f: Folding, source: string, characters: seq<SourceCharacter>, lines: seq<LayoutLine>)
    requires Sound(f) && InSource(characters, |source|) && InSourceOrder(characters) && characters != []
    requires NoneStraddles(f, characters, lines)
    ensures var located := LocatedRanges(f, characters, lines);
            var ranges := UnitRanges(f, Text(characters), located);
            && (forall r, s :: r in located && s in located && r != s ==> Disjoint(r, s))
            && ExactlyOnce(f, Text(characters), ranges)
            && (forall r :: r in ranges ==> 0 <= r.start < r.end <= |characters|)
            && StructureUnits(f, source, characters, true, lines) == UnitsOf(source, characters, ranges)
  {
    hide UnitRanges, ExactlyOnce, LocatedRanges, VisibleAt;
    LocatedRangesAreTight(f, characters, lines);
    UnitRangesAreTight(f, Text(characters), LocatedRanges(f, characters, lines));
    PartitionExactlyWhenNoneStraddles(f, characters, lines);
    LocatedDisjointExactly(f, characters, lines);
  }

  /** Main result, for lines that do not overlap, with whatever text: if none of them cuts through a
      visible character, the partition is exact. */
  lemma UncutPartitionIsExact(f: Folding, characters: seq<SourceCharacter>, lines: seq<LayoutLine>)
    requires Sound(f) && InSourceOrder(characters)
    requires (forall i :: 0 <= i < |lines| ==> ValidLine(lines[i])) && NeighboursApart(Sorted(MappedRanges(lines)))
    requires LinesEndBetweenCharacters(f, characters, lines)
    ensures ExactlyOnce(f, Text(characters), UnitRanges(f, Text(characters), LocatedRanges(f, characters, lines)))
  {
    hide UnitRanges, ExactlyOnce, LocatedRanges, Sorted, MappedRanges, VisibleAt;
    AcceptedExactlyWhenApart(lines);
    forall p, i, j
      ensures !Straddles(f, characters, lines, p, i, j)
    {
      NoneMeetsTwo(f, characters, lines, p, i, j);
    }
    PartitionExactlyWhenNoneStraddles(f, characters, lines);
  }

  lemma NoneMeetsTwo(f: Folding, characters: seq<SourceCharacter>, lines: seq<LayoutLine>, p: int, i: int, j: int)
    requires LinesApart(lines) && (forall i :: 0 <= i < |lines| ==> ValidLine(lines[i]))
    requires LinesEndBetweenCharacters(f, characters, lines)
    ensures !Straddles(f, characters, lines, p, i, j)
  {
    hide LocatedRange;
    if 0 <= i < |lines| && 0 <= j < |lines| && i != j && Mapped(lines[i]) && Mapped(lines[j]) {
      ApartEitherWay(lines, i, j);
    }
  }

  lemma ApartEitherWay(lines: seq<LayoutLine>, i: nat, j: nat)
    requires LinesApart(lines) && i < |lines| && j < |lines| && i != j && Mapped(lines[i]) && Mapped(lines[j])
    ensures Disjoint(Range(lines[i].start.value, lines[i].end.value), Range(lines[j].start.value, lines[j].end.value))
  {
    if i < j {
    } else {
      assert Disjoint(Range(lines[j].start.value, lines[j].end.value), Range(lines[i].start.value, lines[i].end.value));
    }
  }

  /** A character that stands for a single source character is never cut through. */
  lemma SingleCharactersAreNotCut(f: Folding, characters: seq<SourceCharacter>, lines: seq<LayoutLine>)
    requires forall p :: VisibleAt(f, Text(characters), p) ==> characters[p].end == characters[p].start + 1
    ensures LinesEndBetweenCharacters(f, characters, lines)
  {
  }
}
