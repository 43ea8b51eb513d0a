/** The partition of a real text block. Its layout lines carry the text of their ranges
    (`ArtifactTextBlock.validate_location`, app/services/documents/artifacts.py), and its
    normalised text is made cluster by cluster (app/services/documents/chunking/normalization.py).
    So a line that cuts off something visible does not match, and is not located. */
module LayoutBlocks {
  import opened LayoutLines
  import opened LayoutPartition
  import opened MatchText
  import opened Options
  import opened Ranges
  import opened SourceText
  import opened Strings

  // ----- The weight of a text

  /** What the text weighs once it is folded. */
  function Weigh(f: Folding, weight: char -> nat, text: string): nat {
    Mass(f, weight, Expanded(f, text))
  }

  /** Exactly the white space folds to nothing visible. */
  ghost predicate WeighsVisible(f: Folding, weight: char -> nat) {
    forall c :: f.isSpace(c) <==> Mass(f, weight, f.expand(c)) == 0
  }

  lemma WeighConcat(f: Folding, weight: char -> nat, a: string, b: string)
    ensures Weigh(f, weight, a + b) == Weigh(f, weight, a) + Weigh(f, weight, b)
  {
    ExpandedConcat(f, a, b);
    MassConcat(f, weight, Expanded(f, a), Expanded(f, b));
  }

  lemma WeighOne(f: Folding, weight: char -> nat, c: char)
    ensures Weigh(f, weight, [c]) == Mass(f, weight, f.expand(c))
  {
    assert [c][..0] == "";
    assert Expanded(f, [c]) == f.expand(c);
  }

  lemma WeighSlice(f: Folding, weight: char -> nat, text: string, a: nat, b: nat)
    requires a <= b <= |text|
    ensures Weigh(f, weight, text[..b]) == Weigh(f, weight, text[..a]) + Weigh(f, weight, text[a..b])
  {
    hide Weigh;
    assert text[..b] == text[..a] + text[a..b];
    WeighConcat(f, weight, text[..a], text[a..b]);
  }

  /** The text counted by the weight of its own characters. */
  lemma {:induction false} WeighByCharacter(f: Folding, weight: char -> nat, text: string)
    requires WeighsVisible(f, weight)
    ensures Weigh(f, weight, text) == Mass(f, c => Mass(f, weight, f.expand(c)), text)
  {
    hide Weigh, Mass;
    var each := c => Mass(f, weight, f.expand(c));
    WeighNothing(f, weight, each);
    if text != "" {
      var n := |text| - 1;
      WeighByCharacter(f, weight, text[..n]);
      assert text == text[..n] + [text[n]];
      WeighConcat(f, weight, text[..n], [text[n]]);
      WeighOne(f, weight, text[n]);
      MassSnoc(f, each, text[..n], text[n]);
    }
  }

  lemma WeighNothing(f: Folding, weight: char -> nat, other: char -> nat)
    ensures Weigh(f, weight, "") == 0 && Mass(f, other, "") == 0
  {
  }

  /** Texts that are matched weigh the same. */
  lemma MatchedWeighTheSame(f: Folding, weight: char -> nat, a: string, b: string)
    requires f.isSpace(' ') && MatchNormalize(f, a) == MatchNormalize(f, b)
    ensures Weigh(f, weight, a) == Weigh(f, weight, b)
  {
    MassOfWords(f, weight, Expanded(f, a));
    MassOfWords(f, weight, Expanded(f, b));
  }

  /** `_locator_text`. */
  ghost function LocatorText(f: Folding, value: string): string { JoinWords(Words(f, value)) }

  lemma LocatorTextsWeighTheSame(f: Folding, weight: char -> nat, a: string, b: string)
    requires f.isSpace(' ') && WeighsVisible(f, weight) && LocatorText(f, a) == LocatorText(f, b)
    ensures Weigh(f, weight, a) == Weigh(f, weight, b)
  {
    hide Weigh, Words, JoinWords;
    var each := c => Mass(f, weight, f.expand(c));
    MassOfWords(f, each, a);
    MassOfWords(f, each, b);
    WeighByCharacter(f, weight, a);
    WeighByCharacter(f, weight, b);
  }

  lemma {:induction false} SpaceWeighsNothing(f: Folding, weight: char -> nat, text: string)
    requires WeighsVisible(f, weight) && forall k :: 0 <= k < |text| ==> f.isSpace(text[k])
    ensures Weigh(f, weight, text) == 0
  {
    hide Weigh, Mass;
    WeighNothing(f, weight, weight);
    if text != "" {
      var n := |text| - 1;
      SpaceWeighsNothing(f, weight, text[..n]);
      assert text == text[..n] + [text[n]];
      WeighConcat(f, weight, text[..n], [text[n]]);
      WeighOne(f, weight, text[n]);
    }
  }

  lemma VisibleWeighs(f: Folding, weight: char -> nat, text: string, k: nat)
    requires WeighsVisible(f, weight) && k < |text| && !f.isSpace(text[k])
    ensures Weigh(f, weight, text) > 0
  {
    hide Weigh, Mass;
    WeighSlice(f, weight, text, k + 1, |text|);
    WeighSlice(f, weight, text, k, k + 1);
    assert text[k..k + 1] == [text[k]] && text[..|text|] == text;
    WeighOne(f, weight, text[k]);
  }

  // ----- Normalised text and its clusters

  predicate SameCluster(a: SourceCharacter, b: SourceCharacter) { a.start == b.start && a.end == b.end }

  /** Characters `i` to `j` are all the normalised characters of one cluster. */
  ghost predicate IsCluster(characters: seq<SourceCharacter>, i: int, j: int) {
    && 0 <= i < j <= |characters|
    && (forall k :: i <= k < j ==> SameCluster(characters[k], characters[i]))
    && (i > 0 ==> !SameCluster(characters[i - 1], characters[i]))
    && (j < |characters| ==> !SameCluster(characters[j], characters[i]))
  }

  /** Clusters follow each other in the source. */
  ghost predicate InClusters(characters: seq<SourceCharacter>) {
    forall i, j :: 0 <= i < j < |characters| ==>
      SameCluster(characters[i], characters[j]) || characters[i].end <= characters[j].start
  }

  /** Composing keeps the weight of every cluster. */
  ghost predicate KeepsWeight(f: Folding, weight: char -> nat, source: string, characters: seq<SourceCharacter>)
    requires InSource(characters, |source|)
  {
    forall i, j :: IsCluster(characters, i, j) ==>
      Weigh(f, weight, Text(characters)[i..j]) == Weigh(f, weight, source[characters[i].start..characters[i].end])
  }

  predicate InSomeCluster(characters: seq<SourceCharacter>, k: int) {
    exists i :: 0 <= i < |characters| && characters[i].start <= k < characters[i].end
  }

  /** Only white space is dropped. */
  ghost predicate KeepsVisible(f: Folding, source: string, characters: seq<SourceCharacter>) {
    forall k :: 0 <= k < |source| && !InSomeCluster(characters, k) ==> f.isSpace(source[k])
  }

  /** What `normalize_source_text` makes of the source, as far as it matters here. */
  ghost predicate NormalisedFrom(f: Folding, weight: char -> nat, source: string, characters: seq<SourceCharacter>) {
    && InSource(characters, |source|) && InClusters(characters)
    && KeepsWeight(f, weight, source, characters) && KeepsVisible(f, source, characters)
  }

  lemma ClustersAreInOrder(characters: seq<SourceCharacter>, length: nat)
    requires InSource(characters, length) && InClusters(characters)
    ensures InSourceOrder(characters)
  {
  }

  lemma {:induction false} ClusterStart(characters: seq<SourceCharacter>, i: nat, p: nat) returns (h: nat)
    requires i <= p < |characters| && forall k :: i <= k <= p ==> SameCluster(characters[k], characters[p])
    ensures h <= i && (forall k :: h <= k <= p ==> SameCluster(characters[k], characters[p]))
    ensures h > 0 ==> !SameCluster(characters[h - 1], characters[h])
  {
    h := i;
    if i > 0 && SameCluster(characters[i - 1], characters[p]) {
      h := ClusterStart(characters, i - 1, p);
    }
  }

  lemma {:induction false} ClusterStop(characters: seq<SourceCharacter>, p: nat, j: nat) returns (t: nat)
    requires p < j <= |characters| && forall k :: p <= k < j ==> SameCluster(characters[k], characters[p])
    ensures j <= t <= |characters| && (forall k :: p <= k < t ==> SameCluster(characters[k], characters[p]))
    ensures t < |characters| ==> !SameCluster(characters[t], characters[p])
    decreases |characters| - j
  {
    t := j;
    if j < |characters| && SameCluster(characters[j], characters[p]) {
      t := ClusterStop(characters, p, j + 1);
    }
  }

  lemma ClusterAround(characters: seq<SourceCharacter>, p: nat) returns (h: nat, t: nat)
    requires p < |characters|
    ensures h <= p < t && IsCluster(characters, h, t)
  {
    h := ClusterStart(characters, p, p);
    t := ClusterStop(characters, p, p + 1);
  }

  /** Where the source of the first `i` characters ends. */
  function StopOf(characters: seq<SourceCharacter>, i: nat): nat
    requires i <= |characters|
  {
    if i == 0 then 0 else characters[i - 1].end
  }

  /** The first `i` characters do not end inside a cluster. */
  predicate Between(characters: seq<SourceCharacter>, i: nat) {
    i <= |characters| && (0 < i < |characters| ==> !SameCluster(characters[i - 1], characters[i]))
  }

  /** What lies between two clusters weighs nothing. */
  lemma GapWeighsNothing(f: Folding, weight: char -> nat, source: string, characters: seq<SourceCharacter>, i: nat,
                         a: nat, b: nat)
    requires WeighsVisible(f, weight) && NormalisedFrom(f, weight, source, characters) && Between(characters, i)
    requires StopOf(characters, i) <= a <= b <= |source| && (i < |characters| ==> b <= characters[i].start)
    ensures Weigh(f, weight, source[..a]) == Weigh(f, weight, source[..b])
  {
    hide Weigh, WeighsVisible, KeepsWeight;
    WeighSlice(f, weight, source, a, b);
    forall k | a <= k < b
      ensures f.isSpace(source[k])
    {
      assert !InSomeCluster(characters, k);
    }
    SpaceWeighsNothing(f, weight, source[a..b]);
  }

  /** Between two clusters the normalised text so far weighs as much as its source. */
  lemma {:induction false} PrefixKeepsWeight(f: Folding, weight: char -> nat, source: string,
                                             characters: seq<SourceCharacter>, i: nat)
    requires WeighsVisible(f, weight) && NormalisedFrom(f, weight, source, characters) && Between(characters, i)
    ensures StopOf(characters, i) <= |source|
    ensures Weigh(f, weight, Text(characters)[..i]) == Weigh(f, weight, source[..StopOf(characters, i)])
    decreases i
  {
    hide Weigh, WeighsVisible, InClusters, KeepsVisible;
    if i == 0 {
      assert Text(characters)[..0] == source[..0];
    } else {
      var h := ClusterStart(characters, i - 1, i - 1);
      assert IsCluster(characters, h, i);
      var start, stop := characters[h].start, characters[h].end;
      PrefixKeepsWeight(f, weight, source, characters, h);
      ClusterFollows(characters, h);
      GapWeighsNothing(f, weight, source, characters, h, StopOf(characters, h), start);
      WeighSlice(f, weight, Text(characters), h, i);
      WeighSlice(f, weight, source, start, stop);
    }
  }

  lemma ClusterFollows(characters: seq<SourceCharacter>, h: nat)
    requires InClusters(characters) && h < |characters| && Between(characters, h)
    ensures StopOf(characters, h) <= characters[h].start
  {
  }

  // ----- The lines of a real block

  /** The checks of the block's validator on one mapped line. */
  ghost predicate CarriesItsText(f: Folding, source: string, line: LayoutLine) {
    Mapped(line) ==>
      && 0 <= line.start.value <= line.end.value <= |source|
      && LocatorText(f, source[line.start.value..line.end.value]) == LocatorText(f, line.text)
  }

  /** The lines that the validators admit. */
  ghost predicate AdmittedLines(f: Folding, source: string, lines: seq<LayoutLine>) {
    && (forall i :: 0 <= i < |lines| ==> ValidLine(lines[i]) && CarriesItsText(f, source, lines[i]))
    && NeighboursApart(Sorted(MappedRanges(lines)))
  }

  lemma TrimmedWeighsTheSame(f: Folding, weight: char -> nat, text: string, r: Range)
    requires WeighsVisible(f, weight) && 0 <= r.start <= r.end <= |text|
    ensures var t := LayoutPartition.Trimmed(f, text, r);
            r.start <= t.start <= t.end <= r.end
            && Weigh(f, weight, text[r.start..r.end]) == Weigh(f, weight, text[t.start..t.end])
  {
    hide Weigh, WeighsVisible, LayoutPartition.Trimmed;
    var t := LayoutPartition.Trimmed(f, text, r);
    TrimmedKeepsVisible(f, text, r);
    WeighSlice(f, weight, text, r.start, r.end);
    WeighSlice(f, weight, text, r.start, t.start);
    WeighSlice(f, weight, text, t.start, t.end);
    WeighSlice(f, weight, text, t.end, r.end);
    forall k | r.start <= k < t.start || t.end <= k < r.end
      ensures f.isSpace(text[k])
    {
      assert VisibleAt(f, text, k) ==> (t.Covers(k) <==> r.Covers(k));
    }
    SpaceWeighsNothing(f, weight, text[r.start..t.start]);
    SpaceWeighsNothing(f, weight, text[t.end..r.end]);
  }

  /** Main step: a line that is located cuts nothing off that weighs. */
  lemma LocatedCutsNothingOff(f: Folding, weight: char -> nat, source: string, characters: seq<SourceCharacter>,
                              line: LayoutLine)
    returns (first: nat, stop: nat)
    requires f.isSpace(' ') && WeighsVisible(f, weight) && NormalisedFrom(f, weight, source, characters)
    requires ValidLine(line) && CarriesItsText(f, source, line) && LocatedRange(f, characters, line) != []
    ensures first < stop <= |characters| && Mapped(line) && 0 <= line.start.value <= line.end.value <= |source|
    ensures forall m :: 0 <= m < |characters| ==> (Meets(characters[m], line) <==> first <= m < stop)
    ensures characters[first].start <= |source| && characters[stop - 1].end <= |source|
    ensures Weigh(f, weight, source[..line.start.value]) == Weigh(f, weight, source[..characters[first].start])
    ensures Weigh(f, weight, source[..line.end.value]) == Weigh(f, weight, source[..characters[stop - 1].end])
  {
    hide Weigh, WeighsVisible, LayoutPartition.Trimmed, MatchNormalize, LocatorText, KeepsWeight, KeepsVisible,
         LocatedRange;
    ClustersAreInOrder(characters, |source|);
    first, stop := LocatedSpan(f, characters, line);
    var text, a, b := Text(characters), line.start.value, line.end.value;
    var s, e := characters[first].start, characters[stop - 1].end;
    var r := LayoutPartition.Trimmed(f, text, Range(first, stop));
    TrimmedWeighsTheSame(f, weight, text, Range(first, stop));
    MatchedWeighTheSame(f, weight, text[r.start..r.end], line.text);
    LocatorTextsWeighTheSame(f, weight, source[a..b], line.text);
    WeighSlice(f, weight, source, a, b);
    WeighSlice(f, weight, text, first, stop);
    SpanBetween(characters, line, first, stop);
    PrefixKeepsWeight(f, weight, source, characters, first);
    PrefixKeepsWeight(f, weight, source, characters, stop);
    ClusterFollows(characters, first);
    GapWeighsNothing(f, weight, source, characters, first, StopOf(characters, first), s);
    NeighboursAreApart(characters, line, first, stop);
    if a <= s {
      GapWeighsNothing(f, weight, source, characters, first, a, s);
    } else {
      WeighSlice(f, weight, source, s, a);
    }
    if e <= b {
      GapWeighsNothing(f, weight, source, characters, stop, e, b);
    } else {
      WeighSlice(f, weight, source, b, e);
    }
  }

  lemma SpanBetween(characters: seq<SourceCharacter>, line: LayoutLine, first: nat, stop: nat)
    requires first < stop <= |characters|
    requires forall m :: 0 <= m < |characters| ==> (Meets(characters[m], line) <==> first <= m < stop)
    ensures Between(characters, first) && Between(characters, stop)
  {
    assert Meets(characters[first], line) && Meets(characters[stop - 1], line);
    assert first > 0 ==> !Meets(characters[first - 1], line);
    assert stop < |characters| ==> !Meets(characters[stop], line);
  }

  lemma NeighboursAreApart(characters: seq<SourceCharacter>, line: LayoutLine, first: nat, stop: nat)
    requires (forall i :: 0 <= i < |characters| ==> characters[i].start < characters[i].end) && InClusters(characters)
    requires first < stop <= |characters| && Mapped(line)
    requires forall m :: 0 <= m < |characters| ==> (Meets(characters[m], line) <==> first <= m < stop)
    ensures first > 0 ==> characters[first - 1].end <= line.start.value
    ensures stop < |characters| ==> line.end.value <= characters[stop].start
  {
    SpanBetween(characters, line, first, stop);
    assert Meets(characters[first], line) && Meets(characters[stop - 1], line);
    assert first > 0 ==> !Meets(characters[first - 1], line);
    assert stop < |characters| ==> !Meets(characters[stop], line);
  }

  /** A character that meets a later line as well is in the last cluster of the earlier one, and in
      the first of the later one. */
  lemma CutCluster(characters: seq<SourceCharacter>, line: LayoutLine, later: LayoutLine, p: nat, last: nat, first: nat)
    requires InClusters(characters) && first <= p <= last < |characters|
    requires Meets(characters[p], line) && Meets(characters[p], later) && line.end.value <= later.start.value
    requires Meets(characters[last], line) && Meets(characters[first], later)
    ensures SameCluster(characters[p], characters[last]) && SameCluster(characters[first], characters[p])
  {
  }

  /** No visible character meets two located lines one of which ends before the other begins. */
  lemma NoneMeetsBoth(f: Folding, weight: char -> nat, source: string, characters: seq<SourceCharacter>,
                      line: LayoutLine, later: LayoutLine, p: nat)
    requires f.isSpace(' ') && WeighsVisible(f, weight) && NormalisedFrom(f, weight, source, characters)
    requires ValidLine(line) && CarriesItsText(f, source, line) && LocatedRange(f, characters, line) != []
    requires ValidLine(later) && CarriesItsText(f, source, later) && LocatedRange(f, characters, later) != []
    requires p < |characters| && Meets(characters[p], line) && Meets(characters[p], later)
    requires line.end.value <= later.start.value
    ensures !VisibleAt(f, Text(characters), p)
  {
    hide Weigh, WeighsVisible, LocatedRange, LocatorText, InClusters;
    var _, stop := LocatedCutsNothingOff(f, weight, source, characters, line);
    var first, _ := LocatedCutsNothingOff(f, weight, source, characters, later);
    CutCluster(characters, line, later, p, stop - 1, first);
    var s, e := characters[p].start, characters[p].end;
    WeighSlice(f, weight, source, s, e);
    WeighSlice(f, weight, source, s, line.end.value);
    WeighSlice(f, weight, source, line.end.value, later.start.value);
    var h, t := ClusterAround(characters, p);
    assert Weigh(f, weight, Text(characters)[h..t]) == 0;
    if VisibleAt(f, Text(characters), p) {
      assert Text(characters)[h..t][p - h] == Text(characters)[p];
      VisibleWeighs(f, weight, Text(characters)[h..t], p - h);
    }
  }

  lemma RealLinesCutNothing(f: Folding, weight: char -> nat, source: string, characters: seq<SourceCharacter>,
                            lines: seq<LayoutLine>, p: int, i: int, j: int)
    requires f.isSpace(' ') && WeighsVisible(f, weight) && NormalisedFrom(f, weight, source, characters)
    requires AdmittedLines(f, source, lines) && LinesApart(lines)
    ensures !Straddles(f, characters, lines, p, i, j)
  {
    hide Weigh, WeighsVisible, NormalisedFrom, LocatedRange, CarriesItsText, VisibleAt, LinesApart, ValidLine, Sorted;
    if Straddles(f, characters, lines, p, i, j) {
      VisibleInText(f, Text(characters), p);
      ApartEitherWay(lines, i, j);
      if lines[i].end.value <= lines[j].start.value {
        NoneMeetsBoth(f, weight, source, characters, lines[i], lines[j], p);
      } else {
        NoneMeetsBoth(f, weight, source, characters, lines[j], lines[i], p);
      }
    }
  }

  /** Main result, for every block that the validators admit: its located ranges are disjoint, and
      the units that are produced hold every visible character exactly once. */
  lemma BlockPartitionIsExact(f: Folding, weight: char -> nat, source: string, characters: seq<SourceCharacter>,
                              lines: seq<LayoutLine>)
    requires Sound(f) && WeighsVisible(f, weight) && NormalisedFrom(f, weight, source, characters) && characters != []
    requires AdmittedLines(f, source, lines)
    ensures var located := LocatedRanges(f, characters, lines);
            var ranges := UnitRanges(f, Text(characters), located);
            && (forall r, s :: r in located && s in located && r != s ==> Disjoint(r, s))
            && ExactlyOnce(f, Text(characters), ranges)
            && (forall r :: r in ranges ==> 0 <= r.start < r.end <= |characters|)
            && StructureUnits(f, source, characters, true, lines) == UnitsOf(source, characters, ranges)
  {
    hide WeighsVisible, InClusters, KeepsWeight, KeepsVisible, CarriesItsText, ExactlyOnce, LocatedRanges, Sorted,
         MappedRanges, Straddles, UnitRanges;
    AcceptedExactlyWhenApart(lines);
    ClustersAreInOrder(characters, |source|);
    forall p, i, j
      ensures !Straddles(f, characters, lines, p, i, j)
    {
      RealLinesCutNothing(f, weight, source, characters, lines, p, i, j);
    }
    UnitsOfUnstraddled(f, source, characters, lines);
  }
}
