/** Locating an expected text in the text blocks of a parsed artifact:
    `_text_occurrences`, `_coalesce_ranges` and `_chunk_covers_occurrence`
    (app/evals/chunk_metrics.py). */
module TextOccurrences {
  import opened MatchText
  import opened Options
  import opened SourceText
  import opened Strings

  datatype Block =
    | TextBlock(id: string, page: Option<int>, characters: seq<SourceCharacter>)
    | OtherBlock

  datatype OccurrenceRange = OccurrenceRange(block: string, start: nat, end: nat) {
    predicate Covers(p: int) { start <= p < end }
    predicate Contains(other: OccurrenceRange) {
      block == other.block && start <= other.start && other.end <= end
    }
  }

  /** A folded character with the source it came from; separators have none. */
  datatype Item = Item(folded: char, source: Option<OccurrenceRange>)

  /** Each block's characters follow the source, and no two blocks share an identifier. */
  ghost predicate WellMapped(blocks: seq<Block>) {
    && (forall b :: 0 <= b < |blocks| && blocks[b].TextBlock? ==> InSourceOrder(blocks[b].characters))
    && (forall a, b :: 0 <= a < b < |blocks| && blocks[a].TextBlock? && blocks[b].TextBlock? ==>
        blocks[a].id != blocks[b].id)
  }

  predicate Selected(block: Block, pageStart: Option<int>, pageEnd: Option<int>) {
    block.TextBlock? &&
    (pageStart.Some? ==>
      var last := if pageEnd.Some? && pageEnd.value != 0 then pageEnd.value else pageStart.value;
      block.page.Some? && pageStart.value <= block.page.value <= last)
  }

  function SelectedBlocks(blocks: seq<Block>, pageStart: Option<int>, pageEnd: Option<int>): (selected: seq<Block>)
    ensures forall i :: 0 <= i < |selected| ==> selected[i].TextBlock?
  {
    if blocks == [] then []
    else
      var front := SelectedBlocks(blocks[..|blocks| - 1], pageStart, pageEnd);
      var last := blocks[|blocks| - 1];
      if Selected(last, pageStart, pageEnd) then front + [last] else front
  }

  // ----- What the flattener is meant to compute

  /** `"\n".join` of the selected blocks' normalised texts. */
  function JoinedText(selected: seq<Block>): string
    requires forall i :: 0 <= i < |selected| ==> selected[i].TextBlock?
  {
    if selected == [] then ""
    else if |selected| == 1 then Text(selected[0].characters)
    else JoinedText(selected[..|selected| - 1]) + "\n" + Text(selected[|selected| - 1].characters)
  }

  function ItemsOf(folded: string, source: OccurrenceRange): seq<Item> {
    seq(|folded|, i requires 0 <= i < |folded| => Item(folded[i], Some(source)))
  }

  function CharacterItems(f: Folding, id: string, characters: seq<SourceCharacter>): seq<Item> {
    if characters == [] then []
    else
      var last := characters[|characters| - 1];
      CharacterItems(f, id, characters[..|characters| - 1]) +
      ItemsOf(f.expand(last.text), OccurrenceRange(id, last.start, last.end))
  }

  /** Everything the flattener reads: each block's folded characters, then a separator. */
  function AllItems(f: Folding, selected: seq<Block>): seq<Item>
    requires forall i :: 0 <= i < |selected| ==> selected[i].TextBlock?
  {
    if selected == [] then []
    else
      var last := selected[|selected| - 1];
      AllItems(f, selected[..|selected| - 1]) +
      CharacterItems(f, last.id, last.characters) + [Item('\n', None)]
  }

  function Folded(items: seq<Item>): string {
    seq(|items|, i requires 0 <= i < |items| => items[i].folded)
  }

  /** The items that are not white space, in order. */
  function Visible(f: Folding, items: seq<Item>): seq<Item> {
    if items == [] then []
    else
      var last := items[|items| - 1];
      Visible(f, items[..|items| - 1]) + (if f.isSpace(last.folded) then [] else [last])
  }

  /** The flattener's two parallel lists read as one list of items. */
  function Zipped(flattened: string, references: seq<Option<OccurrenceRange>>): seq<Item>
    requires |flattened| == |references|
  {
    seq(|flattened|, i requires 0 <= i < |flattened| => Item(flattened[i], references[i]))
  }

  // ----- The flattening loop

  /** What holds of the two lists after reading `items`. */
  ghost predicate Flattened(f: Folding, items: seq<Item>, flattened: string, references: seq<Option<OccurrenceRange>>) {
    && |references| == |flattened|
    && flattened == Collapsed(f, Folded(items))
    && (forall k :: 0 <= k < |flattened| ==>
        (references[k].None? <==> flattened[k] == ' ') && (f.isSpace(flattened[k]) <==> flattened[k] == ' '))
    && Visible(f, Zipped(flattened, references)) == Visible(f, items)
  }

  lemma VisibleSnoc(f: Folding, items: seq<Item>, item: Item)
    ensures Visible(f, items + [item]) == Visible(f, items) + (if f.isSpace(item.folded) then [] else [item])
  {
  }

  lemma FoldedSnoc(items: seq<Item>, item: Item)
    ensures Folded(items + [item]) == Folded(items) + [item.folded]
  {
  }

  lemma ZippedSnoc(flattened: string, references: seq<Option<OccurrenceRange>>, c: char,
                   source: Option<OccurrenceRange>)
    requires |flattened| == |references|
    ensures Zipped(flattened + [c], references + [source]) == Zipped(flattened, references) + [Item(c, source)]
  {
  }

  lemma NothingFlattened(f: Folding)
    ensures Flattened(f, [], "", [])
  {
  }

  lemma PushVisible(f: Folding, items: seq<Item>, flattened: string, references: seq<Option<OccurrenceRange>>,
                    item: Item)
    requires Sound(f) && Flattened(f, items, flattened, references)
    requires !f.isSpace(item.folded) && item.source.Some?
    ensures Flattened(f, items + [item], flattened + [item.folded], references + [item.source])
    ensures !EndsInSpace(flattened + [item.folded])
  {
    hide Visible, Collapsed, Folded, Zipped;
    FoldedSnoc(items, item);
    CollapsedSnoc(f, Folded(items), item.folded);
    VisibleSnoc(f, items, item);
    ZippedSnoc(flattened, references, item.folded, item.source);
    VisibleSnoc(f, Zipped(flattened, references), item);
  }

  lemma PushSpace(f: Folding, items: seq<Item>, flattened: string, references: seq<Option<OccurrenceRange>>, item: Item)
    requires Sound(f) && Flattened(f, items, flattened, references)
    requires f.isSpace(item.folded)
    ensures if flattened != "" && !EndsInSpace(flattened)
            then Flattened(f, items + [item], flattened + " ", references + [None])
            else Flattened(f, items + [item], flattened, references)
  {
    hide Visible, Collapsed, Folded, Zipped;
    FoldedSnoc(items, item);
    CollapsedSnoc(f, Folded(items), item.folded);
    VisibleSnoc(f, items, item);
    ZippedSnoc(flattened, references, ' ', None);
    VisibleSnoc(f, Zipped(flattened, references), Item(' ', None));
    assert flattened + [' '] == flattened + " ";
  }

  lemma NothingSelected(f: Folding, blocks: seq<Block>, pageStart: Option<int>, pageEnd: Option<int>)
    ensures AllItems(f, SelectedBlocks(blocks[..0], pageStart, pageEnd)) == []
  {
  }

  lemma SelectedSnoc(f: Folding, blocks: seq<Block>, b: nat, pageStart: Option<int>, pageEnd: Option<int>)
    requires b < |blocks|
    ensures var before := SelectedBlocks(blocks[..b], pageStart, pageEnd);
            var after := SelectedBlocks(blocks[..b + 1], pageStart, pageEnd);
            if Selected(blocks[b], pageStart, pageEnd) then
              AllItems(f, after) ==
              AllItems(f, before) + CharacterItems(f, blocks[b].id, blocks[b].characters) + [Item('\n', None)]
            else
              after == before
  {
    hide CharacterItems;
    assert blocks[..b + 1][..b] == blocks[..b];
    var before := SelectedBlocks(blocks[..b], pageStart, pageEnd);
    if Selected(blocks[b], pageStart, pageEnd) {
      assert (before + [blocks[b]])[..|before + [blocks[b]]| - 1] == before;
    }
  }

  lemma CharacterItemsPrefix(f: Folding, id: string, characters: seq<SourceCharacter>, n: nat)
    requires n <= |characters|
    ensures n == 0 ==> CharacterItems(f, id, characters[..n]) == []
    ensures n > 0 ==>
              CharacterItems(f, id, characters[..n]) ==
              CharacterItems(f, id, characters[..n - 1]) +
              ItemsOf(f.expand(characters[n - 1].text),
                      OccurrenceRange(id, characters[n - 1].start, characters[n - 1].end))
  {
    if n > 0 {
      assert characters[..n][..n - 1] == characters[..n - 1];
    }
  }

  /** While trailing spaces are being dropped, everything else stays as it was. */
  ghost predicate FlattenedEnd(f: Folding, items: seq<Item>, flattened: string,
                               references: seq<Option<OccurrenceRange>>) {
    && |references| == |flattened|
    && TrimEnd(flattened) == TrimEnd(Collapsed(f, Folded(items)))
    && (forall k :: 0 <= k < |flattened| ==>
        (references[k].None? <==> flattened[k] == ' ') && (f.isSpace(flattened[k]) <==> flattened[k] == ' '))
    && Visible(f, Zipped(flattened, references)) == Visible(f, items)
  }

  lemma FlattenedLengths(f: Folding, items: seq<Item>, flattened: string, references: seq<Option<OccurrenceRange>>)
    requires Flattened(f, items, flattened, references)
    ensures FlattenedEnd(f, items, flattened, references)
  {
  }

  lemma DropSpace(f: Folding, items: seq<Item>, flattened: string, references: seq<Option<OccurrenceRange>>)
    requires Sound(f) && EndsInSpace(flattened) && FlattenedEnd(f, items, flattened, references)
    ensures FlattenedEnd(f, items, flattened[..|flattened| - 1], references[..|references| - 1])
  {
    hide Visible, Zipped, Collapsed;
    var n := |flattened| - 1;
    ZippedSnoc(flattened[..n], references[..n], flattened[n], references[n]);
    VisibleSnoc(f, Zipped(flattened[..n], references[..n]), Item(flattened[n], references[n]));
    assert flattened[..n] + [flattened[n]] == flattened;
    assert references[..n] + [references[n]] == references;
  }

  lemma FoldedConcat(a: seq<Item>, b: seq<Item>)
    ensures Folded(a + b) == Folded(a) + Folded(b)
  {
  }

  lemma {:induction false} CharacterItemsFolded(f: Folding, id: string, characters: seq<SourceCharacter>)
    ensures Folded(CharacterItems(f, id, characters)) == Expanded(f, Text(characters))
  {
    if characters != [] {
      var n := |characters| - 1;
      var front, last := characters[..n], characters[n];
      CharacterItemsFolded(f, id, front);
      var items := ItemsOf(f.expand(last.text), OccurrenceRange(id, last.start, last.end));
      FoldedConcat(CharacterItems(f, id, front), items);
      assert Folded(items) == f.expand(last.text);
      ExpandedSnoc(f, Text(front), last.text);
      assert Text(characters) == Text(front) + [last.text];
    } else {
      assert Folded([]) == "";
    }
  }

  /** Folding what the flattener reads is folding the joined text, plus one final newline. */
  lemma {:induction false} AllItemsFolded(f: Folding, selected: seq<Block>)
    requires Sound(f) && forall i :: 0 <= i < |selected| ==> selected[i].TextBlock?
    ensures Folded(AllItems(f, selected)) ==
            if selected == [] then "" else Expanded(f, JoinedText(selected)) + "\n"
  {
    hide CharacterItems, Expanded, Folded;
    if selected == [] {
      FoldedEmpty();
    } else {
      var n := |selected| - 1;
      var front, last := selected[..n], selected[n];
      AllItemsFolded(f, front);
      var before, within, end := AllItems(f, front), CharacterItems(f, last.id, last.characters), [Item('\n', None)];
      FoldedConcat(before + within, end);
      FoldedConcat(before, within);
      FoldedEmpty();
      CharacterItemsFolded(f, last.id, last.characters);
      if n > 0 {
        ExpandedConcat(f, JoinedText(front) + "\n", Text(last.characters));
        ExpandedSnoc(f, JoinedText(front), '\n');
      }
    }
  }

  lemma FoldedEmpty()
    ensures Folded([]) == "" && Folded([Item('\n', None)]) == "\n"
  {
  }

  lemma FlattenedIsNormalised(f: Folding, selected: seq<Block>, flattened: string,
                              references: seq<Option<OccurrenceRange>>)
    requires Sound(f) && forall i :: 0 <= i < |selected| ==> selected[i].TextBlock?
    requires FlattenedEnd(f, AllItems(f, selected), flattened, references) && !EndsInSpace(flattened)
    ensures flattened == MatchNormalize(f, JoinedText(selected))
    ensures |references| == |flattened|
    ensures forall k :: 0 <= k < |flattened| ==>
              (references[k].None? <==> flattened[k] == ' ') && (f.isSpace(flattened[k]) <==> flattened[k] == ' ')
    ensures Visible(f, Zipped(flattened, references)) == Visible(f, AllItems(f, selected))
  {
    hide AllItems, Expanded, Collapsed, Words, JoinWords, Folded, Visible;
    AllItemsFolded(f, selected);
    if selected == [] {
      CollapsedMeetsReference(f, "");
      Empty(f, "");
    } else {
      var folded := Expanded(f, JoinedText(selected));
      CollapsedSnoc(f, folded, '\n');
      CollapsedMeetsReference(f, folded);
      var written := Collapsed(f, folded);
      assert (written + " ")[..|written|] == written;
      assert folded + ['\n'] == folded + "\n";
    }
  }

  /** The first half of `_text_occurrences`: one normalised text across all selected
      blocks, with the source range of every character that is not a space. */
  method FlattenBlocks(f: Folding, blocks: seq<Block>, pageStart: Option<int>, pageEnd: Option<int>)
    returns (flattened: string, references: seq<Option<OccurrenceRange>>)
    requires Sound(f)
    ensures var selected := SelectedBlocks(blocks, pageStart, pageEnd);
            && flattened == MatchNormalize(f, JoinedText(selected))
            && |references| == |flattened|
            && (forall k :: 0 <= k < |flattened| ==>
                (references[k].None? <==> flattened[k] == ' ') && (f.isSpace(flattened[k]) <==> flattened[k] == ' '))
            && Visible(f, Zipped(flattened, references)) == Visible(f, AllItems(f, selected))
  {
    hide Flattened, Collapsed, Visible, Zipped, AllItems, CharacterItems, SelectedBlocks;
    flattened, references := "", [];
    var lastWasSpace := false;
    ghost var items: seq<Item> := [];
    NothingFlattened(f);
    NothingSelected(f, blocks, pageStart, pageEnd);
    for b := 0 to |blocks|
      invariant Flattened(f, items, flattened, references)
      invariant lastWasSpace == EndsInSpace(flattened)
      invariant items == AllItems(f, SelectedBlocks(blocks[..b], pageStart, pageEnd))
    {
      var block := blocks[b];
      ghost var before := items;
      SelectedSnoc(f, blocks, b, pageStart, pageEnd);
      if !Selected(block, pageStart, pageEnd) {
        continue;
      }
      CharacterItemsPrefix(f, block.id, block.characters, 0);
      for index := 0 to |block.characters|
        invariant Flattened(f, items, flattened, references)
        invariant lastWasSpace == EndsInSpace(flattened)
        invariant items == before + CharacterItems(f, block.id, block.characters[..index])
      {
        var character := block.characters[index];
        var expanded := f.expand(character.text);
        var source := OccurrenceRange(block.id, character.start, character.end);
        ghost var within := items;
        for i := 0 to |expanded|
          invariant Flattened(f, items, flattened, references)
          invariant lastWasSpace == EndsInSpace(flattened)
          invariant items == within + ItemsOf(expanded, source)[..i]
        {
          ghost var item := Item(expanded[i], Some(source));
          assert ItemsOf(expanded, source)[..i + 1] == ItemsOf(expanded, source)[..i] + [item];
          if f.isSpace(expanded[i]) {
            PushSpace(f, items, flattened, references, item);
            if flattened != "" && !lastWasSpace {
              flattened := flattened + " ";
              references := references + [None];
              lastWasSpace := true;
            }
            items := items + [item];
            continue;
          }
          PushVisible(f, items, flattened, references, item);
          flattened := flattened + [expanded[i]];
          references := references + [Some(source)];
          lastWasSpace := false;
          items := items + [item];
        }
        CharacterItemsPrefix(f, block.id, block.characters, index + 1);
      }
      PushSpace(f, items, flattened, references, Item('\n', None));
      if flattened != "" && !lastWasSpace {
        flattened := flattened + " ";
        references := references + [None];
        lastWasSpace := true;
      }
      items := items + [Item('\n', None)];
      assert block.characters[..|block.characters|] == block.characters;
    }
    assert blocks[..|blocks|] == blocks;
    FlattenedLengths(f, items, flattened, references);
    while flattened != "" && flattened[|flattened| - 1] == ' '
      invariant FlattenedEnd(f, items, flattened, references)
      decreases |flattened|
    {
      DropSpace(f, items, flattened, references);
      flattened := flattened[..|flattened| - 1];
      references := references[..|references| - 1];
    }
    FlattenedIsNormalised(f, SelectedBlocks(blocks, pageStart, pageEnd), flattened, references);
  }

  // ----- Searching

  ghost predicate OccursAt(haystack: string, needle: string, at: int) {
    0 <= at && at + |needle| <= |haystack| && haystack[at..at + |needle|] == needle
  }

  /** `haystack.find(needle, from)`. */
  function Find(haystack: string, needle: string, from: nat): (at: int)
    ensures at == -1 || (from <= at && OccursAt(haystack, needle, at))
    ensures forall p :: from <= p && OccursAt(haystack, needle, p) ==> 0 <= at <= p
    decreases |haystack| - from
  {
    if from + |needle| > |haystack| then -1
    else if haystack[from..from + |needle|] == needle then from
    else Find(haystack, needle, from + 1)
  }

  /** The search loop visits every match exactly once, from left to right. */
  ghost predicate AllMatches(haystack: string, needle: string, starts: seq<nat>) {
    && (forall i, j :: 0 <= i < j < |starts| ==> starts[i] < starts[j])
    && (forall at: nat :: at in starts <==> OccursAt(haystack, needle, at))
  }

  // ----- Coalescing

  function Max(a: nat, b: nat): nat { if a < b then b else a }

  predicate Mergeable(output: seq<OccurrenceRange>, item: OccurrenceRange) {
    output != [] && output[|output| - 1].block == item.block && item.start <= output[|output| - 1].end
  }

  function Merged(output: seq<OccurrenceRange>, item: OccurrenceRange): seq<OccurrenceRange> {
    if Mergeable(output, item) then
      var previous := output[|output| - 1];
      output[|output| - 1 := OccurrenceRange(previous.block, previous.start, Max(previous.end, item.end))]
    else
      output + [item]
  }

  function Coalesced(ranges: seq<OccurrenceRange>): seq<OccurrenceRange> {
    if ranges == [] then [] else Merged(Coalesced(ranges[..|ranges| - 1]), ranges[|ranges| - 1])
  }

  lemma CoalescedPrefix(ranges: seq<OccurrenceRange>, i: nat)
    requires i < |ranges|
    ensures Coalesced(ranges[..i + 1]) == Merged(Coalesced(ranges[..i]), ranges[i])
  {
    assert ranges[..i + 1][..i] == ranges[..i];
  }

  /** `_coalesce_ranges`. */
  method CoalesceRanges(ranges: seq<OccurrenceRange>) returns (output: seq<OccurrenceRange>)
    ensures output == Coalesced(ranges)
  {
    hide Coalesced;
    output := [];
    NothingCoalesced();
    assert ranges[..0] == [];
    for i := 0 to |ranges|
      invariant output == Coalesced(ranges[..i])
    {
      var item := ranges[i];
      CoalescedPrefix(ranges, i);
      if output != [] && output[|output| - 1].block == item.block && item.start <= output[|output| - 1].end {
        var previous := output[|output| - 1];
        output := output[|output| - 1 := OccurrenceRange(previous.block, previous.start, Max(previous.end, item.end))];
      } else {
        output := output + [item];
      }
    }
    assert ranges[..|ranges|] == ranges;
  }

  lemma NothingCoalesced()
    ensures Coalesced([]) == []
  {
  }

  /** Within one block the ranges start in source order. */
  ghost predicate StartsInOrder(ranges: seq<OccurrenceRange>) {
    forall i, j :: 0 <= i < j < |ranges| && ranges[i].block == ranges[j].block ==> ranges[i].start <= ranges[j].start
  }

  ghost predicate Covered(ranges: seq<OccurrenceRange>, block: string, p: int) {
    exists r :: r in ranges && r.block == block && r.Covers(p)
  }

  /** The last coalesced range contains the last range read, and starts where some range starts. */
  lemma {:induction false} LastCoalesced(ranges: seq<OccurrenceRange>)
    requires StartsInOrder(ranges) && ranges != []
    ensures var output := Coalesced(ranges);
            && output != []
            && output[|output| - 1].Contains(ranges[|ranges| - 1])
            && (exists m :: 0 <= m < |ranges| && ranges[m].block == output[|output| - 1].block
                            && ranges[m].start == output[|output| - 1].start)
  {
    var n := |ranges| - 1;
    if n > 0 {
      LastCoalesced(ranges[..n]);
      var previous := Coalesced(ranges[..n]);
      var m :| 0 <= m < n && ranges[..n][m].block == previous[|previous| - 1].block
               && ranges[..n][m].start == previous[|previous| - 1].start;
      assert ranges[m].start == previous[|previous| - 1].start;
    }
  }

  /** Coalescing loses no range: each one lies inside a coalesced range. */
  lemma {:induction false} CoalescedContainsEach(ranges: seq<OccurrenceRange>, r: OccurrenceRange)
    requires StartsInOrder(ranges) && r in ranges
    ensures exists c :: c in Coalesced(ranges) && c.Contains(r)
  {
    var n := |ranges| - 1;
    LastCoalesced(ranges);
    var output := Coalesced(ranges);
    var last := output[|output| - 1];
    if r == ranges[n] {
      assert last in output && last.Contains(r);
    } else {
      assert r in ranges[..n];
      CoalescedContainsEach(ranges[..n], r);
      var before := Coalesced(ranges[..n]);
      var k :| 0 <= k < |before| && before[k].Contains(r);
      if k == |before| - 1 && |output| == |before| {
        assert last in output && last.Contains(r);
      } else {
        assert output[k] == before[k];
      }
    }
  }

  /** Coalescing covers no new position. */
  lemma {:induction false} CoalescedAddsNothing(ranges: seq<OccurrenceRange>, block: string, p: int)
    requires Covered(Coalesced(ranges), block, p)
    ensures Covered(ranges, block, p)
  {
    var n := |ranges| - 1;
    var before, output, item := Coalesced(ranges[..n]), Coalesced(ranges), ranges[n];
    var k :| 0 <= k < |output| && output[k].block == block && output[k].Covers(p);
    if item.block == block && item.Covers(p) {
      assert item in ranges;
    } else {
      assert k < |before| && before[k].block == block && before[k].Covers(p);
      assert before[k] in before;
      CoalescedAddsNothing(ranges[..n], block, p);
      var r :| r in ranges[..n] && r.block == block && r.Covers(p);
      assert r in ranges;
    }
  }

  /** Main result: coalescing keeps exactly the union of the source positions. */
  lemma CoalescedKeepsUnion(ranges: seq<OccurrenceRange>, block: string, p: int)
    requires StartsInOrder(ranges)
    ensures Covered(Coalesced(ranges), block, p) <==> Covered(ranges, block, p)
  {
    if Covered(ranges, block, p) {
      var r :| r in ranges && r.block == block && r.Covers(p);
      CoalescedContainsEach(ranges, r);
    }
    if Covered(Coalesced(ranges), block, p) {
      CoalescedAddsNothing(ranges, block, p);
    }
  }

  /** Neighbours of one block have a gap between them. */
  ghost predicate Separated(ranges: seq<OccurrenceRange>) {
    forall i, j :: 0 <= i && j == i + 1 && j < |ranges| && ranges[i].block == ranges[j].block ==>
      ranges[i].end < ranges[j].start
  }

  /** Coalescing leaves nothing to merge. */
  lemma {:induction false} CoalescedIsSeparated(ranges: seq<OccurrenceRange>)
    ensures Separated(Coalesced(ranges))
  {
    if ranges != [] {
      CoalescedIsSeparated(ranges[..|ranges| - 1]);
      var before, output := Coalesced(ranges[..|ranges| - 1]), Coalesced(ranges);
      forall i, j | 0 <= i && j == i + 1 && j < |output| && output[i].block == output[j].block
        ensures output[i].end < output[j].start
      {
        assert output[i] == before[i];
        if j < |before| {
          assert before[j].start == output[j].start && before[j].block == output[j].block;
        }
      }
    }
  }

  // ----- From the flattened text to the occurrences

  /** The references that are not None. */
  function Present(references: seq<Option<OccurrenceRange>>): seq<OccurrenceRange> {
    if references == [] then []
    else
      var last := references[|references| - 1];
      Present(references[..|references| - 1]) + (if last.Some? then [last.value] else [])
  }

  /** `_TextOccurrence` of the match at `at`. */
  function OccurrenceAt(references: seq<Option<OccurrenceRange>>, at: nat, length: nat): seq<OccurrenceRange>
    requires at + length <= |references|
  {
    Coalesced(Present(references[at..at + length]))
  }

  /** What the reference list is: parallel to the normalised text, None exactly at
      spaces, and otherwise the source range of that very character. */
  ghost predicate References(f: Folding, selected: seq<Block>, references: seq<Option<OccurrenceRange>>)
    requires forall i :: 0 <= i < |selected| ==> selected[i].TextBlock?
  {
    var haystack := MatchNormalize(f, JoinedText(selected));
    && |references| == |haystack|
    && (forall k :: 0 <= k < |haystack| ==>
        (references[k].None? <==> haystack[k] == ' ') && (f.isSpace(haystack[k]) <==> haystack[k] == ' '))
    && Visible(f, Zipped(haystack, references)) == Visible(f, AllItems(f, selected))
  }

  lemma ReferencesOf(f: Folding, selected: seq<Block>, haystack: string, references: seq<Option<OccurrenceRange>>)
    requires forall i :: 0 <= i < |selected| ==> selected[i].TextBlock?
    requires haystack == MatchNormalize(f, JoinedText(selected))
    requires |references| == |haystack|
    requires forall k :: 0 <= k < |haystack| ==>
               (references[k].None? <==> haystack[k] == ' ') && (f.isSpace(haystack[k]) <==> haystack[k] == ' ')
    requires Visible(f, Zipped(haystack, references)) == Visible(f, AllItems(f, selected))
    ensures References(f, selected, references)
  {
  }

  /** The matches before `next` (all of them, if `next` is -1) have been visited. */
  ghost predicate Found(haystack: string, needle: string, starts: seq<nat>, next: int) {
    && (forall i, j :: 0 <= i < j < |starts| ==> starts[i] < starts[j])
    && (forall at: nat :: at in starts <==> OccursAt(haystack, needle, at) && (next == -1 || at < next))
  }

  ghost predicate Located(references: seq<Option<OccurrenceRange>>, length: nat, starts: seq<nat>,
                          occurrences: seq<seq<OccurrenceRange>>) {
    && |occurrences| == |starts|
    && (forall i :: 0 <= i < |starts| ==>
          && starts[i] + length <= |references|
          && occurrences[i] == OccurrenceAt(references, starts[i], length))
  }

  lemma SearchBegins(haystack: string, needle: string, references: seq<Option<OccurrenceRange>>, start: int)
    requires start == Find(haystack, needle, 0)
    ensures Found(haystack, needle, [], start) && Located(references, |needle|, [], [])
  {
  }

  lemma SearchStep(haystack: string, needle: string, references: seq<Option<OccurrenceRange>>, starts: seq<nat>,
                   occurrences: seq<seq<OccurrenceRange>>, start: nat, next: int)
    requires |references| == |haystack| && OccursAt(haystack, needle, start)
    requires next == Find(haystack, needle, start + 1)
    requires Found(haystack, needle, starts, start) && Located(references, |needle|, starts, occurrences)
    ensures Found(haystack, needle, starts + [start], next)
    ensures Located(references, |needle|, starts + [start],
                    occurrences + [OccurrenceAt(references, start, |needle|)])
  {
    hide Coalesced, Present;
    forall i | 0 <= i < |starts|
      ensures starts[i] < start
    {
      assert starts[i] in starts;
    }
    forall at: nat
      ensures at in starts + [start] <==> OccursAt(haystack, needle, at) && (next == -1 || at < next)
    {
      assert at in starts + [start] <==> at in starts || at == start;
    }
  }

  /** The occurrences are those of every match of the normalised expected text in
      the normalised text of the selected blocks. */
  ghost predicate OccurrencesOf(f: Folding, selected: seq<Block>, exactText: string,
                                occurrences: seq<seq<OccurrenceRange>>)
    requires forall i :: 0 <= i < |selected| ==> selected[i].TextBlock?
  {
    exists references, starts ::
      && References(f, selected, references)
      && AllMatches(MatchNormalize(f, JoinedText(selected)), MatchNormalize(f, exactText), starts)
      && Located(references, |MatchNormalize(f, exactText)|, starts, occurrences)
  }

  lemma SearchEnds(f: Folding, selected: seq<Block>, exactText: string, haystack: string,
                   references: seq<Option<OccurrenceRange>>, starts: seq<nat>, occurrences: seq<seq<OccurrenceRange>>)
    requires forall i :: 0 <= i < |selected| ==> selected[i].TextBlock?
    requires haystack == MatchNormalize(f, JoinedText(selected)) && References(f, selected, references)
    requires Found(haystack, MatchNormalize(f, exactText), starts, -1)
    requires Located(references, |MatchNormalize(f, exactText)|, starts, occurrences)
    ensures OccurrencesOf(f, selected, exactText, occurrences)
  {
    hide References, Located, MatchNormalize, JoinedText;
    assert AllMatches(haystack, MatchNormalize(f, exactText), starts);
  }

  // ----- Which blocks the occurrences lie in

  /** The pages from the first to the last; the first alone without a last one; and any without a first. */
  ghost predicate OnPages(page: Option<int>, pageStart: Option<int>, pageEnd: Option<int>) {
    match (pageStart, pageEnd)
    case (None, _) => true
    case (Some(first), None) => page == Some(first)
    case (Some(first), Some(last)) =>
      if last == 0 then page == Some(first) else page.Some? && first <= page.value <= last
  }

  /** A text block that the pages admit. */
  ghost predicate Wanted(block: Block, pageStart: Option<int>, pageEnd: Option<int>) {
    block.TextBlock? && OnPages(block.page, pageStart, pageEnd)
  }

  /** The blocks that are read are exactly the wanted ones. */
  lemma {:induction false} SelectedExactly(blocks: seq<Block>, pageStart: Option<int>, pageEnd: Option<int>,
                                           block: Block)
    ensures block in SelectedBlocks(blocks, pageStart, pageEnd) <==>
              block in blocks && Wanted(block, pageStart, pageEnd)
  {
    if blocks != [] {
      var n := |blocks| - 1;
      SelectedExactly(blocks[..n], pageStart, pageEnd, block);
      assert blocks == blocks[..n] + [blocks[n]];
      assert Selected(blocks[n], pageStart, pageEnd) <==> Wanted(blocks[n], pageStart, pageEnd);
    }
  }

  ghost predicate AllIn(ranges: seq<OccurrenceRange>, id: string) {
    forall i :: 0 <= i < |ranges| ==> ranges[i].block == id
  }

  ghost predicate HasText(f: Folding, block: Block, exactText: string)
    requires block.TextBlock?
  {
    exists at: int :: OccursAt(MatchNormalize(f, Text(block.characters)), MatchNormalize(f, exactText), at)
  }

  /** Every range lies in a wanted block. */
  ghost predicate LieInWanted(blocks: seq<Block>, pageStart: Option<int>, pageEnd: Option<int>,
                              occurrences: seq<seq<OccurrenceRange>>)
  {
    forall o, r :: o in occurrences && r in o ==>
      exists b :: b in blocks && b.TextBlock? && Wanted(b, pageStart, pageEnd) && b.id == r.block
  }

  /** Every wanted block that has the text has an occurrence of its own. */
  ghost predicate FoundInEach(f: Folding, blocks: seq<Block>, pageStart: Option<int>, pageEnd: Option<int>,
                              exactText: string, occurrences: seq<seq<OccurrenceRange>>)
  {
    forall b :: b in blocks && b.TextBlock? && Wanted(b, pageStart, pageEnd) && HasText(f, b, exactText) ==>
      exists o :: o in occurrences && AllIn(o, b.id) && (MatchNormalize(f, exactText) != "" ==> o != [])
  }

  lemma VisibleMember(f: Folding, items: seq<Item>, item: Item)
    ensures item in Visible(f, items) <==> item in items && !f.isSpace(item.folded)
  {
    if items != [] {
      VisibleMember(f, items[..|items| - 1], item);
      assert items == items[..|items| - 1] + [items[|items| - 1]];
    }
  }

  lemma {:induction false} VisibleCount(f: Folding, items: seq<Item>)
    ensures |Visible(f, items)| == Mass(f, _ => 1, Folded(items))
  {
    hide Mass;
    if items == [] {
      assert Folded(items) == "";
      MassOfNothing(f, _ => 1);
    } else {
      var n := |items| - 1;
      VisibleCount(f, items[..n]);
      assert items == items[..n] + [items[n]];
      FoldedSnoc(items[..n], items[n]);
      MassSnoc(f, _ => 1, Folded(items[..n]), items[n].folded);
    }
  }

  lemma MassOfNothing(f: Folding, weight: char -> nat)
    ensures Mass(f, weight, "") == 0
  {
  }

  lemma {:induction false} AllItemsConcat(f: Folding, a: seq<Block>, b: seq<Block>)
    requires forall i :: 0 <= i < |a| ==> a[i].TextBlock?
    requires forall i :: 0 <= i < |b| ==> b[i].TextBlock?
    ensures AllItems(f, a + b) == AllItems(f, a) + AllItems(f, b)
  {
    hide CharacterItems;
    if b == [] {
      assert a + b == a;
    } else {
      var n := |b| - 1;
      AllItemsConcat(f, a, b[..n]);
      assert (a + b)[..|a + b| - 1] == a + b[..n] && (a + b)[|a + b| - 1] == b[n];
      var within := CharacterItems(f, b[n].id, b[n].characters);
      ConcatAssociative(AllItems(f, a), AllItems(f, b[..n]), within);
      ConcatAssociative(AllItems(f, a), AllItems(f, b[..n]) + within, [Item('\n', None)]);
    }
  }

  /** What is read of one of the blocks, between what is read before and after it. */
  lemma BlockSplits(f: Folding, selected: seq<Block>, i: nat)
    requires i < |selected| && forall i :: 0 <= i < |selected| ==> selected[i].TextBlock?
    ensures AllItems(f, selected) ==
              AllItems(f, selected[..i]) + CharacterItems(f, selected[i].id, selected[i].characters) +
              ([Item('\n', None)] + AllItems(f, selected[i + 1..]))
  {
    hide CharacterItems;
    assert selected == selected[..i + 1] + selected[i + 1..] && selected[..i + 1][..i] == selected[..i];
    AllItemsConcat(f, selected[..i + 1], selected[i + 1..]);
    ConcatAssociative(AllItems(f, selected[..i]) + CharacterItems(f, selected[i].id, selected[i].characters),
                      [Item('\n', None)], AllItems(f, selected[i + 1..]));
  }

  ghost function WordsOfItems(f: Folding, items: seq<Item>): seq<string> { Words(f, Folded(items)) }

  /** The words of the blocks are those of each block, one after the other. */
  lemma WordsOfBlocks(f: Folding, selected: seq<Block>, i: nat)
    requires Sound(f) && i < |selected| && forall i :: 0 <= i < |selected| ==> selected[i].TextBlock?
    ensures WordsOfItems(f, AllItems(f, selected)) ==
              WordsOfItems(f, AllItems(f, selected[..i])) +
              WordsOfItems(f, CharacterItems(f, selected[i].id, selected[i].characters)) +
              WordsOfItems(f, AllItems(f, selected[i + 1..]))
  {
    hide CharacterItems, AllItems, Words, Folded;
    var before, within := AllItems(f, selected[..i]), CharacterItems(f, selected[i].id, selected[i].characters);
    var after := AllItems(f, selected[i + 1..]);
    BlockSplits(f, selected, i);
    FoldedConcat(before + within, [Item('\n', None)] + after);
    FoldedConcat([Item('\n', None)], after);
    FoldedConcat(before, within);
    FoldedEmpty();
    ConcatAssociative(Folded(before + within), "\n", Folded(after));
    assert Folded(before + within) + "\n" == Folded(before + within) + ['\n'];
    WordsAcross(f, Folded(before + within), '\n', Folded(after));
    WordsAfterBlocks(f, selected[..i], Folded(within));
  }

  lemma WordsAfterBlocks(f: Folding, front: seq<Block>, text: string)
    requires Sound(f) && forall i :: 0 <= i < |front| ==> front[i].TextBlock?
    ensures Words(f, Folded(AllItems(f, front)) + text) == WordsOfItems(f, AllItems(f, front)) + Words(f, text)
  {
    hide CharacterItems, Words, Folded;
    if front == [] {
      FoldedEmpty();
      NoWords(f);
      assert "" + text == text;
    } else {
      var n := |front| - 1;
      var rest := AllItems(f, front[..n]) + CharacterItems(f, front[n].id, front[n].characters);
      FoldedConcat(rest, [Item('\n', None)]);
      FoldedEmpty();
      assert Folded(rest) + "\n" == Folded(rest) + ['\n'];
      WordsAcross(f, Folded(rest), '\n', text);
      WordsAcross(f, Folded(rest), '\n', "");
      NoWords(f);
      assert Folded(rest) + ['\n'] + "" == Folded(rest) + ['\n'];
    }
  }

  lemma HaystackIsWords(f: Folding, selected: seq<Block>)
    requires Sound(f) && forall i :: 0 <= i < |selected| ==> selected[i].TextBlock?
    ensures MatchNormalize(f, JoinedText(selected)) == JoinWords(WordsOfItems(f, AllItems(f, selected)))
  {
    hide Words, Folded, AllItems, Expanded;
    AllItemsFolded(f, selected);
    if selected == [] {
      NothingExpanded(f);
    } else {
      var folded := Expanded(f, JoinedText(selected));
      NoWords(f);
      WordsAcross(f, folded, '\n', "");
      assert folded + ['\n'] + "" == folded + "\n";
      assert Folded(AllItems(f, selected)) == folded + "\n";
      assert Words(f, folded) + [] == Words(f, folded);
    }
  }

  lemma NothingExpanded(f: Folding)
    ensures Expanded(f, "") == ""
  {
  }

  lemma BlockIsWords(f: Folding, block: Block)
    requires block.TextBlock?
    ensures MatchNormalize(f, Text(block.characters)) ==
              JoinWords(WordsOfItems(f, CharacterItems(f, block.id, block.characters)))
  {
    hide Words, Folded, Expanded, CharacterItems;
    CharacterItemsFolded(f, block.id, block.characters);
  }

  /** Joining words writes as much that is visible as was read. */
  lemma JoinedCount(f: Folding, items: seq<Item>)
    requires f.isSpace(' ')
    ensures Mass(f, _ => 1, JoinWords(WordsOfItems(f, items))) == |Visible(f, items)|
    ensures Mass(f, _ => 1, JoinWords(WordsOfItems(f, items)) + " ") == |Visible(f, items)|
  {
    hide Words, JoinWords, Visible, Mass, Folded;
    VisibleCount(f, items);
    MassOfWords(f, _ => 1, Folded(items));
    MassSnoc(f, _ => 1, JoinWords(WordsOfItems(f, items)), ' ');
  }

  lemma ZippedFolded(flattened: string, references: seq<Option<OccurrenceRange>>)
    requires |flattened| == |references|
    ensures Folded(Zipped(flattened, references)) == flattened
  {
  }

  lemma {:induction false} CharacterItemsFrom(f: Folding, id: string, characters: seq<SourceCharacter>)
    ensures forall item :: item in CharacterItems(f, id, characters) ==>
              item.source.Some? && item.source.value.block == id
  {
    if characters != [] {
      CharacterItemsFrom(f, id, characters[..|characters| - 1]);
    }
  }

  /** Where the words of three texts lie once they are joined. */
  lemma JoinedInThree(a: seq<string>, b: seq<string>, c: seq<string>) returns (before: string, after: string)
    requires b != []
    ensures before == (if a == [] then "" else JoinWords(a) + " ")
    ensures JoinWords(a + b + c) == before + JoinWords(b) + after
  {
    hide JoinWords;
    JoinConcat(a + b, c);
    JoinConcat(a, b);
    before := if a == [] then "" else JoinWords(a) + " ";
    after := if c == [] then "" else " " + JoinWords(c);
    var front := before + JoinWords(b);
    assert JoinWords(a + b) == front by {
      assert "" + JoinWords(b) == JoinWords(b);
    }
    assert front + "" == front;
    ConcatAssociative(front, " ", JoinWords(c));
  }

  ghost predicate RefersTo(references: seq<Option<OccurrenceRange>>, from: nat, stop: nat, id: string)
    requires from <= stop <= |references|
  {
    forall k :: from <= k < stop && references[k].Some? ==> references[k].value.block == id
  }

  /** What precedes the block's text in the joined text, and what follows. */
  lemma BlockLies(f: Folding, selected: seq<Block>, i: nat) returns (before: string, after: string)
    requires Sound(f) && forall i :: 0 <= i < |selected| ==> selected[i].TextBlock?
    requires i < |selected| && MatchNormalize(f, Text(selected[i].characters)) != ""
    ensures MatchNormalize(f, JoinedText(selected)) ==
              before + MatchNormalize(f, Text(selected[i].characters)) + after
    ensures Mass(f, _ => 1, before) == |Visible(f, AllItems(f, selected[..i]))|
  {
    hide Words, JoinWords, Folded, AllItems, CharacterItems, JoinedText, Visible, Expanded, Mass, MatchNormalize;
    var block := selected[i];
    var A, B, C := AllItems(f, selected[..i]), CharacterItems(f, block.id, block.characters),
        AllItems(f, selected[i + 1..]);
    HaystackIsWords(f, selected);
    BlockIsWords(f, block);
    WordsOfBlocks(f, selected, i);
    NoJoined();
    before, after := JoinedInThree(WordsOfItems(f, A), WordsOfItems(f, B), WordsOfItems(f, C));
    JoinedCount(f, A);
    NothingJoined(f, A);
  }

  lemma BlockCount(f: Folding, block: Block)
    requires f.isSpace(' ') && block.TextBlock?
    ensures Mass(f, _ => 1, MatchNormalize(f, Text(block.characters))) ==
              |Visible(f, CharacterItems(f, block.id, block.characters))|
  {
    hide Words, JoinWords, CharacterItems, Visible, Mass, MatchNormalize;
    BlockIsWords(f, block);
    JoinedCount(f, CharacterItems(f, block.id, block.characters));
  }

  /** A block with any words has its normalised text in the joined text, and the references there are its own. */
  lemma BlockOccupies(f: Folding, selected: seq<Block>, references: seq<Option<OccurrenceRange>>, i: nat)
    returns (from: nat)
    requires Sound(f) && forall i :: 0 <= i < |selected| ==> selected[i].TextBlock?
    requires References(f, selected, references) && i < |selected|
    requires MatchNormalize(f, Text(selected[i].characters)) != ""
    ensures var own := MatchNormalize(f, Text(selected[i].characters));
            && OccursAt(MatchNormalize(f, JoinedText(selected)), own, from) && from + |own| <= |references|
            && RefersTo(references, from, from + |own|, selected[i].id)
  {
    hide AllItems, CharacterItems, JoinedText, Visible, Mass, MatchNormalize, RefersTo;
    var before, after := BlockLies(f, selected, i);
    var haystack, own := MatchNormalize(f, JoinedText(selected)), MatchNormalize(f, Text(selected[i].characters));
    from := |before|;
    assert haystack[from..from + |own|] == own && haystack[..from] == before;
    BlockRefers(f, selected, references, i, from, from + |own|);
  }

  lemma BlockRefers(f: Folding, selected: seq<Block>, references: seq<Option<OccurrenceRange>>, i: nat, from: nat,
                    stop: nat)
    requires Sound(f) && forall i :: 0 <= i < |selected| ==> selected[i].TextBlock?
    requires References(f, selected, references) && i < |selected| && from <= stop <= |references|
    requires MatchNormalize(f, JoinedText(selected))[from..stop] == MatchNormalize(f, Text(selected[i].characters))
    requires Mass(f, _ => 1, MatchNormalize(f, JoinedText(selected))[..from]) ==
               |Visible(f, AllItems(f, selected[..i]))|
    ensures RefersTo(references, from, stop, selected[i].id)
  {
    hide AllItems, CharacterItems, JoinedText, Visible, Mass, MatchNormalize, Zipped;
    var block, haystack := selected[i], MatchNormalize(f, JoinedText(selected));
    VisibleOfBlocks(f, selected, i);
    VisibleInThree(f, haystack, references, from, stop);
    BlockCount(f, block);
    SameParts(Visible(f, Zipped(haystack[..from], references[..from])),
              Visible(f, Zipped(haystack[from..stop], references[from..stop])),
              Visible(f, Zipped(haystack[stop..], references[stop..])), Visible(f, AllItems(f, selected[..i])),
              Visible(f, CharacterItems(f, block.id, block.characters)), Visible(f, AllItems(f, selected[i + 1..])));
    ReferencesInBlock(f, haystack[from..stop], references[from..stop], block);
    forall k | from <= k < stop && references[k].Some?
      ensures references[k].value.block == block.id
    {
      assert references[from..stop][k - from] == references[k];
      assert haystack[from..stop][k - from] == haystack[k];
    }
  }

  lemma NoJoined()
    ensures JoinWords([]) == ""
  {
  }

  /** With no words there is nothing visible. */
  lemma NothingJoined(f: Folding, items: seq<Item>)
    requires f.isSpace(' ')
    ensures WordsOfItems(f, items) == [] ==> |Visible(f, items)| == Mass(f, _ => 1, "")
  {
    hide Words, Visible, Mass;
    JoinedCount(f, items);
    NoJoined();
  }

  lemma SameParts(a: seq<Item>, b: seq<Item>, c: seq<Item>, x: seq<Item>, y: seq<Item>, z: seq<Item>)
    requires a + b + c == x + y + z && |a| == |x| && |b| == |y|
    ensures b == y
  {
    assert (a + b + c)[|a|..|a| + |b|] == b && (x + y + z)[|x|..|x| + |y|] == y;
  }

  lemma VisibleOfBlocks(f: Folding, selected: seq<Block>, i: nat)
    requires Sound(f) && i < |selected| && forall i :: 0 <= i < |selected| ==> selected[i].TextBlock?
    ensures Visible(f, AllItems(f, selected)) ==
              Visible(f, AllItems(f, selected[..i])) +
              Visible(f, CharacterItems(f, selected[i].id, selected[i].characters)) +
              Visible(f, AllItems(f, selected[i + 1..]))
  {
    hide CharacterItems, AllItems, Visible;
    var before, within := AllItems(f, selected[..i]), CharacterItems(f, selected[i].id, selected[i].characters);
    var after := AllItems(f, selected[i + 1..]);
    BlockSplits(f, selected, i);
    VisibleConcat(f, before + within, [Item('\n', None)] + after);
    VisibleConcat(f, [Item('\n', None)], after);
    VisibleConcat(f, before, within);
    SeparatorIsInvisible(f);
    assert [] + Visible(f, after) == Visible(f, after);
  }

  lemma VisibleInThree(f: Folding, text: string, references: seq<Option<OccurrenceRange>>, from: nat, stop: nat)
    requires from <= stop <= |text| == |references|
    ensures var head := Visible(f, Zipped(text[..from], references[..from]));
            var mid := Visible(f, Zipped(text[from..stop], references[from..stop]));
            && Visible(f, Zipped(text, references)) == head + mid + Visible(f, Zipped(text[stop..], references[stop..]))
            && |head| == Mass(f, _ => 1, text[..from]) && |mid| == Mass(f, _ => 1, text[from..stop])
  {
    hide Visible, Mass;
    var a, b := Zipped(text[..from], references[..from]), Zipped(text[from..stop], references[from..stop]);
    var c := Zipped(text[stop..], references[stop..]);
    assert Zipped(text, references) == a + b + c;
    VisibleConcat(f, a + b, c);
    VisibleConcat(f, a, b);
    VisibleCount(f, a);
    VisibleCount(f, b);
    ZippedFolded(text[..from], references[..from]);
    ZippedFolded(text[from..stop], references[from..stop]);
  }

  lemma ReferencesInBlock(f: Folding, text: string, references: seq<Option<OccurrenceRange>>, block: Block)
    requires block.TextBlock? && |references| == |text|
    requires Visible(f, Zipped(text, references)) == Visible(f, CharacterItems(f, block.id, block.characters))
    requires forall k :: 0 <= k < |text| ==> (references[k].None? <==> f.isSpace(text[k]))
    ensures forall k :: 0 <= k < |text| && references[k].Some? ==> references[k].value.block == block.id
  {
    hide Visible, CharacterItems;
    forall k | 0 <= k < |text| && references[k].Some?
      ensures references[k].value.block == block.id
    {
      var item := Zipped(text, references)[k];
      VisibleMember(f, Zipped(text, references), item);
      VisibleMember(f, CharacterItems(f, block.id, block.characters), item);
      CharacterItemsFrom(f, block.id, block.characters);
    }
  }

  lemma {:induction false} PresentOf(references: seq<Option<OccurrenceRange>>, r: OccurrenceRange)
    ensures r in Present(references) <==> Some(r) in references
  {
    if references != [] {
      var n := |references| - 1;
      PresentOf(references[..n], r);
      assert references == references[..n] + [references[n]];
    }
  }

  /** Coalescing keeps the blocks. */
  lemma {:induction false} CoalescedBlocks(ranges: seq<OccurrenceRange>, id: string)
    ensures (exists c :: c in Coalesced(ranges) && c.block == id) <==> (exists r :: r in ranges && r.block == id)
  {
    if ranges != [] {
      var n := |ranges| - 1;
      var before, output := Coalesced(ranges[..n]), Coalesced(ranges);
      CoalescedBlocks(ranges[..n], id);
      assert ranges == ranges[..n] + [ranges[n]];
      if c :| c in before && c.block == id {
        var k :| 0 <= k < |before| && before[k] == c;
        assert output[k].block == id && output[k] in output;
      }
      if ranges[n].block == id {
        assert output[|output| - 1].block == id && output[|output| - 1] in output;
      }
      if c :| c in output && c.block == id {
        var k :| 0 <= k < |output| && output[k] == c;
        if k < |before| {
          assert before[k].block == id && before[k] in before;
        }
      }
    }
  }

  lemma BlocksOfOccurrence(references: seq<Option<OccurrenceRange>>, at: nat, length: nat, r: OccurrenceRange)
    returns (k: nat)
    requires at + length <= |references| && r in OccurrenceAt(references, at, length)
    ensures at <= k < at + length && references[k].Some? && references[k].value.block == r.block
  {
    hide Coalesced, Present;
    var slice := references[at..at + length];
    CoalescedBlocks(Present(slice), r.block);
    var raw :| raw in Present(slice) && raw.block == r.block;
    PresentOf(slice, raw);
    var j :| 0 <= j < |slice| && slice[j] == Some(raw);
    k := at + j;
  }

  lemma ReferencesAreSelected(f: Folding, selected: seq<Block>, references: seq<Option<OccurrenceRange>>, k: nat)
    requires Sound(f) && forall i :: 0 <= i < |selected| ==> selected[i].TextBlock?
    requires References(f, selected, references) && k < |references| && references[k].Some?
    ensures exists b :: b in selected && b.TextBlock? && b.id == references[k].value.block
  {
    hide AllItems, Visible, MatchNormalize, JoinedText;
    var haystack := MatchNormalize(f, JoinedText(selected));
    var item := Zipped(haystack, references)[k];
    VisibleMember(f, Zipped(haystack, references), item);
    VisibleMember(f, AllItems(f, selected), item);
    ItemsAreSelected(f, selected, item);
  }

  lemma {:induction false} ItemsAreSelected(f: Folding, selected: seq<Block>, item: Item)
    requires forall i :: 0 <= i < |selected| ==> selected[i].TextBlock?
    requires item in AllItems(f, selected) && item.source.Some?
    ensures exists b :: b in selected && b.TextBlock? && b.id == item.source.value.block
  {
    hide CharacterItems;
    var n := |selected| - 1;
    CharacterItemsFrom(f, selected[n].id, selected[n].characters);
    if item in AllItems(f, selected[..n]) {
      ItemsAreSelected(f, selected[..n], item);
    } else {
      assert selected[n] in selected;
    }
  }

  lemma OccurrencesLieInWanted(f: Folding, blocks: seq<Block>, pageStart: Option<int>, pageEnd: Option<int>,
                               exactText: string, occurrences: seq<seq<OccurrenceRange>>)
    requires Sound(f) && OccurrencesOf(f, SelectedBlocks(blocks, pageStart, pageEnd), exactText, occurrences)
    ensures LieInWanted(blocks, pageStart, pageEnd, occurrences)
  {
    hide References, AllMatches, MatchNormalize, JoinedText, SelectedBlocks, OccurrenceAt, Wanted;
    var selected := SelectedBlocks(blocks, pageStart, pageEnd);
    var references, starts :|
      && References(f, selected, references)
      && AllMatches(MatchNormalize(f, JoinedText(selected)), MatchNormalize(f, exactText), starts)
      && Located(references, |MatchNormalize(f, exactText)|, starts, occurrences);
    forall o, r | o in occurrences && r in o
      ensures exists b :: b in blocks && b.TextBlock? && Wanted(b, pageStart, pageEnd) && b.id == r.block
    {
      var i :| 0 <= i < |occurrences| && occurrences[i] == o;
      var k := BlocksOfOccurrence(references, starts[i], |MatchNormalize(f, exactText)|, r);
      ReferencesAreSelected(f, selected, references, k);
      var b :| b in selected && b.TextBlock? && b.id == r.block;
      SelectedExactly(blocks, pageStart, pageEnd, b);
    }
  }

  /** A match inside a block's own text. */
  lemma OccurrenceInBlock(f: Folding, selected: seq<Block>, references: seq<Option<OccurrenceRange>>, i: nat,
                          needle: string, at: int)
    returns (start: nat)
    requires Sound(f) && forall i :: 0 <= i < |selected| ==> selected[i].TextBlock?
    requires References(f, selected, references) && i < |selected|
    requires OccursAt(MatchNormalize(f, Text(selected[i].characters)), needle, at)
    requires needle != "" ==> !f.isSpace(needle[0])
    ensures OccursAt(MatchNormalize(f, JoinedText(selected)), needle, start) && start + |needle| <= |references|
    ensures AllIn(OccurrenceAt(references, start, |needle|), selected[i].id)
    ensures needle != "" ==> OccurrenceAt(references, start, |needle|) != []
  {
    hide MatchNormalize, JoinedText, Coalesced, Present, AllItems, Visible, Zipped;
    var haystack, own := MatchNormalize(f, JoinedText(selected)), MatchNormalize(f, Text(selected[i].characters));
    if needle == "" {
      start := 0;
      assert references[0..0] == [];
      NothingPresent();
    } else {
      var from := BlockOccupies(f, selected, references, i);
      start := from + at;
      assert haystack[start..start + |needle|] == haystack[from..from + |own|][at..at + |needle|];
      assert haystack[start] == needle[0];
      forall m | 0 <= m < |OccurrenceAt(references, start, |needle|)|
        ensures OccurrenceAt(references, start, |needle|)[m].block == selected[i].id
      {
        var k := BlocksOfOccurrence(references, start, |needle|, OccurrenceAt(references, start, |needle|)[m]);
      }
      var slice := references[start..start + |needle|];
      assert slice[0].Some?;
      PresentOf(slice, slice[0].value);
      CoalescedBlocks(Present(slice), slice[0].value.block);
    }
  }

  lemma NothingPresent()
    ensures Coalesced(Present([])) == []
  {
  }

  lemma OccurrencesAreFoundInEach(f: Folding, blocks: seq<Block>, pageStart: Option<int>, pageEnd: Option<int>,
                                  exactText: string, occurrences: seq<seq<OccurrenceRange>>)
    requires Sound(f) && OccurrencesOf(f, SelectedBlocks(blocks, pageStart, pageEnd), exactText, occurrences)
    ensures FoundInEach(f, blocks, pageStart, pageEnd, exactText, occurrences)
  {
    hide References, MatchNormalize, JoinedText, SelectedBlocks, OccurrenceAt, Wanted, OccursAt;
    var selected := SelectedBlocks(blocks, pageStart, pageEnd);
    var needle := MatchNormalize(f, exactText);
    var references, starts :|
      && References(f, selected, references)
      && AllMatches(MatchNormalize(f, JoinedText(selected)), needle, starts)
      && Located(references, |needle|, starts, occurrences);
    if needle != "" {
      NormalizedBegins(f, exactText);
    }
    forall b | b in blocks && b.TextBlock? && Wanted(b, pageStart, pageEnd) && HasText(f, b, exactText)
      ensures exists o :: o in occurrences && AllIn(o, b.id) && (needle != "" ==> o != [])
    {
      SelectedExactly(blocks, pageStart, pageEnd, b);
      var i :| 0 <= i < |selected| && selected[i] == b;
      var at :| OccursAt(MatchNormalize(f, Text(b.characters)), needle, at);
      var start := OccurrenceInBlock(f, selected, references, i, needle, at);
      var k :| 0 <= k < |starts| && starts[k] == start;
      assert occurrences[k] in occurrences;
    }
  }

  /** `_text_occurrences`: the coalesced source ranges of every match of the expected
      text in the selected blocks, overlapping matches included. */
  method TextOccurrences(f: Folding, blocks: seq<Block>, exactText: string, pageStart: Option<int>,
                         pageEnd: Option<int>)
    returns (occurrences: seq<seq<OccurrenceRange>>)
    requires Sound(f)
    ensures OccurrencesOf(f, SelectedBlocks(blocks, pageStart, pageEnd), exactText, occurrences)
    ensures LieInWanted(blocks, pageStart, pageEnd, occurrences)
    ensures FoundInEach(f, blocks, pageStart, pageEnd, exactText, occurrences)
  {
    hide OccurrencesOf, References, AllMatches, Located, Found, Coalesced, Present, Find, LieInWanted, FoundInEach;
    hide MatchNormalize, SelectedBlocks, JoinedText, AllItems, Visible, Zipped, Traced, Sound, Selected;
    var needle, _ := MatchNormalizeWithPositions(f, exactText);
    var haystack, references := FlattenBlocks(f, blocks, pageStart, pageEnd);
    ReferencesOf(f, SelectedBlocks(blocks, pageStart, pageEnd), haystack, references);
    occurrences := [];
    ghost var starts: seq<nat> := [];
    var start := Find(haystack, needle, 0);
    SearchBegins(haystack, needle, references, start);
    while start >= 0
      invariant start == -1 || OccursAt(haystack, needle, start)
      invariant Found(haystack, needle, starts, start)
      invariant Located(references, |needle|, starts, occurrences)
      decreases if start < 0 then -1 else |haystack| - start
    {
      var occurrence := CoalesceRanges(Present(references[start..start + |needle|]));
      var next := Find(haystack, needle, start + 1);
      SearchStep(haystack, needle, references, starts, occurrences, start, next);
      occurrences := occurrences + [occurrence];
      starts := starts + [start];
      start := next;
    }
    SearchEnds(f, SelectedBlocks(blocks, pageStart, pageEnd), exactText, haystack, references, starts, occurrences);
    OccurrencesLieInWanted(f, blocks, pageStart, pageEnd, exactText, occurrences);
    OccurrencesAreFoundInEach(f, blocks, pageStart, pageEnd, exactText, occurrences);
  }

  // ----- What a covering chunk covers

  datatype SourceSpan = SourceSpan(block: string, start: Option<nat>, end: Option<nat>) {
    predicate Contains(required: OccurrenceRange) {
      start.Some? && end.Some? && block == required.block && start.value <= required.start && required.end <= end.value
    }
  }

  /** `_chunk_covers_occurrence`. */
  predicate ChunkCoversOccurrence(spans: seq<SourceSpan>, occurrence: seq<OccurrenceRange>) {
    forall required :: required in occurrence ==> exists span :: span in spans && span.Contains(required)
  }

  ghost predicate HoldsPosition(span: SourceSpan, p: int) {
    span.start.Some? && span.end.Some? && span.start.value <= p < span.end.value
  }

  /** The span is one of the block and holds every position of the range. */
  ghost predicate HoldsPositions(span: SourceSpan, r: OccurrenceRange) {
    span.block == r.block && forall p :: r.start <= p < r.end ==> HoldsPosition(span, p)
  }

  lemma ContainsExactly(span: SourceSpan, r: OccurrenceRange)
    requires r.start < r.end
    ensures span.Contains(r) <==> HoldsPositions(span, r)
  {
    if HoldsPositions(span, r) {
      assert HoldsPosition(span, r.start) && HoldsPosition(span, r.end - 1);
    }
  }

  /** A chunk covers an occurrence exactly when each of its ranges lies, position by position, in one
      span of the same block. */
  lemma CoversExactly(spans: seq<SourceSpan>, occurrence: seq<OccurrenceRange>)
    requires forall r :: r in occurrence ==> r.start < r.end
    ensures ChunkCoversOccurrence(spans, occurrence) <==>
              forall r :: r in occurrence ==> exists span :: span in spans && HoldsPositions(span, r)
  {
    hide HoldsPositions;
    forall span: SourceSpan, r | r in occurrence
      ensures span.Contains(r) <==> HoldsPositions(span, r)
    {
      ContainsExactly(span, r);
    }
  }

  function SourcesOf(items: seq<Item>): seq<OccurrenceRange> {
    if items == [] then []
    else
      var last := items[|items| - 1];
      SourcesOf(items[..|items| - 1]) + (if last.source.Some? then [last.source.value] else [])
  }

  lemma {:induction false} SourcesOfConcat(a: seq<Item>, b: seq<Item>)
    ensures SourcesOf(a + b) == SourcesOf(a) + SourcesOf(b)
  {
    if b == [] {
      assert a + b == a;
    } else {
      var n := |b| - 1;
      SourcesOfConcat(a, b[..n]);
      assert (a + b)[..|a + b| - 1] == a + b[..n] && (a + b)[|a + b| - 1] == b[n];
      ConcatAssociative(SourcesOf(a), SourcesOf(b[..n]), if b[n].source.Some? then [b[n].source.value] else []);
    }
  }

  lemma {:induction false} VisibleConcat(f: Folding, a: seq<Item>, b: seq<Item>)
    ensures Visible(f, a + b) == Visible(f, a) + Visible(f, b)
  {
    if b == [] {
      assert a + b == a;
    } else {
      var n := |b| - 1;
      VisibleConcat(f, a, b[..n]);
      assert (a + b)[..|a + b| - 1] == a + b[..n] && (a + b)[|a + b| - 1] == b[n];
      ConcatAssociative(Visible(f, a), Visible(f, b[..n]), if f.isSpace(b[n].folded) then [] else [b[n]]);
    }
  }

  lemma {:induction false} PresentConcat(a: seq<Option<OccurrenceRange>>, b: seq<Option<OccurrenceRange>>)
    ensures Present(a + b) == Present(a) + Present(b)
  {
    if b == [] {
      assert a + b == a;
    } else {
      var n := |b| - 1;
      PresentConcat(a, b[..n]);
      assert (a + b)[..|a + b| - 1] == a + b[..n] && (a + b)[|a + b| - 1] == b[n];
      ConcatAssociative(Present(a), Present(b[..n]), if b[n].Some? then [b[n].value] else []);
    }
  }

  lemma {:induction false} PresentHasEach(references: seq<Option<OccurrenceRange>>, k: nat)
    requires k < |references| && references[k].Some?
    ensures references[k].value in Present(references)
  {
    if k < |references| - 1 {
      PresentHasEach(references[..|references| - 1], k);
    }
  }

  /** The references that are present are the sources of the visible characters. */
  lemma {:induction false} PresentIsVisible(f: Folding, flattened: string, references: seq<Option<OccurrenceRange>>)
    requires |references| == |flattened|
    requires forall k :: 0 <= k < |flattened| ==> (references[k].None? <==> f.isSpace(flattened[k]))
    ensures Present(references) == SourcesOf(Visible(f, Zipped(flattened, references)))
  {
    if references != [] {
      var n := |references| - 1;
      PresentIsVisible(f, flattened[..n], references[..n]);
      ZippedSnoc(flattened[..n], references[..n], flattened[n], references[n]);
      assert flattened[..n] + [flattened[n]] == flattened && references[..n] + [references[n]] == references;
      var last := Item(flattened[n], references[n]);
      VisibleSnoc(f, Zipped(flattened[..n], references[..n]), last);
      SourcesOfConcat(Visible(f, Zipped(flattened[..n], references[..n])),
                      if f.isSpace(last.folded) then [] else [last]);
    } else {
      assert Zipped(flattened, references) == [];
    }
  }

  ghost predicate OfOneBlock(sources: seq<OccurrenceRange>, id: string, bound: nat) {
    forall i :: 0 <= i < |sources| ==> sources[i].block == id && sources[i].start <= bound
  }

  lemma {:induction false} ItemsOfSources(f: Folding, folded: string, source: OccurrenceRange)
    ensures forall s :: s in SourcesOf(Visible(f, ItemsOf(folded, source))) ==> s == source
  {
    if folded != "" {
      var n := |folded| - 1;
      ItemsOfSources(f, folded[..n], source);
      assert ItemsOf(folded, source)[..n] == ItemsOf(folded[..n], source);
      var last := Item(folded[n], Some(source));
      SourcesOfConcat(Visible(f, ItemsOf(folded[..n], source)), if f.isSpace(last.folded) then [] else [last]);
    }
  }

  lemma AppendSameSource(front: seq<OccurrenceRange>, rest: seq<OccurrenceRange>, source: OccurrenceRange, bound: nat)
    requires StartsInOrder(front) && OfOneBlock(front, source.block, bound)
    requires bound <= source.start
    requires forall s :: s in rest ==> s == source
    ensures StartsInOrder(front + rest) && OfOneBlock(front + rest, source.block, source.start)
  {
    assert forall i :: 0 <= i < |rest| ==> rest[i] in rest;
  }

  lemma LastInSourceOrder(characters: seq<SourceCharacter>)
    requires InSourceOrder(characters) && characters != []
    ensures var n := |characters| - 1;
            InSourceOrder(characters[..n]) && (n > 0 ==> characters[n - 1].start <= characters[n].start)
  {
  }

  lemma NoCharacterSources(f: Folding, id: string)
    ensures SourcesOf(Visible(f, CharacterItems(f, id, []))) == []
  {
    assert Visible(f, CharacterItems(f, id, [])) == [];
  }

  lemma CharacterItemsSnoc(f: Folding, id: string, characters: seq<SourceCharacter>)
    requires characters != []
    ensures var n := |characters| - 1;
            var source := OccurrenceRange(id, characters[n].start, characters[n].end);
            CharacterItems(f, id, characters) ==
              CharacterItems(f, id, characters[..n]) + ItemsOf(f.expand(characters[n].text), source)
  {
  }

  ghost function LastStart(characters: seq<SourceCharacter>): nat {
    if characters == [] then 0 else characters[|characters| - 1].start
  }

  lemma {:induction false} CharacterSourcesInOrder(f: Folding, id: string, characters: seq<SourceCharacter>)
    requires InSourceOrder(characters)
    ensures var sources := SourcesOf(Visible(f, CharacterItems(f, id, characters)));
            StartsInOrder(sources) && OfOneBlock(sources, id, LastStart(characters))
  {
    if characters != [] {
      hide Visible, SourcesOf, ItemsOf, StartsInOrder, OfOneBlock, InSourceOrder, CharacterItems;
      var n := |characters| - 1;
      var last := characters[n];
      var source := OccurrenceRange(id, last.start, last.end);
      LastInSourceOrder(characters);
      CharacterSourcesInOrder(f, id, characters[..n]);
      CharacterItemsSnoc(f, id, characters);
      var before, items := CharacterItems(f, id, characters[..n]), ItemsOf(f.expand(last.text), source);
      VisibleConcat(f, before, items);
      SourcesOfConcat(Visible(f, before), Visible(f, items));
      ItemsOfSources(f, f.expand(last.text), source);
      AppendSameSource(SourcesOf(Visible(f, before)), SourcesOf(Visible(f, items)), source, LastStart(characters[..n]));
    } else {
      NoCharacterSources(f, id);
    }
  }

  lemma AppendOtherBlock(front: seq<OccurrenceRange>, rest: seq<OccurrenceRange>, id: string)
    requires StartsInOrder(front) && StartsInOrder(rest)
    requires forall i :: 0 <= i < |front| ==> front[i].block != id
    requires forall i :: 0 <= i < |rest| ==> rest[i].block == id
    ensures StartsInOrder(front + rest)
  {
  }

  lemma AllItemsSnoc(f: Folding, selected: seq<Block>)
    requires Sound(f) && selected != [] && forall i :: 0 <= i < |selected| ==> selected[i].TextBlock?
    ensures var last := selected[|selected| - 1];
            SourcesOf(Visible(f, AllItems(f, selected))) ==
            SourcesOf(Visible(f, AllItems(f, selected[..|selected| - 1]))) +
            SourcesOf(Visible(f, CharacterItems(f, last.id, last.characters)))
  {
    hide Visible, SourcesOf, CharacterItems;
    var last := selected[|selected| - 1];
    var before, within := AllItems(f, selected[..|selected| - 1]), CharacterItems(f, last.id, last.characters);
    VisibleConcat(f, before + within, [Item('\n', None)]);
    VisibleConcat(f, before, within);
    SeparatorIsInvisible(f);
    SourcesOfConcat(Visible(f, before), Visible(f, within));
    assert Visible(f, before + within) + [] == Visible(f, before + within);
  }

  ghost predicate IsOneOf(selected: seq<Block>, id: string) {
    exists b :: 0 <= b < |selected| && selected[b].TextBlock? && selected[b].id == id
  }

  ghost predicate OfBlocks(sources: seq<OccurrenceRange>, selected: seq<Block>) {
    forall i :: 0 <= i < |sources| ==> IsOneOf(selected, sources[i].block)
  }

  lemma LastWellMapped(selected: seq<Block>)
    requires WellMapped(selected) && selected != [] && forall i :: 0 <= i < |selected| ==> selected[i].TextBlock?
    ensures var n := |selected| - 1;
            && WellMapped(selected[..n]) && InSourceOrder(selected[n].characters)
            && !IsOneOf(selected[..n], selected[n].id)
  {
  }

  /** The sources of one block more follow those of the blocks before it. */
  lemma AppendBlock(front: seq<Block>, last: Block, before: seq<OccurrenceRange>, within: seq<OccurrenceRange>,
                    bound: nat)
    requires last.TextBlock? && !IsOneOf(front, last.id)
    requires StartsInOrder(before) && OfBlocks(before, front)
    requires StartsInOrder(within) && OfOneBlock(within, last.id, bound)
    ensures StartsInOrder(before + within) && OfBlocks(before + within, front + [last])
  {
    hide StartsInOrder, IsOneOf;
    AppendOtherBlock(before, within, last.id);
    forall id
      ensures IsOneOf(front + [last], id) <==> IsOneOf(front, id) || id == last.id
    {
      OneOfMore(front, last, id);
    }
  }

  lemma OneOfMore(front: seq<Block>, last: Block, id: string)
    requires last.TextBlock?
    ensures IsOneOf(front + [last], id) <==> IsOneOf(front, id) || id == last.id
  {
    var selected := front + [last];
    assert selected[|front|] == last;
    if IsOneOf(front, id) {
      var b :| 0 <= b < |front| && front[b].TextBlock? && front[b].id == id;
      assert selected[b] == front[b];
    }
  }

  lemma NoSources(f: Folding)
    ensures SourcesOf(Visible(f, AllItems(f, []))) == []
  {
    assert Visible(f, AllItems(f, [])) == [];
  }

  lemma {:induction false} AllSourcesInOrder(f: Folding, selected: seq<Block>)
    requires Sound(f) && WellMapped(selected) && forall i :: 0 <= i < |selected| ==> selected[i].TextBlock?
    ensures var sources := SourcesOf(Visible(f, AllItems(f, selected)));
            StartsInOrder(sources) && OfBlocks(sources, selected)
  {
    if selected == [] {
      NoSources(f);
    } else {
      hide Visible, SourcesOf, CharacterItems, AllItems, StartsInOrder, OfBlocks, OfOneBlock, WellMapped, IsOneOf;
      var n := |selected| - 1;
      var front, last := selected[..n], selected[n];
      LastWellMapped(selected);
      AllSourcesInOrder(f, front);
      CharacterSourcesInOrder(f, last.id, last.characters);
      AllItemsSnoc(f, selected);
      AppendBlock(front, last, SourcesOf(Visible(f, AllItems(f, front))),
                  SourcesOf(Visible(f, CharacterItems(f, last.id, last.characters))), LastStart(last.characters));
      assert selected == front + [last];
    }
  }

  lemma SeparatorIsInvisible(f: Folding)
    requires Sound(f)
    ensures Visible(f, [Item('\n', None)]) == []
  {
  }

  /** The raw ranges of every match start in source order, so coalescing them is exact. */
  lemma RawRangesInOrder(f: Folding, selected: seq<Block>, references: seq<Option<OccurrenceRange>>, at: nat,
                         length: nat)
    requires Sound(f) && WellMapped(selected) && forall i :: 0 <= i < |selected| ==> selected[i].TextBlock?
    requires References(f, selected, references) && at + length <= |references|
    ensures StartsInOrder(Present(references[at..at + length]))
  {
    hide AllItems, Visible, Present, SourcesOf, MatchNormalize, JoinedText;
    AllSourcesInOrder(f, selected);
    PresentIsVisible(f, MatchNormalize(f, JoinedText(selected)), references);
    var a, b, c := references[..at], references[at..at + length], references[at + length..];
    assert a + b + c == references;
    PresentConcat(a + b, c);
    PresentConcat(a, b);
    var all, front, middle := Present(references), Present(a), Present(b);
    assert forall i :: 0 <= i < |middle| ==> middle[i] == all[|front| + i];
  }

  /** Main result: a chunk that covers an occurrence holds, for every matched
      character that is not a space, that character's whole source range in one span. */
  lemma CoveringChunkHoldsEveryCharacter(f: Folding, selected: seq<Block>, references: seq<Option<OccurrenceRange>>,
                                         at: nat, length: nat, spans: seq<SourceSpan>)
    requires Sound(f) && WellMapped(selected) && forall i :: 0 <= i < |selected| ==> selected[i].TextBlock?
    requires References(f, selected, references) && at + length <= |references|
    requires ChunkCoversOccurrence(spans, OccurrenceAt(references, at, length))
    ensures forall k :: at <= k < at + length && references[k].Some? ==>
              exists span :: span in spans && span.Contains(references[k].value)
  {
    hide References, Present, Coalesced;
    var raw := Present(references[at..at + length]);
    RawRangesInOrder(f, selected, references, at, length);
    forall k | at <= k < at + length && references[k].Some?
      ensures exists span :: span in spans && span.Contains(references[k].value)
    {
      PresentHasEach(references[at..at + length], k - at);
      CoalescedContainsEach(raw, references[k].value);
      var required :| required in Coalesced(raw) && required.Contains(references[k].value);
      var span :| span in spans && span.Contains(required);
      assert span.Contains(references[k].value);
    }
  }
}
