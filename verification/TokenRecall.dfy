/** Text and token recall of a parsed artifact (`_artifact_text`, `_token_recall` and
    `_artifact_signal`, app/evals/parser_diagnostics.py). */
module TokenRecall {
  import opened MatchText
  import opened Options
  import opened Rates
  import opened Strings

  datatype TableCell = TableCell(displayText: string, formula: Option<string>)

  /** The blocks of an artifact, each with its page, if it has one. */
  datatype Block =
    | TextBlock(page: Option<nat>, text: string)
    | TableBlock(page: Option<nat>, rows: seq<seq<TableCell>>)
    | OtherBlock(page: Option<nat>)

  /** Folding, and the word characters of `\w`. */
  datatype Lexer = Lexer(folding: Folding, isWord: char -> bool)

  /** A line break stays itself when folded and is not part of a word. */
  ghost predicate SoundLexer(l: Lexer) {
    l.folding.expand('\n') == "\n" && !l.isWord('\n')
  }

  // ----- The text of an artifact

  function CellParts(cells: seq<TableCell>): seq<string> {
    if cells == [] then []
    else
      var cell := cells[|cells| - 1];
      CellParts(cells[..|cells| - 1]) + [cell.displayText] + (if cell.formula.Some? then [cell.formula.value] else [])
  }

  function RowParts(rows: seq<seq<TableCell>>): seq<string> {
    if rows == [] then [] else RowParts(rows[..|rows| - 1]) + CellParts(rows[|rows| - 1])
  }

  function BlockParts(block: Block): seq<string> {
    match block
    case TextBlock(_, text) => [text]
    case TableBlock(_, rows) => RowParts(rows)
    case OtherBlock(_) => []
  }

  /** A page range; without a start every block is selected, and the end defaults to the start. */
  datatype Pages = Pages(start: Option<nat>, end: Option<nat>)

  const WHOLE := Pages(None, None)

  predicate Selected(pages: Pages, page: Option<nat>) {
    pages.start.Some? ==>
      page.Some? && pages.start.value <= page.value <= if pages.end.Some? then pages.end.value else pages.start.value
  }

  function Parts(blocks: seq<Block>, pages: Pages): seq<string> {
    if blocks == [] then []
    else
      var block := blocks[|blocks| - 1];
      Parts(blocks[..|blocks| - 1], pages) + (if Selected(pages, block.page) then BlockParts(block) else [])
  }

  /** `_artifact_text`. */
  method ArtifactText(blocks: seq<Block>, pages: Pages) returns (text: string)
    ensures text == JoinWith("\n", Parts(blocks, pages))
  {
    hide JoinWith;
    var parts: seq<string> := [];
    for i := 0 to |blocks|
      invariant parts == Parts(blocks[..i], pages)
    {
      var block := blocks[i];
      assert blocks[..i + 1][..i] == blocks[..i];
      if pages.start.Some? {
        var start := pages.start.value;
        var effectiveEnd := if pages.end.Some? then pages.end.value else start;
        if block.page.None? || !(start <= block.page.value <= effectiveEnd) {
          assert parts + [] == parts;
          continue;
        }
      }
      match block {
        case TextBlock(_, blockText) => parts := parts + [blockText];
        case TableBlock(_, rows) =>
          var tableParts := TableParts(rows);
          parts := parts + tableParts;
        case OtherBlock(_) =>
          assert parts + [] == parts;
      }
    }
    assert blocks[..|blocks|] == blocks;
    text := JoinWith("\n", parts);
  }

  /** The loops over the rows and cells of a table. */
  method TableParts(rows: seq<seq<TableCell>>) returns (parts: seq<string>)
    ensures parts == RowParts(rows)
  {
    parts := [];
    for r := 0 to |rows|
      invariant parts == RowParts(rows[..r])
    {
      assert rows[..r + 1][..r] == rows[..r];
      ghost var before := parts;
      var cells := rows[r];
      assert before + CellParts(cells[..0]) == before;
      for c := 0 to |cells|
        invariant parts == before + CellParts(cells[..c])
      {
        assert cells[..c + 1][..c] == cells[..c];
        ghost var front := CellParts(cells[..c]);
        ConcatAssociative(before, front, [cells[c].displayText]);
        parts := parts + [cells[c].displayText];
        if cells[c].formula.Some? {
          ConcatAssociative(before, front + [cells[c].displayText], [cells[c].formula.value]);
          parts := parts + [cells[c].formula.value];
        } else {
          assert front + [cells[c].displayText] + [] == front + [cells[c].displayText];
        }
      }
      assert cells[..|cells|] == cells;
    }
    assert rows[..|rows|] == rows;
  }

  // ----- Tokens

  function WordEnd(isWord: char -> bool, text: string): (n: nat)
    ensures n <= |text| && (text != "" && isWord(text[0]) ==> n > 0)
  {
    if text == "" || !isWord(text[0]) then 0 else 1 + WordEnd(isWord, text[1..])
  }

  /** `re.findall(r"\w+", text)`. */
  function Words(isWord: char -> bool, text: string): seq<string>
    decreases |text|
  {
    if text == "" then []
    else if !isWord(text[0]) then Words(isWord, text[1..])
    else [text[..WordEnd(isWord, text)]] + Words(isWord, text[WordEnd(isWord, text)..])
  }

  ghost predicate WordsOnly(isWord: char -> bool, text: string) {
    forall i :: 0 <= i < |text| ==> isWord(text[i])
  }

  ghost predicate Wordless(isWord: char -> bool, text: string) {
    forall i :: 0 <= i < |text| ==> !isWord(text[i])
  }

  /** A gap, then each word and the gap after it. */
  ghost function Interleaved(gaps: seq<string>, words: seq<string>): string
    requires |gaps| == |words| + 1
  {
    if words == [] then gaps[0] else gaps[0] + words[0] + Interleaved(gaps[1..], words[1..])
  }

  /** The words are non-empty runs of word characters, and something else is between each two of them. */
  ghost predicate AreRuns(isWord: char -> bool, text: string, gaps: seq<string>, words: seq<string>) {
    && |gaps| == |words| + 1 && text == Interleaved(gaps, words)
    && (forall i :: 0 <= i < |words| ==> words[i] != "" && WordsOnly(isWord, words[i]))
    && (forall i :: 0 <= i < |gaps| ==> Wordless(isWord, gaps[i]))
    && (forall i :: 0 < i < |words| ==> gaps[i] != "")
  }

  lemma {:induction false} WordEndExactly(isWord: char -> bool, text: string)
    ensures var n := WordEnd(isWord, text);
            WordsOnly(isWord, text[..n]) && (n < |text| ==> !isWord(text[n]))
  {
    if text != "" && isWord(text[0]) {
      WordEndExactly(isWord, text[1..]);
      var n := WordEnd(isWord, text);
      assert text[..n] == [text[0]] + text[1..][..n - 1];
    }
  }

  /** Main result: the tokens of a text are its maximal runs of word characters, in order. */
  lemma {:induction false} WordsAreRuns(isWord: char -> bool, text: string) returns (gaps: seq<string>)
    ensures AreRuns(isWord, text, gaps, Words(isWord, text))
    decreases |text|
  {
    hide AreRuns, WordEnd;
    if text == "" {
      gaps := [""];
      NoRuns(isWord);
    } else if !isWord(text[0]) {
      var rest := WordsAreRuns(isWord, text[1..]);
      gaps := RunsAfterOther(isWord, text, rest, Words(isWord, text[1..]));
    } else {
      var n := WordEnd(isWord, text);
      var rest := WordsAreRuns(isWord, text[n..]);
      WordEndExactly(isWord, text);
      gaps := RunsAfterWord(isWord, text, n, rest, Words(isWord, text[n..]));
    }
  }

  lemma NoRuns(isWord: char -> bool)
    ensures AreRuns(isWord, "", [""], [])
  {
  }

  lemma RunsAfterOther(isWord: char -> bool, text: string, rest: seq<string>, words: seq<string>)
    returns (gaps: seq<string>)
    requires text != "" && !isWord(text[0]) && AreRuns(isWord, text[1..], rest, words)
    ensures AreRuns(isWord, text, gaps, words)
  {
    gaps := [[text[0]] + rest[0]] + rest[1..];
    assert gaps[1..] == rest[1..];
    assert text == [text[0]] + text[1..];
  }

  lemma RunsAfterWord(isWord: char -> bool, text: string, n: nat, rest: seq<string>, words: seq<string>)
    returns (gaps: seq<string>)
    requires 0 < n <= |text| && WordsOnly(isWord, text[..n]) && (n < |text| ==> !isWord(text[n]))
    requires AreRuns(isWord, text[n..], rest, words)
    ensures AreRuns(isWord, text, gaps, [text[..n]] + words)
  {
    FirstGap(isWord, text[n..], rest, words);
    gaps := [""] + rest;
    assert gaps[1..] == rest && ([text[..n]] + words)[1..] == words;
    assert text == text[..n] + text[n..];
  }

  lemma FirstGap(isWord: char -> bool, text: string, gaps: seq<string>, words: seq<string>)
    requires AreRuns(isWord, text, gaps, words) && (text != "" ==> !isWord(text[0]))
    ensures words != [] ==> gaps[0] != ""
  {
    if words != [] {
      var rest := words[0] + Interleaved(gaps[1..], words[1..]);
      assert text == gaps[0] + rest && rest[0] == words[0][0];
      assert gaps[0] == "" ==> text == rest;
    }
  }

  /** The counter of the folded tokens. */
  function Bag(l: Lexer, text: string): multiset<string> { multiset(Words(l.isWord, Expanded(l.folding, text))) }

  lemma {:induction false} WordEndBefore(isWord: char -> bool, a: string, b: string)
    requires b == "" || !isWord(b[0])
    ensures WordEnd(isWord, a + b) == WordEnd(isWord, a)
  {
    if a == "" {
      assert a + b == b;
    } else {
      WordEndBefore(isWord, a[1..], b);
      assert (a + b)[1..] == a[1..] + b;
    }
  }

  /** No word reaches across a character that is not in words. */
  lemma {:induction false} WordsAcross(isWord: char -> bool, a: string, b: string)
    requires b == "" || !isWord(b[0])
    ensures Words(isWord, a + b) == Words(isWord, a) + Words(isWord, b)
    decreases |a|
  {
    hide WordEnd;
    if a == "" {
      assert a + b == b;
    } else if !isWord(a[0]) {
      WordsAcross(isWord, a[1..], b);
      assert (a + b)[1..] == a[1..] + b;
    } else {
      var n := WordEnd(isWord, a);
      WordEndBefore(isWord, a, b);
      WordsAcross(isWord, a[n..], b);
      assert (a + b)[..n] == a[..n] && (a + b)[n..] == a[n..] + b;
      ConcatAssociative([a[..n]], Words(isWord, a[n..]), Words(isWord, b));
    }
  }

  lemma BagOfTwo(l: Lexer, a: string, b: string)
    requires SoundLexer(l)
    ensures Bag(l, a + "\n" + b) == Bag(l, a) + Bag(l, b)
  {
    hide Expanded;
    var x, y := Expanded(l.folding, a), Expanded(l.folding, b);
    ExpandedConcat(l.folding, a + "\n", b);
    ExpandedConcat(l.folding, a, "\n");
    LineBreakIsKept(l);
    ConcatAssociative(x, "\n", y);
    WordsAcross(l.isWord, x, "\n" + y);
    assert ("\n" + y)[1..] == y;
  }

  lemma LineBreakIsKept(l: Lexer)
    requires SoundLexer(l)
    ensures Expanded(l.folding, "\n") == "\n"
  {
  }

  function BagOfParts(l: Lexer, parts: seq<string>): multiset<string> {
    if parts == [] then multiset{} else BagOfParts(l, parts[..|parts| - 1]) + Bag(l, parts[|parts| - 1])
  }

  lemma {:induction false} BagOfPartsConcat(l: Lexer, a: seq<string>, b: seq<string>)
    ensures BagOfParts(l, a + b) == BagOfParts(l, a) + BagOfParts(l, b)
  {
    hide Bag;
    if b == [] {
      assert a + b == a;
    } else {
      BagOfPartsConcat(l, a, b[..|b| - 1]);
      assert (a + b)[..|a + b| - 1] == a + b[..|b| - 1];
    }
  }

  /** The tokens of the joined text are the tokens of its parts. */
  lemma {:induction false} BagOfJoined(l: Lexer, parts: seq<string>)
    requires SoundLexer(l)
    ensures Bag(l, JoinWith("\n", parts)) == BagOfParts(l, parts)
  {
    hide Bag;
    if parts == [] {
      NoTokens(l);
    } else if |parts| == 1 {
      assert parts[..0] == [];
    } else {
      BagOfJoined(l, parts[1..]);
      BagOfTwo(l, parts[0], JoinWith("\n", parts[1..]));
      BagOfPartsConcat(l, [parts[0]], parts[1..]);
      assert [parts[0]] + parts[1..] == parts;
      assert [parts[0]][..0] == [];
    }
  }

  lemma NoTokens(l: Lexer)
    ensures Bag(l, "") == multiset{}
  {
  }

  /** A page range selects some of the parts, so no token more. */
  lemma {:induction false} SelectedTokens(l: Lexer, blocks: seq<Block>, pages: Pages)
    ensures BagOfParts(l, Parts(blocks, pages)) <= BagOfParts(l, Parts(blocks, WHOLE))
  {
    hide Bag, BagOfParts, BlockParts;
    if blocks != [] {
      var front, last := blocks[..|blocks| - 1], blocks[|blocks| - 1];
      SelectedTokens(l, front, pages);
      BagOfPartsConcat(l, Parts(front, WHOLE), BlockParts(last));
      if Selected(pages, last.page) {
        BagOfPartsConcat(l, Parts(front, pages), BlockParts(last));
      } else {
        assert Parts(front, pages) + [] == Parts(front, pages);
      }
    }
  }

  // ----- Recall

  /** The share of the expected tokens, counted with repetition, that the candidate has. */
  function Recall(expected: multiset<string>, candidate: multiset<string>): real {
    if expected == multiset{} then 1.0 else Ratio(|expected * candidate|, |expected|)
  }

  /** `_token_recall`. */
  function TokenRecallOf(l: Lexer, expected: string, candidate: string): real {
    Recall(Bag(l, expected), Bag(l, candidate))
  }

  lemma SmallerBag(a: multiset<string>, b: multiset<string>)
    requires a <= b
    ensures |a| <= |b| && (|a| == |b| <==> a == b)
  {
    assert b == a + (b - a);
    assert |b - a| == 0 ==> b - a == multiset{};
  }

  /** Main result: recall is a share, it is whole exactly when every expected token is there as
      often as expected, and more candidate tokens never lower it. */
  lemma RecallIsShare(expected: multiset<string>, candidate: multiset<string>, more: multiset<string>)
    requires candidate <= more
    ensures 0.0 <= Recall(expected, candidate) <= 1.0
    ensures Recall(expected, candidate) == 1.0 <==> expected <= candidate
    ensures Recall(expected, candidate) <= Recall(expected, more)
  {
    hide Ratio;
    if expected != multiset{} {
      var found, foundMore := expected * candidate, expected * more;
      SmallerBag(found, expected);
      SmallerBag(found, foundMore);
      RatioBounds(|found|, |expected|);
      RatioGrows(|found|, |foundMore|, |expected|);
      assert expected <= candidate <==> found == expected;
    }
  }

  lemma RatioGrows(a: nat, b: nat, whole: nat)
    requires a <= b && whole > 0
    ensures Ratio(a, whole) <= Ratio(b, whole)
  {
  }

  /** Main result: for any blocks, expected text and page range, recall within the pages is at
      most recall within the whole artifact. */
  lemma ScopedRecallIsLess(l: Lexer, expected: string, blocks: seq<Block>, pages: Pages)
    requires SoundLexer(l)
    ensures TokenRecallOf(l, expected, JoinWith("\n", Parts(blocks, pages))) <=
            TokenRecallOf(l, expected, JoinWith("\n", Parts(blocks, WHOLE)))
  {
    hide Bag, Recall, Parts, JoinWith, BagOfParts;
    BagOfJoined(l, Parts(blocks, pages));
    BagOfJoined(l, Parts(blocks, WHOLE));
    SelectedTokens(l, blocks, pages);
    RecallIsShare(Bag(l, expected), BagOfParts(l, Parts(blocks, pages)), BagOfParts(l, Parts(blocks, WHOLE)));
  }

  // ----- The signal

  function Smallest(rates: seq<real>): real
    requires rates != []
  {
    if |rates| == 1 then rates[0] else Min(Smallest(rates[..|rates| - 1]), rates[|rates| - 1])
  }

  function Recalls(l: Lexer, expected: seq<string>, candidates: seq<string>): seq<real>
    requires |candidates| == |expected|
  {
    seq(|expected|, i requires 0 <= i < |expected| => TokenRecallOf(l, expected[i], candidates[i]))
  }

  /** An end of zero counts as none. */
  function Scope(range: Pages): Pages {
    if range.end == Some(0) then Pages(range.start, None) else range
  }

  function ScopedTexts(blocks: seq<Block>, ranges: seq<Pages>): seq<string> {
    seq(|ranges|, i requires 0 <= i < |ranges| => JoinWith("\n", Parts(blocks, Scope(ranges[i]))))
  }

  /** The recall fields of `ArtifactEvidenceSignal`. */
  datatype Signal = Signal(tokenRecall: real, locatedTokenRecall: Option<real>)

  /** The recalls of `_artifact_signal`; None where it raises, on no expected text or, when every
      range has a start, on a different number of ranges. */
  function ArtifactSignal(l: Lexer, blocks: seq<Block>, expected: seq<string>, ranges: seq<Pages>): Option<Signal> {
    var located := forall i :: 0 <= i < |ranges| ==> ranges[i].start.Some?;
    if expected == [] || (located && |ranges| != |expected|) then None
    else
      var whole := JoinWith("\n", Parts(blocks, WHOLE));
      var recall := Smallest(Recalls(l, expected, seq(|expected|, _ => whole)));
      Some(Signal(recall, if located then Some(Smallest(Recalls(l, expected, ScopedTexts(blocks, ranges)))) else None))
  }

  lemma {:induction false} SmallestOfSmaller(a: seq<real>, b: seq<real>)
    requires |a| == |b| && a != [] && forall i :: 0 <= i < |a| ==> a[i] <= b[i]
    ensures Smallest(a) <= Smallest(b)
  {
    if |a| > 1 {
      SmallestOfSmaller(a[..|a| - 1], b[..|b| - 1]);
    }
  }

  lemma {:induction false} SmallestIsShare(rates: seq<real>)
    requires rates != [] && forall i :: 0 <= i < |rates| ==> 0.0 <= rates[i] <= 1.0
    ensures 0.0 <= Smallest(rates) <= 1.0
  {
    if |rates| > 1 {
      SmallestIsShare(rates[..|rates| - 1]);
    }
  }

  /** Main result: the reported located recall never exceeds the reported recall, and both are
      within the bounds of their fields. */
  lemma LocatedRecallIsLess(l: Lexer, blocks: seq<Block>, expected: seq<string>, ranges: seq<Pages>)
    requires SoundLexer(l) && ArtifactSignal(l, blocks, expected, ranges).Some?
    ensures var signal := ArtifactSignal(l, blocks, expected, ranges).value;
            && 0.0 <= signal.tokenRecall <= 1.0
            && (signal.locatedTokenRecall.Some? ==> 0.0 <= signal.locatedTokenRecall.value <= signal.tokenRecall)
  {
    hide Parts, JoinWith, Bag, Recall, Smallest, SoundLexer;
    var whole := JoinWith("\n", Parts(blocks, WHOLE));
    var wholes := seq(|expected|, _ => whole);
    RecallsAreShares(l, expected, wholes);
    SmallestIsShare(Recalls(l, expected, wholes));
    if ArtifactSignal(l, blocks, expected, ranges).value.locatedTokenRecall.Some? {
      var scoped := ScopedTexts(blocks, ranges);
      RecallsAreShares(l, expected, scoped);
      SmallestIsShare(Recalls(l, expected, scoped));
      forall i | 0 <= i < |expected|
        ensures Recalls(l, expected, scoped)[i] <= Recalls(l, expected, wholes)[i]
      {
        ScopedRecallIsLess(l, expected[i], blocks, Scope(ranges[i]));
      }
      SmallestOfSmaller(Recalls(l, expected, scoped), Recalls(l, expected, wholes));
    }
  }

  ghost predicate IsLeast(least: real, rates: seq<real>) {
    least in rates && forall i :: 0 <= i < |rates| ==> least <= rates[i]
  }

  lemma {:induction false} SmallestIsLeast(rates: seq<real>)
    requires rates != []
    ensures IsLeast(Smallest(rates), rates)
  {
    hide Smallest, IsLeast;
    var n := |rates| - 1;
    if n == 0 {
      OnlyRate(rates);
    } else {
      SmallestIsLeast(rates[..n]);
      SmallestStep(rates);
      LeastOfOneMore(rates[..n], rates[n], Smallest(rates[..n]));
      assert rates == rates[..n] + [rates[n]];
    }
  }

  lemma OnlyRate(rates: seq<real>)
    requires |rates| == 1
    ensures IsLeast(Smallest(rates), rates)
  {
  }

  lemma SmallestStep(rates: seq<real>)
    requires |rates| > 1
    ensures Smallest(rates) == Min(Smallest(rates[..|rates| - 1]), rates[|rates| - 1])
  {
  }

  lemma LeastOfOneMore(front: seq<real>, last: real, least: real)
    requires IsLeast(least, front)
    ensures IsLeast(Min(least, last), front + [last])
  {
    var rates := front + [last];
    assert last == rates[|front|] && forall i :: 0 <= i < |front| ==> front[i] == rates[i];
  }

  /** Blocks without a page are left out of every range that has a start. */
  ghost predicate Within(block: Block, range: Pages) {
    match (range.start, range.end)
    case (None, _) => true
    case (Some(start), None) => block.page == Some(start)
    case (Some(start), Some(end)) =>
      if end == 0 then block.page == Some(start) else block.page.Some? && start <= block.page.value <= end
  }

  ghost function BlocksWithin(blocks: seq<Block>, range: Pages): seq<Block> {
    if blocks == [] then []
    else
      var n := |blocks| - 1;
      BlocksWithin(blocks[..n], range) + (if Within(blocks[n], range) then [blocks[n]] else [])
  }

  lemma PartsSnoc(blocks: seq<Block>, last: Block, pages: Pages)
    ensures Parts(blocks + [last], pages) ==
              if Selected(pages, last.page) then Parts(blocks, pages) + BlockParts(last) else Parts(blocks, pages)
  {
    assert (blocks + [last])[..|blocks + [last]| - 1] == blocks;
  }

  lemma WithinExactly(block: Block, range: Pages)
    ensures Within(block, range) <==> Selected(Scope(range), block.page)
  {
  }

  lemma {:induction false} PartsWithin(blocks: seq<Block>, range: Pages)
    ensures Parts(blocks, Scope(range)) == Parts(BlocksWithin(blocks, range), WHOLE)
  {
    hide BlockParts, Parts, Within, Scope;
    if blocks == [] {
      NoParts(Scope(range));
      NoParts(WHOLE);
    } else {
      var n := |blocks| - 1;
      PartsWithin(blocks[..n], range);
      assert blocks == blocks[..n] + [blocks[n]];
      PartsSnoc(blocks[..n], blocks[n], Scope(range));
      var front := BlocksWithin(blocks[..n], range);
      PartsSnoc(front, blocks[n], WHOLE);
      assert front + [] == front;
      WithinExactly(blocks[n], range);
    }
  }

  lemma NoParts(pages: Pages)
    ensures Parts([], pages) == []
  {
  }

  /** The recall of each text in the whole artifact. */
  ghost function RecallsInWhole(l: Lexer, blocks: seq<Block>, expected: seq<string>): seq<real> {
    seq(|expected|, i requires 0 <= i < |expected| =>
        Recall(Bag(l, expected[i]), BagOfParts(l, Parts(blocks, WHOLE))))
  }

  /** The recall of each text in the blocks of its own pages. */
  ghost function RecallsInPages(l: Lexer, blocks: seq<Block>, expected: seq<string>, ranges: seq<Pages>): seq<real>
    requires |ranges| == |expected|
  {
    seq(|expected|, i requires 0 <= i < |expected| =>
        Recall(Bag(l, expected[i]), BagOfParts(l, Parts(BlocksWithin(blocks, ranges[i]), WHOLE))))
  }

  /** Main result: the signal is the least recall of the expected texts among the artifact's tokens and,
      when all ranges have a start, the least among those of each text's own pages; it raises exactly
      without expected texts, or when there are then more or fewer ranges than texts. */
  lemma SignalIsLeast(l: Lexer, blocks: seq<Block>, expected: seq<string>, ranges: seq<Pages>)
    requires SoundLexer(l)
    ensures var located := forall range :: range in ranges ==> range.start.Some?;
            match ArtifactSignal(l, blocks, expected, ranges)
            case None => expected == [] || (located && |ranges| != |expected|)
            case Some(signal) =>
              && IsLeast(signal.tokenRecall, RecallsInWhole(l, blocks, expected))
              && (signal.locatedTokenRecall.Some? <==> located)
              && (located ==> |ranges| == |expected|
                              && IsLeast(signal.locatedTokenRecall.value, RecallsInPages(l, blocks, expected, ranges)))
  {
    hide Parts, JoinWith, Bag, BagOfParts, Recall, Smallest, SoundLexer, Scope, BlocksWithin, IsLeast;
    if ArtifactSignal(l, blocks, expected, ranges).Some? {
      var whole := JoinWith("\n", Parts(blocks, WHOLE));
      BagOfJoined(l, Parts(blocks, WHOLE));
      var rates := Recalls(l, expected, seq(|expected|, _ => whole));
      SmallestIsLeast(rates);
      assert rates == RecallsInWhole(l, blocks, expected);
      if forall i :: 0 <= i < |ranges| ==> ranges[i].start.Some? {
        var scoped := Recalls(l, expected, ScopedTexts(blocks, ranges));
        SmallestIsLeast(scoped);
        forall i | 0 <= i < |expected|
          ensures scoped[i] == RecallsInPages(l, blocks, expected, ranges)[i]
        {
          BagOfJoined(l, Parts(blocks, Scope(ranges[i])));
          PartsWithin(blocks, ranges[i]);
        }
        assert scoped == RecallsInPages(l, blocks, expected, ranges);
      }
    }
  }

  lemma RecallsAreShares(l: Lexer, expected: seq<string>, candidates: seq<string>)
    requires |candidates| == |expected|
    ensures forall i :: 0 <= i < |expected| ==> 0.0 <= Recalls(l, expected, candidates)[i] <= 1.0
  {
    hide Bag, Recall;
    forall i | 0 <= i < |expected|
      ensures 0.0 <= Recalls(l, expected, candidates)[i] <= 1.0
    {
      RecallIsShare(Bag(l, expected[i]), Bag(l, candidates[i]), Bag(l, candidates[i]));
    }
  }
}
