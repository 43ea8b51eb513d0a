/** Match normalisation (`_match_normalize_with_positions`, app/evals/chunk_metrics.py):
    every character is folded on its own, white space is collapsed to single
    spaces and trimmed at both ends. */
module MatchText {
  import opened Strings

  /** Unicode tables enter as parameters: what NFKC and case folding make of one
      character, and which characters `str.isspace` accepts. */
  datatype Folding = Folding(expand: char -> string, isSpace: char -> bool)

  /** The only facts about the tables that the results below need. */
  ghost predicate Sound(f: Folding) {
    f.isSpace(' ') && f.isSpace('\n') && f.expand('\n') == "\n"
  }

  function Expanded(f: Folding, value: string): string {
    if value == "" then "" else Expanded(f, value[..|value| - 1]) + f.expand(value[|value| - 1])
  }

  /** The words of `items.split()`, built up from the left. */
  ghost function Words(f: Folding, items: string): (words: seq<string>)
    ensures forall i :: 0 <= i < |words| ==> words[i] != ""
  {
    if items == "" then []
    else
      var front, last := items[..|items| - 1], items[|items| - 1];
      var words := Words(f, front);
      if f.isSpace(last) then words
      else if front == "" || f.isSpace(front[|front| - 1]) || words == [] then words + [[last]]
      else words[..|words| - 1] + [words[|words| - 1] + [last]]
  }

  ghost function JoinWords(words: seq<string>): string {
    if words == [] then ""
    else if |words| == 1 then words[0]
    else JoinWords(words[..|words| - 1]) + " " + words[|words| - 1]
  }

  /** The reference meaning: fold each character, split at white space, join by one space. */
  ghost function MatchNormalize(f: Folding, value: string): string {
    JoinWords(Words(f, Expanded(f, value)))
  }

  predicate EndsInSpace(text: string) { text != "" && text[|text| - 1] == ' ' }

  /** What the collapsing loop has written after the given folded characters. */
  function Collapsed(f: Folding, items: string): string {
    if items == "" then ""
    else
      var written := Collapsed(f, items[..|items| - 1]);
      var item := items[|items| - 1];
      if f.isSpace(item) then
        if written != "" && !EndsInSpace(written) then written + " " else written
      else
        written + [item]
  }

  function TrimEnd(text: string): string {
    if EndsInSpace(text) then TrimEnd(text[..|text| - 1]) else text
  }

  lemma JoinNothing()
    ensures JoinWords([]) == ""
  {
  }

  lemma JoinNewWord(words: seq<string>, word: string)
    ensures JoinWords(words + [word]) == if words == [] then word else JoinWords(words) + " " + word
  {
  }

  lemma JoinGrownWord(front: seq<string>, word: string, item: char)
    ensures JoinWords(front + [word + [item]]) == JoinWords(front + [word]) + [item]
  {
  }

  /** The loop has written the words so far, and a space if one is due. */
  lemma {:induction false} CollapsedIsWords(f: Folding, items: string)
    requires Sound(f)
    ensures
      var words := Words(f, items);
      var due := words != [] && f.isSpace(items[|items| - 1]);
      && Collapsed(f, items) == JoinWords(words) + (if due then " " else "")
      && (words == [] <==> JoinWords(words) == "")
      && (items != "" && words == [] ==> f.isSpace(items[|items| - 1]))
      && !EndsInSpace(JoinWords(words))
  {
    hide JoinWords;
    JoinNothing();
    if items != "" {
      var front, last := items[..|items| - 1], items[|items| - 1];
      CollapsedIsWords(f, front);
      var before := Words(f, front);
      if !f.isSpace(last) {
        if before == [] || f.isSpace(front[|front| - 1]) {
          JoinNewWord(before, [last]);
        } else {
          var n := |before| - 1;
          JoinGrownWord(before[..n], before[n], last);
          assert before[..n] + [before[n]] == before;
        }
      }
    }
  }

  /** Trimming what the loop wrote gives the reference normalisation. */
  lemma CollapsedMeetsReference(f: Folding, items: string)
    requires Sound(f)
    ensures TrimEnd(Collapsed(f, items)) == JoinWords(Words(f, items))
  {
    CollapsedIsWords(f, items);
    var words := JoinWords(Words(f, items));
    var written := Collapsed(f, items);
    if written != words {
      assert written[..|written| - 1] == words;
    }
  }

  lemma ExpandedSnoc(f: Folding, value: string, c: char)
    ensures Expanded(f, value + [c]) == Expanded(f, value) + f.expand(c)
  {
  }

  lemma {:induction false} ExpandedConcat(f: Folding, a: string, b: string)
    ensures Expanded(f, a + b) == Expanded(f, a) + Expanded(f, b)
  {
    if b == "" {
      assert a + b == a;
    } else {
      var front := b[..|b| - 1];
      ExpandedConcat(f, a, front);
      assert (a + b)[..|a + b| - 1] == a + front && (a + b)[|a + b| - 1] == b[|b| - 1];
      ConcatAssociative(Expanded(f, a), Expanded(f, front), f.expand(b[|b| - 1]));
    }
  }

  lemma CollapsedSnoc(f: Folding, items: string, item: char)
    ensures var written := Collapsed(f, items);
            Collapsed(f, items + [item]) ==
              if !f.isSpace(item) then written + [item]
              else if written != "" && !EndsInSpace(written) then written + " "
              else written
  {
  }

  /** Each written character comes from the character its position names. */
  ghost predicate Traced(f: Folding, value: string, output: string, positions: seq<int>) {
    && |positions| == |output|
    && (forall k :: 0 <= k < |output| ==> 0 <= positions[k] < |value|)
    && (forall k :: 0 <= k < |output| && output[k] != ' ' ==> output[k] in f.expand(value[positions[k]]))
    && (forall k :: 0 <= k < |output| && output[k] == ' ' ==>
        exists c :: c in f.expand(value[positions[k]]) && f.isSpace(c))
    && (forall j, k :: 0 <= j < k < |output| ==> positions[j] <= positions[k])
  }

  lemma TracedAppend(f: Folding, value: string, output: string, positions: seq<int>, written: char, index: nat)
    requires Traced(f, value, output, positions)
    requires index < |value| && (forall k :: 0 <= k < |positions| ==> positions[k] <= index)
    requires if written == ' ' then exists c :: c in f.expand(value[index]) && f.isSpace(c)
             else written in f.expand(value[index])
    ensures Traced(f, value, output + [written], positions + [index])
  {
  }

  lemma ExpandedPrefix(f: Folding, value: string, index: nat)
    requires index < |value|
    ensures Expanded(f, value[..index + 1]) ==
            Expanded(f, value[..index]) + f.expand(value[index])[..|f.expand(value[index])|]
  {
    assert value[..index + 1][..index] == value[..index];
  }

  lemma PrefixSnoc(before: string, expanded: string, i: nat)
    requires i < |expanded|
    ensures expanded[i] in expanded
    ensures before + expanded[..i + 1] == before + expanded[..i] + [expanded[i]]
  {
  }

  lemma Empty(f: Folding, value: string)
    ensures Expanded(f, value[..0]) == "" && Collapsed(f, "") == "" && Traced(f, value, "", [])
  {
  }

  lemma TrimStep(f: Folding, value: string, output: string, positions: seq<int>)
    requires EndsInSpace(output) && Traced(f, value, output, positions)
    ensures TrimEnd(output) == TrimEnd(output[..|output| - 1])
    ensures Traced(f, value, output[..|output| - 1], positions[..|positions| - 1])
  {
  }

  lemma Trimmed(f: Folding, items: string, value: string, output: string)
    requires items == Expanded(f, value[..|value|]) && !EndsInSpace(output)
    requires TrimEnd(output) == JoinWords(Words(f, items))
    ensures output == MatchNormalize(f, value)
  {
    assert value[..|value|] == value;
  }

  /** `_match_normalize_with_positions`. */
  method MatchNormalizeWithPositions(f: Folding, value: string) returns (output: string, positions: seq<int>)
    requires Sound(f)
    ensures output == MatchNormalize(f, value)
    ensures |positions| == |output| && Traced(f, value, output, positions)
  {
    hide Traced, Collapsed, Expanded, TrimEnd, Words, JoinWords, MatchNormalize;
    Empty(f, value);
    output, positions := "", [];
    ghost var items := "";
    for index := 0 to |value|
      invariant items == Expanded(f, value[..index])
      invariant output == Collapsed(f, items)
      invariant |positions| == |output| && Traced(f, value, output, positions)
      invariant forall k :: 0 <= k < |positions| ==> positions[k] < index
    {
      var expanded := f.expand(value[index]);
      ghost var before := items;
      for i := 0 to |expanded|
        invariant items == before + expanded[..i]
        invariant output == Collapsed(f, items)
        invariant |positions| == |output| && Traced(f, value, output, positions)
        invariant forall k :: 0 <= k < |positions| ==> positions[k] <= index
      {
        var item := expanded[i];
        CollapsedSnoc(f, items, item);
        PrefixSnoc(before, expanded, i);
        items := items + [item];
        if f.isSpace(item) {
          if output != "" && output[|output| - 1] != ' ' {
            TracedAppend(f, value, output, positions, ' ', index);
            output := output + " ";
            positions := positions + [index];
          }
        } else {
          TracedAppend(f, value, output, positions, item, index);
          output := output + [item];
          positions := positions + [index];
        }
      }
      ExpandedPrefix(f, value, index);
    }
    CollapsedMeetsReference(f, items);
    while output != "" && output[|output| - 1] == ' '
      invariant |positions| == |output| && Traced(f, value, output, positions)
      invariant TrimEnd(output) == JoinWords(Words(f, items))
      decreases |output|
    {
      TrimStep(f, value, output, positions);
      output := output[..|output| - 1];
      positions := positions[..|positions| - 1];
    }
    Trimmed(f, items, value, output);
  }

  // ----- What a text weighs

  /** What the characters weigh that are not white space. */
  function Mass(f: Folding, weight: char -> nat, items: string): nat {
    if items == "" then 0
    else
      var last := items[|items| - 1];
      Mass(f, weight, items[..|items| - 1]) + (if f.isSpace(last) then 0 else weight(last))
  }

  lemma MassSnoc(f: Folding, weight: char -> nat, items: string, c: char)
    ensures Mass(f, weight, items + [c]) == Mass(f, weight, items) + (if f.isSpace(c) then 0 else weight(c))
  {
  }

  lemma {:induction false} MassConcat(f: Folding, weight: char -> nat, a: string, b: string)
    ensures Mass(f, weight, a + b) == Mass(f, weight, a) + Mass(f, weight, b)
  {
    if b == "" {
      assert a + b == a;
    } else {
      var n := |b| - 1;
      MassConcat(f, weight, a, b[..n]);
      assert a + b == a + b[..n] + [b[n]];
      MassSnoc(f, weight, a + b[..n], b[n]);
    }
  }

  /** Splitting and joining keeps everything that is not white space. */
  lemma {:induction false} MassOfWords(f: Folding, weight: char -> nat, items: string)
    requires f.isSpace(' ')
    ensures Mass(f, weight, JoinWords(Words(f, items))) == Mass(f, weight, items)
  {
    hide JoinWords, Mass;
    if items == "" {
      JoinNothing();
    } else {
      var front, last := items[..|items| - 1], items[|items| - 1];
      var words := Words(f, front);
      MassOfWords(f, weight, front);
      assert items == front + [last];
      MassSnoc(f, weight, front, last);
      if !f.isSpace(last) {
        if front == "" || f.isSpace(front[|front| - 1]) || words == [] {
          MassOfNewWord(f, weight, words, last);
        } else {
          var n := |words| - 1;
          assert words == words[..n] + [words[n]];
          JoinGrownWord(words[..n], words[n], last);
          MassSnoc(f, weight, JoinWords(words), last);
        }
      }
    }
  }

  lemma MassOfNewWord(f: Folding, weight: char -> nat, words: seq<string>, c: char)
    requires f.isSpace(' ')
    ensures Mass(f, weight, JoinWords(words + [[c]])) ==
              Mass(f, weight, JoinWords(words)) + (if f.isSpace(c) then 0 else weight(c))
  {
    hide JoinWords;
    JoinNewWord(words, [c]);
    if words == [] {
      JoinNothing();
      MassSnoc(f, weight, "", c);
    } else {
      var joined := JoinWords(words);
      assert joined + " " + [c] == joined + [' '] + [c];
      MassSnoc(f, weight, joined, ' ');
      MassSnoc(f, weight, joined + [' '], c);
    }
  }

  // ----- Texts with white space between them

  lemma WordsOfSnoc(f: Folding, items: string, c: char)
    ensures var words := Words(f, items);
            Words(f, items + [c]) ==
              if f.isSpace(c) then words
              else if items == "" || f.isSpace(items[|items| - 1]) || words == [] then words + [[c]]
              else words[..|words| - 1] + [words[|words| - 1] + [c]]
  {
    assert (items + [c])[..|items + [c]| - 1] == items;
  }

  lemma VisibleEndHasWord(f: Folding, items: string)
    requires items != "" && !f.isSpace(items[|items| - 1])
    ensures Words(f, items) != []
  {
  }

  /** Words do not reach across white space. */
  lemma {:induction false} WordsAcross(f: Folding, a: string, space: char, b: string)
    requires f.isSpace(space)
    ensures Words(f, a + [space] + b) == Words(f, a) + Words(f, b)
  {
    hide Words;
    WordsOfSnoc(f, a, space);
    if b == "" {
      NoWords(f);
      assert a + [space] + b == a + [space];
    } else {
      var n := |b| - 1;
      var front, before := b[..n], a + [space] + b[..n];
      WordsAcross(f, a, space, front);
      assert b == front + [b[n]] && a + [space] + b == before + [b[n]];
      WordsOfSnoc(f, before, b[n]);
      WordsOfSnoc(f, front, b[n]);
      if front != "" {
        assert before[|before| - 1] == front[|front| - 1];
        if !f.isSpace(front[|front| - 1]) {
          VisibleEndHasWord(f, front);
        }
      }
      LastGrows(Words(f, a), Words(f, front), b[n]);
    }
  }

  lemma NoWords(f: Folding)
    ensures Words(f, "") == []
  {
  }

  lemma LastGrows(a: seq<string>, b: seq<string>, c: char)
    ensures a + b + [[c]] == a + (b + [[c]])
    ensures b != [] ==>
              (a + b)[..|a + b| - 1] + [(a + b)[|a + b| - 1] + [c]] == a + (b[..|b| - 1] + [b[|b| - 1] + [c]])
  {
  }

  lemma {:induction false} JoinConcat(a: seq<string>, b: seq<string>)
    ensures JoinWords(a + b) ==
              if a == [] then JoinWords(b) else if b == [] then JoinWords(a) else JoinWords(a) + " " + JoinWords(b)
  {
    hide JoinWords;
    if a == [] {
      assert a + b == b;
    } else if b == [] {
      assert a + b == a;
    } else {
      var n := |b| - 1;
      JoinConcat(a, b[..n]);
      assert b == b[..n] + [b[n]] && a + b == a + b[..n] + [b[n]];
      JoinNewWord(a + b[..n], b[n]);
      JoinNewWord(b[..n], b[n]);
      SpacedAssociative(JoinWords(a), JoinWords(b[..n]), b[n]);
    }
  }

  lemma SpacedAssociative(a: string, b: string, c: string)
    ensures a + " " + (b + " " + c) == a + " " + b + " " + c
  {
  }

  /** Words hold no white space. */
  lemma {:induction false} WordsAreVisible(f: Folding, items: string)
    ensures forall w, k :: 0 <= w < |Words(f, items)| && 0 <= k < |Words(f, items)[w]| ==>
              !f.isSpace(Words(f, items)[w][k])
  {
    if items != "" {
      WordsAreVisible(f, items[..|items| - 1]);
    }
  }

  lemma {:induction false} JoinBegins(words: seq<string>)
    requires words != [] && words[0] != ""
    ensures JoinWords(words) != "" && JoinWords(words)[0] == words[0][0]
  {
    if |words| > 1 {
      JoinBegins(words[..|words| - 1]);
    }
  }

  /** A normalised text begins with something visible. */
  lemma NormalizedBegins(f: Folding, value: string)
    requires f.isSpace(' ') && MatchNormalize(f, value) != ""
    ensures !f.isSpace(MatchNormalize(f, value)[0])
  {
    var words := Words(f, Expanded(f, value));
    WordsAreVisible(f, Expanded(f, value));
    if words != [] {
      JoinBegins(words);
    }
  }
}
