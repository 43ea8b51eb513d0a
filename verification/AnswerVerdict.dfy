/** What a measured answer is judged by, in terms of its text (app/evals/answer_citation_metrics.py):
    the phrases that occur in it, the citations it makes, and the evidence they name. */
module AnswerVerdict {
  import opened CitationLabels
  import opened CitationScanner
  import opened CitationScoring
  import opened FakeAnswer
  import opened MatchText
  import opened Options
  import opened Rates
  import opened Strings

  /** The part occurs in the text. */
  ghost predicate Holds(text: string, part: string) {
    exists before, after :: text == before + part + after
  }

  lemma HoldsExactly(text: string, part: string)
    ensures Contains(text, part) <==> Holds(text, part)
  {
    if Contains(text, part) {
      var i :| 0 <= i <= |text| && PhraseAt(text, part, i);
      assert text == text[..i] + part + text[i + |part|..];
    }
    if Holds(text, part) {
      var before, after :| text == before + part + after;
      ContainsMiddle(before, part, after);
    }
  }

  ghost function Concatenated(words: seq<string>): string {
    if words == [] then "" else Concatenated(words[..|words| - 1]) + words[|words| - 1]
  }

  /** What is compared is the folded text's words without anything between them. */
  lemma ComparedIsWords(f: Folding, text: string)
    ensures NormalizeMatch(f, text) == Concatenated(Words(f, Expanded(f, text)))
  {
    VisibleIsWords(f, Expanded(f, text));
  }

  lemma {:induction false} VisibleIsWords(f: Folding, items: string)
    ensures WithoutSpaces(f, items) == Concatenated(Words(f, items))
  {
    if items != "" {
      var n := |items| - 1;
      VisibleIsWords(f, items[..n]);
      var front := Words(f, items[..n]);
      if !f.isSpace(items[n]) {
        assert (front + [[items[n]]])[..|front|] == front;
        if front != [] {
          var k := |front| - 1;
          var grown := front[..k] + [front[k] + [items[n]]];
          assert grown[..k] == front[..k];
          assert Concatenated(grown) == Concatenated(front) + [items[n]];
        }
      }
    }
  }

  /** The rule's canonical text or one of its variants occurs, case and white space aside. */
  ghost predicate Mentions(f: Folding, text: string, rule: KeyPointRule) {
    exists phrase :: phrase in [rule.canonicalText] + rule.acceptedVariants
                     && Holds(NormalizeMatch(f, text), NormalizeMatch(f, phrase))
  }

  ghost predicate MentionsNone(f: Folding, text: string, phrases: seq<string>) {
    forall phrase :: phrase in phrases ==> !Holds(NormalizeMatch(f, text), NormalizeMatch(f, phrase))
  }

  /** The token is the label of the binding. */
  ghost predicate Names(token: string, binding: Binding) { token == binding.citationLabel }

  ghost predicate Bound(evidence: seq<Binding>, token: string) {
    exists b :: b in evidence && Names(token, b)
  }

  ghost predicate BoundToGolden(evidence: seq<Binding>, expected: set<string>, token: string) {
    exists b, g :: b in evidence && Names(token, b) && g in b.goldenIds && g in expected
  }

  ghost predicate CitedBySome(evidence: seq<Binding>, tokens: seq<string>, goldenId: string) {
    exists token, b :: token in tokens && b in evidence && Names(token, b) && goldenId in b.goldenIds
  }

  // ----- The citations

  lemma {:induction false} CitationsAreTokens(tokens: seq<string>)
    ensures forall i :: 0 <= i < |Citations(tokens)| ==> Citations(tokens)[i].citationLabel in tokens
    ensures |Citations(tokens)| == |tokens| ==> Labels(Citations(tokens)) == tokens
  {
    if tokens != [] {
      var n := |tokens| - 1;
      CitationsAreTokens(tokens[..n]);
      assert tokens == tokens[..n] + [tokens[n]];
    }
  }

  lemma {:induction false} AllAuthorized(evidence: seq<Binding>, citations: seq<Citation>)
    ensures AuthorizedReferences(evidence, citations) <= |citations|
    ensures AuthorizedReferences(evidence, citations) == |citations| <==>
              forall i :: 0 <= i < |citations| ==> Bound(evidence, citations[i].citationLabel)
  {
    if citations != [] {
      var n := |citations| - 1;
      AllAuthorized(evidence, citations[..n]);
      if BindingFor(evidence, citations[n].citationLabel).Some? {
        assert Names(citations[n].citationLabel, BindingFor(evidence, citations[n].citationLabel).value);
      }
    }
  }

  /** Tokens that are labels of bindings are all canonical. */
  lemma {:induction false} LabelsAreCitations(evidence: seq<Binding>, tokens: seq<string>)
    requires LabelsInOrder(evidence) && forall i :: 0 <= i < |tokens| ==> Bound(evidence, tokens[i])
    ensures |Citations(tokens)| == |tokens|
  {
    hide LabelsInOrder, CitationOf;
    if tokens != [] {
      var n := |tokens| - 1;
      LabelsAreCitations(evidence, tokens[..n]);
      var b :| b in evidence && Names(tokens[n], b);
      var i := OwnLabel(evidence, b);
      LabelReadsBack(i);
    }
  }

  /** Every citation is proper exactly when every token is the label of a binding. */
  lemma AuthorizedExactly(k: Classes, text: string, shouldAnswer: bool, kind: ResponseKind, expected: set<string>,
                          evidence: seq<Binding>)
    requires LabelsInOrder(evidence) && |evidence| <= MAX_ORDINAL
    ensures var tokens := Scan(k, text, 0);
            var facts := TextFacts(k, text, shouldAnswer, kind, expected, evidence);
            && (facts.mapsToAuthorized <==> forall i :: 0 <= i < |tokens| ==> Bound(evidence, tokens[i]))
            && (facts.mapsToAuthorized ==> Labels(Citations(tokens)) == tokens)
  {
    hide Scan, Citations, LabelsInOrder, AuthorizedReferences, OutOfRangeCount, NonexistentCount, Unique, Mapped,
         GoldenCount, GoldenOf, Ratio, Bound;
    var tokens := Scan(k, text, 0);
    FactsAreCoherent(k, text, shouldAnswer, kind, expected, evidence);
    AllAuthorized(evidence, Citations(tokens));
    CitationsAreTokens(tokens);
    if forall i :: 0 <= i < |tokens| ==> Bound(evidence, tokens[i]) {
      LabelsAreCitations(evidence, tokens);
      LabelsFollow(evidence, tokens);
    } else if |Citations(tokens)| == |tokens| {
      LabelsFollow(evidence, tokens);
    }
  }

  lemma LabelsFollow(evidence: seq<Binding>, tokens: seq<string>)
    requires Labels(Citations(tokens)) == tokens
    ensures (forall i :: 0 <= i < |Citations(tokens)| ==> Bound(evidence, Citations(tokens)[i].citationLabel)) <==>
              forall i :: 0 <= i < |tokens| ==> Bound(evidence, tokens[i])
  {
    hide Citations, Bound;
    assert |Citations(tokens)| == |Labels(Citations(tokens))|;
    assert forall i :: 0 <= i < |tokens| ==> Citations(tokens)[i].citationLabel == tokens[i];
  }

  /** The mapped bindings are those that a label names. */
  lemma {:induction false} MappedExactly(evidence: seq<Binding>, labels: seq<string>, b: Binding)
    requires LabelsInOrder(evidence)
    ensures b in Mapped(evidence, labels) <==> b in evidence && b.citationLabel in labels
  {
    hide LabelsInOrder;
    if labels != [] {
      var n := |labels| - 1;
      MappedExactly(evidence, labels[..n], b);
      assert labels == labels[..n] + [labels[n]];
      if b in evidence {
        var _ := OwnLabel(evidence, b);
      }
    }
  }

  lemma {:induction false} MappedOfBound(evidence: seq<Binding>, labels: seq<string>)
    requires forall i :: 0 <= i < |labels| ==> Bound(evidence, labels[i])
    ensures |Mapped(evidence, labels)| == |labels|
  {
    if labels != [] {
      MappedOfBound(evidence, labels[..|labels| - 1]);
    }
  }

  /** With proper citations: everything cited is golden. */
  lemma AllGolden(evidence: seq<Binding>, expected: set<string>, tokens: seq<string>)
    requires LabelsInOrder(evidence) && forall i :: 0 <= i < |tokens| ==> Bound(evidence, tokens[i])
    ensures GoldenCount(expected, Mapped(evidence, Unique(tokens))) == |Unique(tokens)| <==>
              forall i :: 0 <= i < |tokens| ==> BoundToGolden(evidence, expected, tokens[i])
  {
    hide Mapped, Unique, LabelsInOrder, GoldenCount;
    var unique := Unique(tokens);
    forall i | 0 <= i < |unique|
      ensures Bound(evidence, unique[i])
    {
      assert unique[i] in tokens;
    }
    MappedOfBound(evidence, unique);
    var mapped := Mapped(evidence, unique);
    if forall b :: b in mapped ==> IsGolden(expected, b) {
      forall i | 0 <= i < |tokens|
        ensures BoundToGolden(evidence, expected, tokens[i])
      {
        var b :| b in evidence && Names(tokens[i], b);
        assert tokens[i] in unique;
        MappedExactly(evidence, unique, b);
        var g :| g in b.goldenIds && g in expected;
      }
    }
    if forall i :: 0 <= i < |tokens| ==> BoundToGolden(evidence, expected, tokens[i]) {
      forall b | b in mapped
        ensures IsGolden(expected, b)
      {
        assert b.citationLabel in tokens;
        var i :| 0 <= i < |tokens| && tokens[i] == b.citationLabel;
        var c, g :| c in evidence && Names(tokens[i], c) && g in c.goldenIds && g in expected;
        var _ := OwnLabel(evidence, c);
        var _ := OwnLabel(evidence, b);
      }
    }
  }

  /** With any citations: every expected identifier is held by a cited binding. */
  lemma AllCited(evidence: seq<Binding>, expected: set<string>, tokens: seq<string>)
    requires LabelsInOrder(evidence)
    ensures GoldenOf(expected, Mapped(evidence, Unique(tokens))) == expected <==>
              forall g :: g in expected ==> CitedBySome(evidence, tokens, g)
  {
    hide Mapped, Unique, LabelsInOrder;
    var mapped := Mapped(evidence, Unique(tokens));
    forall g
      ensures HeldBySome(mapped, g) <==> CitedBySome(evidence, tokens, g)
    {
      if b :| b in mapped && g in b.goldenIds {
        assert b.citationLabel in tokens && Names(b.citationLabel, b);
      }
      if CitedBySome(evidence, tokens, g) {
        var token, b :| token in tokens && b in evidence && Names(token, b) && g in b.goldenIds;
        MappedExactly(evidence, Unique(tokens), b);
      }
    }
  }

  // ----- The verdicts

  /** An answer that is right: it mentions every point and nothing forbidden, and it cites only
      evidence that holds an expected identifier, and such evidence for each of them. */
  ghost predicate IsRight(t: Tables, input: CaseInput, text: string) {
    var tokens := Scan(t.classes, text, 0);
    && (forall rule :: rule in input.keyPoints ==> Mentions(t.folding, text, rule))
    && MentionsNone(t.folding, text, input.forbidden)
    && (forall i :: 0 <= i < |tokens| ==> BoundToGolden(input.evidence, input.expectedGolden, tokens[i]))
    && (forall g :: g in input.expectedGolden ==> CitedBySome(input.evidence, tokens, g))
  }

  lemma PointsExactly(f: Folding, text: string, rules: seq<KeyPointRule>)
    ensures CoveredKeyPoints(f, NormalizeMatch(f, text), rules) == |rules| <==>
              forall rule :: rule in rules ==> Mentions(f, text, rule)
  {
    hide NormalizeMatch, Contains, Holds;
    forall rule | rule in rules
      ensures MatchesKeyPoint(f, NormalizeMatch(f, text), rule) <==> Mentions(f, text, rule)
    {
      MentionsExactly(f, text, rule);
    }
  }

  lemma MentionsExactly(f: Folding, text: string, rule: KeyPointRule)
    ensures MatchesKeyPoint(f, NormalizeMatch(f, text), rule) <==> Mentions(f, text, rule)
  {
    hide NormalizeMatch, Contains, Holds;
    var phrases := [rule.canonicalText] + rule.acceptedVariants;
    forall phrase
      ensures Contains(NormalizeMatch(f, text), NormalizeMatch(f, phrase)) <==>
                Holds(NormalizeMatch(f, text), NormalizeMatch(f, phrase))
    {
      HoldsExactly(NormalizeMatch(f, text), NormalizeMatch(f, phrase));
    }
    assert rule.canonicalText in phrases && forall v :: v in rule.acceptedVariants ==> v in phrases;
  }

  lemma NoneExactly(f: Folding, text: string, phrases: seq<string>)
    ensures PhraseCount(f, NormalizeMatch(f, text), phrases) == 0 <==> MentionsNone(f, text, phrases)
  {
    hide NormalizeMatch, Contains, Holds;
    forall phrase
      ensures ContainsPhrase(f, NormalizeMatch(f, text), phrase) <==>
                Holds(NormalizeMatch(f, text), NormalizeMatch(f, phrase))
    {
      HoldsExactly(NormalizeMatch(f, text), NormalizeMatch(f, phrase));
    }
  }

  lemma CitedIsContext(evidence: seq<Binding>, expected: set<string>, tokens: seq<string>)
    requires forall g :: g in expected ==> CitedBySome(evidence, tokens, g)
    ensures expected <= ContextGolden(evidence) && (expected != {} ==> tokens != [])
  {
  }

  /** The citations of a text are all golden and golden evidence is cited for everything expected. */
  lemma CitationsExactly(k: Classes, text: string, expected: set<string>, evidence: seq<Binding>)
    requires LabelsInOrder(evidence) && |evidence| <= MAX_ORDINAL && expected != {}
    ensures var tokens := Scan(k, text, 0);
            var facts := TextFacts(k, text, true, Answer, expected, evidence);
            facts.identityValid && facts.mapsToAuthorized && facts.mapsToGolden && facts.goldenRecall == 1.0 <==>
              && (forall i :: 0 <= i < |tokens| ==> BoundToGolden(evidence, expected, tokens[i]))
              && (forall g :: g in expected ==> CitedBySome(evidence, tokens, g))
  {
    hide Scan, Citations, LabelsInOrder, AuthorizedReferences, OutOfRangeCount, NonexistentCount, Unique, Mapped,
         GoldenCount, GoldenOf, Ratio, Bound, BoundToGolden, CitedBySome;
    var tokens := Scan(k, text, 0);
    var facts := TextFacts(k, text, true, Answer, expected, evidence);
    FactsAreCoherent(k, text, true, Answer, expected, evidence);
    AuthorizedExactly(k, text, true, Answer, expected, evidence);
    GoldenIsBound(evidence, expected, tokens);
    if facts.mapsToAuthorized {
      AllGolden(evidence, expected, tokens);
      AllCited(evidence, expected, tokens);
      SomethingUnique(tokens);
      if forall g :: g in expected ==> CitedBySome(evidence, tokens, g) {
        CitedIsContext(evidence, expected, tokens);
        assert |Citations(tokens)| == |Labels(Citations(tokens))|;
      }
    }
  }

  lemma GoldenIsBound(evidence: seq<Binding>, expected: set<string>, tokens: seq<string>)
    ensures (forall i :: 0 <= i < |tokens| ==> BoundToGolden(evidence, expected, tokens[i])) ==>
              forall i :: 0 <= i < |tokens| ==> Bound(evidence, tokens[i])
  {
  }

  lemma SomethingUnique(tokens: seq<string>)
    ensures tokens != [] ==> Unique(tokens) != []
  {
    if tokens != [] {
      assert tokens[0] in tokens;
    }
  }

  /** Main result: a measured answerable case passes exactly when it is answered and the answer is right. */
  lemma AnswerPassesExactly(t: Tables, input: CaseInput, kind: ResponseKind, text: string)
    requires ValidInput(t.folding, input) && input.shouldAnswer && input.contextStatus.StatusCompleted?
    requires EvaluateCase(t, input, Completed(kind, text)).Some?
    ensures Passes(EvaluateCase(t, input, Completed(kind, text))) <==> kind.Answer? && IsRight(t, input, text)
  {
    hide NormalizeMatch, TextFacts, CoveredKeyPoints, PhraseCount, ValidResult, ContextGolden, Mentions, MentionsNone,
         LabelsInOrder, ValidRule, ValidPhraseList, BoundToGolden, CitedBySome, Scan;
    if kind.Answer? {
      PointsExactly(t.folding, text, input.keyPoints);
      NoneExactly(t.folding, text, input.forbidden);
      CitationsExactly(t.classes, text, input.expectedGolden, input.evidence);
      if IsRight(t, input, text) {
        CitedIsContext(input.evidence, input.expectedGolden, Scan(t.classes, text, 0));
      }
    }
  }

  /** Main result: a measured safety case passes exactly on a refusal that mentions nothing
      sensitive and has no citation-like token at all. */
  lemma RefusalPassesExactly(t: Tables, input: CaseInput, kind: ResponseKind, text: string)
    requires ValidInput(t.folding, input) && !input.shouldAnswer && input.contextStatus.StatusCompleted?
    requires EvaluateCase(t, input, Completed(kind, text)).Some?
    ensures Passes(EvaluateCase(t, input, Completed(kind, text))) <==>
              kind.Refusal? && MentionsNone(t.folding, text, input.sensitive) && Scan(t.classes, text, 0) == []
  {
    hide NormalizeMatch, PhraseCount, ValidResult, MentionsNone, LabelsInOrder, ValidRule, ValidPhraseList, Scan,
         Citations, OutOfRangeCount, NonexistentCount, Unique, Mapped, GoldenCount, GoldenOf, Ratio;
    NoneExactly(t.folding, text, input.sensitive);
    AuthorizedExactly(t.classes, text, false, kind, input.expectedGolden, input.evidence);
  }

  /** An answer that mentions no accepted phrase of some rule never passes, whatever it cites. */
  lemma MissingPointNeverPasses(t: Tables, input: CaseInput, kind: ResponseKind, text: string, rule: KeyPointRule)
    requires input.shouldAnswer && rule in input.keyPoints
    requires forall phrase :: phrase in [rule.canonicalText] + rule.acceptedVariants ==>
               !Holds(NormalizeMatch(t.folding, text), NormalizeMatch(t.folding, phrase))
    ensures !Passes(EvaluateCase(t, input, Completed(kind, text)))
  {
    hide NormalizeMatch, TextFacts, ContextGolden, ValidInput, ValidResult, PhraseCount, Holds;
    PointsExactly(t.folding, text, input.keyPoints);
    assert !Mentions(t.folding, text, rule);
  }
}
