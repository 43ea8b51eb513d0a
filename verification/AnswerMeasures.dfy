/** What a result reports about a measured answer, in terms of the answer's text
    (app/evals/answer_citation_metrics.py). */
module AnswerMeasures {
  import opened AnswerVerdict
  import opened CitationGrammar
  import opened CitationLabels
  import opened CitationScanner
  import opened CitationScoring
  import opened Decimals
  import opened FakeAnswer
  import opened MatchText
  import opened Options
  import opened Rates
  import opened Strings

  ghost predicate IsLabel(token: string) { exists n: nat :: token == "[E" + Decimal(n) + "]" }

  ghost predicate IsMalformed(token: string) { !IsLabel(token) }

  ghost predicate IsBeyond(token: string) {
    exists n: nat :: token == "[E" + Decimal(n) + "]" && !(1 <= n <= 12)
  }

  ghost predicate IsWithin(token: string) {
    exists n: nat :: token == "[E" + Decimal(n) + "]" && 1 <= n <= 12
  }

  ghost function Unbound(evidence: seq<Binding>): string -> bool {
    token => IsWithin(token) && !Bound(evidence, token)
  }

  ghost function Mentioned(f: Folding, text: string): KeyPointRule -> bool {
    rule => Mentions(f, text, rule)
  }

  ghost function Occurring(f: Folding, text: string): string -> bool {
    phrase => Holds(NormalizeMatch(f, text), NormalizeMatch(f, phrase))
  }

  ghost function Cited(evidence: seq<Binding>, tokens: seq<string>): set<Binding> {
    set b | b in evidence && b.citationLabel in tokens
  }

  ghost function CitedGolden(evidence: seq<Binding>, tokens: seq<string>, expected: set<string>): set<Binding> {
    set b | b in Cited(evidence, tokens) && exists g :: g in b.goldenIds && g in expected
  }

  // ----- Citations

  lemma TokenKinds(token: string)
    ensures CitationOf(token).Some? <==> IsLabel(token)
    ensures CitationOf(token).Some? ==>
              CitationOf(token).value.citationLabel == token && (InRange(CitationOf(token).value) <==> IsWithin(token))
              && (!InRange(CitationOf(token).value) <==> IsBeyond(token))
    ensures IsWithin(token) || IsBeyond(token) ==> IsLabel(token)
  {
    hide CitationOf;
    forall n: nat
      ensures CitationOf(token) == Some(Citation(token, n)) <==> token == "[E" + Decimal(n) + "]"
    {
      CitationExactly(token, n);
    }
    if CitationOf(token).Some? {
      var n := CitationOf(token).value.ordinal;
      CitationExactly(token, n);
    }
  }

  lemma {:induction false} CitationsAreCounted(evidence: seq<Binding>, tokens: seq<string>)
    ensures |Citations(tokens)| == Tally(tokens, IsLabel)
    ensures |tokens| - |Citations(tokens)| == Tally(tokens, IsMalformed)
    ensures OutOfRangeCount(Citations(tokens)) == Tally(tokens, IsBeyond)
    ensures NonexistentCount(evidence, Citations(tokens)) == Tally(tokens, Unbound(evidence))
  {
    hide CitationOf, IsLabel, IsBeyond, IsWithin, Bound, BindingFor, InRange;
    if tokens != [] {
      var n := |tokens| - 1;
      CitationsAreCounted(evidence, tokens[..n]);
      TokenKinds(tokens[n]);
      BoundExactly(evidence, tokens[n]);
      var front := Citations(tokens[..n]);
      match CitationOf(tokens[n])
      case None =>
      case Some(citation) =>
        assert Citations(tokens) == front + [citation];
        assert (front + [citation])[..|front|] == front;
    }
  }

  lemma BoundExactly(evidence: seq<Binding>, token: string)
    ensures BindingFor(evidence, token).Some? <==> Bound(evidence, token)
  {
    if BindingFor(evidence, token).Some? {
      assert Names(token, BindingFor(evidence, token).value);
    }
  }

  lemma {:induction false} LabelsAreTokens(tokens: seq<string>, token: string)
    ensures token in Labels(Citations(tokens)) <==> token in tokens && IsLabel(token)
  {
    hide CitationOf, IsLabel;
    if tokens != [] {
      var n := |tokens| - 1;
      LabelsAreTokens(tokens[..n], token);
      TokenKinds(tokens[n]);
      assert tokens == tokens[..n] + [tokens[n]];
      var front := Citations(tokens[..n]);
      match CitationOf(tokens[n])
      case None =>
      case Some(citation) =>
        assert Labels(front + [citation]) == Labels(front) + [citation.citationLabel];
    }
  }

  lemma {:induction false} GoldenAreCounted(expected: set<string>, bindings: seq<Binding>)
    requires Distinct(bindings)
    ensures GoldenCount(expected, bindings) == |set b | b in bindings && IsGolden(expected, b)|
  {
    hide IsGolden;
    if bindings != [] {
      var n := |bindings| - 1;
      var last := bindings[n];
      GoldenAreCounted(expected, bindings[..n]);
      assert bindings == bindings[..n] + [last];
      var front := set b | b in bindings[..n] && IsGolden(expected, b);
      assert last !in front;
      assert (set b | b in bindings && IsGolden(expected, b)) ==
             if IsGolden(expected, last) then front + {last} else front;
    }
  }

  lemma BindingLabelIsLabel(evidence: seq<Binding>, b: Binding)
    requires LabelsInOrder(evidence) && b in evidence
    ensures IsLabel(b.citationLabel)
  {
    var i := OwnLabel(evidence, b);
    assert b.citationLabel == "[E" + Decimal(i) + "]";
  }

  /** The counts of distinct citations are the sizes of these sets. */
  lemma DistinctAreCounted(evidence: seq<Binding>, tokens: seq<string>, expected: set<string>)
    requires LabelsInOrder(evidence)
    ensures var unique := Unique(Labels(Citations(tokens)));
            var mapped := Mapped(evidence, unique);
            && |unique| == |set token | token in tokens && IsLabel(token)|
            && |mapped| == |Cited(evidence, tokens)|
            && GoldenCount(expected, mapped) == |CitedGolden(evidence, tokens, expected)|
            && GoldenOf(expected, mapped) == set g | g in expected && CitedBySome(evidence, tokens, g)
  {
    hide Citations, Labels, Unique, Mapped, LabelsInOrder, GoldenCount, IsLabel;
    var labels := Labels(Citations(tokens));
    var unique := Unique(labels);
    var mapped := Mapped(evidence, unique);
    forall token
      ensures token in unique <==> token in tokens && IsLabel(token)
    {
      LabelsAreTokens(tokens, token);
    }
    DistinctCard(unique);
    assert (set token | token in unique) == set token | token in tokens && IsLabel(token);
    MappedAreDistinct(evidence, unique);
    DistinctCard(mapped);
    forall b
      ensures b in mapped <==> b in Cited(evidence, tokens)
    {
      MappedExactly(evidence, unique, b);
      if b in evidence {
        BindingLabelIsLabel(evidence, b);
      }
    }
    assert (set b | b in mapped) == Cited(evidence, tokens);
    GoldenAreCounted(expected, mapped);
    assert (set b | b in mapped && IsGolden(expected, b)) == CitedGolden(evidence, tokens, expected);
    GoldenIsCited(evidence, tokens, expected, mapped);
  }

  lemma GoldenIsCited(evidence: seq<Binding>, tokens: seq<string>, expected: set<string>, mapped: seq<Binding>)
    requires forall b :: b in mapped <==> b in Cited(evidence, tokens)
    ensures GoldenOf(expected, mapped) == set g | g in expected && CitedBySome(evidence, tokens, g)
  {
    forall g
      ensures HeldBySome(mapped, g) <==> CitedBySome(evidence, tokens, g)
    {
      if HeldBySome(mapped, g) {
        var b :| b in mapped && g in b.goldenIds;
        assert Names(b.citationLabel, b);
      }
    }
  }

  // ----- Phrases

  lemma {:induction false} PointsAreCounted(f: Folding, text: string, rules: seq<KeyPointRule>)
    ensures CoveredKeyPoints(f, NormalizeMatch(f, text), rules) == Tally(rules, Mentioned(f, text))
  {
    hide NormalizeMatch, MatchesKeyPoint, Mentions;
    if rules != [] {
      PointsAreCounted(f, text, rules[..|rules| - 1]);
      MentionsExactly(f, text, rules[|rules| - 1]);
    }
  }

  lemma {:induction false} PhrasesAreCounted(f: Folding, text: string, phrases: seq<string>)
    ensures PhraseCount(f, NormalizeMatch(f, text), phrases) == Tally(phrases, Occurring(f, text))
  {
    hide NormalizeMatch, Holds, Contains;
    if phrases != [] {
      var n := |phrases| - 1;
      PhrasesAreCounted(f, text, phrases[..n]);
      HoldsExactly(NormalizeMatch(f, text), NormalizeMatch(f, phrases[n]));
    }
  }

  // ----- What is reported

  ghost predicate CountsCitations(evidence: seq<Binding>, expected: set<string>, tokens: seq<string>,
                                  facts: CitationFacts)
  {
    && facts.references == Tally(tokens, IsLabel) && facts.malformed == Tally(tokens, IsMalformed)
    && facts.outOfRange == Tally(tokens, IsBeyond) && facts.nonexistent == Tally(tokens, Unbound(evidence))
    && facts.unique == |set token | token in tokens && IsLabel(token)|
    && facts.unique + facts.duplicates == facts.references
    && facts.authorized == |Cited(evidence, tokens)|
    && facts.golden == |CitedGolden(evidence, tokens, expected)|
    && facts.citedGolden == |set g | g in expected && CitedBySome(evidence, tokens, g)|
    && facts.goldenPrecision == Ratio(facts.golden, facts.unique)
    && facts.goldenRecall == Ratio(facts.citedGolden, |expected|)
  }

  ghost predicate JudgesCitations(evidence: seq<Binding>, expected: set<string>, tokens: seq<string>,
                                  answerDue: bool, facts: CitationFacts)
  {
    && (facts.syntaxValid <==> forall i :: 0 <= i < |tokens| ==> IsLabel(tokens[i]))
    && (facts.mapsToAuthorized <==> forall i :: 0 <= i < |tokens| ==> Bound(evidence, tokens[i]))
    && (facts.requiredMissing <==> answerDue && evidence != [] && !exists i :: 0 <= i < |tokens| && IsLabel(tokens[i]))
    && (facts.identityValid <==> facts.mapsToAuthorized && !facts.requiredMissing)
    && (facts.mapsToGolden <==>
          && tokens != [] && forall i :: 0 <= i < |tokens| ==> BoundToGolden(evidence, expected, tokens[i]))
  }

  lemma CitationsAreReported(k: Classes, text: string, shouldAnswer: bool, kind: ResponseKind, expected: set<string>,
                             evidence: seq<Binding>)
    requires LabelsInOrder(evidence) && |evidence| <= MAX_ORDINAL
    ensures CountsCitations(evidence, expected, Scan(k, text, 0),
                            TextFacts(k, text, shouldAnswer, kind, expected, evidence))
  {
    hide Scan, Citations, LabelsInOrder, OutOfRangeCount, NonexistentCount, Unique, Mapped, GoldenCount, GoldenOf,
         Ratio, Tally, IsLabel, Cited, CitedGolden, CitedBySome, Labels;
    var tokens := Scan(k, text, 0);
    CitationsAreCounted(evidence, tokens);
    DistinctAreCounted(evidence, tokens, expected);
  }

  lemma CitationsAreJudged(k: Classes, text: string, shouldAnswer: bool, kind: ResponseKind, expected: set<string>,
                           evidence: seq<Binding>)
    requires LabelsInOrder(evidence) && |evidence| <= MAX_ORDINAL
    ensures JudgesCitations(evidence, expected, Scan(k, text, 0), shouldAnswer && kind.Answer?,
                            TextFacts(k, text, shouldAnswer, kind, expected, evidence))
  {
    hide Scan, Citations, LabelsInOrder, OutOfRangeCount, NonexistentCount, Unique, Mapped, GoldenCount, GoldenOf,
         Ratio, Tally, IsLabel, Bound, BoundToGolden, AuthorizedReferences;
    var tokens := Scan(k, text, 0);
    var facts := TextFacts(k, text, shouldAnswer, kind, expected, evidence);
    CitationsAreCounted(evidence, tokens);
    TallyNone(tokens, IsLabel);
    TallyNone(tokens, IsMalformed);
    AuthorizedExactly(k, text, shouldAnswer, kind, expected, evidence);
    GoldenIsBound(evidence, expected, tokens);
    FactsAreCoherent(k, text, shouldAnswer, kind, expected, evidence);
    if facts.mapsToAuthorized {
      AllGolden(evidence, expected, tokens);
      SomethingUnique(tokens);
      SomethingCited(tokens);
    }
  }

  lemma SomethingCited(tokens: seq<string>)
    ensures Unique(tokens) != [] ==> tokens != []
  {
    if Unique(tokens) != [] {
      assert Unique(tokens)[0] in tokens;
    }
  }

  ghost predicate JudgesAnswer(t: Tables, input: CaseInput, kind: ResponseKind, text: string, part: Part,
                               facts: CitationFacts, pass: bool, attributions: seq<Attribution>)
  {
    && part.AnswerPart?
    && (part.contextComplete <==> forall g :: g in input.expectedGolden ==> HeldBySome(input.evidence, g))
    && (part.answered <==> kind.Answer?)
    && part.covered == Tally(input.keyPoints, Mentioned(t.folding, text))
    && part.coverage == Ratio(part.covered, |input.keyPoints|)
    && part.forbidden == Tally(input.forbidden, Occurring(t.folding, text))
    && (pass <==> attributions == [] && facts.goldenRecall == 1.0)
    && BlamesAnswer(part.contextComplete, part.answered, part.covered == |input.keyPoints|, part.forbidden, facts,
                    attributions)
  }

  /** What a wrong answer is attributed to. */
  ghost predicate BlamesAnswer(contextComplete: bool, answered: bool, allCovered: bool, forbidden: nat,
                               facts: CitationFacts, attributions: seq<Attribution>)
  {
    && (UpstreamContextMissingGolden in attributions <==> !contextComplete)
    && (AnswerKeyPointsMissing in attributions <==> contextComplete && !(answered && allCovered))
    && (AnswerForbiddenAssertion in attributions <==> forbidden > 0)
    && (CitationIdentityInvalid in attributions <==> !facts.identityValid)
    && (CitationNotGolden in attributions <==> facts.identityValid && answered && !facts.mapsToGolden)
    && (forall a :: a in attributions ==>
          a in {UpstreamContextMissingGolden, AnswerKeyPointsMissing, AnswerForbiddenAssertion,
                CitationIdentityInvalid, CitationNotGolden})
  }

  lemma AnswerIsBlamed(contextComplete: bool, answered: bool, allCovered: bool, forbidden: nat, facts: CitationFacts)
    ensures BlamesAnswer(contextComplete, answered, allCovered, forbidden, facts,
                         AnswerAttributions(contextComplete, answered, allCovered, forbidden, facts))
  {
  }

  ghost predicate JudgesRefusal(t: Tables, input: CaseInput, kind: ResponseKind, text: string, part: Part,
                                facts: CitationFacts, pass: bool, attributions: seq<Attribution>)
  {
    && part.SafetyPart?
    && (part.refused <==> kind.Refusal?)
    && (part.leakage <==>
          !MentionsNone(t.folding, text, input.sensitive) || Scan(t.classes, text, 0) != [])
    && (pass <==> attributions == [])
    && (SafetyIncorrectAnswer in attributions <==> !part.refused)
    && (SafetyInformationLeakage in attributions <==> part.leakage)
    && (CitationIdentityInvalid in attributions <==> !facts.identityValid)
    && (forall a :: a in attributions ==>
          a in {SafetyIncorrectAnswer, SafetyInformationLeakage, CitationIdentityInvalid})
  }

  /** The result of a measured answer, in terms of its text. */
  ghost predicate ReportsText(t: Tables, input: CaseInput, kind: ResponseKind, text: string, m: Measures,
                              attributions: seq<Attribution>)
  {
    var tokens := Scan(t.classes, text, 0);
    && m.kind == kind
    && CountsCitations(input.evidence, input.expectedGolden, tokens, m.facts)
    && JudgesCitations(input.evidence, input.expectedGolden, tokens, input.shouldAnswer && kind.Answer?, m.facts)
    && if input.shouldAnswer then JudgesAnswer(t, input, kind, text, m.part, m.facts, m.pass, attributions)
       else JudgesRefusal(t, input, kind, text, m.part, m.facts, m.pass, attributions)
  }

  lemma ContextIsComplete(evidence: seq<Binding>, expected: set<string>)
    ensures expected <= ContextGolden(evidence) <==> forall g :: g in expected ==> HeldBySome(evidence, g)
  {
  }

  lemma AnswerIsJudged(t: Tables, input: CaseInput, kind: ResponseKind, text: string)
    requires ValidInput(t.folding, input) && input.shouldAnswer
    ensures var (m, attributions) := Measured(t, input, kind, text);
            JudgesAnswer(t, input, kind, text, m.part, m.facts, m.pass, attributions)
  {
    hide NormalizeMatch, TextFacts, CoveredKeyPoints, PhraseCount, ContextGolden, LabelsInOrder, ValidRule,
         ValidPhraseList, Tally, HeldBySome, Ratio, Distinct, AnswerAttributions, BlamesAnswer;
    var (m, _) := Measured(t, input, kind, text);
    AnswerIsBlamed(m.part.contextComplete, kind.Answer?, m.part.covered == |input.keyPoints|, m.part.forbidden,
                   m.facts);
    PointsAreCounted(t.folding, text, input.keyPoints);
    PhrasesAreCounted(t.folding, text, input.forbidden);
    ContextIsComplete(input.evidence, input.expectedGolden);
    PassMeansNoAttribution(t, input, kind, text);
  }

  lemma RefusalIsJudged(t: Tables, input: CaseInput, kind: ResponseKind, text: string)
    requires ValidInput(t.folding, input) && !input.shouldAnswer
    ensures var (m, attributions) := Measured(t, input, kind, text);
            JudgesRefusal(t, input, kind, text, m.part, m.facts, m.pass, attributions)
  {
    hide NormalizeMatch, PhraseCount, LabelsInOrder, ValidRule, ValidPhraseList, Scan, Citations, OutOfRangeCount,
         NonexistentCount, Unique, Mapped, GoldenCount, GoldenOf, Ratio, MentionsNone, Distinct;
    NoneExactly(t.folding, text, input.sensitive);
    PassMeansNoAttribution(t, input, kind, text);
  }

  /** Main result: everything that a measured result reports is what the text says. */
  lemma MeasuredReportsText(t: Tables, input: CaseInput, kind: ResponseKind, text: string)
    requires ValidInput(t.folding, input)
    ensures var (m, attributions) := Measured(t, input, kind, text);
            ReportsText(t, input, kind, text, m, attributions)
  {
    hide LabelsInOrder, CountsCitations, JudgesCitations, JudgesAnswer, JudgesRefusal, ValidRule, ValidPhraseList,
         NormalizeMatch, TextFacts, CoveredKeyPoints, PhraseCount, ContextGolden, Distinct, AnswerAttributions,
         SafetyAttributions;
    CitationsAreReported(t.classes, text, input.shouldAnswer, kind, input.expectedGolden, input.evidence);
    CitationsAreJudged(t.classes, text, input.shouldAnswer, kind, input.expectedGolden, input.evidence);
    if input.shouldAnswer {
      AnswerIsJudged(t, input, kind, text);
    } else {
      RefusalIsJudged(t, input, kind, text);
    }
  }

  /** Main result: the result names its case, and it is measured, failed or skipped as its context
      and its answer say. */
  lemma ResultNamesItsCase(t: Tables, input: CaseInput, execution: Execution, r: CaseResult)
    requires EvaluateCase(t, input, execution) == Some(r)
    ensures && r.caseId == input.caseId && r.sourceGroup == input.sourceGroup && r.cohort == input.cohort
            && r.shouldAnswer == input.shouldAnswer && r.reason == input.reason
            && r.contextStatus == input.contextStatus && r.executed == execution.Completed?
            && r.expectedKeyPoints == |input.keyPoints| && r.expectedGolden == |input.expectedGolden|
    ensures r.status.StatusCompleted? <==> r.contextStatus.StatusCompleted? && r.executed
    ensures r.status.StatusSkipped? <==>
              r.contextStatus.StatusSkipped? || (r.contextStatus.StatusCompleted? && execution.NotRun?)
    ensures !r.contextStatus.StatusCompleted? ==> r.attributions == [UpstreamContextUnavailable]
    ensures r.contextStatus.StatusCompleted? && !r.executed ==> r.attributions == [AnswerExecutionFailed]
    ensures r.status.StatusCompleted? ==>
              && r.measures.Some?
              && ReportsText(t, input, execution.kind, execution.text, r.measures.value, r.attributions)
  {
    hide ValidInput, ValidResult, Measured, ReportsText;
    if execution.Completed? {
      MeasuredReportsText(t, input, execution.kind, execution.text);
    }
  }
}
