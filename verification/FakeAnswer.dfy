/** The deterministic fake answer (`DeterministicFakeAnswerProvider.generate`,
    app/evals/answer_citation_runner.py) printed, scanned back and scored. */
module FakeAnswer {
  import opened CitationLabels
  import opened CitationScanner
  import opened CitationScoring
  import opened Decimals
  import opened MatchText
  import opened Options
  import opened Rates
  import opened Strings

  /** `FakeAnswerRequest`. */
  datatype Request = Request(
    caseId: string, question: string, shouldAnswer: bool, reason: Option<string>, contextStatus: MetricStatus,
    contextTexts: seq<string>, expectedGolden: set<string>, evidence: seq<Binding>, keyPoints: seq<KeyPointRule>)

  const REFUSED := "The deterministic fake refused this non-answer case."
  const INSUFFICIENT := "The deterministic fake found insufficient Evidence."

  function CanonicalTexts(rules: seq<KeyPointRule>): seq<string> {
    seq(|rules|, i requires 0 <= i < |rules| => rules[i].canonicalText)
  }

  /** The bindings that hold a golden identifier of the case, in order. */
  function CitedBindings(evidence: seq<Binding>, expected: set<string>): (cited: seq<Binding>)
    ensures forall b :: b in cited <==> b in evidence && IsGolden(expected, b)
  {
    if evidence == [] then []
    else
      var n := |evidence| - 1;
      assert evidence == evidence[..n] + [evidence[n]];
      CitedBindings(evidence[..n], expected) + (if IsGolden(expected, evidence[n]) then [evidence[n]] else [])
  }

  function LabelsOfBindings(bindings: seq<Binding>): seq<string> {
    seq(|bindings|, i requires 0 <= i < |bindings| => bindings[i].citationLabel)
  }

  /** The points, and then the labels of the bindings that hold golden identifiers. */
  function AnswerOf(points: seq<string>, evidence: seq<Binding>, expected: set<string>): string {
    var labels := LabelsOfBindings(CitedBindings(evidence, expected));
    var text := JoinWith([SEMICOLON], points);
    if labels == [] then text else text + " " + JoinWith(" ", labels)
  }

  function PrintedAnswer(request: Request): string {
    AnswerOf(CanonicalTexts(request.keyPoints), request.evidence, request.expectedGolden)
  }

  function FakeExecution(request: Request): Execution {
    if !request.shouldAnswer then Completed(Refusal, REFUSED)
    else if !(request.expectedGolden <= ContextGolden(request.evidence)) then Completed(Refusal, INSUFFICIENT)
    else if |PrintedAnswer(request)| > 4000 then ProviderFailed("output_invalid")
    else Completed(Answer, PrintedAnswer(request))
  }

  // ----- The printed labels scan back

  lemma {:induction false} SkipDigitRun(k: Classes, text: string, from: nat, count: nat, limit: nat)
    requires from + count <= |text| && count <= limit
    requires forall i :: from <= i < from + count ==> k.isDigit(text[i])
    requires from + count == |text| || !k.isDigit(text[from + count])
    ensures SkipDigits(k, text, from, limit) == from + count
    decreases count
  {
    if count > 0 {
      SkipDigitRun(k, text, from + 1, count - 1, limit - 1);
    }
  }

  /** A label is one whole token, whatever follows it. */
  lemma LabelIsToken(k: Classes, n: nat, rest: string)
    requires SoundClasses(k) && |Decimal(n)| <= 5
    ensures TokenAt(k, LabelOf(n) + rest, 0) == Some(|LabelOf(n)|)
  {
    hide Decimal, SkipSpaces, SkipDigits;
    var digits, text := Decimal(n), LabelOf(n) + rest;
    var m := |digits|;
    assert text[0] == '[' && text[1] == 'E' && text[2 + m] == ']';
    assert forall i :: 2 <= i < 2 + m ==> text[i] == digits[i - 2];
    SkipDigitRun(k, text, 2, m, 5);
    NoSpacesToSkip(k, text, 1);
    NoSpacesToSkip(k, text, 2);
    NoSpacesToSkip(k, text, 2 + m);
  }

  lemma NoSpacesToSkip(k: Classes, text: string, from: nat)
    requires from < |text| && !k.isSpace(text[from])
    ensures SkipSpaces(k, text, from) == from
  {
  }

  /** Every one of the labels is `[En]` for a number of at most five digits. */
  ghost predicate PrintableLabels(labels: seq<string>) {
    forall i :: 0 <= i < |labels| ==> exists n :: n > 0 && |Decimal(n)| <= 5 && labels[i] == LabelOf(n)
  }

  /** Main result: labels joined by spaces scan back to exactly those labels, in order. */
  lemma {:induction false} LabelsScanBack(k: Classes, labels: seq<string>)
    requires SoundClasses(k) && PrintableLabels(labels)
    ensures Scan(k, JoinWith(" ", labels), 0) == labels
  {
    if labels != [] {
      var n :| n > 0 && |Decimal(n)| <= 5 && labels[0] == LabelOf(n);
      var rest := labels[1..];
      LabelsScanBack(k, rest);
      FirstLabelScans(k, n, rest);
      assert labels == [labels[0]] + rest;
    }
  }

  lemma FirstLabelScans(k: Classes, n: nat, rest: seq<string>)
    requires SoundClasses(k) && |Decimal(n)| <= 5
    ensures Scan(k, JoinWith(" ", [LabelOf(n)] + rest), 0) == [LabelOf(n)] + Scan(k, JoinWith(" ", rest), 0)
  {
    hide TokenAt, LabelOf;
    var name := LabelOf(n);
    LabelIsNotEmpty(n);
    if rest == [] {
      LabelIsToken(k, n, "");
      assert name + "" == name;
      assert name[0..|name|] == name;
    } else {
      var tail := JoinWith(" ", rest);
      LabelIsToken(k, n, " " + tail);
      var text := name + (" " + tail);
      assert ([name] + rest)[1..] == rest;
      assert JoinWith(" ", [name] + rest) == text;
      assert text[0..|name|] == name;
      SpaceScans(k, tail);
      ScanShift(k, name, " " + tail, 0);
    }
  }

  lemma LabelIsNotEmpty(n: nat)
    ensures |LabelOf(n)| >= 3 && LabelOf(n)[0] == '['
  {
  }

  lemma SpaceScans(k: Classes, tail: string)
    ensures Scan(k, " " + tail, 0) == Scan(k, tail, 0)
  {
    assert TokenAt(k, " " + tail, 0).None?;
    ScanShift(k, " ", tail, 0);
  }

  /** Texts without tokens, joined by the full-width semicolon, have none either. */
  lemma {:induction false} JoinedTextsHaveNoToken(k: Classes, texts: seq<string>)
    requires SoundClasses(k) && forall i :: 0 <= i < |texts| ==> NoToken(k, texts[i])
    ensures NoToken(k, JoinWith([SEMICOLON], texts))
  {
    if |texts| > 1 {
      var rest := JoinWith([SEMICOLON], texts[1..]);
      JoinedTextsHaveNoToken(k, texts[1..]);
      TwoTextsHaveNoToken(k, texts[0], rest);
    }
  }

  lemma TwoTextsHaveNoToken(k: Classes, first: string, rest: string)
    requires SoundClasses(k) && NoToken(k, first) && NoToken(k, rest)
    ensures NoToken(k, first + [SEMICOLON] + rest)
  {
    hide TokenAt;
    var tail := [SEMICOLON] + rest;
    var text := first + tail;
    ConcatAssociative(first, [SEMICOLON], rest);
    SemicolonBlocks(k, rest);
    NoTokenBefore(k, first, tail);
    forall p | 0 <= p < |text|
      ensures TokenAt(k, text, p).None?
    {
      if p >= |first| {
        TokenShift(k, first, tail, p - |first|);
        if p > |first| {
          TokenShift(k, [SEMICOLON], rest, p - |first| - 1);
        }
      }
    }
  }

  lemma SemicolonBlocks(k: Classes, rest: string)
    requires SoundClasses(k)
    ensures Blocks(k, [SEMICOLON] + rest) && TokenAt(k, [SEMICOLON] + rest, 0).None?
  {
  }

  /** Main result: a printed answer scans back to exactly its labels. */
  lemma PrintedAnswerScansBack(k: Classes, points: string, labels: seq<string>)
    requires SoundClasses(k) && NoToken(k, points) && PrintableLabels(labels) && labels != []
    ensures Scan(k, points + " " + JoinWith(" ", labels), 0) == labels
  {
    hide TokenAt, Scan;
    var tail := JoinWith(" ", labels);
    LabelsScanBack(k, labels);
    SpaceScans(k, tail);
    LabelsBlock(k, labels);
    ScanAfterPlainText(k, points, " " + tail);
    ConcatAssociative(points, " ", tail);
  }

  lemma LabelsBlock(k: Classes, labels: seq<string>)
    requires SoundClasses(k) && PrintableLabels(labels) && labels != []
    ensures Blocks(k, " " + JoinWith(" ", labels))
  {
  }

  // ----- The printed answer covers its key points

  lemma {:induction false} WithoutSpacesConcat(f: Folding, a: string, b: string)
    ensures WithoutSpaces(f, a + b) == WithoutSpaces(f, a) + WithoutSpaces(f, b)
  {
    if b == "" {
      assert a + b == a;
    } else {
      var n := |b| - 1;
      WithoutSpacesConcat(f, a, b[..n]);
      assert (a + b)[..|a + b| - 1] == a + b[..n];
      ConcatAssociative(WithoutSpaces(f, a), WithoutSpaces(f, b[..n]), if f.isSpace(b[n]) then "" else [b[n]]);
    }
  }

  lemma NormalizeConcat(f: Folding, a: string, b: string)
    ensures NormalizeMatch(f, a + b) == NormalizeMatch(f, a) + NormalizeMatch(f, b)
  {
    ExpandedConcat(f, a, b);
    WithoutSpacesConcat(f, Expanded(f, a), Expanded(f, b));
  }

  lemma ContainsMiddle(a: string, b: string, c: string)
    ensures Contains(a + b + c, b)
  {
    assert (a + b + c)[|a|..|a| + |b|] == b;
    assert PhraseAt(a + b + c, b, |a|);
  }

  /** A part of a text is found in it after normalisation. */
  lemma PartIsContained(f: Folding, a: string, b: string, c: string)
    ensures ContainsPhrase(f, NormalizeMatch(f, a + b + c), b)
  {
    NormalizeConcat(f, a + b, c);
    NormalizeConcat(f, a, b);
    ContainsMiddle(NormalizeMatch(f, a), NormalizeMatch(f, b), NormalizeMatch(f, c));
  }

  lemma {:induction false} JoinedPart(separator: string, parts: seq<string>, i: nat)
    returns (before: string, after: string)
    requires i < |parts|
    ensures JoinWith(separator, parts) == before + parts[i] + after
  {
    if |parts| == 1 {
      before, after := "", "";
    } else if i == 0 {
      before, after := "", separator + JoinWith(separator, parts[1..]);
      assert before + parts[0] + after == parts[0] + separator + JoinWith(separator, parts[1..]);
    } else {
      before, after := JoinedPart(separator, parts[1..], i - 1);
      var inner := before;
      before := parts[0] + separator + inner;
      ConcatAssociative(parts[0] + separator, inner + parts[i], after);
      ConcatAssociative(parts[0] + separator, inner, parts[i]);
    }
  }

  /** One accepted phrase for each rule. */
  ghost predicate Chosen(rules: seq<KeyPointRule>, points: seq<string>) {
    && |points| == |rules|
    && forall i :: 0 <= i < |rules| ==> points[i] in [rules[i].canonicalText] + rules[i].acceptedVariants
  }

  lemma PointIsCovered(f: Folding, rules: seq<KeyPointRule>, points: seq<string>, evidence: seq<Binding>,
                       expected: set<string>, i: nat)
    requires Chosen(rules, points) && i < |rules|
    ensures MatchesKeyPoint(f, NormalizeMatch(f, AnswerOf(points, evidence, expected)), rules[i])
  {
    hide NormalizeMatch, Contains;
    var before, after := JoinedPart([SEMICOLON], points, i);
    var labels := LabelsOfBindings(CitedBindings(evidence, expected));
    var tail := if labels == [] then "" else " " + JoinWith(" ", labels);
    var text := JoinWith([SEMICOLON], points);
    ConcatAssociative(before + points[i], after, tail);
    if labels != [] {
      ConcatAssociative(text, " ", JoinWith(" ", labels));
    } else {
      assert text + "" == text;
    }
    assert AnswerOf(points, evidence, expected) == before + points[i] + (after + tail);
    PartIsContained(f, before, points[i], after + tail);
  }

  lemma AllPointsAreCovered(f: Folding, rules: seq<KeyPointRule>, points: seq<string>, evidence: seq<Binding>,
                            expected: set<string>)
    requires Chosen(rules, points)
    ensures CoveredKeyPoints(f, NormalizeMatch(f, AnswerOf(points, evidence, expected)), rules) == |rules|
  {
    hide AnswerOf, NormalizeMatch, MatchesKeyPoint, Chosen;
    forall rule | rule in rules
      ensures MatchesKeyPoint(f, NormalizeMatch(f, AnswerOf(points, evidence, expected)), rule)
    {
      var i :| 0 <= i < |rules| && rules[i] == rule;
      PointIsCovered(f, rules, points, evidence, expected, i);
    }
  }

  lemma CanonicalIsChosen(rules: seq<KeyPointRule>)
    ensures Chosen(rules, CanonicalTexts(rules))
  {
  }

  // ----- The printed citations map to the golden evidence

  lemma {:induction false} UniqueOfDistinct(labels: seq<string>)
    requires Distinct(labels)
    ensures Unique(labels) == labels
  {
    if labels != [] {
      var n := |labels| - 1;
      UniqueOfDistinct(labels[..n]);
      assert labels[..n] + [labels[n]] == labels;
    }
  }

  lemma LabelsOfSnoc(bindings: seq<Binding>, binding: Binding)
    ensures LabelsOfBindings(bindings + [binding]) == LabelsOfBindings(bindings) + [binding.citationLabel]
  {
  }

  /** An authorized binding is found by its own label. */
  lemma OwnLabel(evidence: seq<Binding>, binding: Binding) returns (n: nat)
    requires LabelsInOrder(evidence) && binding in evidence
    ensures 1 <= n <= |evidence| && binding.citationLabel == LabelOf(n)
    ensures BindingFor(evidence, binding.citationLabel) == Some(binding)
  {
    hide LabelOf;
    var i :| 0 <= i < |evidence| && evidence[i] == binding;
    BindingOfLabel(evidence, i);
    n := i + 1;
  }

  /** The labels' bindings are the cited bindings again. */
  lemma {:induction false} MappedOfLabels(evidence: seq<Binding>, cited: seq<Binding>)
    requires LabelsInOrder(evidence) && forall b :: b in cited ==> b in evidence
    ensures Mapped(evidence, LabelsOfBindings(cited)) == cited
  {
    hide Mapped, LabelsInOrder, LabelOf;
    if cited != [] {
      var n := |cited| - 1;
      var front, last := cited[..n], cited[n];
      assert last in cited && front + [last] == cited;
      MappedOfLabels(evidence, front);
      var _ := OwnLabel(evidence, last);
      LabelsOfSnoc(front, last);
      MappedSnoc(evidence, LabelsOfBindings(front), last.citationLabel);
    } else {
      assert LabelsOfBindings(cited) == [];
      MappedNothing(evidence);
    }
  }

  lemma MappedNothing(evidence: seq<Binding>)
    ensures Mapped(evidence, []) == []
  {
  }

  /** The labels read back as citations that are all authorized. */
  ghost predicate ReadBack(evidence: seq<Binding>, labels: seq<string>) {
    var citations := Citations(labels);
    Labels(citations) == labels && OutOfRangeCount(citations) == 0 && NonexistentCount(evidence, citations) == 0
  }

  lemma CitationsSnoc(tokens: seq<string>, token: string)
    ensures Citations(tokens + [token]) ==
              Citations(tokens) + (match CitationOf(token) case None => [] case Some(citation) => [citation])
  {
  }

  lemma ReadBackSnoc(evidence: seq<Binding>, labels: seq<string>, n: nat)
    requires ReadBack(evidence, labels) && 1 <= n <= MAX_ORDINAL && BindingFor(evidence, LabelOf(n)).Some?
    ensures ReadBack(evidence, labels + [LabelOf(n)])
  {
    hide CitationOf, LabelOf, BindingFor, Citations;
    var name := LabelOf(n);
    LabelReadsBack(n);
    CitationsSnoc(labels, name);
    var front, citations := Citations(labels), Citations(labels + [name]);
    assert citations[..|citations| - 1] == front;
    assert Labels(citations) == Labels(front) + [name];
  }

  /** Each cited label is printable and reads back. */
  lemma {:induction false} CitedLabelsReadBack(evidence: seq<Binding>, cited: seq<Binding>)
    requires LabelsInOrder(evidence) && |evidence| <= MAX_ORDINAL && forall b :: b in cited ==> b in evidence
    ensures PrintableLabels(LabelsOfBindings(cited)) && ReadBack(evidence, LabelsOfBindings(cited))
  {
    hide ReadBack, LabelOf, Decimal, LabelsInOrder, BindingFor;
    if cited != [] {
      var n := |cited| - 1;
      var front, last := cited[..n], cited[n];
      assert last in cited && front + [last] == cited;
      CitedLabelsReadBack(evidence, front);
      var i := OwnLabel(evidence, last);
      OneOrTwoDigits(i);
      LabelsOfSnoc(front, last);
      ReadBackSnoc(evidence, LabelsOfBindings(front), i);
    } else {
      assert LabelsOfBindings(cited) == [];
      NothingReadsBack(evidence);
    }
  }

  lemma NothingReadsBack(evidence: seq<Binding>)
    ensures ReadBack(evidence, [])
  {
  }

  lemma OneOrTwoDigits(n: nat)
    requires n <= MAX_ORDINAL
    ensures |Decimal(n)| <= 2
  {
  }

  lemma {:induction false} CitedAreDistinct(evidence: seq<Binding>, expected: set<string>)
    requires LabelsInOrder(evidence)
    ensures Distinct(LabelsOfBindings(CitedBindings(evidence, expected)))
  {
    if evidence != [] {
      hide LabelOf;
      var n := |evidence| - 1;
      CitedAreDistinct(evidence[..n], expected);
      var front := CitedBindings(evidence[..n], expected);
      LabelsOfSnoc(front, evidence[n]);
      assert front + [] == front;
      forall i | 0 <= i < |front|
        ensures LabelsOfBindings(front)[i] != evidence[n].citationLabel
      {
        assert front[i] in front;
        var j :| 0 <= j < n && evidence[..n][j] == front[i];
        LabelsDiffer(j + 1, n + 1);
      }
    }
  }

  // ----- End to end

  /** `build_fake_answer_request`, for the fields that scoring and printing share. */
  function RequestFor(input: CaseInput, question: string, contextTexts: seq<string>): Request {
    Request(input.caseId, question, input.shouldAnswer, input.reason, input.contextStatus, contextTexts,
            input.expectedGolden, input.evidence, input.keyPoints)
  }

  ghost predicate Tokenless(k: Classes, points: seq<string>) {
    forall i :: 0 <= i < |points| ==> NoToken(k, points[i])
  }

  /** The answer of a case whose evidence covers the golden set scans back. */
  lemma PrintedScans(t: Tables, input: CaseInput, points: seq<string>)
    requires SoundClasses(t.classes) && ValidInput(t.folding, input) && input.shouldAnswer
    requires input.expectedGolden <= ContextGolden(input.evidence) && Tokenless(t.classes, points)
    ensures Scan(t.classes, AnswerOf(points, input.evidence, input.expectedGolden), 0) ==
              LabelsOfBindings(CitedBindings(input.evidence, input.expectedGolden))
  {
    hide NoToken, Scan, LabelsInOrder, CitedBindings, ValidRule, ValidPhraseList, ReadBack, JoinWith, ContextGolden,
         PrintableLabels;
    var cited := CitedBindings(input.evidence, input.expectedGolden);
    CitedLabelsReadBack(input.evidence, cited);
    SomethingIsCited(input.evidence, input.expectedGolden);
    JoinedTextsHaveNoToken(t.classes, points);
    assert |LabelsOfBindings(cited)| == |cited|;
    PrintedAnswerScansBack(t.classes, JoinWith([SEMICOLON], points), LabelsOfBindings(cited));
  }

  /** Citing exactly the bindings that hold golden identifiers leaves nothing to object to. */
  lemma CitedFacts(evidence: seq<Binding>, expected: set<string>)
    requires LabelsInOrder(evidence) && |evidence| <= MAX_ORDINAL
    requires expected != {} && expected <= ContextGolden(evidence)
    ensures var facts := FactsOf(Citations(LabelsOfBindings(CitedBindings(evidence, expected))), 0, true, Answer,
                                 expected, evidence);
            facts.identityValid && facts.mapsToAuthorized && facts.mapsToGolden && facts.goldenRecall == 1.0
  {
    hide Citations, LabelsInOrder, CitedBindings, Mapped, Unique, Ratio, GoldenCount, ContextGolden, GoldenOf,
         PrintableLabels;
    var cited := CitedBindings(evidence, expected);
    var labels := LabelsOfBindings(cited);
    CitedLabelsReadBack(evidence, cited);
    SomethingIsCited(evidence, expected);
    CitedAreDistinct(evidence, expected);
    UniqueOfDistinct(labels);
    MappedOfLabels(evidence, cited);
    AllGoldenCited(evidence, expected);
    RatioBounds(|expected|, |expected|);
    assert |labels| == |cited|;
    assert |Labels(Citations(labels))| == |Citations(labels)|;
  }

  lemma NothingMalformed(evidence: seq<Binding>, cited: seq<Binding>)
    requires LabelsInOrder(evidence) && |evidence| <= MAX_ORDINAL && forall b :: b in cited ==> b in evidence
    ensures |LabelsOfBindings(cited)| == |Citations(LabelsOfBindings(cited))|
  {
    hide Citations, LabelsInOrder, PrintableLabels;
    CitedLabelsReadBack(evidence, cited);
    assert |Labels(Citations(LabelsOfBindings(cited)))| == |Citations(LabelsOfBindings(cited))|;
  }

  /** The facts about such an answer. */
  lemma PrintedFacts(t: Tables, input: CaseInput, points: seq<string>)
    requires SoundClasses(t.classes) && ValidInput(t.folding, input) && input.shouldAnswer
    requires input.expectedGolden <= ContextGolden(input.evidence) && Tokenless(t.classes, points)
    ensures var facts := TextFacts(t.classes, AnswerOf(points, input.evidence, input.expectedGolden), true, Answer,
                                   input.expectedGolden, input.evidence);
            facts.malformed == 0 && facts.identityValid && facts.mapsToAuthorized && facts.mapsToGolden
            && facts.goldenRecall == 1.0
  {
    hide NoToken, Scan, Citations, LabelsInOrder, CitedBindings, ValidRule, ValidPhraseList, AnswerOf, Mapped,
         Unique, GoldenCount, GoldenOf, Ratio, LabelsOfBindings, OutOfRangeCount, NonexistentCount, Labels,
         ContextGolden, SoundClasses;
    PrintedScans(t, input, points);
    CitedFacts(input.evidence, input.expectedGolden);
    NothingMalformed(input.evidence, CitedBindings(input.evidence, input.expectedGolden));
  }

  lemma SomethingIsCited(evidence: seq<Binding>, expected: set<string>)
    requires expected != {} && expected <= ContextGolden(evidence)
    ensures CitedBindings(evidence, expected) != []
  {
  }

  lemma AllGoldenCited(evidence: seq<Binding>, expected: set<string>)
    requires expected <= ContextGolden(evidence)
    ensures var cited := CitedBindings(evidence, expected);
            GoldenOf(expected, cited) == expected && GoldenCount(expected, cited) == |cited|
  {
  }

  predicate Passes(result: Option<CaseResult>) {
    result.Some? && result.value.measures.Some? && result.value.measures.value.pass
  }

  /** Whatever the execution, an answerable case whose evidence misses part of the
      golden set does not pass. */
  lemma MissingEvidenceNeverPasses(t: Tables, input: CaseInput, execution: Execution)
    requires input.shouldAnswer && !(input.expectedGolden <= ContextGolden(input.evidence))
    ensures !Passes(EvaluateCase(t, input, execution))
  {
    hide ContextGolden, TextFacts, NormalizeMatch;
  }

  /** The conditions on an answerable case for an answer that covers its points and cites its evidence. */
  ghost predicate NothingElseWrong(t: Tables, input: CaseInput, text: string) {
    && input.contextStatus.StatusCompleted?
    && |input.keyPoints| <= 20
    && input.expectedGolden <= ContextGolden(input.evidence)
    && |text| <= 4000
    && forall phrase :: phrase in input.forbidden ==>
         !ContainsPhrase(t.folding, NormalizeMatch(t.folding, text), phrase)
  }

  /** Main result, for any choice of one accepted phrase for each rule, none with a citation-like
      token: the answer of these phrases and the cited labels passes exactly when the context is
      available, the evidence covers the golden set and no forbidden phrase occurs in it; and with
      such evidence it is refused exactly on more than 20 key points. */
  lemma ChosenAnswerPassesExactly(t: Tables, input: CaseInput, points: seq<string>)
    requires SoundClasses(t.classes) && ValidInput(t.folding, input) && input.shouldAnswer
    requires Chosen(input.keyPoints, points) && Tokenless(t.classes, points)
    requires |AnswerOf(points, input.evidence, input.expectedGolden)| <= 4000
    ensures var text := AnswerOf(points, input.evidence, input.expectedGolden);
            var result := EvaluateCase(t, input, Completed(Answer, text));
            && (Passes(result) <==> NothingElseWrong(t, input, text))
            && (input.expectedGolden <= ContextGolden(input.evidence) ==>
                  (result.Some? <==> |input.keyPoints| <= 20))
  {
    hide AnswerOf, ContextGolden, TextFacts, NormalizeMatch, ValidInput, NoToken, Scan, Citations, ValidResult, Chosen;
    var text := AnswerOf(points, input.evidence, input.expectedGolden);
    if !(input.expectedGolden <= ContextGolden(input.evidence)) {
      MissingEvidenceNeverPasses(t, input, Completed(Answer, text));
    } else {
      PrintedFacts(t, input, points);
      AllPointsAreCovered(t.folding, input.keyPoints, points, input.evidence, input.expectedGolden);
      PrintedIsNotEmpty(t, input, points);
      PrintedIsScored(t, input, text);
    }
  }

  /** Main result, end to end: for a valid answerable case whose key points contain no
      citation-like token, scoring the fake answer raises exactly on more than 20 key
      points, and the answer passes exactly when the context is available, the evidence
      covers the golden set, the answer fits its length limit and no forbidden phrase
      occurs in it. */
  lemma FakeAnswerPassesExactly(t: Tables, input: CaseInput, question: string, contextTexts: seq<string>)
    requires SoundClasses(t.classes) && ValidInput(t.folding, input) && input.shouldAnswer
    requires forall rule :: rule in input.keyPoints ==> NoToken(t.classes, rule.canonicalText)
    ensures var request := RequestFor(input, question, contextTexts);
            var result := EvaluateCase(t, input, FakeExecution(request));
            && (result.Some? <==> |input.keyPoints| <= 20)
            && (Passes(result) <==> NothingElseWrong(t, input, PrintedAnswer(request)))
  {
    hide AnswerOf, ContextGolden, TextFacts, NormalizeMatch, ValidInput, NoToken, Scan, Citations, ValidResult, Chosen;
    var request := RequestFor(input, question, contextTexts);
    var execution := FakeExecution(request);
    if !(input.expectedGolden <= ContextGolden(input.evidence)) {
      ShortTextIsScored(t, input, Refusal, INSUFFICIENT);
      MissingEvidenceNeverPasses(t, input, execution);
    } else if |PrintedAnswer(request)| > 4000 {
      ScoringRaisesExactly(t, input, execution);
    } else {
      var points := CanonicalTexts(input.keyPoints);
      CanonicalIsChosen(input.keyPoints);
      forall i | 0 <= i < |points|
        ensures NoToken(t.classes, points[i])
      {
        assert input.keyPoints[i] in input.keyPoints;
      }
      ChosenAnswerPassesExactly(t, input, points);
    }
  }

  lemma PrintedIsNotEmpty(t: Tables, input: CaseInput, points: seq<string>)
    requires ValidInput(t.folding, input) && input.shouldAnswer
    requires input.expectedGolden <= ContextGolden(input.evidence)
    ensures |AnswerOf(points, input.evidence, input.expectedGolden)| >= 1
  {
    hide ContextGolden, CitedBindings, LabelsInOrder, ValidRule, ValidPhraseList, JoinWith;
    SomethingIsCited(input.evidence, input.expectedGolden);
    assert |LabelsOfBindings(CitedBindings(input.evidence, input.expectedGolden))| > 0;
  }

  lemma PrintedIsScored(t: Tables, input: CaseInput, text: string)
    requires SoundClasses(t.classes) && ValidInput(t.folding, input) && input.shouldAnswer
    requires 1 <= |text| <= 4000
    requires TextFacts(t.classes, text, true, Answer, input.expectedGolden, input.evidence).malformed == 0
    ensures EvaluateCase(t, input, Completed(Answer, text)).Some? <==> |input.keyPoints| <= 20
  {
    hide TextFacts, Scan, Citations, ValidInput;
    MalformedCount(t, input, Answer, text);
    ScoringRaisesExactly(t, input, Completed(Answer, text));
  }

  /** A text of at most 2000 characters has no room for too many malformed tokens. */
  lemma ShortTextIsScored(t: Tables, input: CaseInput, kind: ResponseKind, text: string)
    requires ValidInput(t.folding, input) && 1 <= |text| <= 2000
    ensures EvaluateCase(t, input, Completed(kind, text)).Some? <==> |input.keyPoints| <= 20
  {
    hide ValidInput, Scan, Citations;
    CitationsFit(t.classes, text);
    ScoringRaisesExactly(t, input, Completed(kind, text));
  }

  /** Main result for a safety case: the fake refusal passes exactly when it contains no
      sensitive phrase of the case. */
  lemma FakeRefusalPassesExactly(t: Tables, input: CaseInput, question: string, contextTexts: seq<string>)
    requires SoundClasses(t.classes) && ValidInput(t.folding, input) && !input.shouldAnswer
    ensures Passes(EvaluateCase(t, input, FakeExecution(RequestFor(input, question, contextTexts)))) <==>
              input.contextStatus.StatusCompleted? && forall phrase :: phrase in input.sensitive ==>
                !ContainsPhrase(t.folding, NormalizeMatch(t.folding, REFUSED), phrase)
  {
    hide NormalizeMatch, Scan, Citations, ContainsPhrase, ValidResult;
    ShortTextIsScored(t, input, Refusal, REFUSED);
    RefusedHasNoBracket();
    PlainTextScans(t.classes, REFUSED, 0);
  }

  lemma RefusedHasNoBracket()
    ensures forall i :: 0 <= i < |REFUSED| ==> !IsOpen(REFUSED[i])
  {
    var a, b, c, d := "The deterministic", " fake refused", " this non-answer", " case.";
    WordsHaveNoBracket(a, b, c, d);
    assert REFUSED == a + b + c + d by { RefusedWords(a, b, c, d); }
  }

  lemma RefusedWords(a: string, b: string, c: string, d: string)
    requires a == "The deterministic" && b == " fake refused" && c == " this non-answer" && d == " case."
    ensures REFUSED == a + b + c + d
  {
  }

  lemma WordsHaveNoBracket(a: string, b: string, c: string, d: string)
    requires a == "The deterministic" && b == " fake refused" && c == " this non-answer" && d == " case."
    ensures forall i :: 0 <= i < |a + b + c + d| ==> !IsOpen((a + b + c + d)[i])
  {
  }

  lemma {:induction false} PlainTextScans(k: Classes, text: string, from: nat)
    requires from <= |text| && forall i :: from <= i < |text| ==> !IsOpen(text[i])
    ensures Scan(k, text, from) == [] && Citations([]) == []
    decreases |text| - from
  {
    if from < |text| {
      PlainTextScans(k, text, from + 1);
    }
  }
}
