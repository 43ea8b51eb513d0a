/** The in-memory run over the frozen cohort (`run_m2_answer_citation_fake_evaluation`,
    app/evals/answer_citation_runner.py) and the report it must satisfy
    (app/evals/answer_citation_report.py). */
module AnswerRun {
  import opened AnswerAggregation
  import opened AnswerCache
  import opened CitationLabels
  import opened CitationScanner
  import opened CitationScoring
  import opened FakeAnswer
  import opened Options
  import opened Strings

  /** `AnswerCitationFakeCaseInput`. `frozenCohort` is the cohort that freezing derives from
      the case; `input.cohort` is the one the caller states. */
  datatype FakeCase = FakeCase(input: CaseInput, question: string, contextTexts: seq<string>, frozenCohort: Cohort)

  /** A SHA-256 digest, taken as injective: it stands for exactly what was hashed. */
  datatype Digest =
    | OfText(text: string)
    | OfTexts(texts: seq<string>)
    | OfRules(rules: seq<KeyPointRule>, forbidden: seq<string>, sensitive: seq<string>, expected: set<string>)
    | OfRequest(key: Key)
    | OfTrace(trace: Trace)
    | OfDigests(digests: seq<Digest>)

  /** `AnswerCitationPublicTrace`. */
  datatype Trace = Trace(
    caseId: string, sourceGroup: string, cohort: Cohort, shouldAnswer: bool,
    questionHash: Digest, contextHash: Digest, rulesHash: Digest, requestHash: Digest, outputHash: Option<Digest>,
    result: CaseResult)

  /** `AnswerCitationCaseRunResult`. */
  datatype Row = Row(trace: Trace, traceHash: Digest)

  /** `AnswerCitationEvaluationReport`, without its fixed identities. */
  datatype Report = Report(cohort: EvaluationCohort, rows: seq<Row>, grouped: Grouped, cache: CacheStats,
                           traceSetHash: Digest)

  datatype RunError = InvalidCohort | InvalidCases | ScoringRaised | AggregationRaised | InvalidReport

  // ----- Validators

  /** `validate_trace`. */
  predicate ValidTrace(t: Trace) {
    && t.result.caseId == t.caseId && t.result.sourceGroup == t.sourceGroup
    && t.result.cohort == t.cohort && t.result.shouldAnswer == t.shouldAnswer
    && (t.outputHash.None? <==> !t.result.executed)
  }

  /** `validate_trace_hash`. */
  predicate ValidRow(row: Row) { ValidTrace(row.trace) && row.traceHash == OfTrace(row.trace) }

  function ResultsOf(rows: seq<Row>): seq<CaseResult> {
    seq(|rows|, i requires 0 <= i < |rows| => rows[i].trace.result)
  }

  function HashesOf(rows: seq<Row>): seq<Digest> {
    seq(|rows|, i requires 0 <= i < |rows| => rows[i].traceHash)
  }

  function ExecutedCount(rows: seq<Row>): nat {
    if rows == [] then 0
    else ExecutedCount(rows[..|rows| - 1]) + (if rows[|rows| - 1].trace.result.executed then 1 else 0)
  }

  predicate SameOrder(cohort: EvaluationCohort, rows: seq<Row>) {
    && |rows| == |Rows(cohort)|
    && forall i :: 0 <= i < |rows| ==> rows[i].trace.caseId == Rows(cohort)[i].caseId
  }

  /** `validate_report`. */
  predicate ValidReport(r: Report) {
    && ValidCohort(r.cohort)
    && (forall i :: 0 <= i < |r.rows| ==> ValidRow(r.rows[i]))
    && SameOrder(r.cohort, r.rows)
    && Aggregate(ResultsOf(r.rows), r.cohort) == Ok(r.grouped)
    && r.traceSetHash == OfDigests(HashesOf(r.rows))
    && ValidStats(r.cache)
    && r.cache.requests == |r.rows| && r.cache.hits == 0 && r.cache.misses == |r.rows| && r.cache.calls == |r.rows|
    && r.cache.entries == ExecutedCount(r.rows)
  }

  // ----- The run

  /** `freeze_answer_citation_cohort`. */
  function FrozenIdentity(c: FakeCase): Identity {
    Identity(c.input.caseId, c.input.sourceGroup, if c.input.shouldAnswer then c.frozenCohort else SafetyAclVersion,
             c.input.shouldAnswer, if c.input.shouldAnswer then None else c.input.reason)
  }

  function FrozenRows(cases: seq<FakeCase>, shouldAnswer: bool): (rows: seq<Identity>)
    ensures forall i :: i in rows <==>
              exists c :: c in cases && c.input.shouldAnswer == shouldAnswer && i == FrozenIdentity(c)
  {
    if cases == [] then []
    else
      var n := |cases| - 1;
      assert cases == cases[..n] + [cases[n]];
      FrozenRows(cases[..n], shouldAnswer) +
        (if cases[n].input.shouldAnswer == shouldAnswer then [FrozenIdentity(cases[n])] else [])
  }

  function Freeze(cases: seq<FakeCase>): EvaluationCohort {
    EvaluationCohort(FrozenRows(cases, true), FrozenRows(cases, false))
  }

  /** `_validate_fake_cases`, for what depends on the cases. */
  predicate ValidCases(cases: seq<FakeCase>, cohort: EvaluationCohort) {
    && |cases| == 40
    && (forall i, j :: 0 <= i < j < |cases| ==> cases[i].input.caseId != cases[j].input.caseId)
    && |cases| == |Rows(cohort)|
    && (forall i :: 0 <= i < |cases| ==> cases[i].input.caseId == Rows(cohort)[i].caseId)
    && (forall i :: 0 <= i < |cases| ==> cases[i].input.contextStatus.StatusCompleted?)
  }

  function RequestOf(c: FakeCase): Request { RequestFor(c.input, c.question, c.contextTexts) }

  function KeyOf(identity: string, c: FakeCase): Key { Key(identity, RequestOf(c)) }

  function RulesDigest(c: FakeCase): Digest {
    OfRules(c.input.keyPoints, c.input.forbidden, c.input.sensitive, c.input.expectedGolden)
  }

  function TraceOf(identity: string, c: FakeCase, execution: Execution, result: CaseResult): Trace {
    Trace(c.input.caseId, c.input.sourceGroup, c.input.cohort, c.input.shouldAnswer, OfText(c.question),
          OfTexts(c.contextTexts),
          RulesDigest(c), OfRequest(KeyOf(identity, c)),
          if execution.Completed? then Some(OfText(execution.text)) else None, result)
  }

  /** A case scored on what a direct call of the provider gives. */
  function ScoredDirectly(t: Tables, world: World, identity: string, c: FakeCase): Option<CaseResult> {
    EvaluateCase(t, c.input, Uncached(world, KeyOf(identity, c)))
  }

  predicate AllScored(t: Tables, world: World, identity: string, cases: seq<FakeCase>) {
    forall i :: 0 <= i < |cases| ==> ScoredDirectly(t, world, identity, cases[i]).Some?
  }

  function DirectRow(t: Tables, world: World, identity: string, c: FakeCase): Row
    requires ScoredDirectly(t, world, identity, c).Some?
  {
    var trace := TraceOf(identity, c, Uncached(world, KeyOf(identity, c)), ScoredDirectly(t, world, identity, c).value);
    Row(trace, OfTrace(trace))
  }

  function DirectRows(t: Tables, world: World, identity: string, cases: seq<FakeCase>): seq<Row>
    requires AllScored(t, world, identity, cases)
  {
    seq(|cases|, i requires 0 <= i < |cases| => DirectRow(t, world, identity, cases[i]))
  }

  function Keys(identity: string, cases: seq<FakeCase>): seq<Key> {
    seq(|cases|, i requires 0 <= i < |cases| => KeyOf(identity, cases[i]))
  }

  /** The report that direct calls, without a cache, would justify. */
  function Outcome(t: Tables, world: World, identity: string, cases: seq<FakeCase>): Result<Report, RunError> {
    var cohort := Freeze(cases);
    if !ValidCohort(cohort) then Err(InvalidCohort)
    else if !ValidCases(cases, cohort) then Err(InvalidCases)
    else if !AllScored(t, world, identity, cases) then Err(ScoringRaised)
    else
      var rows := DirectRows(t, world, identity, cases);
      match Aggregate(ResultsOf(rows), cohort)
      case Err(_) => Err(AggregationRaised)
      case Ok(grouped) =>
        var n := |cases|;
        Ok(Report(cohort, rows, grouped, CacheStats(n, 0, n, n, ExecutedCount(rows)), OfDigests(HashesOf(rows))))
  }

  /** The request that is made for a case. */
  ghost function RequestMade(c: FakeCase): Request {
    var input := c.input;
    Request(input.caseId, c.question, input.shouldAnswer, input.reason, input.contextStatus, c.contextTexts,
            input.expectedGolden, input.evidence, input.keyPoints)
  }

  /** What a row says about its case: whose it is, what was asked and given, and by which rules the
      provider's response was scored. */
  ghost predicate DescribesCase(t: Tables, world: World, identity: string, c: FakeCase, row: Row) {
    var response := world(identity)(RequestMade(c));
    && row.trace.caseId == c.input.caseId && row.trace.sourceGroup == c.input.sourceGroup
    && row.trace.cohort == c.input.cohort && row.trace.shouldAnswer == c.input.shouldAnswer
    && row.trace.questionHash == OfText(c.question) && row.trace.contextHash == OfTexts(c.contextTexts)
    && row.trace.rulesHash == OfRules(c.input.keyPoints, c.input.forbidden, c.input.sensitive, c.input.expectedGolden)
    && row.trace.requestHash == OfRequest(Key(identity, RequestMade(c)))
    && row.trace.outputHash == (if response.Returned? && response.execution.Completed?
                                then Some(OfText(response.execution.text)) else None)
    && EvaluateCase(t, c.input,
                    if response.Returned? then response.execution
                    else if response.WrongType? then ProviderFailed("output_invalid")
                    else ProviderFailed("provider_error")) == Some(row.trace.result)
    && row.traceHash == OfTrace(row.trace)
  }

  /** The rows describe the cases, in their order, and the report lists their digests. */
  ghost predicate DescribesRun(t: Tables, world: World, identity: string, cases: seq<FakeCase>, report: Report) {
    && report.cohort == Freeze(cases) && |report.rows| == |cases|
    && (forall i :: 0 <= i < |cases| ==> DescribesCase(t, world, identity, cases[i], report.rows[i]))
    && report.traceSetHash == OfDigests(seq(|cases|, i requires 0 <= i < |cases| => report.rows[i].traceHash))
  }

  lemma DirectRowDescribes(t: Tables, world: World, identity: string, c: FakeCase)
    requires ScoredDirectly(t, world, identity, c).Some?
    ensures DescribesCase(t, world, identity, c, DirectRow(t, world, identity, c))
  {
    hide EvaluateCase;
  }

  lemma OutcomeDescribes(t: Tables, world: World, identity: string, cases: seq<FakeCase>)
    requires Outcome(t, world, identity, cases).Ok?
    ensures DescribesRun(t, world, identity, cases, Outcome(t, world, identity, cases).value)
  {
    hide ScoredDirectly, DirectRow, DescribesCase, Freeze, ValidCohort, ValidCases, Aggregate, ExecutedCount;
    forall i | 0 <= i < |cases|
      ensures DescribesCase(t, world, identity, cases[i], DirectRows(t, world, identity, cases)[i])
    {
      DirectRowDescribes(t, world, identity, cases[i]);
    }
  }

  /** Main result: the run through the cache gives the report that direct calls justify,
      and its last step, the report's own validator, never fails. */
  method RunFakeEvaluation(t: Tables, cases: seq<FakeCase>, provider: AnswerProvider, ghost world: World)
    returns (outcome: Result<Report, RunError>)
    requires provider.respond == world(provider.identity)
    modifies provider`callCount
    ensures outcome == Outcome(t, world, provider.identity, cases)
    ensures outcome.Ok? ==> ValidReport(outcome.value) && provider.callCount == old(provider.callCount) + |cases|
    ensures outcome.Ok? ==> DescribesRun(t, world, provider.identity, cases, outcome.value)
  {
    hide DescribesRun;
    hide ValidCohort, ValidReport, Aggregate, Freeze, Rows, EvaluateCase, Step, Run, DirectRow, Keys;
    var cohort := Freeze(cases);
    if !ValidCohort(cohort) {
      return Err(InvalidCohort);
    }
    if !ValidCases(cases, cohort) {
      return Err(InvalidCases);
    }
    var identity := provider.identity;
    var cache := new RunAnswerCache();
    var rows: seq<Row> := [];
    NoKeysYet(identity, cases);
    for i := 0 to |cases|
      invariant fresh(cache)
      invariant AllScored(t, world, identity, cases[..i])
      invariant rows == DirectRows(t, world, identity, cases[..i])
      invariant cache.Valid(world) && cache.asked == Keys(identity, cases[..i])
      invariant provider.callCount == old(provider.callCount) + cache.calls
    {
      var c := cases[i];
      RunOneMore(world, identity, cases, i);
      var execution := cache.GetOrGenerate(RequestOf(c), provider, world);
      var result := EvaluateAnswerCitationCase(t, c.input, execution);
      if result.None? {
        assert ScoredDirectly(t, world, identity, cases[i]).None?;
        return Err(ScoringRaised);
      }
      var trace := TraceOf(identity, c, execution, result.value);
      RowsSnoc(t, world, identity, cases, i);
      assert Row(trace, OfTrace(trace)) == DirectRow(t, world, identity, c) by { DirectRowOf(t, world, identity, c); }
      rows := rows + [Row(trace, OfTrace(trace))];
    }
    assert cases[..|cases|] == cases;
    var grouped := Aggregate(ResultsOf(rows), cohort);
    if grouped.Err? {
      return Err(AggregationRaised);
    }
    var stats := cache.Stats(world);
    FinalStats(t, world, identity, cases);
    var report := Report(cohort, rows, grouped.value, stats.value, OfDigests(HashesOf(rows)));
    ReportIsValid(t, world, identity, cases);
    OutcomeDescribes(t, world, identity, cases);
    if !ValidReport(report) {
      return Err(InvalidReport);
    }
    return Ok(report);
  }

  lemma NoKeysYet(identity: string, cases: seq<FakeCase>)
    ensures Keys(identity, cases[..0]) == []
  {
  }

  /** The next request of the run, answered as by a direct call. */
  lemma RunOneMore(world: World, identity: string, cases: seq<FakeCase>, i: nat)
    requires i < |cases|
    ensures var s := Run(world, Keys(identity, cases[..i])).0;
            Step(world, s, KeyOf(identity, cases[i])).1 == Uncached(world, KeyOf(identity, cases[i]))
    ensures Keys(identity, cases[..i + 1]) == Keys(identity, cases[..i]) + [KeyOf(identity, cases[i])]
  {
    hide KeyOf, Uncached, Step;
    var keys := Keys(identity, cases[..i + 1]);
    assert keys[..i] == Keys(identity, cases[..i]);
    assert keys[i] == KeyOf(identity, cases[i]);
    CacheRefinesDirectCalls(world, keys);
  }

  lemma DirectRowOf(t: Tables, world: World, identity: string, c: FakeCase)
    requires ScoredDirectly(t, world, identity, c).Some?
    ensures var trace := TraceOf(identity, c, Uncached(world, KeyOf(identity, c)),
                                 ScoredDirectly(t, world, identity, c).value);
            DirectRow(t, world, identity, c) == Row(trace, OfTrace(trace))
  {
  }

  lemma RowsSnoc(t: Tables, world: World, identity: string, cases: seq<FakeCase>, i: nat)
    requires i < |cases| && AllScored(t, world, identity, cases[..i])
             && ScoredDirectly(t, world, identity, cases[i]).Some?
    ensures AllScored(t, world, identity, cases[..i + 1])
    ensures DirectRows(t, world, identity, cases[..i + 1]) ==
              DirectRows(t, world, identity, cases[..i]) + [DirectRow(t, world, identity, cases[i])]
  {
    hide ScoredDirectly, DirectRow;
    assert forall k :: 0 <= k < i ==> cases[..i + 1][k] == cases[..i][k];
  }

  /** The requests of different cases are different. */
  lemma KeysAreDistinct(identity: string, cases: seq<FakeCase>)
    requires forall i, j :: 0 <= i < j < |cases| ==> cases[i].input.caseId != cases[j].input.caseId
    ensures Distinct(Keys(identity, cases))
  {
  }

  lemma ExecutedRow(t: Tables, world: World, identity: string, c: FakeCase)
    requires ScoredDirectly(t, world, identity, c).Some?
    ensures DirectRow(t, world, identity, c).trace.result.executed == Completes(world, KeyOf(identity, c))
    ensures ValidRow(DirectRow(t, world, identity, c))
  {
    hide ValidInput, ValidResult, Measured;
  }

  lemma {:induction false} ExecutedAreCompleted(t: Tables, world: World, identity: string, cases: seq<FakeCase>)
    requires AllScored(t, world, identity, cases)
    ensures ExecutedCount(DirectRows(t, world, identity, cases)) == CompletedCount(world, Keys(identity, cases))
  {
    hide ScoredDirectly, DirectRow, KeyOf, Completes;
    if cases != [] {
      var n := |cases| - 1;
      ExecutedAreCompleted(t, world, identity, cases[..n]);
      var rows, keys := DirectRows(t, world, identity, cases), Keys(identity, cases);
      assert rows[..n] == DirectRows(t, world, identity, cases[..n]);
      assert keys[..n] == Keys(identity, cases[..n]);
      assert rows[n] == DirectRow(t, world, identity, cases[n]) && keys[n] == KeyOf(identity, cases[n]);
      ExecutedRow(t, world, identity, cases[n]);
    }
  }

  /** Main result: over different cases the cache never hits, every row is one provider call,
      and there is one entry for each completed execution. */
  lemma FinalStats(t: Tables, world: World, identity: string, cases: seq<FakeCase>)
    requires AllScored(t, world, identity, cases)
    requires forall i, j :: 0 <= i < j < |cases| ==> cases[i].input.caseId != cases[j].input.caseId
    ensures var n := |cases|;
            StatsOf(Run(world, Keys(identity, cases)).0) ==
              CacheStats(n, 0, n, n, ExecutedCount(DirectRows(t, world, identity, cases)))
  {
    hide Run, AllScored, KeyOf, DirectRows, Answered, Repeats, Uncached, ExecutedCount, CompletedCount;
    var keys := Keys(identity, cases);
    KeysAreDistinct(identity, cases);
    DistinctRequestsNeverHit(world, keys);
    CacheRefinesDirectCalls(world, keys);
    ExecutedAreCompleted(t, world, identity, cases);
    var s := Run(world, keys).0;
    assert |s.values| == |s.values.Keys|;
  }

  lemma SameIds(t: Tables, world: World, identity: string, cases: seq<FakeCase>)
    requires AllScored(t, world, identity, cases) && ValidCases(cases, Freeze(cases))
    ensures SameOrder(Freeze(cases), DirectRows(t, world, identity, cases))
  {
    hide Rows, Freeze, ScoredDirectly;
    forall i | 0 <= i < |cases|
      ensures DirectRows(t, world, identity, cases)[i].trace.caseId == cases[i].input.caseId
    {
      DirectRowOf(t, world, identity, cases[i]);
    }
  }

  lemma ReportIsValid(t: Tables, world: World, identity: string, cases: seq<FakeCase>)
    requires Outcome(t, world, identity, cases).Ok?
    ensures ValidReport(Outcome(t, world, identity, cases).value)
  {
    hide ValidCohort, Aggregate, Freeze, Rows, ScoredDirectly, DirectRow, SameOrder, ExecutedCount, ValidRow;
    var rows := DirectRows(t, world, identity, cases);
    SameIds(t, world, identity, cases);
    forall i | 0 <= i < |rows|
      ensures ValidRow(rows[i])
    {
      ExecutedRow(t, world, identity, cases[i]);
    }
    FewExecuted(rows);
  }

  lemma {:induction false} FewExecuted(rows: seq<Row>)
    ensures ExecutedCount(rows) <= |rows|
  {
    if rows != [] {
      FewExecuted(rows[..|rows| - 1]);
    }
  }

  // ----- When the run succeeds

  /** Main result: with a frozen cohort and valid cases, the run succeeds exactly when scoring
      raises for no case and no case states another cohort than the frozen one. */
  lemma RunSucceedsExactly(t: Tables, world: World, identity: string, cases: seq<FakeCase>)
    requires ValidCohort(Freeze(cases)) && ValidCases(cases, Freeze(cases))
    ensures Outcome(t, world, identity, cases).Ok? <==>
              && AllScored(t, world, identity, cases)
              && forall c :: c in cases && c.input.shouldAnswer ==> c.input.cohort == c.frozenCohort
  {
    hide ValidCohort, Aggregate, Freeze, ScoredDirectly, DirectRow, ValidCases, IdentityOf, FrozenIdentity;
    if AllScored(t, world, identity, cases) {
      var cohort, results := Freeze(cases), ResultsOf(DirectRows(t, world, identity, cases));
      ResultsKeepIds(t, world, identity, cases);
      AllAreScored(t, world, identity, cases);
      IdentitiesKeptExactly(t, world, identity, cases);
      if forall c :: c in cases && c.input.shouldAnswer ==> c.input.cohort == c.frozenCohort {
        ScoredResultsAggregate(results, cohort);
      } else {
        AggregationNeedsIdentities(results, cohort);
      }
    }
  }

  lemma AggregationNeedsIdentities(results: seq<CaseResult>, cohort: EvaluationCohort)
    ensures Aggregate(results, cohort).Ok? ==> forall r :: r in results ==> IdentityOf(r) in Rows(cohort)
  {
  }

  lemma ResultOf(t: Tables, world: World, identity: string, c: FakeCase)
    requires ScoredDirectly(t, world, identity, c).Some?
    ensures var r := DirectRow(t, world, identity, c).trace.result;
            && r == ScoredDirectly(t, world, identity, c).value && ScoredResult(r)
            && IdentityOf(r) == Identity(c.input.caseId, c.input.sourceGroup, c.input.cohort, c.input.shouldAnswer,
                                         c.input.reason)
            && (c.input.shouldAnswer ==> c.input.reason.None?)
            && (!c.input.shouldAnswer ==> c.input.cohort.SafetyAclVersion?)
  {
    hide ValidResult, Measured, ValidPhraseList, ValidRule;
    assert EvaluateCase(t, c.input, Uncached(world, KeyOf(identity, c))) ==
           Some(DirectRow(t, world, identity, c).trace.result);
  }

  lemma AllAreScored(t: Tables, world: World, identity: string, cases: seq<FakeCase>)
    requires AllScored(t, world, identity, cases)
    ensures forall r :: r in ResultsOf(DirectRows(t, world, identity, cases)) ==> ScoredResult(r)
  {
    hide ScoredDirectly, DirectRow, ScoredResult;
    var results := ResultsOf(DirectRows(t, world, identity, cases));
    forall r | r in results
      ensures ScoredResult(r)
    {
      var i :| 0 <= i < |results| && results[i] == r;
      ResultOf(t, world, identity, cases[i]);
    }
  }

  /** The results have the ids of the cohort, each once. */
  lemma ResultsKeepIds(t: Tables, world: World, identity: string, cases: seq<FakeCase>)
    requires AllScored(t, world, identity, cases) && ValidCases(cases, Freeze(cases))
    ensures var results := ResultsOf(DirectRows(t, world, identity, cases));
            |results| == |Ids(results)| && Ids(results) == RowIds(Rows(Freeze(cases)))
  {
    hide ScoredDirectly, DirectRow, Rows, Freeze;
    var results, rows := ResultsOf(DirectRows(t, world, identity, cases)), Rows(Freeze(cases));
    forall i | 0 <= i < |cases|
      ensures results[i].caseId == cases[i].input.caseId
    {
      ResultOf(t, world, identity, cases[i]);
    }
    DistinctIdsCount(results);
    IdsOfSameOrder(results, rows);
  }

  lemma OneRowPerCase(cases: seq<FakeCase>, i: nat, row: Identity)
    requires i < |cases| && ValidCases(cases, Freeze(cases)) && row in Rows(Freeze(cases))
             && row.caseId == cases[i].input.caseId
    ensures row == FrozenIdentity(cases[i])
  {
  }

  lemma FrozenIsRow(cases: seq<FakeCase>, i: nat)
    requires i < |cases|
    ensures FrozenIdentity(cases[i]) in Rows(Freeze(cases))
  {
  }

  lemma IdentitiesKeptExactly(t: Tables, world: World, identity: string, cases: seq<FakeCase>)
    requires AllScored(t, world, identity, cases) && ValidCases(cases, Freeze(cases))
    ensures (forall r :: r in ResultsOf(DirectRows(t, world, identity, cases)) ==>
             IdentityOf(r) in Rows(Freeze(cases))) <==>
            (forall c :: c in cases && c.input.shouldAnswer ==> c.input.cohort == c.frozenCohort)
  {
    hide ScoredDirectly, DirectRow, Rows, Freeze, ValidCases;
    var results, rows := ResultsOf(DirectRows(t, world, identity, cases)), Rows(Freeze(cases));
    forall i | 0 <= i < |cases|
      ensures IdentityOf(results[i]) in rows <==>
                (cases[i].input.shouldAnswer ==> cases[i].input.cohort == cases[i].frozenCohort)
    {
      ResultOf(t, world, identity, cases[i]);
      FrozenIsRow(cases, i);
      if IdentityOf(results[i]) in rows {
        OneRowPerCase(cases, i, IdentityOf(results[i]));
      }
    }
    if forall r :: r in results ==> IdentityOf(r) in rows {
      forall c | c in cases && c.input.shouldAnswer
        ensures c.input.cohort == c.frozenCohort
      {
        var i :| 0 <= i < |cases| && cases[i] == c;
        assert results[i] in results;
      }
    }
    if forall c :: c in cases && c.input.shouldAnswer ==> c.input.cohort == c.frozenCohort {
      forall r | r in results
        ensures IdentityOf(r) in rows
      {
        var i :| 0 <= i < |results| && results[i] == r;
        assert cases[i] in cases;
      }
    }
  }

  // ----- With the deterministic fake provider

  function FakeWorld(isSpace: char -> bool): World {
    identity => (request: Request) => FakeResponse(isSpace, request)
  }

  /** A valid case whose key points have no outer white space and no citation-like token. */
  ghost predicate OrdinaryCase(t: Tables, c: FakeCase) {
    && ValidInput(t.folding, c.input) && |c.input.keyPoints| <= 20
    && (c.input.shouldAnswer ==> c.input.cohort == c.frozenCohort)
    && forall i :: 0 <= i < |c.input.keyPoints| ==>
         HasNoOuterSpace(t.classes.isSpace, c.input.keyPoints[i].canonicalText)
         && NoToken(t.classes, c.input.keyPoints[i].canonicalText)
  }

  /** What decides whether the fake answer of a case passes. */
  ghost predicate ShouldPass(t: Tables, c: FakeCase) {
    if c.input.shouldAnswer then
      && c.input.expectedGolden <= ContextGolden(c.input.evidence)
      && |PrintedAnswer(RequestOf(c))| <= 4000
      && NoPhraseIn(t, PrintedAnswer(RequestOf(c)), c.input.forbidden)
    else NoPhraseIn(t, REFUSED, c.input.sensitive)
  }

  ghost predicate NoPhraseIn(t: Tables, text: string, phrases: seq<string>) {
    forall phrase :: phrase in phrases ==> !ContainsPhrase(t.folding, NormalizeMatch(t.folding, text), phrase)
  }

  lemma LabelsHaveNoOuterSpace(t: Tables, evidence: seq<Binding>)
    requires SoundClasses(t.classes) && LabelsInOrder(evidence)
    ensures forall i :: 0 <= i < |evidence| ==> HasNoOuterSpace(t.classes.isSpace, evidence[i].citationLabel)
  {
  }

  lemma FakeIsUncached(t: Tables, identity: string, c: FakeCase)
    requires SoundClasses(t.classes) && OrdinaryCase(t, c)
    ensures Uncached(FakeWorld(t.classes.isSpace), KeyOf(identity, c)) == FakeExecution(RequestOf(c))
  {
    hide PrintedAnswer, ContextGolden, Strip, SoundClasses, NoToken, LabelsInOrder, ValidRule, ValidPhraseList,
         FakeResponse, FakeExecution;
    LabelsHaveNoOuterSpace(t, c.input.evidence);
    if c.input.shouldAnswer {
      FakeResponseIsFakeExecution(t.classes.isSpace, RequestOf(c));
    } else {
      FakeRefusal(t.classes.isSpace, RequestOf(c));
    }
  }

  lemma FakeRefusal(isSpace: char -> bool, request: Request)
    requires !request.shouldAnswer
    ensures FakeResponse(isSpace, request) == Returned(FakeExecution(request))
  {
  }

  /** The fake's case is scored, and passes exactly when it should. */
  lemma FakeCaseIsScored(t: Tables, identity: string, c: FakeCase)
    requires SoundClasses(t.classes) && OrdinaryCase(t, c) && c.input.contextStatus.StatusCompleted?
    ensures var result := ScoredDirectly(t, FakeWorld(t.classes.isSpace), identity, c);
            result.Some? && (Passes(result) <==> ShouldPass(t, c))
  {
    hide EvaluateCase, FakeExecution, PrintedAnswer, ContextGolden, NormalizeMatch, ContainsPhrase, ValidInput,
         NoToken, SoundClasses, Passes;
    FakeIsUncached(t, identity, c);
    if c.input.shouldAnswer {
      forall rule | rule in c.input.keyPoints
        ensures NoToken(t.classes, rule.canonicalText)
      {
      }
      FakeAnswerPassesExactly(t, c.input, c.question, c.contextTexts);
    } else {
      RefusalIsExecuted(RequestOf(c));
      ShortTextIsScored(t, c.input, Refusal, REFUSED);
      FakeRefusalPassesExactly(t, c.input, c.question, c.contextTexts);
    }
  }

  lemma RefusalIsExecuted(request: Request)
    requires !request.shouldAnswer
    ensures FakeExecution(request) == Completed(Refusal, REFUSED) && 1 <= |REFUSED| <= 2000
  {
  }

  /** Main result, across the printer, the cache, the scanner, the scorer, the aggregation and
      the report: over a valid cohort of ordinary cases the fake run gives a valid report, in
      which exactly the rows pass that should. */
  lemma FakeRunSucceeds(t: Tables, identity: string, cases: seq<FakeCase>)
    requires SoundClasses(t.classes) && ValidCohort(Freeze(cases)) && ValidCases(cases, Freeze(cases))
    requires forall i :: 0 <= i < |cases| ==> OrdinaryCase(t, cases[i])
    ensures var outcome := Outcome(t, FakeWorld(t.classes.isSpace), identity, cases);
            && outcome.Ok? && ValidReport(outcome.value) && |outcome.value.rows| == |cases|
            && forall i :: 0 <= i < |cases| ==>
                 (Passes(Some(outcome.value.rows[i].trace.result)) <==> ShouldPass(t, cases[i]))
  {
    hide SoundClasses, ValidCohort, Freeze, ShouldPass, Passes, ScoredDirectly, Aggregate, ValidReport, FakeWorld,
         DirectRow, Rows, ValidInput, NoToken, HasNoOuterSpace;
    var world := FakeWorld(t.classes.isSpace);
    forall i | 0 <= i < |cases|
      ensures ScoredDirectly(t, world, identity, cases[i]).Some?
      ensures Passes(ScoredDirectly(t, world, identity, cases[i])) <==> ShouldPass(t, cases[i])
    {
      FakeCaseIsScored(t, identity, cases[i]);
    }
    forall c | c in cases && c.input.shouldAnswer
      ensures c.input.cohort == c.frozenCohort
    {
      var i :| 0 <= i < |cases| && cases[i] == c;
      assert OrdinaryCase(t, cases[i]);
    }
    RunSucceedsExactly(t, world, identity, cases);
    ReportIsValid(t, world, identity, cases);
    forall i | 0 <= i < |cases|
      ensures Outcome(t, world, identity, cases).value.rows[i].trace.result ==
                ScoredDirectly(t, world, identity, cases[i]).value
    {
      ResultOf(t, world, identity, cases[i]);
    }
  }
}
