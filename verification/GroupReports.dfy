/** What a completed group of an aggregate reports, counted over the results themselves
    (app/evals/answer_citation_metrics.py). */
module GroupReports {
  import opened AnswerAggregation
  import opened CitationScoring
  import opened Options
  import opened Rates
  import opened Strings

  /** The results that belong to a group. */
  ghost predicate Belongs(g: Group, r: CaseResult) {
    match g
    case AllAnswerable => r.shouldAnswer
    case RealGroup => r.shouldAnswer && r.cohort == RealCrossBorder
    case SyntheticGroup => r.shouldAnswer && r.cohort == SyntheticCrossBorder
    case DiagnosticsGroup => r.shouldAnswer && r.cohort == GeneralDiagnostics
    case SafetyGroup => !r.shouldAnswer
  }

  /** The sum over the results of a group. */
  ghost function SumIn(g: Group, results: seq<CaseResult>, count: CaseResult -> nat): nat {
    if results == [] then 0
    else
      var n := |results| - 1;
      SumIn(g, results[..n], count) + (if Belongs(g, results[n]) then count(results[n]) else 0)
  }

  ghost predicate Measured(r: CaseResult) { r.measures.Some? }
  ghost predicate Answers(r: CaseResult) { Measured(r) && r.measures.value.part.AnswerPart? }
  ghost predicate Refuses(r: CaseResult) { Measured(r) && r.measures.value.part.SafetyPart? }

  ghost function Each(r: CaseResult): nat { 1 }
  ghost function Passed(r: CaseResult): nat { if Measured(r) && r.measures.value.pass then 1 else 0 }
  ghost function IdentityValid(r: CaseResult): nat {
    if Measured(r) && r.measures.value.facts.identityValid then 1 else 0
  }
  ghost function SyntaxValid(r: CaseResult): nat { if Answers(r) && r.measures.value.facts.syntaxValid then 1 else 0 }
  ghost function AuthorizedValid(r: CaseResult): nat {
    if Answers(r) && r.measures.value.facts.mapsToAuthorized then 1 else 0
  }
  ghost function GoldenValid(r: CaseResult): nat { if Answers(r) && r.measures.value.facts.mapsToGolden then 1 else 0 }
  ghost function ContextComplete(r: CaseResult): nat {
    if Answers(r) && r.measures.value.part.contextComplete then 1 else 0
  }
  ghost function Answered(r: CaseResult): nat { if Answers(r) && r.measures.value.part.answered then 1 else 0 }
  ghost function FullyCovered(r: CaseResult): nat {
    if Answers(r) && r.measures.value.part.covered == r.expectedKeyPoints then 1 else 0
  }
  ghost function Forbidden(r: CaseResult): nat { if Answers(r) && r.measures.value.part.forbidden > 0 then 1 else 0 }
  ghost function PointsExpected(r: CaseResult): nat { if Answers(r) then r.expectedKeyPoints else 0 }
  ghost function PointsCovered(r: CaseResult): nat { if Answers(r) then r.measures.value.part.covered else 0 }
  ghost function CitationsUnique(r: CaseResult): nat { if Answers(r) then r.measures.value.facts.unique else 0 }
  ghost function CitationsGolden(r: CaseResult): nat { if Answers(r) then r.measures.value.facts.golden else 0 }
  ghost function GoldenExpected(r: CaseResult): nat { if Answers(r) then r.expectedGolden else 0 }
  ghost function GoldenCited(r: CaseResult): nat { if Answers(r) then r.measures.value.facts.citedGolden else 0 }
  ghost function Refused(r: CaseResult): nat { if Refuses(r) && r.measures.value.part.refused then 1 else 0 }
  ghost function Leaked(r: CaseResult): nat { if Refuses(r) && r.measures.value.part.leakage then 1 else 0 }

  /** The totals are the sums over the group's results. */
  ghost predicate TotalsAre(g: Group, results: seq<CaseResult>, t: Totals) {
    && t.cases == SumIn(g, results, Each)
    && t.passed == SumIn(g, results, Passed) && t.identityValid == SumIn(g, results, IdentityValid)
    && t.syntaxValid == SumIn(g, results, SyntaxValid) && t.authorizedValid == SumIn(g, results, AuthorizedValid)
    && t.goldenValid == SumIn(g, results, GoldenValid) && t.contextComplete == SumIn(g, results, ContextComplete)
    && t.answered == SumIn(g, results, Answered) && t.fullyCovered == SumIn(g, results, FullyCovered)
    && t.forbidden == SumIn(g, results, Forbidden)
    && t.expectedPoints == SumIn(g, results, PointsExpected) && t.coveredPoints == SumIn(g, results, PointsCovered)
    && t.unique == SumIn(g, results, CitationsUnique) && t.golden == SumIn(g, results, CitationsGolden)
    && t.expectedGolden == SumIn(g, results, GoldenExpected) && t.citedGolden == SumIn(g, results, GoldenCited)
    && t.refused == SumIn(g, results, Refused) && t.leaked == SumIn(g, results, Leaked)
  }

  /** The rate times the whole is the part; the rate of nothing is zero. */
  ghost predicate IsShare(rate: real, part: nat, whole: nat) {
    if whole == 0 then rate == 0.0 else rate * whole as real == part as real
  }

  lemma BelongsExactly(g: Group, r: CaseResult)
    ensures Belongs(g, r) <==> InGroup(g, IdentityOf(r))
  {
  }

  lemma NothingSums(g: Group)
    ensures TotalsAre(g, [], NOTHING)
  {
  }

  lemma SumStep(g: Group, front: seq<CaseResult>, r: CaseResult, count: CaseResult -> nat)
    ensures SumIn(g, front + [r], count) == SumIn(g, front, count) + (if Belongs(g, r) then count(r) else 0)
  {
    hide Belongs;
    assert (front + [r])[..|front + [r]| - 1] == front;
  }

  /** What one measured row adds. */
  ghost predicate RowIs(r: CaseResult, t: Totals) {
    && t.cases == Each(r) && t.passed == Passed(r) && t.identityValid == IdentityValid(r)
    && t.syntaxValid == SyntaxValid(r) && t.authorizedValid == AuthorizedValid(r) && t.goldenValid == GoldenValid(r)
    && t.contextComplete == ContextComplete(r) && t.answered == Answered(r) && t.fullyCovered == FullyCovered(r)
    && t.forbidden == Forbidden(r) && t.expectedPoints == PointsExpected(r) && t.coveredPoints == PointsCovered(r)
    && t.unique == CitationsUnique(r) && t.golden == CitationsGolden(r) && t.expectedGolden == GoldenExpected(r)
    && t.citedGolden == GoldenCited(r) && t.refused == Refused(r) && t.leaked == Leaked(r)
  }

  lemma RowCounts(r: CaseResult)
    requires r.measures.Some?
    ensures RowIs(r, RowTotals(r))
  {
  }

  lemma OneRowSums(g: Group, front: seq<CaseResult>, r: CaseResult, t: Totals)
    requires TotalsAre(g, front, t) && r.measures.Some?
    ensures TotalsAre(g, front + [r], if Belongs(g, r) then Plus(t, RowTotals(r)) else t)
  {
    hide Belongs, SumIn, RowTotals, Each, Passed, IdentityValid, SyntaxValid, AuthorizedValid, GoldenValid,
         ContextComplete, Answered, FullyCovered, Forbidden, PointsExpected, PointsCovered,
         CitationsUnique, CitationsGolden, GoldenExpected, GoldenCited, Refused, Leaked;
    RowCounts(r);
    SumStep(g, front, r, Each);
    SumStep(g, front, r, Passed);
    SumStep(g, front, r, IdentityValid);
    SumStep(g, front, r, SyntaxValid);
    SumStep(g, front, r, AuthorizedValid);
    SumStep(g, front, r, GoldenValid);
    SumStep(g, front, r, ContextComplete);
    SumStep(g, front, r, Answered);
    SumStep(g, front, r, FullyCovered);
    SumStep(g, front, r, Forbidden);
    SumStep(g, front, r, PointsExpected);
    SumStep(g, front, r, PointsCovered);
    SumStep(g, front, r, CitationsUnique);
    SumStep(g, front, r, CitationsGolden);
    SumStep(g, front, r, GoldenExpected);
    SumStep(g, front, r, GoldenCited);
    SumStep(g, front, r, Refused);
    SumStep(g, front, r, Leaked);
  }

  lemma {:induction false} TotalsAreSums(g: Group, results: seq<CaseResult>)
    requires AllValid(results)
    requires forall r :: r in results && Belongs(g, r) ==> r.status.StatusCompleted?
    ensures TotalsAre(g, results, TotalsOf(Select(g, results)))
  {
    hide Belongs, TotalsAre, RowTotals, Plus, ValidResult, Select, TotalsOf, InGroup;
    if results == [] {
      NothingSelected(g);
      NothingSums(g);
    } else {
      var n := |results| - 1;
      var front, last := results[..n], results[n];
      assert results == front + [last];
      TotalsAreSums(g, front);
      SelectSnoc(g, front, last);
      BelongsExactly(g, last);
      PlusNothing(TotalsOf(Select(g, front)));
      if Belongs(g, last) {
        ValidIsMeasured(last);
        OneRowSums(g, front, last, TotalsOf(Select(g, front)));
      } else {
        OtherRowSums(g, front, last, TotalsOf(Select(g, front)));
      }
    }
  }

  lemma NothingSelected(g: Group)
    ensures TotalsOf(Select(g, [])) == NOTHING
  {
  }

  lemma ValidIsMeasured(r: CaseResult)
    requires ValidResult(r)
    ensures r.status.StatusCompleted? <==> r.measures.Some?
  {
  }

  lemma OtherRowSums(g: Group, front: seq<CaseResult>, r: CaseResult, t: Totals)
    requires TotalsAre(g, front, t) && !Belongs(g, r)
    ensures TotalsAre(g, front + [r], t)
  {
    hide Belongs, SumIn;
    SumStep(g, front, r, Each);
    SumStep(g, front, r, Passed);
    SumStep(g, front, r, IdentityValid);
    SumStep(g, front, r, SyntaxValid);
    SumStep(g, front, r, AuthorizedValid);
    SumStep(g, front, r, GoldenValid);
    SumStep(g, front, r, ContextComplete);
    SumStep(g, front, r, Answered);
    SumStep(g, front, r, FullyCovered);
    SumStep(g, front, r, Forbidden);
    SumStep(g, front, r, PointsExpected);
    SumStep(g, front, r, PointsCovered);
    SumStep(g, front, r, CitationsUnique);
    SumStep(g, front, r, CitationsGolden);
    SumStep(g, front, r, GoldenExpected);
    SumStep(g, front, r, GoldenCited);
    SumStep(g, front, r, Refused);
    SumStep(g, front, r, Leaked);
  }

  lemma ShareOf(part: nat, whole: nat)
    ensures IsShare(Ratio(part, whole), part, whole)
  {
    if whole > 0 {
      RatioTimesWhole(part, whole);
    }
  }

  /** How many cases the frozen cohort has in each group. */
  ghost function Cases(g: Group): nat {
    if g == AllAnswerable then 34 else if g == RealGroup then 14 else if g == SafetyGroup then 6 else 10
  }

  /** What an answerable group reports: each rate is the share of its results, or of what they add up to. */
  ghost predicate ReportsAnswers(g: Group, results: seq<CaseResult>, rates: AnswerRates) {
    var n := Cases(g);
    && IsShare(rates.contextComplete, SumIn(g, results, ContextComplete), n)
    && IsShare(rates.answered, SumIn(g, results, Answered), n)
    && IsShare(rates.fullyCovered, SumIn(g, results, FullyCovered), n)
    && IsShare(rates.coverage, SumIn(g, results, PointsCovered), SumIn(g, results, PointsExpected))
    && IsShare(rates.forbidden, SumIn(g, results, Forbidden), n)
    && IsShare(rates.identityValid, SumIn(g, results, IdentityValid), n)
    && IsShare(rates.syntaxValid, SumIn(g, results, SyntaxValid), n)
    && IsShare(rates.authorizedValid, SumIn(g, results, AuthorizedValid), n)
    && IsShare(rates.goldenValid, SumIn(g, results, GoldenValid), n)
    && IsShare(rates.goldenPrecision, SumIn(g, results, CitationsGolden), SumIn(g, results, CitationsUnique))
    && IsShare(rates.goldenRecall, SumIn(g, results, GoldenCited), SumIn(g, results, GoldenExpected))
    && IsShare(rates.passed, SumIn(g, results, Passed), n)
  }

  ghost predicate ReportsRefusals(results: seq<CaseResult>, rates: SafetyRates) {
    && IsShare(rates.refused, SumIn(SafetyGroup, results, Refused), 6)
    && IsShare(rates.identityValid, SumIn(SafetyGroup, results, IdentityValid), 6)
    && IsShare(rates.leaked, SumIn(SafetyGroup, results, Leaked), 6)
    && IsShare(rates.passed, SumIn(SafetyGroup, results, Passed), 6)
  }

  lemma AnswerRatesAreShares(g: Group, results: seq<CaseResult>, t: Totals)
    requires TotalsAre(g, results, t) && t.cases == Cases(g)
    ensures ReportsAnswers(g, results, AnswerRatesOf(t))
  {
    hide IsShare, Ratio, SumIn;
    ShareOf(t.contextComplete, t.cases);
    ShareOf(t.answered, t.cases);
    ShareOf(t.fullyCovered, t.cases);
    ShareOf(t.coveredPoints, t.expectedPoints);
    ShareOf(t.forbidden, t.cases);
    ShareOf(t.identityValid, t.cases);
    ShareOf(t.syntaxValid, t.cases);
    ShareOf(t.authorizedValid, t.cases);
    ShareOf(t.goldenValid, t.cases);
    ShareOf(t.golden, t.unique);
    ShareOf(t.citedGolden, t.expectedGolden);
    ShareOf(t.passed, t.cases);
  }

  lemma SafetyRatesAreShares(results: seq<CaseResult>, t: Totals)
    requires TotalsAre(SafetyGroup, results, t) && t.cases == 6
    ensures ReportsRefusals(results, SafetyRatesOf(t))
  {
    hide IsShare, Ratio, SumIn;
    ShareOf(t.refused, t.cases);
    ShareOf(t.identityValid, t.cases);
    ShareOf(t.leaked, t.cases);
    ShareOf(t.passed, t.cases);
  }

  lemma {:induction false} CasesAreCounted(results: seq<CaseResult>)
    requires forall r :: r in results ==> r.measures.Some?
    ensures TotalsOf(results).cases == |results|
  {
    if results != [] {
      var n := |results| - 1;
      assert results[n] in results;
      CasesAreCounted(results[..n]);
    }
  }

  /** Main result: a completed group reports the sums and the shares of its own results, and there are
      as many of them as the group expects. */
  lemma GroupReportsItsResults(g: Group, results: seq<CaseResult>, cohort: EvaluationCohort)
    requires AllValid(results) && Aggregate(results, cohort).Ok?
    requires !Aggregate(results, cohort).value.At(g).GroupFailed?
    ensures var group := Aggregate(results, cohort).value.At(g);
            && SumIn(g, results, Each) == Cases(g) && TotalsAre(g, results, group.totals)
            && (if g.SafetyGroup? then group.Safety? && ReportsRefusals(results, group.safetyRates)
                else group.Answerable? && ReportsAnswers(g, results, group.rates))
  {
    hide Aggregate, TotalsOf, TotalsAre, Belongs, ValidResult, AnswerRatesOf, SafetyRatesOf, ValidTotals, Select,
         InGroup;
    var rows := Select(g, results);
    GroupAt(g, results, cohort);
    forall r | r in results && Belongs(g, r)
      ensures r.status.StatusCompleted?
    {
      BelongsExactly(g, r);
      assert r in rows;
    }
    forall r | r in rows
      ensures r.measures.Some?
    {
      ValidIsMeasured(r);
    }
    CasesAreCounted(rows);
    TotalsAreSums(g, results);
    GroupTotals(g, results, cohort);
    CountsAreTotals(g, results, TotalsOf(rows));
    if g.SafetyGroup? {
      SafetyRatesAreShares(results, TotalsOf(rows));
    } else {
      AnswerRatesAreShares(g, results, TotalsOf(rows));
    }
  }

  lemma CountsAreTotals(g: Group, results: seq<CaseResult>, t: Totals)
    requires TotalsAre(g, results, t)
    ensures t.cases == SumIn(g, results, Each)
  {
  }

  lemma GroupTotals(g: Group, results: seq<CaseResult>, cohort: EvaluationCohort)
    requires Aggregate(results, cohort).Ok? && !Aggregate(results, cohort).value.At(g).GroupFailed?
    ensures var group := Aggregate(results, cohort).value.At(g);
            && group.totals == TotalsOf(Select(g, results)) && |Select(g, results)| == Size(g)
            && (if g.SafetyGroup? then group.Safety? && group.safetyRates == SafetyRatesOf(group.totals)
                else group.Answerable? && group.rates == AnswerRatesOf(group.totals))
  {
    hide Aggregate, TotalsOf, Select, AnswerRatesOf, SafetyRatesOf, ValidTotals;
    GroupAt(g, results, cohort);
  }
}
