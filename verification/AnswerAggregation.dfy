/** Aggregation over the frozen evaluation cohort: `aggregate_answer_citation_results`
    and its groups (app/evals/answer_citation_metrics.py), with the validators of the
    cohort and of the group results (app/schemas/evaluation.py). */
module AnswerAggregation {
  import opened CitationScoring
  import opened MatchText
  import opened CitationLabels
  import opened CitationScanner
  import opened Options
  import opened Rates
  import opened Strings

  /** What the cohort freezes about a case, and a result must not change. */
  datatype Identity = Identity(caseId: string, sourceGroup: string, cohort: Cohort, shouldAnswer: bool,
                               reason: Option<string>)

  /** `AnswerCitationEvaluationCohort`. */
  datatype EvaluationCohort = EvaluationCohort(answerable: seq<Identity>, safety: seq<Identity>)

  datatype Group = AllAnswerable | RealGroup | SyntheticGroup | DiagnosticsGroup | SafetyGroup

  function Size(g: Group): nat {
    match g
    case AllAnswerable => 34
    case RealGroup => 14
    case SyntheticGroup => 10
    case DiagnosticsGroup => 10
    case SafetyGroup => 6
  }

  predicate InGroup(g: Group, i: Identity) {
    match g
    case AllAnswerable => i.shouldAnswer
    case RealGroup => i.shouldAnswer && i.cohort.RealCrossBorder?
    case SyntheticGroup => i.shouldAnswer && i.cohort.SyntheticCrossBorder?
    case DiagnosticsGroup => i.shouldAnswer && i.cohort.GeneralDiagnostics?
    case SafetyGroup => !i.shouldAnswer
  }

  function CountIn(g: Group, rows: seq<Identity>): nat {
    if rows == [] then 0
    else CountIn(g, rows[..|rows| - 1]) + (if InGroup(g, rows[|rows| - 1]) then 1 else 0)
  }

  function ReasonCount(reason: string, rows: seq<Identity>): nat {
    if rows == [] then 0
    else ReasonCount(reason, rows[..|rows| - 1]) + (if rows[|rows| - 1].reason == Some(reason) then 1 else 0)
  }

  function Rows(cohort: EvaluationCohort): seq<Identity> { cohort.answerable + cohort.safety }

  /** `validate_cohort` with the types of the rows. */
  predicate ValidCohort(cohort: EvaluationCohort) {
    && |cohort.answerable| == Size(AllAnswerable) && |cohort.safety| == Size(SafetyGroup)
    && (forall i, j :: 0 <= i < j < |Rows(cohort)| ==> Rows(cohort)[i].caseId != Rows(cohort)[j].caseId)
    && (forall i :: i in cohort.answerable ==> i.shouldAnswer && i.reason.None? && !i.cohort.SafetyAclVersion?)
    && (forall i :: i in cohort.safety ==> !i.shouldAnswer && i.reason.Some? && i.cohort.SafetyAclVersion?)
    && CountIn(RealGroup, cohort.answerable) == Size(RealGroup)
    && CountIn(SyntheticGroup, cohort.answerable) == Size(SyntheticGroup)
    && CountIn(DiagnosticsGroup, cohort.answerable) == Size(DiagnosticsGroup)
    && ReasonCount("acl_denied", cohort.safety) == 2 && ReasonCount("version_unavailable", cohort.safety) == 2
    && ReasonCount("no_evidence", cohort.safety) == 1 && ReasonCount("unknown", cohort.safety) == 1
  }

  function IdentityOf(r: CaseResult): Identity {
    Identity(r.caseId, r.sourceGroup, r.cohort, r.shouldAnswer, r.reason)
  }

  function Select(g: Group, results: seq<CaseResult>): (selected: seq<CaseResult>)
    ensures forall r :: r in selected <==> r in results && InGroup(g, IdentityOf(r))
  {
    if results == [] then []
    else
      var n := |results| - 1;
      assert results == results[..n] + [results[n]];
      Select(g, results[..n]) + (if InGroup(g, IdentityOf(results[n])) then [results[n]] else [])
  }

  // ----- Totals and rates

  /** Every sum a group result is made of. */
  datatype Totals = Totals(
    cases: nat, contextComplete: nat, answered: nat, fullyCovered: nat, forbidden: nat, identityValid: nat,
    syntaxValid: nat, authorizedValid: nat, goldenValid: nat, passed: nat,
    expectedPoints: nat, coveredPoints: nat, unique: nat, golden: nat, expectedGolden: nat, citedGolden: nat,
    refused: nat, leaked: nat)

  const NOTHING := Totals(0, 0, 0, 0, 0, 0, 0, 0, 0, 0, 0, 0, 0, 0, 0, 0, 0, 0)

  function Plus(a: Totals, b: Totals): Totals {
    Totals(a.cases + b.cases, a.contextComplete + b.contextComplete, a.answered + b.answered,
           a.fullyCovered + b.fullyCovered, a.forbidden + b.forbidden, a.identityValid + b.identityValid,
           a.syntaxValid + b.syntaxValid, a.authorizedValid + b.authorizedValid, a.goldenValid + b.goldenValid,
           a.passed + b.passed, a.expectedPoints + b.expectedPoints, a.coveredPoints + b.coveredPoints,
           a.unique + b.unique, a.golden + b.golden, a.expectedGolden + b.expectedGolden, a.citedGolden + b.citedGolden,
           a.refused + b.refused, a.leaked + b.leaked)
  }

  function One(b: bool): nat { if b then 1 else 0 }

  /** What one row adds; an unmeasured row is never added. */
  function RowTotals(r: CaseResult): Totals {
    if r.measures.None? then NOTHING
    else
      var m := r.measures.value;
      match m.part
      case AnswerPart(contextComplete, covered, _, forbidden, answered) =>
        Totals(1, One(contextComplete), One(answered), One(covered == r.expectedKeyPoints), One(forbidden > 0),
               One(m.facts.identityValid), One(m.facts.syntaxValid), One(m.facts.mapsToAuthorized),
               One(m.facts.mapsToGolden),
               One(m.pass), r.expectedKeyPoints, covered, m.facts.unique, m.facts.golden, r.expectedGolden,
               m.facts.citedGolden, 0, 0)
      case SafetyPart(refused, leakage) =>
        Totals(1, 0, 0, 0, 0, One(m.facts.identityValid), 0, 0, 0, One(m.pass), 0, 0, 0, 0, 0, 0, One(refused),
               One(leakage))
  }

  function TotalsOf(results: seq<CaseResult>): Totals {
    if results == [] then NOTHING else Plus(TotalsOf(results[..|results| - 1]), RowTotals(results[|results| - 1]))
  }

  datatype AnswerRates = AnswerRates(
    contextComplete: real, answered: real, fullyCovered: real, coverage: real, forbidden: real, identityValid: real,
    syntaxValid: real, authorizedValid: real, goldenValid: real, goldenPrecision: real, goldenRecall: real,
    passed: real)

  datatype SafetyRates = SafetyRates(refused: real, identityValid: real, leaked: real, passed: real)

  datatype GroupResult =
    | GroupFailed
    | Answerable(totals: Totals, rates: AnswerRates)
    | Safety(totals: Totals, safetyRates: SafetyRates)

  function AnswerRatesOf(t: Totals): AnswerRates {
    AnswerRates(Ratio(t.contextComplete, t.cases), Ratio(t.answered, t.cases), Ratio(t.fullyCovered, t.cases),
                Ratio(t.coveredPoints, t.expectedPoints), Ratio(t.forbidden, t.cases), Ratio(t.identityValid, t.cases),
                Ratio(t.syntaxValid, t.cases), Ratio(t.authorizedValid, t.cases), Ratio(t.goldenValid, t.cases),
                Ratio(t.golden, t.unique), Ratio(t.citedGolden, t.expectedGolden), Ratio(t.passed, t.cases))
  }

  function SafetyRatesOf(t: Totals): SafetyRates {
    SafetyRates(Ratio(t.refused, t.cases), Ratio(t.identityValid, t.cases), Ratio(t.leaked, t.cases),
                Ratio(t.passed, t.cases))
  }

  datatype AggregateError = DuplicateIds | WrongIds | ChangedIdentity | LostRow | InvalidGroup

  /** `AnswerCitationAnswerableGroupResult.validate_aggregate` with the bounds of its fields. */
  predicate ValidTotals(t: Totals, expected: nat) {
    && t.contextComplete <= expected && t.answered <= expected && t.fullyCovered <= expected && t.forbidden <= expected
    && t.identityValid <= expected && t.syntaxValid <= expected && t.authorizedValid <= expected
    && t.goldenValid <= expected && t.passed <= expected
    && 1 <= t.expectedPoints <= 680 && t.coveredPoints <= t.expectedPoints
    && t.unique <= 34000 && t.golden <= 408 && t.golden <= t.unique
    && 1 <= t.expectedGolden <= 680 && t.citedGolden <= t.expectedGolden
  }

  predicate Complete(results: seq<CaseResult>) {
    forall r :: r in results ==> r.status.StatusCompleted?
  }

  /** `_aggregate_answerable_group` and `_aggregate_safety_group`. */
  function AggregateGroup(g: Group, results: seq<CaseResult>): Result<GroupResult, AggregateError> {
    if |results| != Size(g) then Err(LostRow)
    else if !Complete(results) then Ok(GroupFailed)
    else
      var t := TotalsOf(results);
      if g.SafetyGroup? then Ok(Safety(t, SafetyRatesOf(t)))
      else if ValidTotals(t, Size(g)) then Ok(Answerable(t, AnswerRatesOf(t)))
      else Err(InvalidGroup)
  }

  /** `AnswerCitationGroupedResults`. */
  datatype Grouped = Grouped(all: GroupResult, realBorder: GroupResult, synthetic: GroupResult,
                             diagnostics: GroupResult, safety: GroupResult)
  {
    function At(g: Group): GroupResult {
      match g
      case AllAnswerable => all
      case RealGroup => realBorder
      case SyntheticGroup => synthetic
      case DiagnosticsGroup => diagnostics
      case SafetyGroup => safety
    }
  }

  function Ids(results: seq<CaseResult>): set<string> { set r | r in results :: r.caseId }
  function RowIds(rows: seq<Identity>): set<string> { set i | i in rows :: i.caseId }

  /** `aggregate_answer_citation_results`. A case of the cohort has one row only, so a result
      keeps its identity exactly when that identity is a row. */
  function Aggregate(results: seq<CaseResult>, cohort: EvaluationCohort): Result<Grouped, AggregateError> {
    if |results| != |Ids(results)| then Err(DuplicateIds)
    else if Ids(results) != RowIds(Rows(cohort)) then Err(WrongIds)
    else if exists r :: r in results && IdentityOf(r) !in Rows(cohort) then Err(ChangedIdentity)
    else
      var all := AggregateGroup(AllAnswerable, Select(AllAnswerable, results));
      var realBorder := AggregateGroup(RealGroup, Select(RealGroup, results));
      var synthetic := AggregateGroup(SyntheticGroup, Select(SyntheticGroup, results));
      var diagnostics := AggregateGroup(DiagnosticsGroup, Select(DiagnosticsGroup, results));
      var safety := AggregateGroup(SafetyGroup, Select(SafetyGroup, results));
      if all.Err? then Err(all.error)
      else if realBorder.Err? then Err(realBorder.error)
      else if synthetic.Err? then Err(synthetic.error)
      else if diagnostics.Err? then Err(diagnostics.error)
      else if safety.Err? then Err(safety.error)
      else Ok(Grouped(all.value, realBorder.value, synthetic.value, diagnostics.value, safety.value))
  }

  // ----- The order of the results does not matter

  lemma SelectAppended(g: Group, front: seq<CaseResult>, last: CaseResult)
    ensures Select(g, front + [last]) == Select(g, front) + (if InGroup(g, IdentityOf(last)) then [last] else [])
  {
    hide InGroup;
    assert (front + [last])[..|front + [last]| - 1] == front;
  }

  lemma {:induction false} SelectCounts(g: Group, results: seq<CaseResult>, r: CaseResult)
    ensures multiset(Select(g, results))[r] == if InGroup(g, IdentityOf(r)) then multiset(results)[r] else 0
  {
    hide InGroup, Select;
    if results == [] {
      SelectNothing(g);
    } else {
      var front, last := results[..|results| - 1], results[|results| - 1];
      SelectCounts(g, front, r);
      SelectAppended(g, front, last);
      assert results == front + [last];
    }
  }

  lemma SelectNothing(g: Group)
    ensures Select(g, []) == []
  {
  }

  lemma SelectPermutes(g: Group, xs: seq<CaseResult>, ys: seq<CaseResult>)
    requires multiset(xs) == multiset(ys)
    ensures multiset(Select(g, xs)) == multiset(Select(g, ys))
  {
    forall r
      ensures multiset(Select(g, xs))[r] == multiset(Select(g, ys))[r]
    {
      SelectCounts(g, xs, r);
      SelectCounts(g, ys, r);
    }
  }

  lemma PlusSwaps(a: Totals, b: Totals, c: Totals)
    ensures Plus(Plus(a, b), c) == Plus(Plus(a, c), b)
  {
  }

  lemma {:induction false} TotalsWithout(results: seq<CaseResult>, j: nat)
    requires j < |results|
    ensures TotalsOf(results) == Plus(TotalsOf(results[..j] + results[j + 1..]), RowTotals(results[j]))
  {
    hide RowTotals, Plus;
    var n := |results| - 1;
    var rest := results[..j] + results[j + 1..];
    if j == n {
      assert rest == results[..n];
    } else {
      TotalsWithout(results[..n], j);
      assert results[..n][..j] + results[..n][j + 1..] == rest[..n - 1];
      assert rest[n - 1] == results[n];
      PlusSwaps(TotalsOf(rest[..n - 1]), RowTotals(results[j]), RowTotals(results[n]));
    }
  }

  lemma {:induction false} TotalsPermute(xs: seq<CaseResult>, ys: seq<CaseResult>)
    requires multiset(xs) == multiset(ys)
    ensures TotalsOf(xs) == TotalsOf(ys)
    decreases |xs|
  {
    hide RowTotals, Plus;
    assert |multiset(xs)| == |xs| && |multiset(ys)| == |ys|;
    if xs != [] {
      var j := LastFound(xs, ys);
      TotalsPermute(xs[..|xs| - 1], ys[..j] + ys[j + 1..]);
      TotalsWithout(ys, j);
    }
  }

  /** The last element of one list in the other, and what is left of both without it. */
  lemma LastFound(xs: seq<CaseResult>, ys: seq<CaseResult>) returns (j: nat)
    requires multiset(xs) == multiset(ys) && xs != []
    ensures j < |ys| && ys[j] == xs[|xs| - 1]
    ensures multiset(xs[..|xs| - 1]) == multiset(ys[..j] + ys[j + 1..])
  {
    var n := |xs| - 1;
    SameElements(xs, ys);
    assert xs[n] in ys;
    j :| 0 <= j < |ys| && ys[j] == xs[n];
    ElementsWithout(xs, n);
    ElementsWithout(ys, j);
    assert xs[..n] + xs[n + 1..] == xs[..n];
  }

  lemma ElementsWithout(xs: seq<CaseResult>, j: nat)
    requires j < |xs|
    ensures multiset(xs[..j] + xs[j + 1..]) == multiset(xs) - multiset{xs[j]}
  {
    assert xs == xs[..j] + [xs[j]] + xs[j + 1..];
  }

  lemma SameElements(xs: seq<CaseResult>, ys: seq<CaseResult>)
    requires multiset(xs) == multiset(ys)
    ensures |xs| == |ys| && forall r :: r in xs <==> r in ys
  {
    assert |multiset(xs)| == |xs| && |multiset(ys)| == |ys|;
    forall r
      ensures r in xs <==> r in ys
    {
      assert r in xs <==> r in multiset(xs);
      assert r in ys <==> r in multiset(ys);
    }
  }

  lemma GroupIgnoresOrder(g: Group, xs: seq<CaseResult>, ys: seq<CaseResult>)
    requires multiset(xs) == multiset(ys)
    ensures AggregateGroup(g, Select(g, xs)) == AggregateGroup(g, Select(g, ys))
  {
    SelectPermutes(g, xs, ys);
    SameElements(Select(g, xs), Select(g, ys));
    TotalsPermute(Select(g, xs), Select(g, ys));
  }

  /** Main result: the aggregate, or its error, does not depend on the order of the results. */
  lemma AggregateIgnoresOrder(xs: seq<CaseResult>, ys: seq<CaseResult>, cohort: EvaluationCohort)
    requires multiset(xs) == multiset(ys)
    ensures Aggregate(xs, cohort) == Aggregate(ys, cohort)
  {
    hide AggregateGroup, Select, Rows;
    SameElements(xs, ys);
    assert Ids(xs) == Ids(ys);
    GroupIgnoresOrder(AllAnswerable, xs, ys);
    GroupIgnoresOrder(RealGroup, xs, ys);
    GroupIgnoresOrder(SyntheticGroup, xs, ys);
    GroupIgnoresOrder(DiagnosticsGroup, xs, ys);
    GroupIgnoresOrder(SafetyGroup, xs, ys);
  }

  // ----- Every row is in its groups

  function Identities(results: seq<CaseResult>): seq<Identity> {
    seq(|results|, i requires 0 <= i < |results| => IdentityOf(results[i]))
  }

  lemma {:induction false} SelectedCount(g: Group, results: seq<CaseResult>)
    ensures |Select(g, results)| == CountIn(g, Identities(results))
  {
    if results != [] {
      var n := |results| - 1;
      SelectedCount(g, results[..n]);
      assert Identities(results)[..n] == Identities(results[..n]);
    }
  }

  function GroupSet(g: Group, rows: seq<Identity>): set<Identity> { set i | i in rows && InGroup(g, i) }

  lemma GroupSetSnoc(g: Group, rows: seq<Identity>, row: Identity)
    ensures GroupSet(g, rows + [row]) == if InGroup(g, row) then GroupSet(g, rows) + {row} else GroupSet(g, rows)
  {
  }

  /** Distinct rows of a group are counted by the set of them. */
  lemma {:induction false} CountIsSetSize(g: Group, rows: seq<Identity>)
    requires Distinct(rows)
    ensures CountIn(g, rows) == |GroupSet(g, rows)|
  {
    hide InGroup;
    if rows != [] {
      var n := |rows| - 1;
      CountIsSetSize(g, rows[..n]);
      GroupSetSnoc(g, rows[..n], rows[n]);
      assert rows == rows[..n] + [rows[n]];
      assert rows[n] !in rows[..n];
    }
  }

  lemma {:induction false} FewIds(results: seq<CaseResult>)
    ensures |Ids(results)| <= |results|
    ensures |Ids(results)| == |results| ==>
              forall i, j :: 0 <= i < j < |results| ==> results[i].caseId != results[j].caseId
  {
    hide Ids;
    if results == [] {
      NoIds();
    } else {
      var n := |results| - 1;
      var front, last := results[..n], results[n];
      FewIds(front);
      IdsSnoc(front, last);
      assert results == front + [last];
    }
  }

  lemma NoIds()
    ensures Ids([]) == {}
  {
  }

  lemma IdsSnoc(front: seq<CaseResult>, last: CaseResult)
    ensures |Ids(front + [last])| <= |Ids(front)| + 1
    ensures |Ids(front + [last])| == |Ids(front)| + 1 ==>
              forall i :: 0 <= i < |front| ==> front[i].caseId != last.caseId
  {
    assert Ids(front + [last]) == Ids(front) + {last.caseId};
    forall i | 0 <= i < |front|
      ensures front[i].caseId in Ids(front)
    {
      assert front[i] in front;
    }
  }

  lemma {:induction false} DistinctIdsCount(results: seq<CaseResult>)
    requires forall i, j :: 0 <= i < j < |results| ==> results[i].caseId != results[j].caseId
    ensures |Ids(results)| == |results|
  {
    if results == [] {
      assert Ids(results) == {};
    } else {
      var n := |results| - 1;
      DistinctIdsCount(results[..n]);
      assert results == results[..n] + [results[n]];
      assert Ids(results) == Ids(results[..n]) + {results[n].caseId};
    }
  }

  lemma IdsOfSameOrder(results: seq<CaseResult>, rows: seq<Identity>)
    requires |results| == |rows| && forall i :: 0 <= i < |rows| ==> rows[i].caseId == results[i].caseId
    ensures Ids(results) == RowIds(rows)
  {
    forall id
      ensures id in Ids(results) <==> id in RowIds(rows)
    {
      if id in Ids(results) {
        var i :| 0 <= i < |results| && results[i].caseId == id;
        assert rows[i] in rows;
      }
      if id in RowIds(rows) {
        var i :| 0 <= i < |rows| && rows[i].caseId == id;
        assert results[i] in results;
      }
    }
  }

  /** Results that pass the three checks are the rows of the cohort, in some order. */
  lemma ResultsAreRows(results: seq<CaseResult>, cohort: EvaluationCohort)
    requires ValidCohort(cohort) && |results| == |Ids(results)| && Ids(results) == RowIds(Rows(cohort))
    requires forall r :: r in results ==> IdentityOf(r) in Rows(cohort)
    ensures Distinct(Identities(results)) && Distinct(Rows(cohort))
    ensures forall i :: i in Identities(results) <==> i in Rows(cohort)
  {
    hide CountIn;
    FewIds(results);
    var rows := Rows(cohort);
    forall i | i in Identities(results)
      ensures i in rows
    {
      var k :| 0 <= k < |results| && Identities(results)[k] == i;
      assert results[k] in results;
    }
    forall i | i in rows
      ensures i in Identities(results)
    {
      assert i.caseId in RowIds(rows);
      var r :| r in results && r.caseId == i.caseId;
      var k :| 0 <= k < |results| && results[k] == r;
      assert Identities(results)[k] == IdentityOf(r);
      assert IdentityOf(r) in rows;
      var a, b :| 0 <= a < |rows| && 0 <= b < |rows| && rows[a] == i && rows[b] == IdentityOf(r);
      assert a == b;
    }
  }

  lemma {:induction false} CountInConcat(g: Group, a: seq<Identity>, b: seq<Identity>)
    ensures CountIn(g, a + b) == CountIn(g, a) + CountIn(g, b)
  {
    if b == [] {
      assert a + b == a;
    } else {
      var n := |b| - 1;
      CountInConcat(g, a, b[..n]);
      assert (a + b)[..|a + b| - 1] == a + b[..n];
    }
  }

  lemma {:induction false} CountAllOrNone(g: Group, rows: seq<Identity>)
    ensures (forall i :: i in rows ==> InGroup(g, i)) ==> CountIn(g, rows) == |rows|
    ensures (forall i :: i in rows ==> !InGroup(g, i)) ==> CountIn(g, rows) == 0
  {
    if rows != [] {
      CountAllOrNone(g, rows[..|rows| - 1]);
    }
  }

  /** A valid cohort has as many rows in each group as the group expects. */
  lemma CohortSizes(g: Group, cohort: EvaluationCohort)
    requires ValidCohort(cohort)
    ensures CountIn(g, Rows(cohort)) == Size(g)
  {
    CountInConcat(g, cohort.answerable, cohort.safety);
    CountAllOrNone(g, cohort.answerable);
    CountAllOrNone(g, cohort.safety);
  }

  /** The three identity checks already fix every group's size. */
  lemma NoGroupLosesARow(g: Group, results: seq<CaseResult>, cohort: EvaluationCohort)
    requires ValidCohort(cohort) && |results| == |Ids(results)| && Ids(results) == RowIds(Rows(cohort))
    requires forall r :: r in results ==> IdentityOf(r) in Rows(cohort)
    ensures |Select(g, results)| == Size(g)
  {
    hide CountIn, Select, ValidCohort, Rows, Ids, InGroup;
    ResultsAreRows(results, cohort);
    SelectedCount(g, results);
    CountIsSetSize(g, Identities(results));
    CountIsSetSize(g, Rows(cohort));
    CohortSizes(g, cohort);
    assert GroupSet(g, Identities(results)) == GroupSet(g, Rows(cohort));
  }

  // ----- When aggregation raises

  ghost predicate AllValid(results: seq<CaseResult>) {
    forall r :: r in results ==> ValidResult(r)
  }

  /** A measured answerable row: what it adds. */
  lemma RowBounds(r: CaseResult)
    requires ValidResult(r) && r.status.StatusCompleted? && r.shouldAnswer
    ensures var t := RowTotals(r);
            && t.cases == 1 && t.contextComplete <= 1 && t.answered <= 1 && t.fullyCovered <= 1 && t.forbidden <= 1
            && t.identityValid <= 1 && t.syntaxValid <= 1 && t.authorizedValid <= 1 && t.goldenValid <= 1
            && t.passed <= 1
            && 1 <= t.expectedPoints <= 20 && t.coveredPoints <= t.expectedPoints && t.unique <= 1000 && t.golden <= 12
            && 1 <= t.expectedGolden <= 20 && t.citedGolden <= t.expectedGolden
  {
    var covered := r.measures.value.part.covered;
    RatioCompares(covered, r.expectedKeyPoints, 1.0);
  }

  ghost predicate WithinBounds(t: Totals, n: nat) {
    && t.cases == n && t.contextComplete <= n && t.answered <= n && t.fullyCovered <= n && t.forbidden <= n
    && t.identityValid <= n && t.syntaxValid <= n && t.authorizedValid <= n && t.goldenValid <= n && t.passed <= n
    && n <= t.expectedPoints <= 20 * n && t.coveredPoints <= t.expectedPoints && t.unique <= 1000 * n
    && t.golden <= 12 * n
    && n <= t.expectedGolden <= 20 * n && t.citedGolden <= t.expectedGolden
  }

  lemma {:induction false} TotalsBounds(results: seq<CaseResult>)
    requires AllValid(results) && Complete(results) && forall r :: r in results ==> r.shouldAnswer
    ensures WithinBounds(TotalsOf(results), |results|)
  {
    hide ValidResult, RowTotals;
    if results != [] {
      var n := |results| - 1;
      assert results[n] in results;
      RowBounds(results[n]);
      TotalsBounds(results[..n]);
    }
  }

  /** A complete group is invalid exactly when it has more golden citations than citations. */
  lemma GroupInvalidExactly(g: Group, results: seq<CaseResult>)
    requires AllValid(results) && |Select(g, results)| == Size(g)
    ensures AggregateGroup(g, Select(g, results)).Ok? <==>
              (!g.SafetyGroup? && Complete(Select(g, results)) ==>
                 TotalsOf(Select(g, results)).golden <= TotalsOf(Select(g, results)).unique)
  {
    hide ValidResult, TotalsOf;
    var rows := Select(g, results);
    if !g.SafetyGroup? && Complete(rows) {
      TotalsBounds(rows);
    }
  }

  ghost predicate GoldenWithinCitations(g: Group, results: seq<CaseResult>) {
    !g.SafetyGroup? && Complete(Select(g, results)) ==>
      TotalsOf(Select(g, results)).golden <= TotalsOf(Select(g, results)).unique
  }

  /** Main result: aggregation succeeds exactly on one result for each case of the cohort
      with an unchanged identity, unless a group's golden citations outnumber its citations. */
  lemma AggregateSucceedsExactly(results: seq<CaseResult>, cohort: EvaluationCohort)
    requires ValidCohort(cohort) && AllValid(results)
    ensures Aggregate(results, cohort).Ok? <==>
              && |results| == |Ids(results)|
              && Ids(results) == RowIds(Rows(cohort))
              && (forall r :: r in results ==> IdentityOf(r) in Rows(cohort))
              && forall g :: GoldenWithinCitations(g, results)
    ensures Aggregate(results, cohort) != Err(LostRow)
  {
    hide AggregateGroup, Select, Rows, ValidCohort, AllValid, Ids, RowIds, Complete, TotalsOf, InGroup;
    if
      && |results| == |Ids(results)| && Ids(results) == RowIds(Rows(cohort))
      && forall r :: r in results ==> IdentityOf(r) in Rows(cohort)
    {
      GroupOutcome(AllAnswerable, results, cohort);
      GroupOutcome(RealGroup, results, cohort);
      GroupOutcome(SyntheticGroup, results, cohort);
      GroupOutcome(DiagnosticsGroup, results, cohort);
      GroupOutcome(SafetyGroup, results, cohort);
    }
  }

  lemma GroupOutcome(g: Group, results: seq<CaseResult>, cohort: EvaluationCohort)
    requires ValidCohort(cohort) && AllValid(results)
    requires |results| == |Ids(results)| && Ids(results) == RowIds(Rows(cohort))
    requires forall r :: r in results ==> IdentityOf(r) in Rows(cohort)
    ensures AggregateGroup(g, Select(g, results)).Ok? <==> GoldenWithinCitations(g, results)
    ensures AggregateGroup(g, Select(g, results)) != Err(LostRow)
  {
    NoGroupLosesARow(g, results, cohort);
    GroupInvalidExactly(g, results);
  }

  /** Results that scoring built never make a group invalid. */
  lemma {:induction false} ScoredGoldenFits(results: seq<CaseResult>)
    requires forall r :: r in results ==> ScoredResult(r)
    ensures TotalsOf(results).golden <= TotalsOf(results).unique
  {
    hide ScoredResult;
    if results != [] {
      var n := |results| - 1;
      assert results[n] in results;
      ScoredRowFits(results[n]);
      ScoredGoldenFits(results[..n]);
    }
  }

  ghost predicate ScoredResult(r: CaseResult) {
    exists t, input, execution :: EvaluateCase(t, input, execution) == Some(r)
  }

  lemma ScoredRowFits(r: CaseResult)
    requires ScoredResult(r)
    ensures RowTotals(r).golden <= RowTotals(r).unique
  {
  }

  /** Main result: scored results, one for each case of the cohort, always aggregate. */
  lemma ScoredResultsAggregate(results: seq<CaseResult>, cohort: EvaluationCohort)
    requires ValidCohort(cohort) && forall r :: r in results ==> ScoredResult(r)
    requires |results| == |Ids(results)| && Ids(results) == RowIds(Rows(cohort))
    requires forall r :: r in results ==> IdentityOf(r) in Rows(cohort)
    ensures Aggregate(results, cohort).Ok?
  {
    hide ValidCohort, Rows, Ids, RowIds, Aggregate, ValidResult;
    assert AllValid(results);
    forall g
      ensures GoldenWithinCitations(g, results)
    {
      ScoredGoldenFits(Select(g, results));
    }
    AggregateSucceedsExactly(results, cohort);
  }

  /** What the counts of scored rows say about each other. */
  ghost predicate CoherentAnswers(t: Totals) {
    && t.passed <= t.contextComplete && t.passed <= t.answered && t.passed <= t.fullyCovered
    && t.passed <= t.goldenValid
    && t.goldenValid <= t.identityValid <= t.authorizedValid <= t.syntaxValid
    && t.passed + t.forbidden <= t.cases
    && t.golden <= t.unique && t.citedGolden <= t.expectedGolden && t.coveredPoints <= t.expectedPoints
  }

  ghost predicate CoherentRefusals(t: Totals) {
    t.passed <= t.refused && t.passed <= t.identityValid && t.passed + t.leaked <= t.cases
  }

  lemma ScoredRowIsCoherent(r: CaseResult)
    requires ScoredResult(r)
    ensures if r.shouldAnswer then CoherentAnswers(RowTotals(r)) else CoherentRefusals(RowTotals(r))
  {
    hide NormalizeMatch, Scan, Citations, OutOfRangeCount, NonexistentCount, Unique, Mapped, GoldenCount, GoldenOf,
         Labels, PhraseCount, CoveredKeyPoints, ContextGolden, ValidInput, AnswerAttributions, SafetyAttributions,
         Distinct;
  }

  /** Main result: in the totals of scored rows no more cases pass than are answered, covered and
      cited properly, and passing cases are neither forbidden assertions nor leaks. */
  lemma {:induction false} ScoredTotalsAreCoherent(results: seq<CaseResult>)
    requires forall r :: r in results ==> ScoredResult(r)
    ensures (forall r :: r in results ==> r.shouldAnswer) ==> CoherentAnswers(TotalsOf(results))
    ensures (forall r :: r in results ==> !r.shouldAnswer) ==> CoherentRefusals(TotalsOf(results))
  {
    hide ScoredResult, RowTotals, Plus, CoherentAnswers, CoherentRefusals;
    if results == [] {
      NothingIsCoherent();
    } else {
      var front, last := results[..|results| - 1], results[|results| - 1];
      assert last in results;
      ScoredRowIsCoherent(last);
      ScoredTotalsAreCoherent(front);
      SumIsCoherent(TotalsOf(front), RowTotals(last));
    }
  }

  lemma NothingIsCoherent()
    ensures CoherentAnswers(NOTHING) && CoherentRefusals(NOTHING)
  {
  }

  lemma SumIsCoherent(a: Totals, b: Totals)
    ensures CoherentAnswers(a) && CoherentAnswers(b) ==> CoherentAnswers(Plus(a, b))
    ensures CoherentRefusals(a) && CoherentRefusals(b) ==> CoherentRefusals(Plus(a, b))
  {
  }

  // ----- The all-answerable group is the sum of the three cohorts

  /** A row adds to a sum what it adds to one of three parts. */
  lemma PlusSpreads(a: Totals, b: Totals, c: Totals, x: Totals)
    ensures var sum := Plus(Plus(Plus(a, b), c), x);
            && sum == Plus(Plus(Plus(a, x), Plus(b, NOTHING)), Plus(c, NOTHING))
            && sum == Plus(Plus(Plus(a, NOTHING), Plus(b, x)), Plus(c, NOTHING))
            && sum == Plus(Plus(Plus(a, NOTHING), Plus(b, NOTHING)), Plus(c, x))
  {
    hide Plus;
    PlusNothing(a);
    PlusNothing(b);
    PlusNothing(c);
    PlusSwaps(Plus(a, b), c, x);
    PlusSwaps(a, b, x);
    PlusAssociates(a, b, x);
    PlusAssociates(Plus(a, b), c, x);
  }

  lemma PlusAssociates(a: Totals, b: Totals, c: Totals)
    ensures Plus(Plus(a, b), c) == Plus(a, Plus(b, c))
  {
  }

  ghost predicate Partitioned(results: seq<CaseResult>) {
    TotalsOf(Select(AllAnswerable, results)) ==
      Plus(Plus(TotalsOf(Select(RealGroup, results)), TotalsOf(Select(SyntheticGroup, results))),
           TotalsOf(Select(DiagnosticsGroup, results)))
  }

  lemma PartitionStep(front: seq<CaseResult>, r: CaseResult)
    requires Partitioned(front) && (r.shouldAnswer ==> !r.cohort.SafetyAclVersion?)
    ensures Partitioned(front + [r])
  {
    hide RowTotals, TotalsOf, Select, Plus;
    var x := if r.shouldAnswer then RowTotals(r) else NOTHING;
    SelectSnoc(AllAnswerable, front, r);
    SelectSnoc(RealGroup, front, r);
    SelectSnoc(SyntheticGroup, front, r);
    SelectSnoc(DiagnosticsGroup, front, r);
    PlusSpreads(TotalsOf(Select(RealGroup, front)), TotalsOf(Select(SyntheticGroup, front)),
                TotalsOf(Select(DiagnosticsGroup, front)), x);
  }

  lemma NothingPartitions(results: seq<CaseResult>)
    requires results == []
    ensures Partitioned(results)
  {
    hide RowTotals, Plus;
    assert forall g :: Select(g, results) == results;
    assert TotalsOf(results) == NOTHING;
    PlusNothing(NOTHING);
  }

  lemma {:induction false} TotalsPartition(results: seq<CaseResult>)
    requires forall r :: r in results && r.shouldAnswer ==> !r.cohort.SafetyAclVersion?
    ensures Partitioned(results)
  {
    hide Partitioned, Select, TotalsOf;
    if results == [] {
      NothingPartitions(results);
    } else {
      var n := |results| - 1;
      assert results == results[..n] + [results[n]];
      TotalsPartition(results[..n]);
      PartitionStep(results[..n], results[n]);
    }
  }

  lemma TotalsSnoc(front: seq<CaseResult>, r: CaseResult)
    ensures TotalsOf(front + [r]) == Plus(TotalsOf(front), RowTotals(r))
  {
  }

  lemma SelectSnoc(g: Group, front: seq<CaseResult>, r: CaseResult)
    ensures TotalsOf(Select(g, front + [r])) ==
              Plus(TotalsOf(Select(g, front)), if InGroup(g, IdentityOf(r)) then RowTotals(r) else NOTHING)
  {
    hide RowTotals, InGroup, TotalsOf, Plus, Select;
    SelectAppended(g, front, r);
    if InGroup(g, IdentityOf(r)) {
      TotalsSnoc(Select(g, front), r);
    } else {
      assert Select(g, front) + [] == Select(g, front);
      PlusNothing(TotalsOf(Select(g, front)));
    }
  }

  lemma PlusNothing(t: Totals)
    ensures Plus(t, NOTHING) == t
  {
  }

  lemma AnswerableCohorts(results: seq<CaseResult>, cohort: EvaluationCohort)
    requires ValidCohort(cohort) && forall r :: r in results ==> IdentityOf(r) in Rows(cohort)
    ensures forall r :: r in results && r.shouldAnswer ==> !r.cohort.SafetyAclVersion?
  {
  }

  /** Main result: a group fails exactly when a row of its own is incomplete. So one incomplete
      row fails its own cohort and the all-answerable group, and no other group. */
  lemma GroupFailsExactly(g: Group, results: seq<CaseResult>, cohort: EvaluationCohort)
    requires Aggregate(results, cohort).Ok?
    ensures Aggregate(results, cohort).value.At(g).GroupFailed? <==>
              exists r :: r in results && InGroup(g, IdentityOf(r)) && !r.status.StatusCompleted?
  {
    hide Aggregate, TotalsOf, InGroup;
    GroupAt(g, results, cohort);
  }

  /** Main result: the all-answerable group fails exactly when one of the three cohorts does;
      otherwise each of its counts is the sum of theirs. */
  lemma AllIsTheSumOfCohorts(results: seq<CaseResult>, cohort: EvaluationCohort)
    requires ValidCohort(cohort) && Aggregate(results, cohort).Ok?
    ensures var grouped := Aggregate(results, cohort).value;
            && (grouped.all.GroupFailed? <==>
                  grouped.realBorder.GroupFailed? || grouped.synthetic.GroupFailed? || grouped.diagnostics.GroupFailed?)
            && (!grouped.all.GroupFailed? ==>
                  grouped.all.totals == Plus(Plus(grouped.realBorder.totals, grouped.synthetic.totals),
                                             grouped.diagnostics.totals))
  {
    hide Rows, Ids, RowIds, TotalsOf, ValidCohort, Plus, AnswerRatesOf, ValidTotals;
    assert forall r :: r in results ==> IdentityOf(r) in Rows(cohort);
    AnswerableCohorts(results, cohort);
    TotalsPartition(results);
    assert Partitioned(results);
    GroupFailsExactly(AllAnswerable, results, cohort);
    GroupFailsExactly(RealGroup, results, cohort);
    GroupFailsExactly(SyntheticGroup, results, cohort);
    GroupFailsExactly(DiagnosticsGroup, results, cohort);
  }

  predicate Between(x: real, a: real, b: real, c: real) {
    Min(a, Min(b, c)) <= x <= Max(a, Max(b, c))
  }

  lemma PooledThree(a: nat, n: nat, b: nat, m: nat, c: nat, k: nat)
    requires a <= n && b <= m && c <= k
    ensures Between(Ratio(a + b + c, n + m + k), Ratio(a, n), Ratio(b, m), Ratio(c, k))
  {
    PooledRate(b, m, c, k);
    PooledRate(a, n, b + c, m + k);
  }

  /** A completed answerable group reports the rates of its totals, and those fit. */
  lemma CompletedGroupFits(g: Group, results: seq<CaseResult>, cohort: EvaluationCohort)
    requires !g.SafetyGroup? && Aggregate(results, cohort).Ok? && !Aggregate(results, cohort).value.At(g).GroupFailed?
    requires AllValid(results)
    ensures var group := Aggregate(results, cohort).value.At(g);
            group.Answerable? && group.rates == AnswerRatesOf(group.totals) && WithinBounds(group.totals, Size(g))
            && group.totals.golden <= group.totals.unique
  {
    hide Aggregate, TotalsOf, ValidResult, AnswerRatesOf, WithinBounds;
    GroupAt(g, results, cohort);
    TotalsBounds(Select(g, results));
  }

  /** The groups of an aggregate are those that are aggregated one by one. */
  lemma GroupAt(g: Group, results: seq<CaseResult>, cohort: EvaluationCohort)
    requires Aggregate(results, cohort).Ok?
    ensures AggregateGroup(g, Select(g, results)) == Ok(Aggregate(results, cohort).value.At(g))
  {
    hide Rows, Ids, RowIds, AggregateGroup, Select;
  }

  ghost predicate RatesBetween(all: AnswerRates, a: AnswerRates, b: AnswerRates, c: AnswerRates) {
    && Between(all.contextComplete, a.contextComplete, b.contextComplete, c.contextComplete)
    && Between(all.answered, a.answered, b.answered, c.answered)
    && Between(all.fullyCovered, a.fullyCovered, b.fullyCovered, c.fullyCovered)
    && Between(all.coverage, a.coverage, b.coverage, c.coverage)
    && Between(all.forbidden, a.forbidden, b.forbidden, c.forbidden)
    && Between(all.identityValid, a.identityValid, b.identityValid, c.identityValid)
    && Between(all.syntaxValid, a.syntaxValid, b.syntaxValid, c.syntaxValid)
    && Between(all.authorizedValid, a.authorizedValid, b.authorizedValid, c.authorizedValid)
    && Between(all.goldenValid, a.goldenValid, b.goldenValid, c.goldenValid)
    && Between(all.goldenPrecision, a.goldenPrecision, b.goldenPrecision, c.goldenPrecision)
    && Between(all.goldenRecall, a.goldenRecall, b.goldenRecall, c.goldenRecall)
    && Between(all.passed, a.passed, b.passed, c.passed)
  }

  lemma PooledTotals(a: Totals, n: nat, b: Totals, m: nat, c: Totals, k: nat)
    requires WithinBounds(a, n) && WithinBounds(b, m) && WithinBounds(c, k)
    requires a.golden <= a.unique && b.golden <= b.unique && c.golden <= c.unique
    ensures RatesBetween(AnswerRatesOf(Plus(Plus(a, b), c)), AnswerRatesOf(a), AnswerRatesOf(b), AnswerRatesOf(c))
  {
    hide Ratio, Between;
    PooledThree(a.contextComplete, n, b.contextComplete, m, c.contextComplete, k);
    PooledThree(a.answered, n, b.answered, m, c.answered, k);
    PooledThree(a.fullyCovered, n, b.fullyCovered, m, c.fullyCovered, k);
    PooledThree(a.coveredPoints, a.expectedPoints, b.coveredPoints, b.expectedPoints, c.coveredPoints,
                c.expectedPoints);
    PooledThree(a.forbidden, n, b.forbidden, m, c.forbidden, k);
    PooledThree(a.identityValid, n, b.identityValid, m, c.identityValid, k);
    PooledThree(a.syntaxValid, n, b.syntaxValid, m, c.syntaxValid, k);
    PooledThree(a.authorizedValid, n, b.authorizedValid, m, c.authorizedValid, k);
    PooledThree(a.goldenValid, n, b.goldenValid, m, c.goldenValid, k);
    PooledThree(a.golden, a.unique, b.golden, b.unique, c.golden, c.unique);
    PooledThree(a.citedGolden, a.expectedGolden, b.citedGolden, b.expectedGolden, c.citedGolden, c.expectedGolden);
    PooledThree(a.passed, n, b.passed, m, c.passed, k);
  }

  /** Main result: each pooled rate lies between the smallest and the largest cohort rate. */
  lemma PooledRatesLieBetween(results: seq<CaseResult>, cohort: EvaluationCohort)
    requires ValidCohort(cohort) && AllValid(results) && Aggregate(results, cohort).Ok?
    requires !Aggregate(results, cohort).value.all.GroupFailed?
    ensures var Grouped(all, a, b, c, _) := Aggregate(results, cohort).value;
            all.Answerable? && a.Answerable? && b.Answerable? && c.Answerable?
            && RatesBetween(all.rates, a.rates, b.rates, c.rates)
  {
    hide Aggregate, ValidCohort, AllValid, RatesBetween, Plus, AnswerRatesOf, WithinBounds;
    AllIsTheSumOfCohorts(results, cohort);
    CompletedGroupFits(AllAnswerable, results, cohort);
    CompletedGroupFits(RealGroup, results, cohort);
    CompletedGroupFits(SyntheticGroup, results, cohort);
    CompletedGroupFits(DiagnosticsGroup, results, cohort);
    var Grouped(_, a, b, c, _) := Aggregate(results, cohort).value;
    PooledTotals(a.totals, Size(RealGroup), b.totals, Size(SyntheticGroup), c.totals, Size(DiagnosticsGroup));
  }
}
