/** A frozen cohort (app/schemas/evaluation.py) whose results are each valid, report a golden
    citation and no citation at all, and cannot be aggregated
    (app/evals/answer_citation_metrics.py). */
module UncitedGolden {
  import opened AnswerAggregation
  import opened CitationScoring
  import opened Options
  import opened Rates
  import opened SchemaTypes
  import opened Strings

  const REASONS := ["acl_denied", "acl_denied", "version_unavailable", "version_unavailable", "no_evidence", "unknown"]

  function CaseId(i: nat): string
    requires i < 40
  {
    "case-" + [('a' as int + i / 10) as char] + [('a' as int + i % 10) as char]
  }

  function AnswerableRow(i: nat): Identity
    requires i < 34
  {
    var cohort := if i < 14 then RealCrossBorder else if i < 24 then SyntheticCrossBorder else GeneralDiagnostics;
    Identity(CaseId(i), "cross_border_core", cohort, true, None)
  }

  function SafetyRow(i: nat): Identity
    requires i < 6
  {
    Identity(CaseId(34 + i), "security_acl_version", SafetyAclVersion, false, Some(REASONS[i]))
  }

  function Cohort40(): EvaluationCohort {
    EvaluationCohort(seq(34, i requires 0 <= i < 34 => AnswerableRow(i)), seq(6, i requires 0 <= i < 6 => SafetyRow(i)))
  }

  /** Golden and authorized citations without any citation. */
  const UNCITED := CitationFacts(0, 0, 0, 0, 0, 0, 1, 1, 0, false, true, true, true, false, 0.0, 0.0)

  function ResultFor(i: Identity): CaseResult {
    var n: nat := if i.shouldAnswer then 1 else 0;
    var part := if i.shouldAnswer then AnswerPart(true, 0, 0.0, 0, true) else SafetyPart(true, false);
    CaseResult(i.caseId, i.sourceGroup, i.cohort, i.shouldAnswer, i.reason, StatusCompleted, true, StatusCompleted,
               n, n, Some(Measures(if i.shouldAnswer then Answer else Refusal, UNCITED, part, false)),
               if i.shouldAnswer then [CitationNotGolden] else [CitationIdentityInvalid])
  }

  function Results(): seq<CaseResult> {
    seq(40, i requires 0 <= i < 40 => ResultFor(Rows(Cohort40())[i]))
  }

  lemma RowAt(i: nat)
    requires i < 40
    ensures |Rows(Cohort40())| == 40 && Rows(Cohort40())[i].caseId == CaseId(i)
    ensures Rows(Cohort40())[i] == if i < 34 then AnswerableRow(i) else SafetyRow(i - 34)
  {
  }

  lemma CaseIdsDiffer(i: nat, j: nat)
    requires i < j < 40
    ensures CaseId(i) != CaseId(j)
  {
    assert CaseId(i)[5] as int - 'a' as int == i / 10 && CaseId(i)[6] as int - 'a' as int == i % 10;
    assert CaseId(j)[5] as int - 'a' as int == j / 10 && CaseId(j)[6] as int - 'a' as int == j % 10;
  }

  /** A block of answerable rows has members of one group only. */
  lemma BlockCount(g: Group, from: nat, until: nat)
    requires from <= until <= 34 && g in {RealGroup, SyntheticGroup, DiagnosticsGroup}
    requires forall i :: from <= i < until ==> InGroup(g, AnswerableRow(i)) == InGroup(g, AnswerableRow(from))
    ensures CountIn(g, Cohort40().answerable[from..until]) ==
              if from < until && InGroup(g, AnswerableRow(from)) then until - from else 0
  {
    hide InGroup, CountIn, AnswerableRow;
    CountAllOrNone(g, Cohort40().answerable[from..until]);
  }

  lemma GroupCount(g: Group)
    requires g in {RealGroup, SyntheticGroup, DiagnosticsGroup}
    ensures CountIn(g, Cohort40().answerable) == Size(g)
  {
    hide CountIn;
    var rows := Cohort40().answerable;
    assert rows == rows[0..14] + rows[14..24] + rows[24..34];
    CountInConcat(g, rows[0..14] + rows[14..24], rows[24..34]);
    CountInConcat(g, rows[0..14], rows[14..24]);
    BlockCount(g, 0, 14);
    BlockCount(g, 14, 24);
    BlockCount(g, 24, 34);
  }

  lemma ReasonStep(reason: string, i: nat)
    requires i < 6
    ensures ReasonCount(reason, Cohort40().safety[..i + 1]) ==
              ReasonCount(reason, Cohort40().safety[..i]) + (if REASONS[i] == reason then 1 else 0)
  {
    assert Cohort40().safety[..i + 1][..i] == Cohort40().safety[..i];
  }

  lemma ReasonSum(reason: string)
    ensures ReasonCount(reason, Cohort40().safety) ==
              One(REASONS[0] == reason) + One(REASONS[1] == reason) + One(REASONS[2] == reason) +
              One(REASONS[3] == reason) + One(REASONS[4] == reason) + One(REASONS[5] == reason)
  {
    hide ReasonCount;
    ReasonStep(reason, 0);
    ReasonStep(reason, 1);
    ReasonStep(reason, 2);
    ReasonStep(reason, 3);
    ReasonStep(reason, 4);
    ReasonStep(reason, 5);
    NoReasons(reason);
    assert Cohort40().safety[..6] == Cohort40().safety && Cohort40().safety[..0] == [];
  }

  lemma NoReasons(reason: string)
    ensures ReasonCount(reason, []) == 0
  {
  }

  lemma ReasonsDiffer()
    ensures Distinct(["acl_denied", "version_unavailable", "no_evidence", "unknown"])
  {
    assert "acl_denied"[0] == 'a' && "version_unavailable"[0] == 'v' && "no_evidence"[0] == 'n' && "unknown"[0] == 'u';
  }

  lemma CohortIsValid()
    ensures ValidCohort(Cohort40())
  {
    hide CountIn, ReasonCount, CaseId;
    GroupCount(RealGroup);
    GroupCount(SyntheticGroup);
    GroupCount(DiagnosticsGroup);
    ReasonsDiffer();
    var names := ["acl_denied", "version_unavailable", "no_evidence", "unknown"];
    assert names[0] != names[1] && names[0] != names[2] && names[0] != names[3];
    assert names[1] != names[2] && names[1] != names[3] && names[2] != names[3];
    ReasonSum("acl_denied");
    ReasonSum("version_unavailable");
    ReasonSum("no_evidence");
    ReasonSum("unknown");
    forall i, j | 0 <= i < j < 40
      ensures Rows(Cohort40())[i].caseId != Rows(Cohort40())[j].caseId
    {
      RowAt(i);
      RowAt(j);
      CaseIdsDiffer(i, j);
    }
  }

  predicate Uncited(r: CaseResult) {
    r.shouldAnswer && r.status.StatusCompleted? && r.measures.Some? && r.measures.value.part.AnswerPart?
    && r.measures.value.facts == UNCITED
  }

  lemma UncitedRow(r: CaseResult)
    requires Uncited(r)
    ensures RowTotals(r).unique == 0 && RowTotals(r).golden == 1
  {
  }

  lemma {:induction false} TotalsOfUncited(results: seq<CaseResult>)
    requires forall r :: r in results ==> Uncited(r)
    ensures TotalsOf(results).unique == 0 && TotalsOf(results).golden == |results|
  {
    hide RowTotals, Uncited;
    if results != [] {
      UncitedRow(results[|results| - 1]);
      TotalsOfUncited(results[..|results| - 1]);
    }
  }

  lemma NoShare()
    ensures Ratio(0, 1) == 0.0 && Ratio(1, 0) == 0.0
  {
  }

  lemma IdentityIsKept(i: Identity)
    ensures IdentityOf(ResultFor(i)) == i && ResultFor(i).status.StatusCompleted? && ResultFor(i).caseId == i.caseId
  {
    var r := ResultFor(i);
    assert r.caseId == i.caseId && r.sourceGroup == i.sourceGroup && r.cohort == i.cohort;
    assert r.shouldAnswer == i.shouldAnswer && r.reason == i.reason;
  }

  lemma UncitedFits()
    ensures ValidFacts(UNCITED) && Distinct([CitationNotGolden])
  {
  }

  lemma AnswerIsValid(i: Identity)
    requires i.shouldAnswer && i.reason.None? && !i.cohort.SafetyAclVersion?
    ensures ValidResult(ResultFor(i))
  {
    hide Ratio, ValidFacts, Distinct;
    NoShare();
    UncitedFits();
    var r := ResultFor(i);
    assert r.attributions == [CitationNotGolden] && r.measures.value.facts == UNCITED;
  }

  lemma RefusalIsValid(i: Identity)
    requires !i.shouldAnswer && i.reason.Some? && i.cohort.SafetyAclVersion?
    ensures ValidResult(ResultFor(i))
  {
  }

  lemma ResultIsValid(i: nat)
    requires i < 40
    ensures var r := Results()[i];
            ValidResult(r) && r.status.StatusCompleted? && IdentityOf(r) == Rows(Cohort40())[i] && r.caseId == CaseId(i)
  {
    hide CaseId, ValidResult, IdentityOf, ResultFor;
    RowAt(i);
    if i < 34 {
      AnswerIsValid(Rows(Cohort40())[i]);
    } else {
      RefusalIsValid(Rows(Cohort40())[i]);
    }
    IdentityIsKept(Rows(Cohort40())[i]);
  }

  /** The fields of the row have the types that the schema gives them. */
  predicate HasSchemaTypes(row: Identity) { IsIdentifier(row.caseId) && IsSourceGroup(row.sourceGroup) }

  lemma CaseIdIsIdentifier(i: nat)
    requires i < 40
    ensures IsIdentifier(CaseId(i))
  {
  }

  lemma RowHasSchemaTypes(i: nat)
    requires i < 40
    ensures HasSchemaTypes(Rows(Cohort40())[i])
  {
    hide CaseId, IsIdentifier;
    RowAt(i);
    CaseIdIsIdentifier(i);
  }

  /** One valid result for each row, and no two with one identifier. */
  ghost predicate Matching(results: seq<CaseResult>, rows: seq<Identity>) {
    && |results| == |rows| == 40
    && (forall i :: 0 <= i < 40 ==> ValidResult(results[i]) && IdentityOf(results[i]) == rows[i])
    && (forall i :: 0 <= i < 40 ==> HasSchemaTypes(rows[i]) && rows[i].caseId == results[i].caseId)
    && (forall i, j :: 0 <= i < j < 40 ==> results[i].caseId != results[j].caseId)
  }

  lemma NamedDistinctly(results: seq<CaseResult>)
    requires |results| == 40 && forall i :: 0 <= i < 40 ==> results[i].caseId == CaseId(i)
    ensures forall i, j :: 0 <= i < j < 40 ==> results[i].caseId != results[j].caseId
  {
    hide CaseId;
    forall i, j | 0 <= i < j < 40
      ensures results[i].caseId != results[j].caseId
    {
      CaseIdsDiffer(i, j);
    }
  }

  lemma ResultsMatchRows()
    ensures Matching(Results(), Rows(Cohort40()))
  {
    hide Cohort40, Rows, ValidResult, IdentityOf, ResultFor, HasSchemaTypes, CaseId;
    var results, rows := Results(), Rows(Cohort40());
    RowAt(0);
    forall i | 0 <= i < 40
      ensures ValidResult(results[i]) && IdentityOf(results[i]) == rows[i] && HasSchemaTypes(rows[i])
      ensures rows[i].caseId == results[i].caseId == CaseId(i)
    {
      ResultIsValid(i);
      RowHasSchemaTypes(i);
      RowAt(i);
    }
    NamedDistinctly(results);
  }

  lemma SelectedAreUncited()
    ensures forall r :: r in Select(AllAnswerable, Results()) ==> Uncited(r)
  {
    hide Select, InGroup, Uncited, ResultFor, IdentityOf;
    forall r | r in Select(AllAnswerable, Results())
      ensures Uncited(r)
    {
      var i :| 0 <= i < 40 && Results()[i] == r;
      SelectedIsUncited(Rows(Cohort40())[i]);
    }
  }

  /** The all-answerable group is complete, with more golden citations than citations. */
  lemma AllAnswerableFails(results: seq<CaseResult>)
    requires |Select(AllAnswerable, results)| == Size(AllAnswerable)
    requires forall r :: r in Select(AllAnswerable, results) ==> Uncited(r)
    ensures AggregateGroup(AllAnswerable, Select(AllAnswerable, results)) == Err(InvalidGroup)
  {
    hide Select, TotalsOf;
    TotalsOfUncited(Select(AllAnswerable, results));
  }

  /** One valid result for each case of a valid cohort, and no aggregate. */
  lemma ValidResultsCanFailToAggregate()
    ensures ValidCohort(Cohort40()) && Matching(Results(), Rows(Cohort40()))
    ensures Aggregate(Results(), Cohort40()) == Err(InvalidGroup)
  {
    hide Cohort40, Rows, Results, ValidCohort, ValidResult, Select, IdentityOf, HasSchemaTypes, AggregateGroup,
         Uncited, Ids, RowIds;
    CohortIsValid();
    var results, rows := Results(), Rows(Cohort40());
    ResultsMatchRows();
    DistinctIdsCount(results);
    IdsOfSameOrder(results, rows);
    NoGroupLosesARow(AllAnswerable, results, Cohort40());
    SelectedAreUncited();
    AllAnswerableFails(results);
  }

  lemma SelectedIsUncited(i: Identity)
    ensures var r := ResultFor(i);
            InGroup(AllAnswerable, IdentityOf(r)) ==> Uncited(r)
  {
  }
}
