/** The per-case loop of the formal evaluation (app/evals/answer_citation_formal.py): usage
    deltas, and rows that are not run after a paid failure. */
module FormalRun {
  import opened Options
  import opened UsageRecorder

  datatype AuditStatus = AuditCompleted | AuditFailed | AuditSkipped

  /** The fields of `AnswerCitationGatewayCaseAudit` that decide on a paid stop. */
  datatype Audit = Audit(
    status: AuditStatus, outputStage: Option<string>, apiStatus: Option<int>, apiError: Option<string>,
    toolStatus: Option<string>, successfulToolCalls: nat, toolError: Option<string>)

  const NOT_RUN_AUDIT := Audit(AuditSkipped, None, None, None, None, 0, None)

  /** `_paid_case_requires_stop`. */
  predicate RequiresStop(a: Audit) {
    a.status.AuditFailed? &&
    !(a.outputStage == Some("citation_contract") && a.apiStatus == Some(422) && a.apiError == Some("PROVIDER_ERROR")
      && a.toolStatus == Some("success") && a.successfulToolCalls == 1 && a.toolError.None?)
  }

  datatype MetricStatus = MetricCompleted | MetricSkipped | JudgeFailed | FrameworkFailed
  datatype Metric = Metric(status: MetricStatus, failureCategory: Option<string>)

  /** The same for each of the four metrics. */
  function FourTimes(metric: Metric): seq<Metric> { [metric, metric, metric, metric] }

  const SKIPPED := FourTimes(Metric(MetricSkipped, Some("dependency_unavailable")))
  const FRAMEWORK_FAILED := FourTimes(Metric(FrameworkFailed, Some("framework_error")))

  /** What the semantic adapter does: the hooks it triggers, and its metrics or an exception. */
  datatype Judging = Judging(events: seq<Event>, metrics: Option<seq<Metric>>, durationMs: nat)

  /** What running a case would produce. */
  datatype Attempt = Attempt(audit: Audit, hasSemanticInput: bool, answerUsage: Usage, answerDurationMs: Option<nat>,
                             judging: Judging)

  /** `_not_run_case_artifacts` and the counters of an unused provider. */
  const NOT_RUN := Attempt(NOT_RUN_AUDIT, false, ZERO, None, Judging([], None, 0))

  datatype Case = Case(caseId: string, selected: bool, attempt: Attempt)

  datatype RowStatus = RowCompleted | RowFailed | RowSkipped

  /** `AnswerCitationFormalCaseEvaluation` with the row's audit. */
  datatype Row = Row(
    caseId: string, audit: Audit, status: RowStatus, answerDurationMs: Option<nat>, answerUsage: Usage,
    judgeDurationMs: nat, judgeUsage: Usage, metrics: seq<Metric>)

  function StatusOf(metrics: seq<Metric>): RowStatus {
    if metrics == [] then RowFailed
    else if forall i :: 0 <= i < |metrics| ==> metrics[i].status.MetricCompleted? then RowCompleted
    else if forall i :: 0 <= i < |metrics| ==> metrics[i].status.MetricSkipped? then RowSkipped
    else RowFailed
  }

  /** `validate_semantic_result`, for what depends on the run. */
  predicate ValidRow(row: Row) {
    && |row.metrics| == 4
    && ValidUsage(row.answerUsage) && ValidUsage(row.judgeUsage)
    && row.status == StatusOf(row.metrics)
    && (row.status.RowSkipped? ==> row.judgeDurationMs == 0 && row.judgeUsage.calls == 0)
    && (row.answerUsage.calls != 0 ==> row.answerDurationMs.Some?)
    && row.answerUsage.calls <= 2
  }

  predicate StopsJudge(metrics: seq<Metric>) {
    exists i :: 0 <= i < |metrics| && metrics[i].failureCategory in
                  {Some("judge_timeout"), Some("network_error"), Some("rate_limited")}
  }

  /** The recorder and the flag that the loop carries. */
  datatype LoopState = LoopState(recorder: State, paidStopped: bool)

  predicate Unavailable(s: State) { s.stopped || s.calls >= s.budget }

  /** The recorder, the metrics and the Judge's time after judging. */
  function Judge(s: State, attempt: Attempt): (State, seq<Metric>, nat) {
    if !attempt.hasSemanticInput || Unavailable(s) then (s, SKIPPED, 0)
    else
      var metrics := if attempt.judging.metrics.Some? then attempt.judging.metrics.value else FRAMEWORK_FAILED;
      var after := Run(s, attempt.judging.events);
      (if StopsJudge(metrics) then Step(after, Stop) else after, metrics, attempt.judging.durationMs)
  }

  function AttemptOf(s: LoopState, c: Case): Attempt { if s.paidStopped || !c.selected then NOT_RUN else c.attempt }

  function RowOf(s: LoopState, c: Case): Row {
    var attempt := AttemptOf(s, c);
    var (after, metrics, duration) := Judge(s.recorder, attempt);
    Row(c.caseId, attempt.audit, StatusOf(metrics), attempt.answerDurationMs, attempt.answerUsage, duration,
        Minus(UsageOf(after), UsageOf(s.recorder)), metrics)
  }

  function After(s: LoopState, c: Case): LoopState {
    var attempt := AttemptOf(s, c);
    var (after, _, _) := Judge(s.recorder, attempt);
    if RequiresStop(attempt.audit) then LoopState(Step(after, Stop), true) else LoopState(after, s.paidStopped)
  }

  /** Both snapshots and the row are valid. */
  predicate CaseSucceeds(s: LoopState, c: Case) {
    var (after, _, _) := Judge(s.recorder, AttemptOf(s, c));
    ValidUsage(UsageOf(s.recorder)) && ValidUsage(UsageOf(after)) && ValidRow(RowOf(s, c))
  }

  function States(s: LoopState, cases: seq<Case>): LoopState {
    if cases == [] then s else After(States(s, cases[..|cases| - 1]), cases[|cases| - 1])
  }

  function RowAt(s: LoopState, cases: seq<Case>, i: nat): Row
    requires i < |cases|
  {
    RowOf(States(s, cases[..i]), cases[i])
  }

  function RowsOf(s: LoopState, cases: seq<Case>): seq<Row> {
    seq(|cases|, i requires 0 <= i < |cases| => RowAt(s, cases, i))
  }

  ghost predicate AllSucceed(s: LoopState, cases: seq<Case>) {
    forall i :: 0 <= i < |cases| ==> CaseSucceeds(States(s, cases[..i]), cases[i])
  }

  /** The loop over the cases; None where a snapshot or a row is refused. */
  method RunCases(recorder: ExternalUsageRecorder, cases: seq<Case>) returns (rows: Option<seq<Row>>)
    modifies recorder
    ensures var start := LoopState(old(recorder.Current()), false);
            && (rows.Some? <==> AllSucceed(start, cases))
            && (rows.Some? ==> rows.value == RowsOf(start, cases)
                               && recorder.Current() == States(start, cases).recorder)
  {
    hide Judge, RowOf, After, StatusOf, ValidRow, ValidUsage, States, RowsOf, AllSucceed;
    ghost var start := LoopState(recorder.Current(), false);
    var paidExecutionStopped := false;
    var evaluations: seq<Row> := [];
    StepOfRun(start, cases, 0);
    for i := 0 to |cases|
      invariant LoopState(recorder.Current(), paidExecutionStopped) == States(start, cases[..i])
      invariant evaluations == RowsOf(start, cases[..i])
      invariant AllSucceed(start, cases[..i])
    {
      ghost var s := States(start, cases[..i]);
      var c := cases[i];
      StepOfRun(start, cases, i);
      CaseFacts(s, c);
      var judgeBefore := recorder.Snapshot();
      if judgeBefore.None? {
        return None;
      }
      var attempt := if paidExecutionStopped || !c.selected then NOT_RUN else c.attempt;
      var row := EvaluateFormalCase(recorder, c, attempt, judgeBefore.value);
      if row.None? {
        return None;
      }
      evaluations := evaluations + [row.value];
      if RequiresStop(attempt.audit) {
        paidExecutionStopped := true;
        recorder.StopCalls();
      }
    }
    assert cases[..|cases|] == cases;
    return Some(evaluations);
  }

  /** The next case of a run: its state, its row, and that the whole run needs it. */
  lemma StepOfRun(s: LoopState, cases: seq<Case>, i: nat)
    requires i <= |cases|
    ensures States(s, cases[..0]) == s && RowsOf(s, cases[..0]) == [] && AllSucceed(s, cases[..0])
    ensures i < |cases| ==>
              var front := States(s, cases[..i]);
              && States(s, cases[..i + 1]) == After(front, cases[i])
              && RowsOf(s, cases[..i + 1]) == RowsOf(s, cases[..i]) + [RowOf(front, cases[i])]
              && (AllSucceed(s, cases[..i + 1]) <==> AllSucceed(s, cases[..i]) && CaseSucceeds(front, cases[i]))
              && (AllSucceed(s, cases) ==> CaseSucceeds(front, cases[i]))
  {
    hide After, RowOf, CaseSucceeds;
    if i < |cases| {
      assert cases[..i + 1][..i] == cases[..i];
      RowsSnoc(s, cases[..i + 1]);
      forall k | 0 <= k <= i
        ensures cases[..i + 1][..k] == cases[..k] && (k <= i ==> cases[..i][..k] == cases[..k])
      {
      }
    }
  }

  lemma CaseFacts(s: LoopState, c: Case)
    ensures var attempt := AttemptOf(s, c);
            var (after, metrics, duration) := Judge(s.recorder, attempt);
            && RowOf(s, c) == Row(c.caseId, attempt.audit, StatusOf(metrics), attempt.answerDurationMs,
                                  attempt.answerUsage, duration, Minus(UsageOf(after), UsageOf(s.recorder)), metrics)
            && After(s, c) == (if RequiresStop(attempt.audit) then LoopState(Step(after, Stop), true)
                               else LoopState(after, s.paidStopped))
  {
  }

  /** `_evaluate_formal_case`. */
  method EvaluateFormalCase(recorder: ExternalUsageRecorder, c: Case, attempt: Attempt, judgeBefore: Usage)
    returns (row: Option<Row>)
    modifies recorder
    ensures var (after, metrics, duration) := Judge(old(recorder.Current()), attempt);
            var r := Row(c.caseId, attempt.audit, StatusOf(metrics), attempt.answerDurationMs, attempt.answerUsage,
                         duration, Minus(UsageOf(after), judgeBefore), metrics);
            && recorder.Current() == after
            && row == if ValidUsage(UsageOf(after)) && ValidRow(r) then Some(r) else None
  {
    hide StatusOf, ValidRow, ValidUsage, StopsJudge;
    var metrics, durationMs := SKIPPED, 0;
    var judgeUnavailable := recorder.stopped || recorder.apiCalls >= recorder.maxApiCalls;
    if attempt.hasSemanticInput && !judgeUnavailable {
      recorder.Replay(attempt.judging.events);
      metrics := if attempt.judging.metrics.Some? then attempt.judging.metrics.value else FRAMEWORK_FAILED;
      durationMs := attempt.judging.durationMs;
      if StopsJudge(metrics) {
        recorder.StopCalls();
      }
    }
    var judgeAfter := recorder.Snapshot();
    if judgeAfter.None? {
      return None;
    }
    var r := Row(c.caseId, attempt.audit, StatusOf(metrics), attempt.answerDurationMs, attempt.answerUsage, durationMs,
                 Minus(judgeAfter.value, judgeBefore), metrics);
    return if ValidRow(r) then Some(r) else None;
  }

  // ----- What holds of every run

  lemma JudgeKeepsCounters(s: State, attempt: Attempt)
    requires Consistent(s)
    ensures var after := Judge(s, attempt).0;
            && Consistent(after) && after.budget == s.budget && s.calls <= after.calls && s.input <= after.input
            && s.output <= after.output
            && (s.stopped ==> after == s)
  {
    hide StopsJudge;
    RunKeepsCounters(s, attempt.judging.events);
  }

  lemma {:induction false} StatesAreConsistent(s: LoopState, cases: seq<Case>)
    requires Consistent(s.recorder)
    ensures Consistent(States(s, cases).recorder) && States(s, cases).recorder.budget == s.recorder.budget
  {
    hide Judge;
    if cases != [] {
      var n := |cases| - 1;
      StatesAreConsistent(s, cases[..n]);
      JudgeKeepsCounters(States(s, cases[..n]).recorder, AttemptOf(States(s, cases[..n]), cases[n]));
    }
  }

  /** The difference of two valid snapshots is itself valid: `_usage_delta` never raises. */
  lemma DeltaIsValid(s: LoopState, c: Case)
    requires Consistent(s.recorder)
    requires ValidUsage(UsageOf(s.recorder)) && ValidUsage(UsageOf(Judge(s.recorder, AttemptOf(s, c)).0))
    ensures ValidUsage(RowOf(s, c).judgeUsage)
  {
    hide Judge, StatusOf;
    JudgeKeepsCounters(s.recorder, AttemptOf(s, c));
  }

  /** Main result: a run raises exactly when the recorder outgrows the bounds of a snapshot or a
      row contradicts itself, never because of a usage delta. */
  lemma CaseSucceedsExactly(s: LoopState, c: Case)
    requires Consistent(s.recorder)
    ensures var attempt := AttemptOf(s, c);
            var (after, metrics, duration) := Judge(s.recorder, attempt);
            CaseSucceeds(s, c) <==>
              && ValidUsage(UsageOf(s.recorder)) && ValidUsage(UsageOf(after)) && ValidUsage(attempt.answerUsage)
              && |metrics| == 4
              && (StatusOf(metrics).RowSkipped? ==> duration == 0 && after.calls == s.recorder.calls)
              && (attempt.answerUsage.calls != 0 ==> attempt.answerDurationMs.Some?) && attempt.answerUsage.calls <= 2
  {
    hide Judge, StatusOf, RowOf, AttemptOf, StopsJudge;
    CaseFacts(s, c);
    if ValidUsage(UsageOf(s.recorder)) && ValidUsage(UsageOf(Judge(s.recorder, AttemptOf(s, c)).0)) {
      DeltaIsValid(s, c);
    }
  }

  function JudgeUsages(rows: seq<Row>): seq<Usage> {
    seq(|rows|, i requires 0 <= i < |rows| => rows[i].judgeUsage)
  }

  lemma RowsSnoc(s: LoopState, cases: seq<Case>)
    requires cases != []
    ensures var n := |cases| - 1;
            RowsOf(s, cases) == RowsOf(s, cases[..n]) + [RowOf(States(s, cases[..n]), cases[n])]
  {
    hide States, RowOf;
    var n := |cases| - 1;
    forall i | 0 <= i < n
      ensures RowAt(s, cases, i) == RowAt(s, cases[..n], i)
    {
      assert cases[..n][..i] == cases[..i];
    }
  }

  /** Main result: the usage deltas of the rows add up to what the recorder counted in the run. */
  lemma {:induction false} DeltasTelescope(s: LoopState, cases: seq<Case>)
    ensures Sum(JudgeUsages(RowsOf(s, cases))) == Minus(UsageOf(States(s, cases).recorder), UsageOf(s.recorder))
  {
    hide Judge, StatusOf, RequiresStop;
    if cases != [] {
      var n := |cases| - 1;
      DeltasTelescope(s, cases[..n]);
      RowsSnoc(s, cases);
      var usages := JudgeUsages(RowsOf(s, cases));
      assert usages[..n] == JudgeUsages(RowsOf(s, cases[..n]));
      CaseFacts(States(s, cases[..n]), cases[n]);
    }
  }

  /** Main result: over a whole run that starts with a fresh recorder, the sum of the rows' Judge
      usage is the final snapshot, within the call budget. */
  lemma JudgeUsageOfRun(budget: nat, cases: seq<Case>)
    ensures var final := States(LoopState(Fresh(budget), false), cases).recorder;
            var sum := Sum(JudgeUsages(RowsOf(LoopState(Fresh(budget), false), cases)));
            sum == UsageOf(final) && sum.calls <= budget && sum.total == sum.input + sum.output
  {
    hide States, RowsOf, Sum;
    var s := LoopState(Fresh(budget), false);
    DeltasTelescope(s, cases);
    StatesAreConsistent(s, cases);
  }

  /** The loop is stopped exactly when it was or a row so far requires it. */
  lemma {:induction false} StoppedExactly(s: LoopState, cases: seq<Case>)
    ensures var rows := RowsOf(s, cases);
            && (States(s, cases).paidStopped <==>
                s.paidStopped || exists j :: 0 <= j < |rows| && RequiresStop(rows[j].audit))
            && (States(s, cases).paidStopped ==> s.paidStopped || States(s, cases).recorder.stopped)
  {
    hide Judge, StatusOf, RequiresStop;
    if cases != [] {
      var n := |cases| - 1;
      var front := States(s, cases[..n]);
      StoppedExactly(s, cases[..n]);
      RowsSnoc(s, cases);
      CaseFacts(front, cases[n]);
      var rows := RowsOf(s, cases);
      assert rows[n].audit == AttemptOf(front, cases[n]).audit;
      assert forall j :: 0 <= j < n ==> rows[j] == RowsOf(s, cases[..n])[j];
      if front.recorder.stopped {
        JudgeStaysStopped(front.recorder, AttemptOf(front, cases[n]));
      }
      NotRunIsNoReason();
      if States(s, cases).paidStopped && !s.paidStopped {
        if RequiresStop(rows[n].audit) {
        } else {
          var j :| 0 <= j < |RowsOf(s, cases[..n])| && RequiresStop(RowsOf(s, cases[..n])[j].audit);
          assert RequiresStop(rows[j].audit);
        }
      }
    }
  }

  lemma NotRunIsNoReason()
    ensures !RequiresStop(NOT_RUN.audit)
  {
  }

  lemma JudgeStaysStopped(s: State, attempt: Attempt)
    requires s.stopped
    ensures Judge(s, attempt).0.stopped
  {
  }

  /** A row that was not run: skipped, and it used nothing. */
  predicate NotRunRow(row: Row) {
    row.audit == NOT_RUN_AUDIT && row.status.RowSkipped? && row.answerUsage == ZERO && row.judgeUsage == ZERO
    && row.answerDurationMs.None? && row.judgeDurationMs == 0
  }

  lemma NotRunCase(s: LoopState, c: Case)
    requires s.paidStopped || !c.selected
    ensures NotRunRow(RowOf(s, c))
  {
    assert SKIPPED[0].status.MetricSkipped?;
  }

  /** Main result: whatever happens in the run, all rows are there, in the frozen order, and every
      case outside the selection has a skipped row that used nothing. */
  lemma RowsKeepOrder(s: LoopState, cases: seq<Case>)
    ensures |RowsOf(s, cases)| == |cases|
    ensures forall k :: 0 <= k < |cases| ==> RowsOf(s, cases)[k].caseId == cases[k].caseId
    ensures forall k :: 0 <= k < |cases| && !cases[k].selected ==> NotRunRow(RowsOf(s, cases)[k])
  {
    hide States, RowOf, NotRunRow, RequiresStop;
    forall k | 0 <= k < |cases|
      ensures RowsOf(s, cases)[k].caseId == cases[k].caseId
      ensures !cases[k].selected ==> NotRunRow(RowsOf(s, cases)[k])
    {
      CaseFacts(States(s, cases[..k]), cases[k]);
      if !cases[k].selected {
        NotRunCase(States(s, cases[..k]), cases[k]);
      }
    }
  }

  /** Main result: every row after one that requires a paid stop is a skipped row that used nothing. */
  lemma RowsAfterPaidStop(recorder: State, cases: seq<Case>, i: nat, j: nat)
    requires i < j < |cases| && RequiresStop(RowAt(LoopState(recorder, false), cases, i).audit)
    ensures NotRunRow(RowsOf(LoopState(recorder, false), cases)[j])
  {
    hide States, RowOf, NotRunRow, RequiresStop;
    var s := LoopState(recorder, false);
    StoppedExactly(s, cases[..j]);
    assert cases[..j][..i] == cases[..i] && cases[..j][i] == cases[i];
    assert RowsOf(s, cases[..j])[i] == RowAt(s, cases, i);
    NotRunCase(States(s, cases[..j]), cases[j]);
  }
}
