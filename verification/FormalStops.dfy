/** Which audits stop the paid part of a formal run, which rows are run, and what a row says about
    its metrics (app/evals/answer_citation_formal.py). */
module FormalStops {
  import opened FormalRun
  import opened Options
  import opened UsageRecorder

  /** The answer was composed, and refused for its citations: everything before it had worked. */
  ghost predicate CitationRefusal(a: Audit) {
    && a.outputStage == Some("citation_contract")
    && a.apiStatus == Some(422) && a.apiError == Some("PROVIDER_ERROR")
    && a.toolStatus == Some("success") && a.successfulToolCalls == 1 && a.toolError == None
  }

  /** A failure of another kind. */
  ghost predicate Fatal(a: Audit) { a.status == AuditFailed && !CitationRefusal(a) }

  lemma FatalExactly(a: Audit)
    ensures RequiresStop(a) <==> Fatal(a)
  {
  }

  /** Some row before the i-th has a fatal audit. */
  ghost predicate FatalBefore(rows: seq<Row>, i: nat)
    requires i <= |rows|
  {
    exists j :: 0 <= j < i && Fatal(rows[j].audit)
  }

  /** The row is that of its own case, as it was run. */
  ghost predicate OwnRow(row: Row, c: Case) {
    row.caseId == c.caseId && row.audit == c.attempt.audit && row.answerUsage == c.attempt.answerUsage
    && row.answerDurationMs == c.attempt.answerDurationMs
  }

  lemma PrefixRows(s: LoopState, cases: seq<Case>, i: nat)
    requires i <= |cases|
    ensures RowsOf(s, cases[..i]) == RowsOf(s, cases)[..i]
  {
    hide States, RowOf;
    forall k | 0 <= k < i
      ensures RowsOf(s, cases[..i])[k] == RowsOf(s, cases)[k]
    {
      assert cases[..i][..k] == cases[..k];
    }
  }

  /** Main result: in any run a case is run exactly when it is selected and no row before it has a
      fatal audit; then its row is its own, and otherwise a row that was not run. */
  lemma RunsExactly(recorder: State, cases: seq<Case>, i: nat)
    requires i < |cases|
    ensures var start := LoopState(recorder, false);
            var rows := RowsOf(start, cases);
            && (States(start, cases[..i]).paidStopped <==> FatalBefore(rows, i))
            && (if cases[i].selected && !FatalBefore(rows, i) then OwnRow(rows[i], cases[i]) else NotRunRow(rows[i]))
  {
    hide States, RowOf, NotRunRow, RequiresStop, Fatal;
    var start := LoopState(recorder, false);
    var rows := RowsOf(start, cases);
    StoppedExactly(start, cases[..i]);
    PrefixRows(start, cases, i);
    forall j | 0 <= j < i
      ensures RequiresStop(rows[..i][j].audit) <==> Fatal(rows[j].audit)
    {
      FatalExactly(rows[j].audit);
    }
    var front := States(start, cases[..i]);
    CaseFacts(front, cases[i]);
    if front.paidStopped || !cases[i].selected {
      NotRunCase(front, cases[i]);
    }
  }

  /** If no selected case fails but for its citations, the run is never stopped, and every selected
      case has its own row. */
  lemma NothingStops(recorder: State, cases: seq<Case>, i: nat)
    requires i < |cases|
    requires forall j :: 0 <= j < |cases| && cases[j].selected && cases[j].attempt.audit.status == AuditFailed ==>
               CitationRefusal(cases[j].attempt.audit)
    ensures var start := LoopState(recorder, false);
            && !States(start, cases[..i]).paidStopped
            && (cases[i].selected ==> OwnRow(RowsOf(start, cases)[i], cases[i]))
    decreases i
  {
    hide States, RowsOf;
    var start := LoopState(recorder, false);
    var rows := RowsOf(start, cases);
    RowsKeepOrder(start, cases);
    RunsExactly(recorder, cases, i);
    forall j | 0 <= j < i
      ensures !Fatal(rows[j].audit)
    {
      RunsExactly(recorder, cases, j);
      if cases[j].selected {
        NothingStops(recorder, cases, j);
      }
    }
  }

  /** After a fatal row nothing is run, and the Judge's recorder is stopped. */
  lemma FatalStopsAll(recorder: State, cases: seq<Case>, i: nat, j: nat)
    requires i < j < |cases| && Fatal(RowsOf(LoopState(recorder, false), cases)[i].audit)
    ensures NotRunRow(RowsOf(LoopState(recorder, false), cases)[j])
    ensures States(LoopState(recorder, false), cases[..j]).recorder.stopped
  {
    hide States, RowOf, NotRunRow, Fatal;
    RunsExactly(recorder, cases, j);
    StoppedExactly(LoopState(recorder, false), cases[..j]);
  }

  // ----- One row

  /** Completed when all metrics are, skipped when all were, failed otherwise. */
  lemma RowStatusExactly(metrics: seq<Metric>)
    ensures StatusOf(metrics) == RowCompleted <==>
              metrics != [] && forall m :: m in metrics ==> m.status == MetricCompleted
    ensures StatusOf(metrics) == RowSkipped <==>
              metrics != [] && forall m :: m in metrics ==> m.status == MetricSkipped
  {
    if metrics != [] {
      assert metrics[0] in metrics;
    }
  }

  ghost predicate Overloaded(m: Metric) {
    m.failureCategory == Some("judge_timeout") || m.failureCategory == Some("network_error")
    || m.failureCategory == Some("rate_limited")
  }

  /** Main result: a row is judged exactly when there is something to judge and the Judge is neither
      stopped nor out of budget. Its metrics are then the adapter's, or four framework failures if
      that raised; otherwise it has four skipped metrics, and nothing was used. And judging stops the
      Judge exactly on an error status, a stop, or an overloaded metric. */
  lemma JudgedExactly(s: State, attempt: Attempt)
    ensures var (after, metrics, duration) := Judge(s, attempt);
            if attempt.hasSemanticInput && !s.stopped && s.calls < s.budget then
              && metrics == (if attempt.judging.metrics.Some? then attempt.judging.metrics.value
                             else seq(4, _ => Metric(FrameworkFailed, Some("framework_error"))))
              && duration == attempt.judging.durationMs
              && (after.stopped <==> AnyStops(attempt.judging.events) || exists m :: m in metrics && Overloaded(m))
              && UsageOf(after) == UsageOf(Run(s, attempt.judging.events))
            else
              && after == s && duration == 0
              && metrics == seq(4, _ => Metric(MetricSkipped, Some("dependency_unavailable")))
  {
    hide Run, AnyStops, StopsJudge;
    if attempt.hasSemanticInput && !s.stopped && s.calls < s.budget {
      RunStops(s, attempt.judging.events);
      var metrics := if attempt.judging.metrics.Some? then attempt.judging.metrics.value else FRAMEWORK_FAILED;
      OverloadStops(metrics);
      assert FRAMEWORK_FAILED == seq(4, _ => Metric(FrameworkFailed, Some("framework_error")));
    } else {
      assert SKIPPED == seq(4, _ => Metric(MetricSkipped, Some("dependency_unavailable")));
    }
  }

  lemma OverloadStops(metrics: seq<Metric>)
    ensures StopsJudge(metrics) <==> exists m :: m in metrics && Overloaded(m)
  {
    if StopsJudge(metrics) {
      var i :| 0 <= i < |metrics| && metrics[i].failureCategory in
                 {Some("judge_timeout"), Some("network_error"), Some("rate_limited")};
      assert metrics[i] in metrics && Overloaded(metrics[i]);
    }
  }

  lemma {:induction false} RunStops(s: State, events: seq<Event>)
    ensures Run(s, events).stopped <==> s.stopped || AnyStops(events)
  {
    if events != [] {
      hide AnyStops, TokensOf;
      var n := |events| - 1;
      RunStops(s, events[..n]);
      StopsSnoc(events[..n], events[n]);
      assert events == events[..n] + [events[n]];
    } 
  }
}
