/** Which cases a run accepts, and what it freezes of them (app/evals/answer_citation_runner.py and
    the validator of the cohort in app/schemas/evaluation.py). */
module AnswerCohorts {
  import opened AnswerAggregation
  import opened AnswerRun
  import opened CitationScoring
  import opened Options
  import opened Strings

  ghost function FrozenAs(cohort: Cohort): FakeCase -> bool { (c: FakeCase) => c.frozenCohort == cohort }

  ghost function Because(reason: string): FakeCase -> bool { (c: FakeCase) => c.input.reason == Some(reason) }

  /** Forty cases with different identifiers and completed contexts: first the 34 that are to be
      answered, 14, 10 and 10 of them in the three cohorts, and then the six that are not, for
      reasons of which two occur twice. */
  ghost predicate Acceptable(cases: seq<FakeCase>) {
    && |cases| == 40
    && (forall i, j :: 0 <= i < j < 40 ==> cases[i].input.caseId != cases[j].input.caseId)
    && (forall i :: 0 <= i < 40 ==> cases[i].input.contextStatus.StatusCompleted?)
    && (forall i :: 0 <= i < 40 ==> (cases[i].input.shouldAnswer <==> i < 34))
    && (forall i :: 0 <= i < 34 ==> cases[i].frozenCohort != SafetyAclVersion)
    && (forall i :: 34 <= i < 40 ==> cases[i].input.reason.Some?)
    && Tally(cases[..34], FrozenAs(RealCrossBorder)) == 14
    && Tally(cases[..34], FrozenAs(SyntheticCrossBorder)) == 10
    && Tally(cases[..34], FrozenAs(GeneralDiagnostics)) == 10
    && Tally(cases[34..], Because("acl_denied")) == 2 && Tally(cases[34..], Because("version_unavailable")) == 2
    && Tally(cases[34..], Because("no_evidence")) == 1 && Tally(cases[34..], Because("unknown")) == 1
  }

  ghost function Frozen(c: FakeCase): Identity {
    Identity(c.input.caseId, c.input.sourceGroup, c.frozenCohort, true, None)
  }

  ghost function FrozenSafety(c: FakeCase): Identity {
    Identity(c.input.caseId, c.input.sourceGroup, SafetyAclVersion, false, c.input.reason)
  }

  ghost predicate Freezes(cases: seq<FakeCase>, cohort: EvaluationCohort) {
    && |cases| == 40 && |cohort.answerable| == 34 && |cohort.safety| == 6
    && (forall i :: 0 <= i < 34 ==> cohort.answerable[i] == Frozen(cases[i]))
    && (forall i :: 34 <= i < 40 ==> cohort.safety[i - 34] == FrozenSafety(cases[i]))
  }

  /** The cases that are to be answered come before the others. */
  ghost predicate Ordered(cases: seq<FakeCase>, n: nat) {
    n <= |cases| && forall i :: 0 <= i < |cases| ==> (cases[i].input.shouldAnswer <==> i < n)
  }

  lemma {:induction false} FrozenInOrder(cases: seq<FakeCase>, n: nat)
    requires Ordered(cases, n)
    ensures FrozenRows(cases, true) == seq(n, i requires 0 <= i < n => Frozen(cases[i]))
    ensures FrozenRows(cases, false) ==
              seq(|cases| - n, i requires 0 <= i < |cases| - n => FrozenSafety(cases[n + i]))
  {
    if cases != [] {
      var last := |cases| - 1;
      var front, m := cases[..last], if n <= last then n else last;
      FrozenInOrder(front, m);
      assert FrozenIdentity(cases[last]) == if n <= last then FrozenSafety(cases[last]) else Frozen(cases[last]);
      if n <= last {
        assert seq(|cases| - n, i requires 0 <= i < |cases| - n => FrozenSafety(cases[n + i])) ==
               seq(last - n, i requires 0 <= i < last - n => FrozenSafety(front[n + i])) + [FrozenSafety(cases[last])];
      }
    }
  }

  lemma {:induction false} CohortsAreCounted(cases: seq<FakeCase>, g: Group, cohort: Cohort)
    requires (g, cohort) in {(RealGroup, RealCrossBorder), (SyntheticGroup, SyntheticCrossBorder),
                             (DiagnosticsGroup, GeneralDiagnostics)}
    ensures CountIn(g, seq(|cases|, i requires 0 <= i < |cases| => Frozen(cases[i]))) == Tally(cases, FrozenAs(cohort))
  {
    if cases != [] {
      var n := |cases| - 1;
      CohortsAreCounted(cases[..n], g, cohort);
      assert seq(|cases|, i requires 0 <= i < |cases| => Frozen(cases[i]))[..n] ==
             seq(n, i requires 0 <= i < n => Frozen(cases[..n][i]));
    }
  }

  lemma {:induction false} ReasonsAreCounted(cases: seq<FakeCase>, reason: string)
    ensures ReasonCount(reason, seq(|cases|, i requires 0 <= i < |cases| => FrozenSafety(cases[i]))) ==
              Tally(cases, Because(reason))
  {
    if cases != [] {
      var n := |cases| - 1;
      ReasonsAreCounted(cases[..n], reason);
      assert seq(|cases|, i requires 0 <= i < |cases| => FrozenSafety(cases[i]))[..n] ==
             seq(n, i requires 0 <= i < n => FrozenSafety(cases[..n][i]));
    }
  }

  lemma FrozenFreezes(cases: seq<FakeCase>)
    requires |cases| == 40 && Ordered(cases, 34)
    ensures Freezes(cases, Freeze(cases))
    ensures Freeze(cases).answerable == seq(34, i requires 0 <= i < 34 => Frozen(cases[..34][i]))
    ensures Freeze(cases).safety == seq(6, i requires 0 <= i < 6 => FrozenSafety(cases[34..][i]))
  {
    hide FrozenRows, Frozen, FrozenSafety;
    FrozenInOrder(cases, 34);
  }

  /** In accepted cases, the order of the identifiers puts the answerable cases first. */
  lemma AcceptedAreOrdered(cases: seq<FakeCase>)
    requires ValidCohort(Freeze(cases)) && ValidCases(cases, Freeze(cases))
    ensures Ordered(cases, 34)
  {
    hide CountIn, ReasonCount, FrozenRows;
    var rows := Rows(Freeze(cases));
    forall i | 0 <= i < 40
      ensures cases[i].input.shouldAnswer <==> i < 34
    {
      assert rows[i] in if i < 34 then FrozenRows(cases, true) else FrozenRows(cases, false);
      var c :| c in cases && (c.input.shouldAnswer <==> i < 34) && rows[i] == FrozenIdentity(c);
      assert c.input.caseId == cases[i].input.caseId;
      var j :| 0 <= j < 40 && cases[j] == c;
    }
  }

  lemma CountsMatch(cases: seq<FakeCase>)
    requires |cases| == 40 && Ordered(cases, 34)
    ensures var cohort := Freeze(cases);
            && CountIn(RealGroup, cohort.answerable) == Tally(cases[..34], FrozenAs(RealCrossBorder))
            && CountIn(SyntheticGroup, cohort.answerable) == Tally(cases[..34], FrozenAs(SyntheticCrossBorder))
            && CountIn(DiagnosticsGroup, cohort.answerable) == Tally(cases[..34], FrozenAs(GeneralDiagnostics))
            && forall reason :: ReasonCount(reason, cohort.safety) == Tally(cases[34..], Because(reason))
  {
    hide Freeze, CountIn, ReasonCount, Tally;
    FrozenFreezes(cases);
    CohortsAreCounted(cases[..34], RealGroup, RealCrossBorder);
    CohortsAreCounted(cases[..34], SyntheticGroup, SyntheticCrossBorder);
    CohortsAreCounted(cases[..34], DiagnosticsGroup, GeneralDiagnostics);
    forall reason
      ensures ReasonCount(reason, Freeze(cases).safety) == Tally(cases[34..], Because(reason))
    {
      ReasonsAreCounted(cases[34..], reason);
    }
  }

  /** Main result: a run accepts its cases exactly if they are acceptable, and it freezes of each
      its identity, with no reason where an answer is due and no cohort of its own where none is. */
  lemma AcceptedExactly(cases: seq<FakeCase>)
    ensures ValidCohort(Freeze(cases)) && ValidCases(cases, Freeze(cases)) <==> Acceptable(cases)
    ensures Acceptable(cases) ==> Freezes(cases, Freeze(cases))
  {
    hide Freeze, CountIn, ReasonCount, Tally;
    if ValidCohort(Freeze(cases)) && ValidCases(cases, Freeze(cases)) {
      AcceptedAreOrdered(cases);
      FrozenFreezes(cases);
      CountsMatch(cases);
      RowsShow(cases);
    } else if Acceptable(cases) {
      FrozenFreezes(cases);
      CountsMatch(cases);
      RowsShow(cases);
    }
  }

  lemma RowsShow(cases: seq<FakeCase>)
    requires Freezes(cases, Freeze(cases))
    ensures var rows := Rows(Freeze(cases));
            |rows| == 40 && forall i :: 0 <= i < 40 ==>
              rows[i] == if i < 34 then Frozen(cases[i]) else FrozenSafety(cases[i])
  {
    hide Freeze, Frozen, FrozenSafety;
  }
}
