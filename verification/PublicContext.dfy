/** Fitting the public context into its bounds (`_public_context`, app/agents/gateway.py).
    What fits is left to an arbitrary predicate. */
module PublicContext {
  import opened Options
  import opened Strings
  import opened Utf8

  datatype Turn = Turn(speaker: string, summary: string)

  /** The values the loop updates, and the JSON object is built from. */
  datatype Candidate = Candidate(question: string, summary: Option<string>, turns: seq<Turn>)

  const SMALL_SUMMARY: nat := 256
  const SHORT_QUESTION: nat := 12_000

  function Size(text: string): nat { |Encode(text)| }

  function Shortened(summary: string): Option<string> {
    if Size(summary) > SMALL_SUMMARY then Some(Utf8Prefix(summary, Size(summary) / 2)) else None
  }

  /** What is tried after a candidate that does not fit; nothing where the loop re-raises. */
  function Next(c: Candidate): Option<Candidate> {
    if c.summary.Some? then Some(c.(summary := Shortened(c.summary.value)))
    else if c.turns != [] then Some(c.(turns := c.turns[1..]))
    else
      var shortened := Utf8Prefix(c.question, SHORT_QUESTION);
      if shortened == c.question then None else Some(c.(question := shortened))
  }

  function QuestionRank(question: string): nat { if Size(question) > SHORT_QUESTION then 1 else 0 }
  function SummaryRank(summary: Option<string>): nat { if summary.None? then 0 else 1 + Size(summary.value) }

  lemma NextIsSmaller(c: Candidate)
    requires Next(c).Some?
    ensures var d := Next(c).value;
            || QuestionRank(d.question) < QuestionRank(c.question)
            || (d.question == c.question && |d.turns| < |c.turns|)
            || (d.question == c.question && d.turns == c.turns && SummaryRank(d.summary) < SummaryRank(c.summary))
  {
    hide Encode, Utf8Prefix;
    if c.summary.Some? {
      PrefixTwice(c.summary.value, Size(c.summary.value) / 2);
    } else if c.turns == [] {
      PrefixIsWholeExactly(c.question, SHORT_QUESTION);
      PrefixTwice(c.question, SHORT_QUESTION);
    }
  }

  /** Every candidate the loop can try, in order. */
  function Ladder(c: Candidate): (ladder: seq<Candidate>)
    ensures |ladder| >= 1
    decreases QuestionRank(c.question), |c.turns|, SummaryRank(c.summary)
  {
    match Next(c)
    case None => [c]
    case Some(d) => NextIsSmaller(c); [c] + Ladder(d)
  }

  /** The first candidate that fits. */
  function FirstFit(ladder: seq<Candidate>, fits: Candidate -> bool): Option<Candidate> {
    if ladder == [] then None
    else if fits(ladder[0]) then Some(ladder[0])
    else FirstFit(ladder[1..], fits)
  }

  /** `_public_context`; None where it raises. `tried` counts the candidates built. */
  method PublicContext(message: string, summary: Option<string>, recentTurns: seq<Turn>, fits: Candidate -> bool)
    returns (result: Option<Candidate>, tried: nat)
    ensures var ladder := Ladder(Candidate(message, summary, recentTurns));
            result == FirstFit(ladder, fits) && tried <= |ladder|
    ensures result.Some? ==> GoodResult(message, summary, recentTurns, fits, result.value)
  {
    hide Utf8Prefix, Encode, GoodResult;
    ResultIsGood(message, summary, recentTurns, fits);
    var question, safeSummary, turns := message, summary, recentTurns;
    tried := 0;
    ghost var ladder := Ladder(Candidate(message, summary, recentTurns));
    while true
      invariant FirstFit(ladder, fits) == FirstFit(Ladder(Candidate(question, safeSummary, turns)), fits)
      invariant tried + |Ladder(Candidate(question, safeSummary, turns))| == |ladder|
      decreases |Ladder(Candidate(question, safeSummary, turns))|
    {
      var candidate := Candidate(question, safeSummary, turns);
      tried := tried + 1;
      if fits(candidate) {
        return Some(candidate), tried;
      }
      LadderStep(candidate, fits);
      if safeSummary.Some? {
        var encodedSize := |Encode(safeSummary.value)|;
        safeSummary := if encodedSize > 256 then Some(Utf8Prefix(safeSummary.value, encodedSize / 2)) else None;
        continue;
      }
      if turns != [] {
        turns := turns[1..];
        continue;
      }
      var shortened := Utf8Prefix(question, 12_000);
      if shortened == question {
        return None, tried;
      }
      question := shortened;
    }
  }

  lemma LadderStep(c: Candidate, fits: Candidate -> bool)
    requires !fits(c)
    ensures match Next(c)
            case None => FirstFit(Ladder(c), fits).None? && |Ladder(c)| == 1
            case Some(d) => FirstFit(Ladder(c), fits) == FirstFit(Ladder(d), fits) && |Ladder(c)| == 1 + |Ladder(d)|
  {
  }

  // ----- The shape of the ladder

  /** The summaries that are tried, from the whole one down to none. */
  function Summaries(summary: Option<string>): (tries: seq<Option<string>>)
    ensures |tries| >= 1
    decreases SummaryRank(summary)
  {
    if summary.None? then [None]
    else
      PrefixTwice(summary.value, Size(summary.value) / 2);
      [summary] + Summaries(Shortened(summary.value))
  }

  function SummaryTier(question: string, tries: seq<Option<string>>, turns: seq<Turn>): seq<Candidate> {
    seq(|tries|, i requires 0 <= i < |tries| => Candidate(question, tries[i], turns))
  }

  /** The turns without their first 1, 2, ... up to all. */
  function TurnTier(question: string, turns: seq<Turn>): seq<Candidate> {
    seq(|turns|, i requires 0 <= i < |turns| => Candidate(question, None, turns[i + 1..]))
  }

  function QuestionTier(question: string): seq<Candidate> {
    if Size(question) <= SHORT_QUESTION then [] else [Candidate(Utf8Prefix(question, SHORT_QUESTION), None, [])]
  }

  lemma LadderOfQuestion(question: string)
    ensures Ladder(Candidate(question, None, [])) == [Candidate(question, None, [])] + QuestionTier(question)
  {
    hide Encode, Utf8Prefix;
    PrefixIsWholeExactly(question, SHORT_QUESTION);
    PrefixTwice(question, SHORT_QUESTION);
    var shortened := Candidate(Utf8Prefix(question, SHORT_QUESTION), None, []);
    assert Ladder(shortened) == [shortened];
  }

  lemma {:induction false} LadderOfTurns(question: string, turns: seq<Turn>)
    ensures Ladder(Candidate(question, None, turns)) ==
              [Candidate(question, None, turns)] + (TurnTier(question, turns) + QuestionTier(question))
  {
    hide QuestionTier;
    if turns == [] {
      LadderOfQuestion(question);
      assert TurnTier(question, []) + QuestionTier(question) == QuestionTier(question);
    } else {
      LadderOfTurns(question, turns[1..]);
      var rest := Candidate(question, None, turns[1..]);
      assert TurnTier(question, turns) == [rest] + TurnTier(question, turns[1..]);
      ConcatAssociative([rest], TurnTier(question, turns[1..]), QuestionTier(question));
    }
  }

  /** Main result: what the loop tries are all shortened summaries with everything else
      whole, then all suffixes of the turns with the whole question, then the cut question. */
  lemma {:induction false} LadderShape(question: string, summary: Option<string>, turns: seq<Turn>)
    ensures Ladder(Candidate(question, summary, turns)) ==
              SummaryTier(question, Summaries(summary), turns) + (TurnTier(question, turns) + QuestionTier(question))
    decreases SummaryRank(summary)
  {
    hide QuestionTier, TurnTier, Encode, Utf8Prefix;
    var c := Candidate(question, summary, turns);
    var rest := TurnTier(question, turns) + QuestionTier(question);
    if summary.None? {
      LadderOfTurns(question, turns);
      assert SummaryTier(question, [None], turns) == [c];
    } else {
      var shortened := Shortened(summary.value);
      PrefixTwice(summary.value, Size(summary.value) / 2);
      LadderShape(question, shortened, turns);
      assert SummaryTier(question, Summaries(summary), turns) ==
             [c] + SummaryTier(question, Summaries(shortened), turns);
      ConcatAssociative([c], SummaryTier(question, Summaries(shortened), turns), rest);
    }
  }

  function Power(k: nat): nat { if k == 0 then 1 else 2 * Power(k - 1) }

  /** A summary of at most 256 * 2^k bytes is shortened at most k + 1 times. */
  lemma {:induction false} FewSummaries(summary: Option<string>, k: nat)
    requires summary.Some? ==> Size(summary.value) <= SMALL_SUMMARY * Power(k)
    ensures |Summaries(summary)| <= k + 2
    decreases SummaryRank(summary)
  {
    hide Encode, Utf8Prefix;
    if summary.Some? {
      var size := Size(summary.value);
      PrefixTwice(summary.value, size / 2);
      if size > SMALL_SUMMARY {
        assert k > 0;
        FewSummaries(Shortened(summary.value), k - 1);
      } else {
        assert Summaries(Shortened(summary.value)) == [None];
      }
    }
  }

  /** Main result: the number of candidates is logarithmic in the summary's bytes plus the
      number of turns plus a constant. */
  lemma FewCandidates(message: string, summary: Option<string>, turns: seq<Turn>, k: nat)
    requires summary.Some? ==> Size(summary.value) <= SMALL_SUMMARY * Power(k)
    ensures |Ladder(Candidate(message, summary, turns))| <= k + |turns| + 3
  {
    hide Ladder, Summaries;
    FewSummaries(summary, k);
    LadderShape(message, summary, turns);
  }

  /** Every summary that is tried is a prefix of the original. */
  lemma {:induction false} SummariesArePrefixes(summary: Option<string>, i: nat)
    requires i < |Summaries(summary)|
    ensures var s := Summaries(summary)[i];
            && (s.Some? ==> summary.Some? && s.value <= summary.value)
            && (s.None? <==> i == |Summaries(summary)| - 1)
    decreases SummaryRank(summary)
  {
    hide Encode, Utf8Prefix;
    if summary.Some? {
      PrefixTwice(summary.value, Size(summary.value) / 2);
      var shortened := Shortened(summary.value);
      if i > 0 {
        SummariesArePrefixes(shortened, i - 1);
      }
    }
  }

  lemma {:induction false} FirstFitIsFirst(ladder: seq<Candidate>, fits: Candidate -> bool)
    ensures match FirstFit(ladder, fits)
            case None => forall c :: c in ladder ==> !fits(c)
            case Some(c) => exists i :: FitsFirstAt(ladder, fits, i) && ladder[i] == c
  {
    if ladder != [] {
      FirstFitIsFirst(ladder[1..], fits);
      if !fits(ladder[0]) {
        assert forall c :: c in ladder <==> c == ladder[0] || c in ladder[1..];
        if FirstFit(ladder[1..], fits).Some? {
          var i :| FitsFirstAt(ladder[1..], fits, i) && ladder[1..][i] == FirstFit(ladder, fits).value;
          assert forall j :: 0 < j <= i ==> ladder[j] == ladder[1..][j - 1];
          assert FitsFirstAt(ladder, fits, i + 1);
        }
      } else {
        assert FitsFirstAt(ladder, fits, 0);
      }
    }
  }

  ghost predicate FitsFirstAt(ladder: seq<Candidate>, fits: Candidate -> bool, i: int) {
    0 <= i < |ladder| && fits(ladder[i]) && forall j :: 0 <= j < i ==> !fits(ladder[j])
  }

  /** No longer suffix of the turns fits once the summary is gone. */
  ghost predicate LongestSuffix(message: string, turns: seq<Turn>, kept: seq<Turn>, fits: Candidate -> bool) {
    exists n :: 0 <= n <= |turns| && kept == turns[n..] && NoneFitsBefore(message, turns, n, fits)
  }

  ghost predicate NoneFitsBefore(message: string, turns: seq<Turn>, n: int, fits: Candidate -> bool)
    requires n <= |turns|
  {
    forall j :: 0 <= j < n ==> !fits(Candidate(message, None, turns[j..]))
  }

  /** No summary that is tried before this one fits. */
  ghost predicate FirstSummary(message: string, summary: Option<string>, turns: seq<Turn>, fits: Candidate -> bool,
                               kept: Option<string>) {
    exists n :: 0 <= n < |Summaries(summary)| && kept == Summaries(summary)[n]
                && NoSummaryFitsBefore(message, summary, turns, n, fits)
  }

  ghost predicate NoSummaryFitsBefore(message: string, summary: Option<string>, turns: seq<Turn>, n: int,
                                      fits: Candidate -> bool)
    requires n <= |Summaries(summary)|
  {
    forall j :: 0 <= j < n ==> !fits(Candidate(message, Summaries(summary)[j], turns))
  }

  /** Each summary that is tried is the longest prefix that has half of the bytes before it, or none
      after at most 256 bytes. */
  ghost predicate IsHalved(before: string, after: Option<string>) {
    match after
    case None => |Encode(before)| <= 256
    case Some(half) =>
      && |Encode(before)| > 256 && half <= before && 2 * |Encode(half)| <= |Encode(before)|
      && (|half| < |before| ==> 2 * |Encode(before[..|half| + 1])| > |Encode(before)|)
  }

  lemma {:induction false} SummariesAreHalved(summary: Option<string>, i: nat)
    requires i + 1 < |Summaries(summary)|
    ensures var tries := Summaries(summary);
            tries[0] == summary && tries[i].Some? && IsHalved(tries[i].value, tries[i + 1])
    decreases SummaryRank(summary)
  {
    hide Encode, Utf8Prefix;
    var s := summary.value;
    PrefixTwice(s, Size(s) / 2);
    if i == 0 {
      ShortenedIsHalved(s);
    } else {
      SummariesAreHalved(Shortened(s), i - 1);
    }
  }

  lemma ShortenedIsHalved(s: string)
    ensures IsHalved(s, Shortened(s))
  {
    hide Encode, Utf8Prefix;
    var half := Utf8Prefix(s, Size(s) / 2);
    PrefixTwice(s, Size(s) / 2);
    PrefixIsLongestFitting(s, Size(s) / 2, |half|);
    assert s[..|half|] == half;
  }

  /** What is known of any result. */
  ghost predicate GoodResult(message: string, summary: Option<string>, turns: seq<Turn>, fits: Candidate -> bool,
                             r: Candidate) {
    && fits(r)
    && (r.summary.Some? ==>
          summary.Some? && r.summary.value <= summary.value && r.turns == turns && r.question == message)
    && (r.summary.Some? || r == Candidate(message, None, turns) ==>
          FirstSummary(message, summary, turns, fits, r.summary))
    && (r.summary.None? && r.question == message ==> LongestSuffix(message, turns, r.turns, fits))
    && (r.question != message ==>
          && r == Candidate(Utf8Prefix(message, 12_000), None, []) && |Encode(message)| > 12_000
          && NoneFitsBefore(message, turns, |turns|, fits) && !fits(Candidate(message, None, [])))
  }

  lemma LadderAt(message: string, summary: Option<string>, turns: seq<Turn>, i: nat)
    requires i < |Ladder(Candidate(message, summary, turns))|
    ensures var m := |Summaries(summary)|;
            Ladder(Candidate(message, summary, turns))[i] ==
              if i < m then Candidate(message, Summaries(summary)[i], turns)
              else if i < m + |turns| then Candidate(message, None, turns[i - m + 1..])
              else Candidate(Utf8Prefix(message, SHORT_QUESTION), None, [])
    ensures i >= |Summaries(summary)| + |turns| ==> Size(message) > SHORT_QUESTION
  {
    hide Ladder, Summaries, Utf8Prefix, Encode;
    LadderShape(message, summary, turns);
  }

  /** The candidate without a summary and without the first n turns. */
  lemma WithoutSummaryAt(message: string, summary: Option<string>, turns: seq<Turn>, n: nat)
    requires n <= |turns|
    ensures var i := |Summaries(summary)| - 1 + n;
            i < |Ladder(Candidate(message, summary, turns))| &&
            Ladder(Candidate(message, summary, turns))[i] == Candidate(message, None, turns[n..])
  {
    hide Ladder, Summaries, Utf8Prefix, Encode;
    LadderShape(message, summary, turns);
    LadderAt(message, summary, turns, |Summaries(summary)| - 1 + n);
    SummariesArePrefixes(summary, |Summaries(summary)| - 1);
  }

  lemma NoneFitsBeforeRung(message: string, summary: Option<string>, turns: seq<Turn>, fits: Candidate -> bool,
                           i: nat, n: nat)
    requires FitsFirstAt(Ladder(Candidate(message, summary, turns)), fits, i)
    requires n <= |turns| && i >= |Summaries(summary)| - 1 + n
    ensures NoneFitsBefore(message, turns, n, fits)
  {
    hide Ladder, Summaries;
    forall j | 0 <= j < n
      ensures !fits(Candidate(message, None, turns[j..]))
    {
      WithoutSummaryAt(message, summary, turns, j);
    }
  }

  lemma SummariesTriedFirst(message: string, summary: Option<string>, turns: seq<Turn>, fits: Candidate -> bool,
                            i: nat)
    requires FitsFirstAt(Ladder(Candidate(message, summary, turns)), fits, i) && i < |Summaries(summary)|
    ensures FirstSummary(message, summary, turns, fits, Summaries(summary)[i])
  {
    hide Ladder, Summaries;
    forall j | 0 <= j < i
      ensures !fits(Candidate(message, Summaries(summary)[j], turns))
    {
      LadderAt(message, summary, turns, j);
    }
    assert NoSummaryFitsBefore(message, summary, turns, i, fits);
  }

  /** Main result: whatever fits means, a result fits; its summary is a prefix of the original
      with everything else whole, or it is gone; once it is gone the turns are the longest
      suffix that fits; and the question is cut only after the summary and all turns are gone. */
  lemma ResultIsGood(message: string, summary: Option<string>, turns: seq<Turn>, fits: Candidate -> bool)
    ensures match FirstFit(Ladder(Candidate(message, summary, turns)), fits)
            case None => true
            case Some(r) => GoodResult(message, summary, turns, fits, r)
  {
    hide Ladder, Summaries, FirstFit, Utf8Prefix, Encode;
    var ladder := Ladder(Candidate(message, summary, turns));
    FirstFitIsFirst(ladder, fits);
    match FirstFit(ladder, fits)
    case None =>
    case Some(r) =>
      var i :| FitsFirstAt(ladder, fits, i) && ladder[i] == r;
      var m := |Summaries(summary)|;
      LadderAt(message, summary, turns, i);
      if i < m {
        SummariesArePrefixes(summary, i);
        SummariesTriedFirst(message, summary, turns, fits, i);
        assert turns[0..] == turns;
        assert NoneFitsBefore(message, turns, 0, fits);
      } else if i < m + |turns| {
        NoneFitsBeforeRung(message, summary, turns, fits, i, i - m + 1);
      } else {
        NoneFitsBeforeRung(message, summary, turns, fits, i, |turns|);
        WithoutSummaryAt(message, summary, turns, |turns|);
        assert turns[|turns|..] == [];
        PrefixIsWholeExactly(message, SHORT_QUESTION);
      }
  }

  /** Main result: it raises exactly when no shortened summary fits with everything else whole,
      no suffix of the turns fits without a summary, and a long question does not fit even cut. */
  lemma RaisesExactly(message: string, summary: Option<string>, turns: seq<Turn>, fits: Candidate -> bool)
    ensures FirstFit(Ladder(Candidate(message, summary, turns)), fits).None? <==>
              && (forall s :: s in Summaries(summary) ==> !fits(Candidate(message, s, turns)))
              && (forall n :: 0 <= n <= |turns| ==> !fits(Candidate(message, None, turns[n..])))
              && (Size(message) > SHORT_QUESTION ==> !fits(Candidate(Utf8Prefix(message, SHORT_QUESTION), None, [])))
  {
    hide Ladder, Summaries, FirstFit, Utf8Prefix, Encode;
    var ladder := Ladder(Candidate(message, summary, turns));
    var m := |Summaries(summary)|;
    FirstFitIsFirst(ladder, fits);
    LadderShape(message, summary, turns);
    if FirstFit(ladder, fits).None? {
      forall s | s in Summaries(summary)
        ensures !fits(Candidate(message, s, turns))
      {
        var i :| 0 <= i < m && Summaries(summary)[i] == s;
        LadderAt(message, summary, turns, i);
        assert ladder[i] in ladder;
      }
      forall n | 0 <= n <= |turns|
        ensures !fits(Candidate(message, None, turns[n..]))
      {
        WithoutSummaryAt(message, summary, turns, n);
        assert ladder[m - 1 + n] in ladder;
      }
      if Size(message) > SHORT_QUESTION {
        LadderAt(message, summary, turns, m + |turns|);
        assert ladder[m + |turns|] in ladder;
      }
    } else {
      var i :| FitsFirstAt(ladder, fits, i);
      LadderAt(message, summary, turns, i);
    }
  }
}
