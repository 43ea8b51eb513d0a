/** The run-local answer cache and the providers behind it
    (app/evals/answer_citation_runner.py), with the validator of its counters
    (app/evals/answer_citation_report.py). */
module AnswerCache {
  import opened CitationLabels
  import opened CitationScanner
  import opened CitationScoring
  import opened FakeAnswer
  import opened Options
  import opened Strings

  /** What a call of `generate` may do. */
  datatype Response = Returned(execution: Execution) | WrongType | Raised

  /** The execution a response stands for once exceptions are mapped. */
  function ExecutionOf(response: Response): Execution {
    match response
    case Returned(execution) => execution
    case WrongType => ProviderFailed("output_invalid")
    case Raised => ProviderFailed("provider_error")
  }

  /** `AnswerProvider`: it answers a request always the same way, and counts its calls. */
  class AnswerProvider {
    const identity: string
    const respond: Request -> Response
    var callCount: nat

    constructor (identity: string, respond: Request -> Response)
      ensures this.identity == identity && this.respond == respond && callCount == 0
    {
      this.identity := identity;
      this.respond := respond;
      callCount := 0;
    }

    method Generate(request: Request) returns (response: Response)
      modifies this`callCount
      ensures response == respond(request) && callCount == old(callCount) + 1
    {
      callCount := callCount + 1;
      response := respond(request);
    }
  }

  /** What the payload hash of `_answer_cache_key` identifies, taking the hash as injective:
      the provider's identity and the full request. */
  datatype Key = Key(identity: string, request: Request)

  /** How the provider of each identity responds. */
  type World = string -> Request -> Response

  function Uncached(world: World, key: Key): Execution { ExecutionOf(world(key.identity)(key.request)) }

  /** The fields of `RunAnswerCache`. */
  datatype CacheState = CacheState(values: map<Key, Execution>, requests: nat, hits: nat, misses: nat, calls: nat)

  const EMPTY := CacheState(map[], 0, 0, 0, 0)

  /** `AnswerCitationCacheStats`. */
  datatype CacheStats = CacheStats(requests: nat, hits: nat, misses: nat, calls: nat, entries: nat)

  predicate ValidStats(s: CacheStats) {
    s.requests == s.hits + s.misses && s.calls == s.misses && s.entries <= s.calls
  }

  function StatsOf(s: CacheState): CacheStats { CacheStats(s.requests, s.hits, s.misses, s.calls, |s.values|) }

  /** One request. */
  function Step(world: World, s: CacheState, key: Key): (CacheState, Execution) {
    if key in s.values then (s.(requests := s.requests + 1, hits := s.hits + 1), s.values[key])
    else
      var execution := Uncached(world, key);
      (CacheState(if execution.Completed? then s.values[key := execution] else s.values,
                  s.requests + 1, s.hits, s.misses + 1, s.calls + 1),
       execution)
  }

  class RunAnswerCache {
    var values: map<Key, Execution>
    var requests: nat
    var hits: nat
    var misses: nat
    var calls: nat
    /** The keys of all requests so far. */
    ghost var asked: seq<Key>

    function State(): CacheState
      reads this
    {
      CacheState(values, requests, hits, misses, calls)
    }

    /** The cache is where its requests, asked of an empty cache, lead. */
    ghost predicate Valid(world: World)
      reads this
    {
      State() == Run(world, asked).0
    }

    constructor ()
      ensures State() == EMPTY && asked == [] && forall world :: Valid(world)
    {
      values := map[];
      requests, hits, misses, calls := 0, 0, 0, 0;
      asked := [];
    }

    /** `get_or_generate`: the provider is called exactly when the key is not stored. */
    method GetOrGenerate(request: Request, provider: AnswerProvider, ghost world: World) returns (execution: Execution)
      requires provider.respond == world(provider.identity)
      modifies this, provider`callCount
      ensures (State(), execution) == Step(world, old(State()), Key(provider.identity, request))
      ensures asked == old(asked) + [Key(provider.identity, request)] && (old(Valid(world)) ==> Valid(world))
      ensures provider.callCount - old(provider.callCount) == calls - old(calls)
    {
      hide Run, Uncached;
      ghost var before := State();
      var key := Key(provider.identity, request);
      RunSnoc(world, asked, key);
      requests := requests + 1;
      asked := asked + [key];
      if key in values {
        hits := hits + 1;
        return values[key];
      }
      misses := misses + 1;
      calls := calls + 1;
      var response := provider.Generate(request);
      match response {
        case Returned(returned) => execution := returned;
        case WrongType => execution := ProviderFailed("output_invalid");
        case Raised => execution := ProviderFailed("provider_error");
      }
      assert execution == Uncached(world, key) by { UncachedIs(world, key, response); }
      if execution.Completed? {
        values := values[key := execution];
      }
      assert State() == Step(world, before, key).0;
    }

    /** `stats`: the counters of any requests form a valid record, which says how many of them
        repeated an answered one and how many different ones were answered. */
    method Stats(ghost world: World) returns (stats: Option<CacheStats>)
      requires Valid(world)
      ensures stats == Some(StatsOf(State())) && ValidStats(stats.value)
      ensures stats.value.requests == |asked| && stats.value.hits == Repeats(world, asked)
      ensures stats.value.misses == stats.value.calls == |asked| - Repeats(world, asked)
      ensures stats.value.entries == |Answered(world, asked)|
    {
      hide Run, Repeats, Answered;
      CacheRefinesDirectCalls(world, asked);
      EntriesAreKeys(values);
      var counters := CacheStats(requests, hits, misses, calls, |values|);
      stats := if ValidStats(counters) then Some(counters) else None;
    }
  }

  lemma UncachedIs(world: World, key: Key, response: Response)
    requires response == world(key.identity)(key.request)
    ensures Uncached(world, key) == ExecutionOf(response)
  {
  }

  lemma EntriesAreKeys(values: map<Key, Execution>)
    ensures |values| == |values.Keys|
  {
  }

  lemma RunSnoc(world: World, keys: seq<Key>, key: Key)
    ensures Run(world, keys + [key]).0 == Step(world, Run(world, keys).0, key).0
  {
    hide Step;
    assert (keys + [key])[..|keys + [key]| - 1] == keys;
  }

  // ----- Any sequence of requests

  /** The state and the answers after all the requests. */
  function Run(world: World, keys: seq<Key>): (CacheState, seq<Execution>) {
    if keys == [] then (EMPTY, [])
    else
      var (s, answers) := Run(world, keys[..|keys| - 1]);
      var (after, answer) := Step(world, s, keys[|keys| - 1]);
      (after, answers + [answer])
  }

  predicate Completes(world: World, key: Key) { Uncached(world, key).Completed? }

  /** The keys that have been asked for and answered. */
  function Answered(world: World, keys: seq<Key>): set<Key> {
    set key | key in keys && Completes(world, key)
  }

  lemma AnsweredSnoc(world: World, keys: seq<Key>, key: Key)
    ensures Answered(world, keys + [key]) == Answered(world, keys) + (if Completes(world, key) then {key} else {})
  {
  }

  /** The requests that repeat an answered one. */
  function Repeats(world: World, keys: seq<Key>): nat {
    if keys == [] then 0
    else
      var n := |keys| - 1;
      Repeats(world, keys[..n]) + (if keys[n] in Answered(world, keys[..n]) then 1 else 0)
  }

  /** Main result: whatever is asked in whatever order, each answer is what a direct call
      gives, exactly the completed ones are stored, and the counters say how many requests
      repeated an answered one. */
  lemma {:induction false} CacheRefinesDirectCalls(world: World, keys: seq<Key>)
    ensures var (s, answers) := Run(world, keys);
            && |answers| == |keys|
            && (forall i :: 0 <= i < |keys| ==> answers[i] == Uncached(world, keys[i]))
            && s.values.Keys == Answered(world, keys)
            && (forall key :: key in s.values ==> s.values[key] == Uncached(world, key))
            && s.requests == |keys| && s.hits == Repeats(world, keys) && s.misses == s.calls == |keys| - s.hits
            && ValidStats(StatsOf(s))
  {
    hide Answered, Uncached;
    if keys == [] {
      assert Answered(world, keys) == {} by { NothingAnswered(world); }
    } else {
      var front, key := keys[..|keys| - 1], keys[|keys| - 1];
      CacheRefinesDirectCalls(world, front);
      AnsweredSnoc(world, front, key);
      assert keys == front + [key];
      var (s, _) := Run(world, front);
      var (after, _) := Step(world, s, key);
      OneEntryMore(s.values, key, Uncached(world, key));
      AnsweredCompletes(world, front);
      if key in s.values {
        assert after.values == s.values;
      } else if Uncached(world, key).Completed? {
        assert after.values.Keys == s.values.Keys + {key};
      }
    }
  }

  lemma NothingAnswered(world: World)
    ensures Answered(world, []) == {}
  {
  }

  lemma AnsweredCompletes(world: World, keys: seq<Key>)
    ensures forall key :: key in Answered(world, keys) ==> Completes(world, key)
  {
  }

  lemma OneEntryMore(values: map<Key, Execution>, key: Key, execution: Execution)
    ensures |values[key := execution]| <= |values| + 1
    ensures key !in values ==> |values[key := execution]| == |values| + 1
  {
  }

  function CompletedCount(world: World, keys: seq<Key>): nat {
    if keys == [] then 0
    else CompletedCount(world, keys[..|keys| - 1]) + (if Completes(world, keys[|keys| - 1]) then 1 else 0)
  }

  /** Requests that are all different never hit, and store one entry for each completed answer. */
  lemma {:induction false} DistinctRequestsNeverHit(world: World, keys: seq<Key>)
    requires Distinct(keys)
    ensures Repeats(world, keys) == 0
    ensures |Answered(world, keys)| == CompletedCount(world, keys)
  {
    hide Completes;
    if keys == [] {
      NothingAnswered(world);
    } else {
      var front, key := keys[..|keys| - 1], keys[|keys| - 1];
      DistinctRequestsNeverHit(world, front);
      AnsweredSnoc(world, front, key);
      assert keys == front + [key];
      assert key !in front;
      assert key !in Answered(world, front);
    }
  }

  // ----- The deterministic fake provider

  /** What `generate` does for any request. The schema strips every text, and building a record of an
      empty one raises. */
  function FakeResponse(isSpace: char -> bool, request: Request): Response {
    if !request.shouldAnswer then Returned(Completed(Refusal, REFUSED))
    else if !(request.expectedGolden <= ContextGolden(request.evidence)) then Returned(Completed(Refusal, INSUFFICIENT))
    else if |PrintedAnswer(request)| > 4000 then Returned(ProviderFailed("output_invalid"))
    else
      var text := Strip(isSpace, PrintedAnswer(request));
      if text == "" then Raised else Returned(Completed(Answer, text))
  }

  class DeterministicFakeAnswerProvider {
    var callCount: nat
    const isSpace: char -> bool

    constructor (isSpace: char -> bool)
      ensures callCount == 0 && this.isSpace == isSpace
    {
      callCount := 0;
      this.isSpace := isSpace;
    }

    method Generate(request: Request) returns (response: Response)
      modifies this`callCount
      ensures response == FakeResponse(isSpace, request) && callCount == old(callCount) + 1
    {
      hide JoinWith, CanonicalTexts, Strip, IsGolden, ContextGolden, CitedBindings, LabelsOfBindings;
      callCount := callCount + 1;
      if !request.shouldAnswer {
        return Returned(Completed(Refusal, REFUSED));
      }
      var contextGolden := ContextGolden(request.evidence);
      if !(request.expectedGolden <= contextGolden) {
        return Returned(Completed(Refusal, INSUFFICIENT));
      }
      var citations: seq<string> := [];
      NothingCitedYet(request.expectedGolden);
      assert request.evidence[..0] == [];
      for i := 0 to |request.evidence|
        invariant callCount == old(callCount) + 1
        invariant citations == LabelsOfBindings(CitedBindings(request.evidence[..i], request.expectedGolden))
      {
        var binding := request.evidence[i];
        CitedSnoc(request.evidence, request.expectedGolden, i);
        if IsGolden(request.expectedGolden, binding) {
          citations := citations + [binding.citationLabel];
        }
      }
      assert request.evidence[..|request.evidence|] == request.evidence;
      var answerText := JoinWith([SEMICOLON], CanonicalTexts(request.keyPoints));
      if citations != [] {
        answerText := answerText + " " + JoinWith(" ", citations);
      }
      assert answerText == PrintedAnswer(request);
      if |answerText| > 4000 {
        return Returned(ProviderFailed("output_invalid"));
      }
      var text := Strip(isSpace, answerText);
      return if text == "" then Raised else Returned(Completed(Answer, text));
    }
  }

  lemma NothingCitedYet(expected: set<string>)
    ensures LabelsOfBindings(CitedBindings([], expected)) == []
  {
  }

  lemma CitedSnoc(evidence: seq<Binding>, expected: set<string>, i: nat)
    requires i < |evidence|
    ensures LabelsOfBindings(CitedBindings(evidence[..i + 1], expected)) ==
              LabelsOfBindings(CitedBindings(evidence[..i], expected)) +
              (if IsGolden(expected, evidence[i]) then [evidence[i].citationLabel] else [])
  {
    hide IsGolden;
    assert evidence[..i + 1][..i] == evidence[..i];
    var front := CitedBindings(evidence[..i], expected);
    if IsGolden(expected, evidence[i]) {
      LabelsOfSnoc(front, evidence[i]);
    } else {
      assert front + [] == front;
    }
  }

  predicate HasNoOuterSpace(isSpace: char -> bool, text: string) {
    text != "" && !isSpace(text[0]) && !isSpace(text[|text| - 1])
  }

  lemma {:induction false} JoinedHasNoOuterSpace(isSpace: char -> bool, separator: string, parts: seq<string>)
    requires parts != [] && forall i :: 0 <= i < |parts| ==> HasNoOuterSpace(isSpace, parts[i])
    ensures HasNoOuterSpace(isSpace, JoinWith(separator, parts))
  {
    if |parts| > 1 {
      JoinedHasNoOuterSpace(isSpace, separator, parts[1..]);
      var rest := JoinWith(separator, parts[1..]);
      var text := parts[0] + separator + rest;
      assert text[0] == parts[0][0];
      assert text[|text| - 1] == rest[|rest| - 1];
    }
  }

  /** For a request with key points whose texts, like the labels, have no outer white space,
      stripping changes nothing, and the response is the execution that scoring is proved about. */
  lemma FakeResponseIsFakeExecution(isSpace: char -> bool, request: Request)
    requires request.keyPoints != []
    requires forall i :: 0 <= i < |request.keyPoints| ==> HasNoOuterSpace(isSpace, request.keyPoints[i].canonicalText)
    requires forall i :: 0 <= i < |request.evidence| ==> HasNoOuterSpace(isSpace, request.evidence[i].citationLabel)
    ensures FakeResponse(isSpace, request) == Returned(FakeExecution(request))
  {
    hide JoinWith, CitedBindings;
    var cited := CitedBindings(request.evidence, request.expectedGolden);
    var labels := LabelsOfBindings(cited);
    var points := JoinWith([SEMICOLON], CanonicalTexts(request.keyPoints));
    JoinedHasNoOuterSpace(isSpace, [SEMICOLON], CanonicalTexts(request.keyPoints));
    if labels != [] {
      forall i | 0 <= i < |labels|
        ensures HasNoOuterSpace(isSpace, labels[i])
      {
        assert cited[i] in cited;
        var j :| 0 <= j < |request.evidence| && request.evidence[j] == cited[i];
      }
      JoinedHasNoOuterSpace(isSpace, " ", labels);
      var last := JoinWith(" ", labels);
      var text := points + " " + last;
      assert text[0] == points[0] && text[|text| - 1] == last[|last| - 1];
    }
  }
}
