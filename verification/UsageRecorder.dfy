/** The Judge usage recorder and the snapshots of its counters
    (app/evals/answer_citation_formal.py, app/evals/answer_citation_report.py). */
module UsageRecorder {
  import opened Options

  /** `FormalModelUsage`. */
  datatype Usage = Usage(calls: int, input: int, output: int, total: int)

  const ZERO := Usage(0, 0, 0, 0)

  const MAX_CALLS := 10_000
  const MAX_TOKENS := 100_000_000

  /** The bounds of its fields and `validate_total`. */
  predicate ValidUsage(u: Usage) {
    && 0 <= u.calls <= MAX_CALLS && 0 <= u.input <= MAX_TOKENS && 0 <= u.output <= MAX_TOKENS
    && 0 <= u.total <= 200_000_000 && u.total == u.input + u.output
  }

  function Minus(a: Usage, b: Usage): Usage {
    Usage(a.calls - b.calls, a.input - b.input, a.output - b.output, a.total - b.total)
  }

  function Plus(a: Usage, b: Usage): Usage {
    Usage(a.calls + b.calls, a.input + b.input, a.output + b.output, a.total + b.total)
  }

  function Sum(items: seq<Usage>): Usage {
    if items == [] then ZERO else Plus(Sum(items[..|items| - 1]), items[|items| - 1])
  }

  /** A JSON value in a usage object; `True` and `False` are the integers 1 and 0 to Python. */
  datatype Value = IntegerValue(n: int) | OtherValue

  datatype Body = InvalidJson | WithoutUsage | WithUsage(usage: map<string, Value>)

  datatype HttpResponse = HttpResponse(status: int, body: Body)

  /** `_first_usage_value`. */
  function FirstUsageValue(usage: map<string, Value>, first: string, second: string): (value: Option<nat>)
    ensures value.Some? <==> exists key :: key in {first, second} && IsCount(usage, key)
  {
    if IsCount(usage, first) then Some(usage[first].n)
    else if IsCount(usage, second) then Some(usage[second].n)
    else None
  }

  predicate IsCount(usage: map<string, Value>, key: string) {
    key in usage && usage[key].IntegerValue? && usage[key].n >= 0
  }

  /** The tokens a response adds. */
  function TokensOf(response: HttpResponse): (nat, nat) {
    if response.status >= 400 || !response.body.WithUsage? then (0, 0)
    else
      match (FirstUsageValue(response.body.usage, "input_tokens", "prompt_tokens"),
             FirstUsageValue(response.body.usage, "output_tokens", "completion_tokens"))
      case (Some(input), Some(output)) => (input, output)
      case _ => (0, 0)
  }

  datatype Event = Request | Response(response: HttpResponse) | Stop

  /** The recorder's fields. */
  datatype State = State(budget: nat, calls: nat, input: nat, output: nat, total: nat, stopped: bool)

  function Fresh(budget: nat): State { State(budget, 0, 0, 0, 0, false) }

  function Step(s: State, e: Event): State {
    match e
    case Request => if s.stopped || s.calls >= s.budget then s else s.(calls := s.calls + 1)
    case Response(response) =>
      var (input, output) := TokensOf(response);
      s.(input := s.input + input, output := s.output + output, total := s.total + input + output,
         stopped := s.stopped || response.status >= 400)
    case Stop => s.(stopped := true)
  }

  function Run(s: State, events: seq<Event>): State {
    if events == [] then s else Step(Run(s, events[..|events| - 1]), events[|events| - 1])
  }

  function UsageOf(s: State): Usage { Usage(s.calls, s.input, s.output, s.total) }

  /** `ExternalUsageRecorder`. */
  class ExternalUsageRecorder {
    const maxApiCalls: nat
    var apiCalls: nat
    var inputTokens: nat
    var outputTokens: nat
    var totalTokens: nat
    var stopped: bool

    function Current(): State
      reads this
    {
      State(maxApiCalls, apiCalls, inputTokens, outputTokens, totalTokens, stopped)
    }

    constructor (maxApiCalls: nat)
      requires maxApiCalls >= 1
      ensures Current() == Fresh(maxApiCalls)
    {
      this.maxApiCalls := maxApiCalls;
      apiCalls, inputTokens, outputTokens, totalTokens := 0, 0, 0, 0;
      stopped := false;
    }

    /** `capture_request`; false where it raises, and the request is not sent. */
    method CaptureRequest() returns (sent: bool)
      modifies this
      ensures Current() == Step(old(Current()), Request)
      ensures sent <==> !old(stopped) && old(apiCalls) < maxApiCalls
    {
      if stopped || apiCalls >= maxApiCalls {
        return false;
      }
      apiCalls := apiCalls + 1;
      return true;
    }

    /** `capture_response`. */
    method CaptureResponse(response: HttpResponse)
      modifies this
      ensures Current() == Step(old(Current()), Response(response))
    {
      if response.status >= 400 {
        stopped := true;
        return;
      }
      if !response.body.WithUsage? {
        return;
      }
      var input := FirstUsageValue(response.body.usage, "input_tokens", "prompt_tokens");
      var output := FirstUsageValue(response.body.usage, "output_tokens", "completion_tokens");
      if input.None? || output.None? {
        return;
      }
      inputTokens := inputTokens + input.value;
      outputTokens := outputTokens + output.value;
      totalTokens := totalTokens + (input.value + output.value);
    }

    method StopCalls()
      modifies this
      ensures Current() == Step(old(Current()), Stop)
    {
      stopped := true;
    }

    /** `snapshot`; None where validation raises. The recorder's own rules leave only outgrown
        counters as a reason. */
    method Snapshot() returns (usage: Option<Usage>)
      ensures usage == if ValidUsage(UsageOf(Current())) then Some(UsageOf(Current())) else None
      ensures Consistent(Current()) ==>
                (usage.None? <==> apiCalls > MAX_CALLS || inputTokens > MAX_TOKENS || outputTokens > MAX_TOKENS)
    {
      var u := Usage(apiCalls, inputTokens, outputTokens, totalTokens);
      usage := if ValidUsage(u) then Some(u) else None;
    }

    /** The hooks, called in some order. */
    method Replay(events: seq<Event>)
      modifies this
      ensures Current() == Run(old(Current()), events)
    {
      for i := 0 to |events|
        invariant Current() == Run(old(Current()), events[..i])
      {
        assert events[..i + 1][..i] == events[..i];
        match events[i] {
          case Request => var _ := CaptureRequest();
          case Response(response) => CaptureResponse(response);
          case Stop => StopCalls();
        }
      }
      assert events[..|events|] == events;
    }
  }

  // ----- What one response adds

  /** The usage gives the count under the first name or, if that one is no count, under the second. */
  ghost predicate Gives(usage: map<string, Value>, first: string, second: string, count: nat) {
    || (first in usage && usage[first] == IntegerValue(count))
    || ((first in usage && usage[first].IntegerValue? ==> usage[first].n < 0)
        && second in usage && usage[second] == IntegerValue(count))
  }

  lemma GivenExactly(usage: map<string, Value>, first: string, second: string, count: nat)
    ensures FirstUsageValue(usage, first, second) == Some(count) <==> Gives(usage, first, second, count)
  {
  }

  /** A response that is no error, with a usage object. */
  ghost predicate Reports(response: HttpResponse) { response.status < 400 && response.body.WithUsage? }

  /** Main result: a response adds its prompt tokens to the input and its completion tokens to the
      output if it reports both, and otherwise nothing; it stops the recorder exactly on an error status. */
  lemma ResponseCounts(s: State, response: HttpResponse, input: nat, output: nat)
    ensures Reports(response) && Gives(response.body.usage, "input_tokens", "prompt_tokens", input)
            && Gives(response.body.usage, "output_tokens", "completion_tokens", output) ==>
              Step(s, Response(response)) ==
                s.(input := s.input + input, output := s.output + output, total := s.total + input + output)
    ensures !Reports(response) || (forall n :: !Gives(response.body.usage, "input_tokens", "prompt_tokens", n))
            || (forall n :: !Gives(response.body.usage, "output_tokens", "completion_tokens", n)) ==>
              Step(s, Response(response)) == s.(stopped := s.stopped || response.status >= 400)
  {
    hide FirstUsageValue, Gives;
    if Reports(response) {
      var usage := response.body.usage;
      GivenExactly(usage, "input_tokens", "prompt_tokens", input);
      GivenExactly(usage, "output_tokens", "completion_tokens", output);
      var i, o := FirstUsageValue(usage, "input_tokens", "prompt_tokens"),
                  FirstUsageValue(usage, "output_tokens", "completion_tokens");
      if i.Some? && o.Some? {
        GivenExactly(usage, "input_tokens", "prompt_tokens", i.value);
        GivenExactly(usage, "output_tokens", "completion_tokens", o.value);
      }
    }
  }

  // ----- Any run of events

  predicate Consistent(s: State) { s.calls <= s.budget && s.total == s.input + s.output }

  /** Main result: whatever happens, calls stay within the budget, the total is input plus
      output, no counter goes down, and a stop is for good. */
  lemma {:induction false} RunKeepsCounters(s: State, events: seq<Event>)
    requires Consistent(s)
    ensures var r := Run(s, events);
            && Consistent(r) && r.budget == s.budget
            && s.calls <= r.calls && s.input <= r.input && s.output <= r.output
            && (s.stopped ==> r.stopped && r.calls == s.calls)
  {
    if events != [] {
      RunKeepsCounters(s, events[..|events| - 1]);
      StepKeepsCounters(Run(s, events[..|events| - 1]), events[|events| - 1]);
    }
  }

  lemma StepKeepsCounters(s: State, e: Event)
    requires Consistent(s)
    ensures var r := Step(s, e);
            && Consistent(r) && r.budget == s.budget
            && s.calls <= r.calls && s.input <= r.input && s.output <= r.output
            && (s.stopped ==> r.stopped && r.calls == s.calls)
  {
  }

  /** Main result: after any events on a fresh recorder the counters are refused exactly when the
      counted requests outgrow the bound on calls, or the tokens of either kind theirs; a call
      budget within the bound rules the first out. */
  lemma RefusedExactly(budget: nat, events: seq<Event>)
    ensures var r := Run(Fresh(budget), events);
            && (!ValidUsage(UsageOf(r)) <==>
                  (RequestsBeforeStop(events) > MAX_CALLS && budget > MAX_CALLS) || r.input > MAX_TOKENS
                    || r.output > MAX_TOKENS)
            && (budget <= MAX_CALLS ==> (ValidUsage(UsageOf(r)) <==> r.input <= MAX_TOKENS && r.output <= MAX_TOKENS))
  {
    hide Run, RequestsBeforeStop;
    RunKeepsCounters(Fresh(budget), events);
    CallsExactly(budget, events);
  }

  predicate Stops(e: Event) { e.Stop? || (e.Response? && e.response.status >= 400) }

  predicate AnyStops(events: seq<Event>) { exists i :: 0 <= i < |events| && Stops(events[i]) }

  /** The requests before the first event that stops the recorder. */
  function RequestsBeforeStop(events: seq<Event>): nat {
    if events == [] then 0
    else
      var front := events[..|events| - 1];
      RequestsBeforeStop(front) + (if events[|events| - 1].Request? && !AnyStops(front) then 1 else 0)
  }

  /** Main result: a fresh recorder counts the requests before the first stop, up to its budget. */
  lemma {:induction false} CallsExactly(budget: nat, events: seq<Event>)
    ensures var r := Run(Fresh(budget), events);
            && r.stopped == AnyStops(events)
            && r.calls == if RequestsBeforeStop(events) <= budget then RequestsBeforeStop(events) else budget
  {
    hide TokensOf;
    if events != [] {
      var front, last := events[..|events| - 1], events[|events| - 1];
      CallsExactly(budget, front);
      RunKeepsCounters(Fresh(budget), front);
      StopsSnoc(front, last);
      assert events == front + [last];
    }
  }

  lemma StopsSnoc(front: seq<Event>, last: Event)
    ensures AnyStops(front + [last]) <==> AnyStops(front) || Stops(last)
  {
    var all := front + [last];
    if AnyStops(front) {
      var i :| 0 <= i < |front| && Stops(front[i]);
      assert Stops(all[i]);
    }
    if Stops(last) {
      assert Stops(all[|front|]);
    }
    if AnyStops(all) {
      var i :| 0 <= i < |all| && Stops(all[i]);
      assert i < |front| ==> Stops(front[i]);
    }
  }
}
