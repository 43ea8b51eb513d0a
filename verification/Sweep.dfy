/** What a left-to-right sweep over sorted ranges leaves of an interval. */
module Sweep {
  import opened Ranges

  ghost predicate Ignored(ignored: seq<Range>, p: int) {
    exists r :: r in ignored && r.Covers(p)
  }

  ghost predicate StartsAt(ignored: seq<Range>, p: int) {
    exists r :: r in ignored && r.start == p
  }

  /** The first position after `from` at which a run has to end: the limit, or
      the start of an ignored range. */
  ghost function RunEnd(ignored: seq<Range>, from: int, limit: int): (stop: int)
    requires from < limit
    ensures from < stop <= limit
    ensures stop < limit ==> StartsAt(ignored, stop)
    ensures forall p :: from < p < stop ==> !StartsAt(ignored, p)
    decreases limit - from
  {
    if from + 1 == limit || StartsAt(ignored, from + 1) then from + 1
    else RunEnd(ignored, from + 1, limit)
  }

  /** The runs of positions in `[from, limit)` that no range ignores, cut where an
      ignored range starts. */
  ghost function Runs(ignored: seq<Range>, from: int, limit: int): seq<Range>
    requires from <= limit
    decreases limit - from
  {
    if from == limit then []
    else if Ignored(ignored, from) then Runs(ignored, from + 1, limit)
    else
      var stop := RunEnd(ignored, from, limit);
      [Range(from, stop)] + Runs(ignored, stop, limit)
  }

  ghost predicate WellFormed(ignored: seq<Range>) {
    forall r :: r in ignored ==> r.start <= r.end
  }

  ghost predicate InSome(ranges: seq<Range>, p: int) {
    exists r :: r in ranges && r.Covers(p)
  }

  /** Main result: the runs hold exactly the positions outside every ignored range. */
  lemma {:induction false} RunsAreExact(ignored: seq<Range>, from: int, limit: int, p: int)
    requires from <= limit && WellFormed(ignored)
    ensures InSome(Runs(ignored, from, limit), p) <==> from <= p < limit && !Ignored(ignored, p)
    decreases limit - from
  {
    if from < limit {
      if Ignored(ignored, from) {
        RunsAreExact(ignored, from + 1, limit, p);
      } else {
        var stop := RunEnd(ignored, from, limit);
        RunsAreExact(ignored, stop, limit, p);
        RunIsKept(ignored, from, stop, p);
        var rest := Runs(ignored, stop, limit);
        assert Runs(ignored, from, limit) == [Range(from, stop)] + rest;
        assert InSome([Range(from, stop)] + rest, p) <==> Range(from, stop).Covers(p) || InSome(rest, p);
      }
    }
  }

  /** From a position that is not ignored up to the next range start, nothing is ignored. */
  lemma RunIsKept(ignored: seq<Range>, from: int, stop: int, p: int)
    requires WellFormed(ignored) && !Ignored(ignored, from)
    requires forall q :: from < q < stop ==> !StartsAt(ignored, q)
    ensures from <= p < stop ==> !Ignored(ignored, p)
  {
    forall r | r in ignored && from <= p < stop
      ensures !r.Covers(p)
    {
      assert r.Covers(from) || r.end <= from || from < r.start;
      assert StartsAt(ignored, r.start);
    }
  }

  /** The runs are not empty, follow each other, and each ends at the limit or where
      an ignored range starts. */
  lemma {:induction false} RunsInOrder(ignored: seq<Range>, from: int, limit: int)
    requires from <= limit
    ensures forall i :: 0 <= i < |Runs(ignored, from, limit)| ==>
              var run := Runs(ignored, from, limit)[i];
              from <= run.start < run.end <= limit && (run.end == limit || StartsAt(ignored, run.end))
    ensures forall i, j :: 0 <= i < j < |Runs(ignored, from, limit)| ==>
              Runs(ignored, from, limit)[i].end <= Runs(ignored, from, limit)[j].start
    decreases limit - from
  {
    if from < limit {
      if Ignored(ignored, from) {
        RunsInOrder(ignored, from + 1, limit);
      } else {
        RunsInOrder(ignored, RunEnd(ignored, from, limit), limit);
      }
    }
  }

  // ----- The steps of the sweep

  /** The ranges before index `done` can ignore nothing from the cursor on. */
  ghost predicate Swept(sorted: seq<Range>, done: nat, cursor: int, limit: int) {
    && Ordered(sorted)
    && forall k :: 0 <= k < done && k < |sorted| ==>
         sorted[k].start <= sorted[k].end && (sorted[k].end <= cursor || limit <= sorted[k].start || limit <= cursor)
  }

  /** Nothing between the cursor and the start of the next range is ignored. */
  lemma GapIsKept(sorted: seq<Range>, done: nat, cursor: int, limit: int, stop: int)
    requires Swept(sorted, done, cursor, limit)
    requires cursor < stop <= limit
    requires done < |sorted| ==> stop <= sorted[done].start
    ensures forall p :: cursor <= p < stop ==> !Ignored(sorted, p)
    ensures forall p :: cursor < p < stop ==> !StartsAt(sorted, p)
  {
  }

  /** Where the sweep cuts a run off, the specification has that same run next. */
  lemma CutStep(sorted: seq<Range>, done: nat, cursor: int, limit: int, stop: int)
    requires cursor < stop <= limit
    requires Swept(sorted, done, cursor, limit)
    requires if done < |sorted| then stop == sorted[done].start else stop == limit
    ensures Runs(sorted, cursor, limit) == [Range(cursor, stop)] + Runs(sorted, stop, limit)
  {
    GapIsKept(sorted, done, cursor, limit, stop);
    assert !Ignored(sorted, cursor);
    if done < |sorted| {
      assert sorted[done] in sorted;
      assert StartsAt(sorted, stop);
    }
    var other := RunEnd(sorted, cursor, limit);
    assert other == stop;
  }

  /** Where the sweep moves its cursor over ignored positions, no run is lost. */
  lemma {:induction false} SkipStep(ignored: seq<Range>, from: int, mid: int, limit: int)
    requires from <= mid <= limit
    requires forall p :: from <= p < mid ==> Ignored(ignored, p)
    ensures Runs(ignored, from, limit) == Runs(ignored, mid, limit)
    ensures Runs(ignored, limit, limit) == []
    decreases mid - from
  {
    if from < mid {
      SkipStep(ignored, from + 1, mid, limit);
    }
  }

  lemma AdvanceStep(sorted: seq<Range>, done: nat, from: int, next: int, limit: int)
    requires from <= next <= limit
    requires done < |sorted| && sorted[done].start <= from && (from == next || next <= sorted[done].end)
    ensures Runs(sorted, from, limit) == Runs(sorted, next, limit)
  {
    forall p | from <= p < next
      ensures Ignored(sorted, p)
    {
      assert sorted[done] in sorted && sorted[done].Covers(p);
    }
    SkipStep(sorted, from, next, limit);
  }

  /** The runs do not depend on the order of the ignored ranges. */
  lemma {:induction false} RunsSameRanges(a: seq<Range>, b: seq<Range>, from: int, limit: int)
    requires from <= limit
    requires forall r :: r in a <==> r in b
    ensures Runs(a, from, limit) == Runs(b, from, limit)
    decreases limit - from
  {
    if from < limit {
      assert Ignored(a, from) <==> Ignored(b, from);
      if Ignored(a, from) {
        RunsSameRanges(a, b, from + 1, limit);
      } else {
        RunEndSameRanges(a, b, from, limit);
        RunsSameRanges(a, b, RunEnd(a, from, limit), limit);
      }
    }
  }

  lemma {:induction false} RunEndSameRanges(a: seq<Range>, b: seq<Range>, from: int, limit: int)
    requires from < limit
    requires forall r :: r in a <==> r in b
    ensures RunEnd(a, from, limit) == RunEnd(b, from, limit)
    decreases limit - from
  {
    assert StartsAt(a, from + 1) <==> StartsAt(b, from + 1);
    if from + 1 < limit && !StartsAt(a, from + 1) {
      RunEndSameRanges(a, b, from + 1, limit);
    }
  }
}
