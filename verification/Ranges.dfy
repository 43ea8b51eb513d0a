/** Half-open character ranges, and the order in which Python sorts a list of
    `(start, end)` tuples. */
module Ranges {

  datatype Range = Range(start: int, end: int) {
    predicate Covers(p: int) { start <= p < end }

    predicate Before(other: Range) {
      start < other.start || (start == other.start && end <= other.end)
    }
  }

  ghost predicate Ordered(ranges: seq<Range>) {
    forall i, j :: 0 <= i < j < |ranges| ==> ranges[i].Before(ranges[j])
  }

  /** `sorted(ranges)`. */
  function Sorted(ranges: seq<Range>): seq<Range> {
    if ranges == [] then [] else Inserted(ranges[0], Sorted(ranges[1..]))
  }

  function Inserted(range: Range, sorted: seq<Range>): seq<Range> {
    if sorted == [] || range.Before(sorted[0]) then [range] + sorted
    else [sorted[0]] + Inserted(range, sorted[1..])
  }

  lemma {:induction false} SortedIsPermutation(ranges: seq<Range>)
    ensures multiset(Sorted(ranges)) == multiset(ranges)
  {
    if ranges != [] {
      SortedIsPermutation(ranges[1..]);
      InsertedIsPermutation(ranges[0], Sorted(ranges[1..]));
      assert ranges == [ranges[0]] + ranges[1..];
    }
  }

  lemma {:induction false} InsertedIsPermutation(range: Range, sorted: seq<Range>)
    ensures multiset(Inserted(range, sorted)) == multiset(sorted) + multiset{range}
  {
    if sorted != [] && !range.Before(sorted[0]) {
      InsertedIsPermutation(range, sorted[1..]);
      assert sorted == [sorted[0]] + sorted[1..];
    }
  }

  lemma {:induction false} SortedIsOrdered(ranges: seq<Range>)
    ensures Ordered(Sorted(ranges))
    ensures forall r :: r in Sorted(ranges) <==> r in ranges
  {
    if ranges != [] {
      SortedIsOrdered(ranges[1..]);
      InsertedIsOrdered(ranges[0], Sorted(ranges[1..]));
    }
  }

  lemma {:induction false} InsertedIsOrdered(range: Range, sorted: seq<Range>)
    requires Ordered(sorted)
    ensures Ordered(Inserted(range, sorted))
    ensures forall r :: r in Inserted(range, sorted) <==> r == range || r in sorted
  {
    if sorted != [] && !range.Before(sorted[0]) {
      InsertedIsOrdered(range, sorted[1..]);
      var rest := Inserted(range, sorted[1..]);
      forall j | 0 <= j < |rest|
        ensures sorted[0].Before(rest[j])
      {
        assert rest[j] in rest;
      }
    }
  }

  /** A sorted list without its repetitions. */
  function Distinct(sorted: seq<Range>): seq<Range> {
    if |sorted| <= 1 then sorted
    else if sorted[0] == sorted[1] then Distinct(sorted[1..])
    else [sorted[0]] + Distinct(sorted[1..])
  }

  ghost predicate StrictlyOrdered(ranges: seq<Range>) {
    forall i, j :: 0 <= i < j < |ranges| ==> ranges[i].Before(ranges[j]) && ranges[i] != ranges[j]
  }

  lemma {:induction false} DistinctIsStrict(sorted: seq<Range>)
    requires Ordered(sorted)
    ensures StrictlyOrdered(Distinct(sorted))
    ensures forall r :: r in Distinct(sorted) <==> r in sorted
    ensures sorted != [] ==> Distinct(sorted) != [] && Distinct(sorted)[0] == sorted[0]
  {
    if |sorted| > 1 {
      DistinctIsStrict(sorted[1..]);
      assert sorted == [sorted[0]] + sorted[1..];
      var rest := Distinct(sorted[1..]);
      if sorted[0] != sorted[1] {
        forall j | 0 <= j < |rest|
          ensures sorted[0].Before(rest[j]) && sorted[0] != rest[j]
        {
          assert rest[j] in sorted[1..];
          assert rest[0].Before(rest[j]) || j == 0;
        }
      }
    }
  }

  /** `sorted(set(ranges))`. */
  function SortedSet(ranges: seq<Range>): (sorted: seq<Range>)
    ensures StrictlyOrdered(sorted)
    ensures forall r :: r in sorted <==> r in ranges
  {
    SortedIsOrdered(ranges);
    DistinctIsStrict(Sorted(ranges));
    Distinct(Sorted(ranges))
  }

  lemma NoElements(a: seq<Range>)
    ensures a == [] <==> forall r :: r !in a
  {
    assert a != [] ==> a[0] in a;
  }

  lemma TailElements(a: seq<Range>)
    requires StrictlyOrdered(a) && a != []
    ensures forall r :: r in a[1..] <==> r in a && r != a[0]
  {
  }

  /** A strictly ordered list is determined by its elements. */
  lemma {:induction false} StrictlyOrderedIsUnique(a: seq<Range>, b: seq<Range>)
    requires StrictlyOrdered(a) && StrictlyOrdered(b)
    requires forall r :: r in a <==> r in b
    ensures a == b
  {
    if a == [] {
      NoElements(b);
    } else {
      assert a[0] in a;
      assert a[0] in b;
      assert b[0] in b;
      assert b[0] in a;
      assert a[0] == b[0];
      TailElements(a);
      TailElements(b);
      StrictlyOrderedIsUnique(a[1..], b[1..]);
    }
  }
}
