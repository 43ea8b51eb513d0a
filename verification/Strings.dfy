/** Joining, distinctness, and small facts about sequences that several proofs share. */
module Strings {
  lemma ConcatAssociative<T>(a: seq<T>, b: seq<T>, c: seq<T>)
    ensures a + (b + c) == a + b + c
  {
  }

  lemma SliceHead<T>(s: seq<T>, from: nat, stop: nat)
    requires from < stop <= |s|
    ensures s[from..stop] == [s[from]] + s[from + 1..stop]
  {
  }

  /** `separator.join(parts)`. */
  function JoinWith(separator: string, parts: seq<string>): string {
    if parts == [] then ""
    else if |parts| == 1 then parts[0]
    else parts[0] + separator + JoinWith(separator, parts[1..])
  }

  /** Python's order of strings, by code points. */
  predicate Before(a: string, b: string) {
    b != "" && (a == "" || a[0] < b[0] || (a[0] == b[0] && Before(a[1..], b[1..])))
  }

  predicate Distinct<T(==)>(s: seq<T>) {
    forall i, j :: 0 <= i < j < |s| ==> s[i] != s[j]
  }

  /** Distinct elements that all occur in another list are no more than that list has. */
  lemma {:induction false} DistinctFit<T(!new)>(few: seq<T>, many: seq<T>)
    requires Distinct(few) && forall x :: x in few ==> x in many
    ensures |few| <= |many|
  {
    if few != [] {
      var n := |few| - 1;
      assert few[n] in few;
      var k :| 0 <= k < |many| && many[k] == few[n];
      var rest := many[..k] + many[k + 1..];
      forall x | x in few[..n]
        ensures x in rest
      {
        var i :| 0 <= i < n && few[i] == x;
        assert x in few && x != few[n];
        var j :| 0 <= j < |many| && many[j] == x;
        assert rest[if j < k then j else j - 1] == x;
      }
      DistinctFit(few[..n], rest);
    }
  }

  /** A list without repetitions has as many elements as their set. */
  lemma {:induction false} DistinctCard<T>(s: seq<T>)
    requires Distinct(s)
    ensures |set x | x in s| == |s|
  {
    if s != [] {
      var n := |s| - 1;
      DistinctCard(s[..n]);
      assert s == s[..n] + [s[n]];
      assert (set x | x in s) == (set x | x in s[..n]) + {s[n]};
    }
  }

  // ----- Counting

  /** How many of the items have the property. */
  ghost function Tally<T>(items: seq<T>, has: T -> bool): nat {
    if items == [] then 0
    else
      var n := |items| - 1;
      Tally(items[..n], has) + (if has(items[n]) then 1 else 0)
  }

  lemma {:induction false} TallyNone<T>(items: seq<T>, has: T -> bool)
    ensures Tally(items, has) <= |items|
    ensures Tally(items, has) == 0 <==> forall i :: 0 <= i < |items| ==> !has(items[i])
  {
    if items != [] {
      TallyNone(items[..|items| - 1], has);
    }
  }

  // ----- Stripping

  /** `str.strip`. */
  function Strip(isSpace: char -> bool, text: string): string {
    if text == "" then ""
    else if isSpace(text[0]) then Strip(isSpace, text[1..])
    else if isSpace(text[|text| - 1]) then Strip(isSpace, text[..|text| - 1])
    else text
  }

  ghost predicate AllSpaces(isSpace: char -> bool, text: string) {
    forall i :: 0 <= i < |text| ==> isSpace(text[i])
  }

  /** White space, a text that neither begins nor ends with any, and white space. */
  ghost predicate IsStripped(isSpace: char -> bool, text: string, before: string, stripped: string, after: string) {
    && text == before + stripped + after && AllSpaces(isSpace, before) && AllSpaces(isSpace, after)
    && (stripped != "" ==> !isSpace(stripped[0]) && !isSpace(stripped[|stripped| - 1]))
  }

  /** Stripping takes white space off both ends until a text begins and ends with none. */
  lemma {:induction false} StripExactly(isSpace: char -> bool, text: string) returns (before: string, after: string)
    ensures IsStripped(isSpace, text, before, Strip(isSpace, text), after)
  {
    hide IsStripped;
    before, after := "", "";
    if text != "" && isSpace(text[0]) {
      before, after := StripExactly(isSpace, text[1..]);
      SpaceBefore(isSpace, text, before, Strip(isSpace, text), after);
      before := [text[0]] + before;
    } else if text != "" && isSpace(text[|text| - 1]) {
      before, after := StripExactly(isSpace, text[..|text| - 1]);
      SpaceAfter(isSpace, text, before, Strip(isSpace, text), after);
      after := after + [text[|text| - 1]];
    } else {
      NothingToStrip(isSpace, text);
    }
  }

  lemma NothingToStrip(isSpace: char -> bool, text: string)
    requires text != "" ==> !isSpace(text[0]) && !isSpace(text[|text| - 1])
    ensures IsStripped(isSpace, text, "", text, "")
  {
  }

  lemma SpaceBefore(isSpace: char -> bool, text: string, before: string, stripped: string, after: string)
    requires text != "" && isSpace(text[0]) && IsStripped(isSpace, text[1..], before, stripped, after)
    ensures IsStripped(isSpace, text, [text[0]] + before, stripped, after)
  {
    assert text == [text[0]] + text[1..];
  }

  lemma SpaceAfter(isSpace: char -> bool, text: string, before: string, stripped: string, after: string)
    requires text != "" && isSpace(text[|text| - 1])
             && IsStripped(isSpace, text[..|text| - 1], before, stripped, after)
    ensures IsStripped(isSpace, text, before, stripped, after + [text[|text| - 1]])
  {
    assert text == text[..|text| - 1] + [text[|text| - 1]];
  }
}
