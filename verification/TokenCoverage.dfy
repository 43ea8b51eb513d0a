/** The rolling-row dynamic program of `_contiguous_token_coverage`
    (app/evals/chunk_metrics.py), proved to measure the longest contiguous run
    of tokens that the expected text and the actual text have in common. */
module TokenCoverage {
  import opened Rates

  /** The `length` needle tokens before position `i` are the `length` haystack
      tokens before position `j`. */
  ghost predicate CommonRun<T>(needle: seq<T>, haystack: seq<T>, i: nat, j: nat, length: nat) {
    && length <= i <= |needle|
    && length <= j <= |haystack|
    && needle[i - length..i] == haystack[j - length..j]
  }

  ghost predicate LongestCommonRun<T>(needle: seq<T>, haystack: seq<T>, length: nat) {
    && (exists i: nat, j: nat :: CommonRun(needle, haystack, i, j, length))
    && (forall i: nat, j: nat, k: nat :: CommonRun(needle, haystack, i, j, k) ==> k <= length)
  }

  ghost predicate OccursAt<T>(needle: seq<T>, haystack: seq<T>, at: nat) {
    at + |needle| <= |haystack| && haystack[at..at + |needle|] == needle
  }

  ghost predicate ContiguousSublist<T>(needle: seq<T>, haystack: seq<T>) {
    exists at: nat :: OccursAt(needle, haystack, at)
  }

  /** The value the table holds at row `i` and column `j`. */
  ghost function RunEndingAt<T>(needle: seq<T>, haystack: seq<T>, i: nat, j: nat): nat
    requires i <= |needle| && j <= |haystack|
  {
    if i > 0 && j > 0 && needle[i - 1] == haystack[j - 1]
    then RunEndingAt(needle, haystack, i - 1, j - 1) + 1
    else 0
  }

  /** A table cell is itself the length of a common run that ends there. */
  lemma {:induction false} RunEndingAtIsCommon<T>(needle: seq<T>, haystack: seq<T>, i: nat, j: nat)
    requires i <= |needle| && j <= |haystack|
    ensures CommonRun(needle, haystack, i, j, RunEndingAt(needle, haystack, i, j))
  {
    if i > 0 && j > 0 && needle[i - 1] == haystack[j - 1] {
      hide CommonRun;
      RunEndingAtIsCommon(needle, haystack, i - 1, j - 1);
      RunGrows(needle, haystack, i - 1, j - 1, RunEndingAt(needle, haystack, i - 1, j - 1));
    } else {
      assert needle[i..i] == haystack[j..j];
    }
  }

  lemma RunGrows<T>(needle: seq<T>, haystack: seq<T>, i: nat, j: nat, run: nat)
    requires CommonRun(needle, haystack, i, j, run)
    requires i < |needle| && j < |haystack| && needle[i] == haystack[j]
    ensures CommonRun(needle, haystack, i + 1, j + 1, run + 1)
  {
    assert needle[i - run..i + 1] == needle[i - run..i] + [needle[i]];
    assert haystack[j - run..j + 1] == haystack[j - run..j] + [haystack[j]];
  }

  /** No common run that ends at a table cell is longer than the cell says. */
  lemma {:induction false} RunEndingAtIsMaximal<T>(needle: seq<T>, haystack: seq<T>, i: nat, j: nat, k: nat)
    requires CommonRun(needle, haystack, i, j, k)
    ensures k <= RunEndingAt(needle, haystack, i, j)
  {
    if k > 0 {
      assert needle[i - k..i][k - 1] == needle[i - 1];
      assert haystack[j - k..j][k - 1] == haystack[j - 1];
      assert needle[i - k..i - 1] == needle[i - k..i][..k - 1];
      assert haystack[j - k..j - 1] == haystack[j - k..j][..k - 1];
      RunEndingAtIsMaximal(needle, haystack, i - 1, j - 1, k - 1);
    }
  }

  /** The longest common run has the needle's length exactly when the needle is a
      contiguous sublist of the haystack. */
  lemma FullRunExactlyOnSublist<T>(needle: seq<T>, haystack: seq<T>, longest: nat)
    requires LongestCommonRun(needle, haystack, longest)
    ensures longest <= |needle|
    ensures longest == |needle| <==> ContiguousSublist(needle, haystack)
  {
    hide CommonRun, OccursAt;
    var i: nat, j: nat :| CommonRun(needle, haystack, i, j, longest);
    RunFits(needle, haystack, i, j, longest);
    if longest == |needle| {
      FullRunIsSublist(needle, haystack, i, j);
    }
    if ContiguousSublist(needle, haystack) {
      var at: nat :| OccursAt(needle, haystack, at);
      SublistIsRun(needle, haystack, at);
    }
  }

  lemma RunFits<T>(needle: seq<T>, haystack: seq<T>, i: nat, j: nat, length: nat)
    requires CommonRun(needle, haystack, i, j, length)
    ensures length <= |needle|
  {
  }

  lemma FullRunIsSublist<T>(needle: seq<T>, haystack: seq<T>, i: nat, j: nat)
    requires CommonRun(needle, haystack, i, j, |needle|)
    ensures ContiguousSublist(needle, haystack)
  {
    assert needle[i - |needle|..i] == needle;
    assert OccursAt(needle, haystack, j - |needle|);
  }

  lemma SublistIsRun<T>(needle: seq<T>, haystack: seq<T>, at: nat)
    requires OccursAt(needle, haystack, at)
    ensures CommonRun(needle, haystack, |needle|, at + |needle|, |needle|)
  {
  }

  /** `longest` is the greatest cell among the first `rows` rows and the first
      `columns` columns of the row after them. */
  ghost predicate GreatestCell<T>(needle: seq<T>, haystack: seq<T>, rows: nat, columns: nat, longest: nat)
    requires rows <= |needle| && columns <= |haystack|
  {
    && (forall i: nat, j: nat :: i <= |needle| && j <= |haystack| && (i <= rows || (i == rows + 1 && j <= columns)) ==>
         RunEndingAt(needle, haystack, i, j) <= longest)
    && (exists i: nat, j: nat :: i <= |needle| && j <= |haystack| && RunEndingAt(needle, haystack, i, j) == longest)
  }

  lemma GreatestCellIsLongestRun<T>(needle: seq<T>, haystack: seq<T>, longest: nat)
    requires GreatestCell(needle, haystack, |needle|, 0, longest)
    ensures LongestCommonRun(needle, haystack, longest)
  {
    var i: nat, j: nat :|
      i <= |needle| && j <= |haystack| && RunEndingAt(needle, haystack, i, j) == longest;
    RunEndingAtIsCommon(needle, haystack, i, j);
    forall i: nat, j: nat, k: nat | CommonRun(needle, haystack, i, j, k)
      ensures k <= longest
    {
      RunEndingAtIsMaximal(needle, haystack, i, j, k);
    }
  }

  lemma GreatestCellStep<T>(needle: seq<T>, haystack: seq<T>, row: nat, column: nat, longest: nat, cell: nat)
    requires row < |needle| && column < |haystack|
    requires GreatestCell(needle, haystack, row, column, longest)
    requires cell == RunEndingAt(needle, haystack, row + 1, column + 1)
    ensures GreatestCell(needle, haystack, row, column + 1, if longest < cell then cell else longest)
  {
  }

  /** The first `columns` cells after the zeroth are those of table row `row`; the rest are still zero. */
  ghost predicate RowFilled<T>(needle: seq<T>, haystack: seq<T>, row: nat, columns: nat, cells: seq<nat>)
    requires row <= |needle| && columns <= |haystack|
  {
    && |cells| == |haystack| + 1
    && (forall j :: 0 <= j <= columns ==> cells[j] == RunEndingAt(needle, haystack, row, j))
    && (forall j :: columns < j <= |haystack| ==> cells[j] == 0)
  }

  /** What the ratio means: it is the relative length of a longest common run, and
      it is full exactly when the needle occurs contiguously. */
  ghost predicate IsCoverage<T>(needle: seq<T>, haystack: seq<T>, coverage: real) {
    if needle == [] then
      coverage == 0.0
    else
      && (exists longest: nat ::
            LongestCommonRun(needle, haystack, longest) && coverage == Ratio(longest, |needle|))
      && 0.0 <= coverage <= 1.0
      && (coverage == 1.0 <==> ContiguousSublist(needle, haystack))
  }

  lemma RatioIsCoverage<T>(needle: seq<T>, haystack: seq<T>, longest: nat)
    requires needle != [] && GreatestCell(needle, haystack, |needle|, 0, longest)
    ensures IsCoverage(needle, haystack, Ratio(longest, |needle|))
  {
    GreatestCellIsLongestRun(needle, haystack, longest);
    FullRunExactlyOnSublist(needle, haystack, longest);
    RatioBounds(longest, |needle|);
  }

  /** `_contiguous_token_coverage` on the two token lists. */
  method ContiguousTokenCoverage<T(==)>(needle: seq<T>, haystack: seq<T>) returns (coverage: real)
    ensures IsCoverage(needle, haystack, coverage)
  {
    if needle == [] {
      return 0.0;
    }
    var previous := new nat[|haystack| + 1](_ => 0);
    var longest: nat := 0;
    assert RunEndingAt(needle, haystack, 0, 0) == 0;
    for row := 0 to |needle|
      invariant RowFilled(needle, haystack, row, |haystack|, previous[..])
      invariant GreatestCell(needle, haystack, row, 0, longest)
    {
      var current := new nat[|haystack| + 1](_ => 0);
      for index := 0 to |haystack|
        invariant RowFilled(needle, haystack, row, |haystack|, previous[..])
        invariant RowFilled(needle, haystack, row + 1, index, current[..])
        invariant GreatestCell(needle, haystack, row, index, longest)
      {
        ghost var cell := RunEndingAt(needle, haystack, row + 1, index + 1);
        GreatestCellStep(needle, haystack, row, index, longest, cell);
        if needle[row] == haystack[index] {
          current[index + 1] := previous[index] + 1;
          longest := if longest < current[index + 1] then current[index + 1] else longest;
        }
      }
      previous := current;
    }
    RatioIsCoverage(needle, haystack, longest);
    coverage := Ratio(longest, |needle|);
  }
}
