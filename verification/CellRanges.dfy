/** Spreadsheet cell ranges: the rectangle view (scripts/verify_m2_retrieval.py) and the
    cell-set view (app/evals/chunk_metrics.py). */
module CellRanges {
  import opened Decimals
  import opened Options
  import opened Strings

  predicate IsLetter(c: char) { 'A' <= c <= 'Z' }

  predicate Letters(s: string) { forall i :: 0 <= i < |s| ==> IsLetter(s[i]) }

  // ----- Column labels

  function LetterValue(c: char): (v: int)
    requires IsLetter(c)
    ensures 1 <= v <= 26
  {
    c as int - 'A' as int + 1
  }

  function Column(name: string): nat
    requires Letters(name)
  {
    if name == "" then 0 else 26 * Column(name[..|name| - 1]) + LetterValue(name[|name| - 1])
  }

  /** `_column_number`. */
  method ColumnNumber(name: string) returns (value: nat)
    requires Letters(name)
    ensures value == Column(name)
  {
    value := 0;
    for i := 0 to |name|
      invariant value == Column(name[..i])
    {
      assert name[..i + 1][..i] == name[..i];
      value := value * 26 + (name[i] as int - 'A' as int + 1);
    }
    assert name[..|name|] == name;
  }

  /** The label of a column. */
  function LabelOf(n: nat): (name: string)
    ensures Letters(name)
  {
    if n == 0 then ""
    else
      var last := (n - 1) % 26;
      LabelOf((n - 1 - last) / 26) + [('A' as int + last) as char]
  }

  lemma {:induction false} ColumnOfLabel(n: nat)
    ensures Column(LabelOf(n)) == n
  {
    if n > 0 {
      var last := (n - 1) % 26;
      ColumnOfLabel((n - 1 - last) / 26);
      var name := LabelOf(n);
      assert name[..|name| - 1] == LabelOf((n - 1 - last) / 26);
    }
  }

  lemma {:induction false} LabelOfColumn(name: string)
    requires Letters(name)
    ensures LabelOf(Column(name)) == name
  {
    if name != "" {
      hide LabelOf;
      var k := |name| - 1;
      LabelOfColumn(name[..k]);
      LabelOfNext(Column(name[..k]), name[k]);
      assert name == name[..k] + [name[k]];
    }
  }

  lemma LabelOfNext(front: nat, c: char)
    requires IsLetter(c)
    ensures LabelOf(26 * front + LetterValue(c)) == LabelOf(front) + [c]
  {
    LastLetter(front, c);
  }

  lemma LastLetter(front: nat, c: char)
    requires IsLetter(c)
    ensures var n := 26 * front + LetterValue(c);
            n > 0 && ('A' as int + (n - 1) % 26) as char == c && (n - 1 - (n - 1) % 26) / 26 == front
  {
  }

  /** The largest column with labels of at most this length. */
  function Largest(length: nat): nat { if length == 0 then 0 else 26 * Largest(length - 1) + 26 }

  lemma {:induction false} ColumnBounds(name: string)
    requires Letters(name)
    ensures Column(name) <= Largest(|name|)
    ensures name != "" ==> Largest(|name| - 1) < Column(name)
  {
    if name != "" {
      ColumnBounds(name[..|name| - 1]);
    }
  }

  lemma {:induction false} LargestGrows(a: nat, b: nat)
    requires a <= b
    ensures Largest(a) <= Largest(b)
    decreases b
  {
    if a < b {
      LargestGrows(a, b - 1);
    }
  }

  ghost predicate FirstDifference(a: string, b: string, i: int) {
    0 <= i < |a| && i < |b| && a[..i] == b[..i] && a[i] < b[i]
  }

  /** Before in the alphabet, for labels of one length. */
  ghost predicate Alphabetical(a: string, b: string) { exists i :: FirstDifference(a, b, i) }

  lemma {:induction false} SameLengthOrder(a: string, b: string)
    requires Letters(a) && Letters(b) && |a| == |b|
    ensures Column(a) < Column(b) <==> Alphabetical(a, b)
  {
    if a != "" {
      var n := |a| - 1;
      SameLengthOrder(a[..n], b[..n]);
      if Column(a[..n]) == Column(b[..n]) {
        LabelOfColumn(a[..n]);
        LabelOfColumn(b[..n]);
      }
      if Column(a) < Column(b) {
        if Alphabetical(a[..n], b[..n]) {
          var i :| FirstDifference(a[..n], b[..n], i);
          assert a[..n][..i] == a[..i] && b[..n][..i] == b[..i];
          assert FirstDifference(a, b, i);
        } else {
          assert FirstDifference(a, b, n);
        }
      }
      if Alphabetical(a, b) {
        var i :| FirstDifference(a, b, i);
        if i < n {
          assert a[..n][..i] == a[..i] && b[..n][..i] == b[..i];
          assert FirstDifference(a[..n], b[..n], i);
        }
      }
    }
  }

  /** Main result: columns are ordered as their labels are, first by length, then alphabetically. */
  lemma ColumnOrder(a: string, b: string)
    requires Letters(a) && Letters(b)
    ensures Column(a) < Column(b) <==> |a| < |b| || (|a| == |b| && Alphabetical(a, b))
  {
    ColumnBounds(a);
    ColumnBounds(b);
    if |a| < |b| {
      LargestGrows(|a|, |b| - 1);
    } else if |b| < |a| {
      LargestGrows(|b|, |a| - 1);
    } else {
      SameLengthOrder(a, b);
    }
  }

  /** Main result: the labels of one to three letters are one-to-one with the columns 1 to 18278. */
  lemma ColumnsOfShortLabels(name: string, n: nat)
    requires Letters(name)
    ensures 1 <= |name| <= 3 <==> 1 <= Column(name) <= 18278
    ensures Column(name) == n <==> name == LabelOf(n)
    ensures 1 <= n <= 18278 <==> 1 <= |LabelOf(n)| <= 3
  {
    assert Largest(3) == 18278 by { assert Largest(1) == 26 && Largest(2) == 702; }
    ShortExactly(name);
    LabelOfColumn(name);
    ColumnOfLabel(n);
    ShortExactly(LabelOf(n));
  }

  lemma ShortExactly(name: string)
    requires Letters(name)
    ensures 1 <= |name| <= 3 <==> 1 <= Column(name) <= Largest(3)
  {
    ColumnBounds(name);
    if |name| <= 3 {
      LargestGrows(|name|, 3);
    } else {
      LargestGrows(3, |name| - 1);
    }
  }

  // ----- Reading a range

  /** How many leading characters are letters, and how many are digits. */
  function LetterRun(s: string): (n: nat)
    ensures n <= |s| && Letters(s[..n]) && (n < |s| ==> !IsLetter(s[n]))
  {
    if s == "" || !IsLetter(s[0]) then 0
    else
      var n := LetterRun(s[1..]);
      assert s[..n + 1] == [s[0]] + s[1..][..n];
      n + 1
  }

  function DigitRun(s: string): (n: nat)
    ensures n <= |s| && AllAsciiDigits(s[..n]) && (n < |s| ==> !IsAsciiDigit(s[n]))
  {
    if s == "" || !IsAsciiDigit(s[0]) then 0
    else
      var n := DigitRun(s[1..]);
      assert s[..n + 1] == [s[0]] + s[1..][..n];
      n + 1
  }

  /** One corner: a label of one to three letters and a row number without leading zero. */
  datatype Cell = Cell(column: string, row: string)

  predicate ValidCell(c: Cell) {
    1 <= |c.column| <= 3 && Letters(c.column) && c.row != "" && AllAsciiDigits(c.row) && c.row[0] != '0'
  }

  /** The cell at the start of the text, and what follows it. */
  function ReadCell(s: string): (read: Option<(Cell, string)>)
    ensures read.Some? ==> ValidCell(read.value.0) && s == read.value.0.column + read.value.0.row + read.value.1
  {
    var n := LetterRun(s);
    var rest := s[n..];
    var m := DigitRun(rest);
    if 1 <= n <= 3 && m > 0 && rest[0] != '0' then
      assert s == s[..n] + rest[..m] + rest[m..];
      Some((Cell(s[..n], rest[..m]), rest[m..]))
    else None
  }

  datatype CellRange = CellRange(first: Cell, last: Option<Cell>)

  predicate ValidRange(r: CellRange) { ValidCell(r.first) && (r.last.Some? ==> ValidCell(r.last.value)) }

  function Printed(r: CellRange): string {
    r.first.column + r.first.row + (if r.last.None? then "" else ":" + r.last.value.column + r.last.value.row)
  }

  /** `re.fullmatch` of the range pattern. */
  function Read(value: string): Option<CellRange> {
    match ReadCell(value)
    case None => None
    case Some((first, rest)) =>
      if rest == "" then Some(CellRange(first, None))
      else if rest[0] != ':' then None
      else
        match ReadCell(rest[1..])
        case None => None
        case Some((last, after)) => if after == "" then Some(CellRange(first, Some(last))) else None
  }

  lemma LetterRunIs(s: string, n: nat)
    requires n <= |s| && Letters(s[..n]) && (n < |s| ==> !IsLetter(s[n]))
    ensures LetterRun(s) == n
  {
    var m := LetterRun(s);
    forall k | 0 <= k < |s|
      ensures k < m || k < n ==> IsLetter(s[k])
    {
      assert k < m ==> s[..m][k] == s[k];
      assert k < n ==> s[..n][k] == s[k];
    }
  }

  lemma DigitRunIs(s: string, n: nat)
    requires n <= |s| && AllAsciiDigits(s[..n]) && (n < |s| ==> !IsAsciiDigit(s[n]))
    ensures DigitRun(s) == n
  {
    var m := DigitRun(s);
    forall k | 0 <= k < |s|
      ensures k < m || k < n ==> IsAsciiDigit(s[k])
    {
      assert k < m ==> s[..m][k] == s[k];
      assert k < n ==> s[..n][k] == s[k];
    }
  }

  /** A cell is read back, whatever follows that is not a digit. */
  lemma CellReadsBack(c: Cell, rest: string)
    requires ValidCell(c) && (rest != "" ==> !IsAsciiDigit(rest[0]))
    ensures ReadCell(c.column + c.row + rest) == Some((c, rest))
  {
    hide LetterRun, DigitRun;
    var s, n, m := c.column + c.row + rest, |c.column|, |c.row|;
    assert s[..n] == c.column && s[n] == c.row[0];
    LetterRunIs(s, n);
    assert s[n..] == c.row + rest;
    assert (c.row + rest)[..m] == c.row && (c.row + rest)[m..] == rest;
    DigitRunIs(c.row + rest, m);
  }

  /** Main result: a text is read as a range exactly when it is that range printed. */
  lemma ReadExactly(value: string, r: CellRange)
    ensures Read(value) == Some(r) <==> ValidRange(r) && value == Printed(r)
  {
    hide ReadCell;
    if ValidRange(r) && value == Printed(r) {
      var tail := if r.last.None? then "" else ":" + r.last.value.column + r.last.value.row;
      CellReadsBack(r.first, tail);
      if r.last.Some? {
        var text := r.last.value.column + r.last.value.row;
        assert tail[1..] == text && text + "" == text;
        CellReadsBack(r.last.value, "");
      }
    }
    if Read(value) == Some(r) {
      var rest := ReadCell(value).value.1;
      if rest != "" {
        assert rest == ":" + rest[1..];
        assert rest[1..] == r.last.value.column + r.last.value.row + "";
      }
      assert value == Printed(r);
    }
  }

  /** Left column, top row, right column, bottom row. */
  datatype Box = Box(left: nat, top: nat, right: nat, bottom: nat)

  function BoxOf(r: CellRange): Box
    requires ValidRange(r)
  {
    var last := if r.last.Some? then r.last.value else r.first;
    Box(Column(r.first.column), Ordinal(r.first.row), Column(last.column), Ordinal(last.row))
  }

  /** `_cell_range_box`. */
  function CellRangeBox(value: string): Option<Box> {
    match Read(value)
    case None => None
    case Some(r) => ReadExactly(value, r); Some(BoxOf(r))
  }

  ghost predicate InSheet(column: nat, row: nat) { 1 <= column <= 18278 && 1 <= row }

  ghost function Corner(column: nat, row: nat): string { LabelOf(column) + Decimal(row) }

  lemma CellIsCorner(c: Cell)
    requires ValidCell(c)
    ensures InSheet(Column(c.column), Ordinal(c.row)) && c.column + c.row == Corner(Column(c.column), Ordinal(c.row))
  {
    ColumnsOfShortLabels(c.column, Column(c.column));
    DecimalOfOrdinal(c.row);
    FirstDigit(c.row);
  }

  lemma CornerIsCell(column: nat, row: nat) returns (c: Cell)
    requires InSheet(column, row)
    ensures ValidCell(c) && c == Cell(LabelOf(column), Decimal(row)) && Column(c.column) == column
            && Ordinal(c.row) == row
  {
    c := Cell(LabelOf(column), Decimal(row));
    ColumnOfLabel(column);
    OrdinalOfDecimal(row);
    ColumnsOfShortLabels(LabelOf(column), column);
  }

  /** Main result: a text is read as a rectangle exactly if it prints that rectangle's two corners, or the
      one corner of a single cell. */
  lemma BoxExactly(value: string, b: Box)
    ensures CellRangeBox(value) == Some(b) <==>
              && InSheet(b.left, b.top) && InSheet(b.right, b.bottom)
              && (value == Corner(b.left, b.top) + ":" + Corner(b.right, b.bottom)
                  || (value == Corner(b.left, b.top) && b.right == b.left && b.bottom == b.top))
  {
    hide Read, LabelOf, Decimal, Column, Ordinal;
    if CellRangeBox(value).Some? {
      var r := Read(value).value;
      ReadExactly(value, r);
      CellIsCorner(r.first);
      if r.last.Some? {
        CellIsCorner(r.last.value);
        assert value == Corner(Column(r.first.column), Ordinal(r.first.row)) + ":" +
                        Corner(Column(r.last.value.column), Ordinal(r.last.value.row));
      }
    }
    if InSheet(b.left, b.top) && InSheet(b.right, b.bottom) {
      var first := CornerIsCell(b.left, b.top);
      var last := CornerIsCell(b.right, b.bottom);
      var one, two := CellRange(first, None), CellRange(first, Some(last));
      ReadExactly(value, one);
      ReadExactly(value, two);
      assert Printed(one) == Corner(b.left, b.top);
      assert Printed(two) == Corner(b.left, b.top) + ":" + Corner(b.right, b.bottom);
    }
  }

  // ----- Rectangles and sets of cells

  /** `_cell_range_contains`. */
  predicate CellRangeContains(actual: string, expected: string) {
    var a, e := CellRangeBox(actual), CellRangeBox(expected);
    a.Some? && e.Some? && Encloses(a.value, e.value)
  }

  predicate Encloses(a: Box, e: Box) {
    a.left <= e.left && a.top <= e.top && a.right >= e.right && a.bottom >= e.bottom
  }

  /** (row, column) pairs. */
  function CellsOf(b: Box): set<(int, int)> {
    set row, column | b.top <= row <= b.bottom && b.left <= column <= b.right :: (row, column)
  }

  predicate Reversed(b: Box) { b.left > b.right || b.top > b.bottom }

  /** `_chunk_covers_cell_range`, for the cells of the chunk's table. */
  predicate ChunkCoversCellRange(cells: Option<set<(int, int)>>, expected: string) {
    var e := CellRangeBox(expected);
    cells.Some? && e.Some? && CellsOf(e.value) <= cells.value
  }

  /** A rectangle encloses one that is not reversed exactly when it holds all its cells. */
  lemma EnclosesExactly(a: Box, e: Box)
    requires !Reversed(e)
    ensures Encloses(a, e) <==> CellsOf(e) <= CellsOf(a)
  {
    if CellsOf(e) <= CellsOf(a) {
      assert (e.top, e.left) in CellsOf(e);
      assert (e.bottom, e.right) in CellsOf(e);
    }
  }

  /** Main result: for the cells of an actual range, the two views agree exactly when the
      expected range is not reversed or is enclosed all the same. */
  lemma ViewsAgreeExactly(actual: string, expected: string)
    requires CellRangeBox(actual).Some?
    ensures var cells := CellsOf(CellRangeBox(actual).value);
            var e := CellRangeBox(expected);
            (CellRangeContains(actual, expected) <==> ChunkCoversCellRange(Some(cells), expected)) <==>
              (e.Some? && Reversed(e.value) ==> Encloses(CellRangeBox(actual).value, e.value))
  {
    hide CellRangeBox;
    var e := CellRangeBox(expected);
    if e.Some? {
      if Reversed(e.value) {
        assert CellsOf(e.value) == {};
      } else {
        EnclosesExactly(CellRangeBox(actual).value, e.value);
      }
    }
  }

  /** The views do disagree: C3:B2 asks for no cell at all, and A1 does not enclose it. */
  lemma ReversedRangeDisagrees()
    ensures CellRangeBox("A1") == Some(Box(1, 1, 1, 1)) && CellRangeBox("C3:B2") == Some(Box(3, 3, 2, 2))
    ensures !CellRangeContains("A1", "C3:B2") && ChunkCoversCellRange(Some(CellsOf(Box(1, 1, 1, 1))), "C3:B2")
  {
    hide Read;
    var a1, b2, c3 := Cell("A", "1"), Cell("B", "2"), Cell("C", "3");
    ReadExactly("A1", CellRange(a1, None));
    ReadExactly("C3:B2", CellRange(c3, Some(b2)));
    assert Printed(CellRange(a1, None)) == "A1";
    assert Printed(CellRange(c3, Some(b2))) == "C3:B2";
    OneLetter('A');
    OneLetter('B');
    OneLetter('C');
    OneDigit('1');
    OneDigit('2');
    OneDigit('3');
    assert CellsOf(Box(3, 3, 2, 2)) == {};
  }

  lemma OneLetter(c: char)
    requires IsLetter(c)
    ensures Column([c]) == LetterValue(c)
  {
  }

  lemma OneDigit(c: char)
    requires IsAsciiDigit(c)
    ensures Ordinal([c]) == c as int - '0' as int
  {
  }
}
