/** The citation-like pattern and the canonical labels as a grammar, and the scan as a search for
    them (app/evals/answer_citation_metrics.py). */
module CitationGrammar {
  import opened CitationLabels
  import opened CitationScanner
  import opened Decimals
  import opened Options

  /** No character is of two of the classes that the pattern tells apart. */
  ghost predicate ClassesApart(k: Classes) {
    && (forall c :: !(k.isSpace(c) && k.isDigit(c)))
    && (forall c :: IsE(c) || IsClose(c) ==> !k.isSpace(c) && !k.isDigit(c))
  }

  ghost predicate SpaceAt(k: Classes, text: string, p: int) {
    0 <= p < |text| && k.isSpace(text[p])
  }

  ghost predicate DigitAt(k: Classes, text: string, p: int) {
    0 <= p < |text| && k.isDigit(text[p])
  }

  ghost predicate SpacesIn(k: Classes, text: string, from: int, stop: int) {
    0 <= from <= stop <= |text| && forall p :: from <= p < stop ==> SpaceAt(k, text, p)
  }

  ghost predicate DigitsIn(k: Classes, text: string, from: int, stop: int) {
    0 <= from <= stop <= |text| && forall p :: from <= p < stop ==> DigitAt(k, text, p)
  }

  /** Spaces up to `a`, at most five digits up to `b`, spaces up to `c`, and there the end, or a closing
      bracket and the end. */
  ghost predicate IsTail(k: Classes, text: string, from: int, end: int, a: int, b: int, c: int) {
    && SpacesIn(k, text, from, a) && DigitsIn(k, text, a, b) && b - a <= 5 && SpacesIn(k, text, b, c)
    && (end == c
        || (end == c + 1 && c < |text| && (text[c] == ']' || text[c] == '\U{FF3D}' || text[c] == '\U{3011}')))
  }

  ghost predicate ReadsTail(k: Classes, text: string, from: int, end: int) {
    exists a, b, c :: IsTail(k, text, from, end, a, b, c)
  }

  /** An opening bracket, spaces, and the letter at `letter`. */
  ghost predicate IsHead(k: Classes, text: string, from: int, letter: int) {
    && 0 <= from < letter < |text|
    && (text[from] == '[' || text[from] == '\U{FF3B}' || text[from] == '\U{3010}')
    && SpacesIn(k, text, from + 1, letter)
    && (text[letter] == 'E' || text[letter] == 'e' || text[letter] == '\U{FF25}' || text[letter] == '\U{FF45}')
  }

  /** The text from `from` to `end` is citation-like. */
  ghost predicate Reads(k: Classes, text: string, from: int, end: int) {
    exists letter :: IsHead(k, text, from, letter) && ReadsTail(k, text, letter + 1, end)
  }

  // ----- Greedy parts

  lemma {:induction false} SpacesAreGreedy(k: Classes, text: string, from: nat)
    requires from <= |text|
    ensures var end := SkipSpaces(k, text, from);
            SpacesIn(k, text, from, end) && !SpaceAt(k, text, end)
    decreases |text| - from
  {
    if from < |text| && k.isSpace(text[from]) {
      SpacesAreGreedy(k, text, from + 1);
    }
  }

  lemma {:induction false} DigitsAreGreedy(k: Classes, text: string, from: nat, limit: nat)
    requires from <= |text|
    ensures var end := SkipDigits(k, text, from, limit);
            DigitsIn(k, text, from, end) && (end < from + limit ==> !DigitAt(k, text, end))
    decreases limit
  {
    if limit > 0 && from < |text| && k.isDigit(text[from]) {
      DigitsAreGreedy(k, text, from + 1, limit - 1);
    }
  }

  /** The greedy end of the tail is one, and none reaches further. */
  lemma TailExactly(k: Classes, text: string, from: nat)
    requires ClassesApart(k) && from <= |text|
    ensures ReadsTail(k, text, from, TokenEnd(k, text, from))
    ensures forall end :: ReadsTail(k, text, from, end) ==> end <= TokenEnd(k, text, from)
  {
    hide SkipSpaces, SkipDigits;
    var x := SkipSpaces(k, text, from);
    var y := SkipDigits(k, text, x, 5);
    var z := SkipSpaces(k, text, y);
    SpacesAreGreedy(k, text, from);
    DigitsAreGreedy(k, text, x, 5);
    SpacesAreGreedy(k, text, y);
    assert IsTail(k, text, from, TokenEnd(k, text, from), x, y, z);
    forall end | ReadsTail(k, text, from, end)
      ensures end <= TokenEnd(k, text, from)
    {
      var a, b, c :| IsTail(k, text, from, end, a, b, c);
      TailFits(k, text, from, end, x, y, z, a, b, c);
    }
  }

  /** No tail is longer than the one whose parts are as long as they can be. */
  lemma TailFits(k: Classes, text: string, from: int, end: int, x: int, y: int, z: int, a: int, b: int, c: int)
    requires ClassesApart(k)
    requires SpacesIn(k, text, from, x) && !SpaceAt(k, text, x)
    requires DigitsIn(k, text, x, y) && y <= x + 5 && (y < x + 5 ==> !DigitAt(k, text, y))
    requires SpacesIn(k, text, y, z) && !SpaceAt(k, text, z)
    requires IsTail(k, text, from, end, a, b, c)
    ensures end <= if z < |text| && IsClose(text[z]) then z + 1 else z
  {
    SpacesStop(k, text, from, a, x);
    if a < x {
      // A space follows, so there are no digits, and the spaces go on.
      assert SpaceAt(k, text, a);
      assert b == a by {
        assert b <= a || DigitAt(k, text, a);
      }
      SpacesStop(k, text, a, c, x);
      if end == c + 1 {
        assert c == x by {
          assert c >= x || SpaceAt(k, text, c);
        }
        assert y == x by {
          assert y <= x || DigitAt(k, text, x);
        }
        SpacesStop(k, text, x, z, x);
      }
    } else {
      assert b <= y by {
        assert b <= y || DigitAt(k, text, y);
      }
      if b < y {
        assert DigitAt(k, text, b);
        assert c == b by {
          assert c <= b || SpaceAt(k, text, b);
        }
      } else {
        SpacesStop(k, text, y, c, z);
        assert end == c || c == z by {
          assert c >= z || SpaceAt(k, text, c);
        }
      }
    }
  }

  /** Spaces reach no further than to where the next character is none. */
  lemma SpacesStop(k: Classes, text: string, from: int, stop: int, end: int)
    requires SpacesIn(k, text, from, stop) && from <= end <= |text| && !SpaceAt(k, text, end)
    ensures stop <= end
  {
    assert stop <= end || SpaceAt(k, text, end);
  }

  /** Main result: the token that starts at a position is the longest citation-like text there, and
      there is none exactly if no text there is citation-like. */
  lemma TokenExactly(k: Classes, text: string, from: nat)
    requires ClassesApart(k) && from <= |text|
    ensures match TokenAt(k, text, from)
            case None => forall end :: !Reads(k, text, from, end)
            case Some(stop) => Reads(k, text, from, stop) && forall end :: Reads(k, text, from, end) ==> end <= stop
  {
    hide SkipSpaces, TokenEnd, ReadsTail;
    if from < |text| && IsOpen(text[from]) {
      var letter := SkipSpaces(k, text, from + 1);
      SpacesAreGreedy(k, text, from + 1);
      forall l | IsHead(k, text, from, l)
        ensures l == letter && letter < |text| && IsE(text[letter])
      {
        HeadIsGreedy(k, text, from, letter, l);
      }
      if letter < |text| && IsE(text[letter]) {
        assert IsHead(k, text, from, letter);
        TailExactly(k, text, letter + 1);
      }
    }
  }

  lemma HeadIsGreedy(k: Classes, text: string, from: int, letter: int, l: int)
    requires ClassesApart(k) && IsHead(k, text, from, l)
    requires SpacesIn(k, text, from + 1, letter) && !SpaceAt(k, text, letter)
    ensures l == letter && letter < |text| && IsE(text[letter])
  {
    SpacesStop(k, text, from + 1, l, letter);
    assert letter <= l || SpaceAt(k, text, l);
  }

  // ----- The scan

  ghost predicate IsToken(k: Classes, text: string, from: nat, token: string, start: nat, stop: nat) {
    from <= start < stop <= |text| && TokenAt(k, text, start) == Some(stop) && token == text[start..stop]
  }

  ghost predicate InOneOf(p: nat, starts: seq<nat>, stops: seq<nat>)
    requires |starts| == |stops|
  {
    exists i :: 0 <= i < |starts| && starts[i] <= p < stops[i]
  }

  /** The tokens are at these places, from left to right, and nowhere between them does one start. */
  ghost predicate Finds(k: Classes, text: string, from: nat, tokens: seq<string>, starts: seq<nat>, stops: seq<nat>) {
    && |starts| == |tokens| == |stops|
    && (forall i :: 0 <= i < |tokens| ==> IsToken(k, text, from, tokens[i], starts[i], stops[i]))
    && (forall i, j :: 0 <= i && j == i + 1 && j < |tokens| ==> stops[i] <= starts[j])
    && (forall p: nat :: from <= p < |text| && TokenAt(k, text, p).Some? ==> InOneOf(p, starts, stops))
  }

  /** Main result: scanning finds every place where a token starts outside an earlier token, in order. */
  lemma {:induction false} ScanFinds(k: Classes, text: string, from: nat) returns (starts: seq<nat>, stops: seq<nat>)
    requires from <= |text|
    ensures Finds(k, text, from, Scan(k, text, from), starts, stops)
    decreases |text| - from
  {
    hide TokenAt, Finds;
    if from == |text| {
      starts, stops := [], [];
      FindsNothing(k, text);
    } else {
      match TokenAt(k, text, from)
      case None =>
        starts, stops := ScanFinds(k, text, from + 1);
        FindsLater(k, text, from, Scan(k, text, from + 1), starts, stops);
      case Some(end) =>
        starts, stops := ScanFinds(k, text, end);
        FindsFirst(k, text, from, end, Scan(k, text, end), starts, stops);
        starts, stops := [from] + starts, [end] + stops;
    }
  }

  lemma FindsNothing(k: Classes, text: string)
    ensures Finds(k, text, |text|, [], [], [])
  {
  }

  lemma FindsLater(k: Classes, text: string, from: nat, tokens: seq<string>, starts: seq<nat>, stops: seq<nat>)
    requires from < |text| && TokenAt(k, text, from).None? && Finds(k, text, from + 1, tokens, starts, stops)
    ensures Finds(k, text, from, tokens, starts, stops)
  {
    hide TokenAt, InOneOf;
  }

  lemma FindsFirst(k: Classes, text: string, from: nat, end: nat, tokens: seq<string>, starts: seq<nat>,
                   stops: seq<nat>)
    requires from <= |text| && TokenAt(k, text, from) == Some(end) && Finds(k, text, end, tokens, starts, stops)
    ensures Finds(k, text, from, [text[from..end]] + tokens, [from] + starts, [end] + stops)
  {
    hide TokenAt, InOneOf, IsToken;
    var all, a, b := [text[from..end]] + tokens, [from] + starts, [end] + stops;
    forall i | 0 <= i < |all|
      ensures IsToken(k, text, from, all[i], a[i], b[i])
    {
      TokenStays(k, text, from, end, if i == 0 then text[from..end] else tokens[i - 1],
                 if i == 0 then from else starts[i - 1], if i == 0 then end else stops[i - 1], i == 0);
    }
    forall i, j | 0 <= i && j == i + 1 && j < |all|
      ensures b[i] <= a[j]
    {
      assert a[j] == starts[i];
      if i == 0 {
        TokenStays(k, text, from, end, tokens[0], starts[0], stops[0], false);
      } else {
        assert stops[i - 1] <= starts[i];
      }
    }
    forall p: nat | from <= p < |text| && TokenAt(k, text, p).Some?
      ensures InOneOf(p, a, b)
    {
      InLonger(p, from, end, starts, stops);
    }
  }

  lemma TokenStays(k: Classes, text: string, from: nat, end: nat, token: string, start: nat, stop: nat, first: bool)
    requires from <= |text| && TokenAt(k, text, from) == Some(end)
    requires if first then start == from && stop == end && token == text[from..end]
             else IsToken(k, text, end, token, start, stop)
    ensures IsToken(k, text, from, token, start, stop) && (!first ==> end <= start)
  {
    hide TokenAt;
  }

  lemma InLonger(p: nat, start: nat, stop: nat, starts: seq<nat>, stops: seq<nat>)
    requires |starts| == |stops| && start <= p && (stop <= p ==> InOneOf(p, starts, stops))
    ensures InOneOf(p, [start] + starts, [stop] + stops)
  {
    var a, b := [start] + starts, [stop] + stops;
    if p < stop {
      assert a[0] <= p < b[0];
    } else {
      var i :| 0 <= i < |starts| && starts[i] <= p < stops[i];
      assert a[i + 1] <= p < b[i + 1];
    }
  }

  // ----- Canonical labels

  /** Main result: a token is a citation exactly if it is a label `[En]` printed in decimal, and then
      with that number. */
  lemma CitationExactly(token: string, n: nat)
    ensures CitationOf(token) == Some(Citation(token, n)) <==> token == "[E" + Decimal(n) + "]"
    ensures CitationOf(token).Some? ==> CitationOf(token).value.citationLabel == token
  {
    if CitationOf(token).Some? {
      DecimalOfOrdinal(CanonicalDigits(token).value);
    }
    if token == "[E" + Decimal(n) + "]" {
      assert token[2..|token| - 1] == Decimal(n);
      OrdinalOfDecimal(n);
      if n >= 10 {
        assert |Decimal(n)| > 1;
      }
    }
  }
}
