/** The citation scanner of `_evaluate_citations` (app/evals/answer_citation_metrics.py):
    the citation-like pattern read as a deterministic scan, and the canonical labels
    among its tokens. */
module CitationScanner {
  import opened Decimals
  import opened Options

  /** The two character classes of the pattern, which Unicode tables decide. */
  datatype Classes = Classes(isSpace: char -> bool, isDigit: char -> bool)

  predicate IsOpen(c: char) { c == '[' || c == '\U{FF3B}' || c == '\U{3010}' }
  predicate IsClose(c: char) { c == ']' || c == '\U{FF3D}' || c == '\U{3011}' }
  predicate IsE(c: char) { c == 'E' || c == 'e' || c == '\U{FF25}' || c == '\U{FF45}' }

  const SEMICOLON := '\U{FF1B}'

  /** What the results need to know about the tables. */
  ghost predicate SoundClasses(k: Classes) {
    && k.isSpace(' ')
    && !k.isSpace(SEMICOLON)
    && (forall c :: IsOpen(c) || IsClose(c) || IsE(c) || IsAsciiDigit(c) ==> !k.isSpace(c))
    && (forall c :: IsAsciiDigit(c) ==> k.isDigit(c))
    && (forall c :: IsOpen(c) || IsClose(c) ==> !k.isDigit(c))
  }

  /** `\s*`, greedily. */
  function SkipSpaces(k: Classes, text: string, from: nat): (end: nat)
    requires from <= |text|
    ensures from <= end <= |text|
    decreases |text| - from
  {
    if from < |text| && k.isSpace(text[from]) then SkipSpaces(k, text, from + 1) else from
  }

  /** `\d{0,limit}`, greedily. */
  function SkipDigits(k: Classes, text: string, from: nat, limit: nat): (end: nat)
    requires from <= |text|
    ensures from <= end <= |text| && end <= from + limit
    decreases limit
  {
    if limit > 0 && from < |text| && k.isDigit(text[from]) then SkipDigits(k, text, from + 1, limit - 1) else from
  }

  /** Where a token ends whose letter is just before `from`. Every part of the pattern
      after the letter may be empty, so taking each as long as possible never fails. */
  function TokenEnd(k: Classes, text: string, from: nat): (end: nat)
    requires from <= |text|
    ensures from <= end <= |text|
  {
    var digits := SkipSpaces(k, text, from);
    var after := SkipSpaces(k, text, SkipDigits(k, text, digits, 5));
    if after < |text| && IsClose(text[after]) then after + 1 else after
  }

  /** The end of the citation-like token that starts at `from`, if one does. */
  function TokenAt(k: Classes, text: string, from: nat): (end: Option<nat>)
    requires from <= |text|
    ensures end.Some? ==> from + 2 <= end.value <= |text|
  {
    if from == |text| || !IsOpen(text[from]) then None
    else
      var letter := SkipSpaces(k, text, from + 1);
      if letter < |text| && IsE(text[letter]) then Some(TokenEnd(k, text, letter + 1)) else None
  }

  /** `finditer` from position `from` on. */
  function Scan(k: Classes, text: string, from: nat): seq<string>
    requires from <= |text|
    decreases |text| - from
  {
    if from == |text| then []
    else
      match TokenAt(k, text, from)
      case None => Scan(k, text, from + 1)
      case Some(end) => [text[from..end]] + Scan(k, text, end)
  }

  ghost predicate NoToken(k: Classes, text: string) {
    forall p :: 0 <= p < |text| ==> TokenAt(k, text, p).None?
  }

  // ----- Canonical labels

  /** The digits of a token of the form `[E<digits>]`. */
  function CanonicalDigits(token: string): (digits: Option<string>)
    ensures digits.Some? ==>
              token == "[E" + digits.value + "]" && digits.value != "" && AllAsciiDigits(digits.value)
  {
    var n := |token|;
    if n >= 4 && token[0] == '[' && token[1] == 'E' && token[n - 1] == ']' && AllAsciiDigits(token[2..n - 1]) then
      Some(token[2..n - 1])
    else None
  }

  datatype Citation = Citation(citationLabel: string, ordinal: nat)

  /** A token's citation, unless the token is malformed. */
  function CitationOf(token: string): Option<Citation> {
    match CanonicalDigits(token)
    case None => None
    case Some(digits) =>
      if |digits| > 1 && digits[0] == '0' then None else Some(Citation(token, Ordinal(digits)))
  }

  function Citations(tokens: seq<string>): (citations: seq<Citation>)
    ensures |citations| <= |tokens|
  {
    if tokens == [] then []
    else
      var front := Citations(tokens[..|tokens| - 1]);
      match CitationOf(tokens[|tokens| - 1])
      case None => front
      case Some(citation) => front + [citation]
  }

  /** The scanning loop: canonical citations in order, and how many tokens are malformed. */
  method ScanCitations(k: Classes, text: string) returns (citations: seq<Citation>, malformed: nat)
    ensures citations == Citations(Scan(k, text, 0))
    ensures malformed == |Scan(k, text, 0)| - |citations|
  {
    var tokens := Scan(k, text, 0);
    citations, malformed := [], 0;
    for i := 0 to |tokens|
      invariant citations == Citations(tokens[..i])
      invariant malformed == i - |citations|
    {
      assert tokens[..i + 1][..i] == tokens[..i];
      var citation := CitationOf(tokens[i]);
      if citation.None? {
        malformed := malformed + 1;
        continue;
      }
      citations := citations + [citation.value];
    }
    assert tokens[..|tokens|] == tokens;
  }

  // ----- How many tokens fit

  function TotalLength(tokens: seq<string>): nat {
    if tokens == [] then 0 else |tokens[0]| + TotalLength(tokens[1..])
  }

  /** Tokens do not overlap: together they are no longer than the text. */
  lemma {:induction false} TokensFit(k: Classes, text: string, from: nat)
    requires from <= |text|
    ensures TotalLength(Scan(k, text, from)) <= |text| - from
    ensures forall i :: 0 <= i < |Scan(k, text, from)| ==> |Scan(k, text, from)[i]| >= 2
    decreases |text| - from
  {
    if from < |text| {
      match TokenAt(k, text, from)
      case None => TokensFit(k, text, from + 1);
      case Some(end) =>
        TokensFit(k, text, end);
        assert Scan(k, text, from)[1..] == Scan(k, text, end);
    }
  }

  lemma {:induction false} CanonicalTokensAreLong(tokens: seq<string>)
    requires forall i :: 0 <= i < |tokens| ==> |tokens[i]| >= 2
    ensures 4 * |Citations(tokens)| + 2 * (|tokens| - |Citations(tokens)|) <= TotalLength(tokens)
  {
    if tokens != [] {
      var n := |tokens| - 1;
      CanonicalTokensAreLong(tokens[..n]);
      TotalLengthSnoc(tokens[..n], tokens[n]);
      assert tokens == tokens[..n] + [tokens[n]];
    }
  }

  lemma {:induction false} TotalLengthSnoc(tokens: seq<string>, token: string)
    ensures TotalLength(tokens + [token]) == TotalLength(tokens) + |token|
  {
    if tokens != [] {
      TotalLengthSnoc(tokens[1..], token);
      assert (tokens + [token])[1..] == tokens[1..] + [token];
    }
  }

  /** Main result: a text of n characters has at most n / 4 citations, and its malformed
      tokens fill at least two characters each of what the citations leave. */
  lemma CitationsFit(k: Classes, text: string)
    ensures var tokens := Scan(k, text, 0);
            4 * |Citations(tokens)| + 2 * (|tokens| - |Citations(tokens)|) <= |text|
  {
    TokensFit(k, text, 0);
    CanonicalTokensAreLong(Scan(k, text, 0));
  }

  // ----- Scanning concatenations

  lemma {:induction false} SkipSpacesShift(k: Classes, front: string, text: string, from: nat)
    requires from <= |text|
    ensures SkipSpaces(k, front + text, |front| + from) == |front| + SkipSpaces(k, text, from)
    decreases |text| - from
  {
    if from < |text| && k.isSpace(text[from]) {
      SkipSpacesShift(k, front, text, from + 1);
    }
  }

  lemma {:induction false} SkipDigitsShift(k: Classes, front: string, text: string, from: nat, limit: nat)
    requires from <= |text|
    ensures SkipDigits(k, front + text, |front| + from, limit) == |front| + SkipDigits(k, text, from, limit)
    decreases limit
  {
    if limit > 0 && from < |text| && k.isDigit(text[from]) {
      SkipDigitsShift(k, front, text, from + 1, limit - 1);
    }
  }

  lemma TokenEndShift(k: Classes, front: string, text: string, from: nat)
    requires from <= |text|
    ensures TokenEnd(k, front + text, |front| + from) == |front| + TokenEnd(k, text, from)
  {
    hide SkipSpaces, SkipDigits;
    SkipSpacesShift(k, front, text, from);
    var digits := SkipSpaces(k, text, from);
    SkipDigitsShift(k, front, text, digits, 5);
    SkipSpacesShift(k, front, text, SkipDigits(k, text, digits, 5));
  }

  /** What comes before a position does not matter to the token there. */
  lemma TokenShift(k: Classes, front: string, text: string, from: nat)
    requires from <= |text|
    ensures match TokenAt(k, text, from)
            case None => TokenAt(k, front + text, |front| + from).None?
            case Some(end) => TokenAt(k, front + text, |front| + from) == Some(|front| + end)
  {
    hide SkipSpaces, TokenEnd;
    if from < |text| && IsOpen(text[from]) {
      SkipSpacesShift(k, front, text, from + 1);
      var letter := SkipSpaces(k, text, from + 1);
      if letter < |text| && IsE(text[letter]) {
        TokenEndShift(k, front, text, letter + 1);
      }
    }
  }

  lemma {:induction false} ScanShift(k: Classes, front: string, text: string, from: nat)
    requires from <= |text|
    ensures Scan(k, front + text, |front| + from) == Scan(k, text, from)
    decreases |text| - from
  {
    hide TokenAt;
    if from < |text| {
      TokenShift(k, front, text, from);
      match TokenAt(k, text, from)
      case None => ScanShift(k, front, text, from + 1);
      case Some(end) =>
        ScanShift(k, front, text, end);
        assert (front + text)[|front| + from..|front| + end] == text[from..end];
    }
  }

  lemma {:induction false} ScanSkips(k: Classes, text: string, from: nat, mid: nat)
    requires from <= mid <= |text|
    requires forall p :: from <= p < mid ==> TokenAt(k, text, p).None?
    ensures Scan(k, text, from) == Scan(k, text, mid)
    decreases mid - from
  {
    if from < mid {
      ScanSkips(k, text, from + 1, mid);
    }
  }

  /** Neither a white space nor the letter of a token. */
  predicate Stops(k: Classes, c: char) { !k.isSpace(c) && !IsE(c) }

  /** The text cannot complete a token that a text before it has begun: after any
      spaces comes a character that is not the letter. */
  ghost predicate Blocks(k: Classes, text: string) {
    var p := SkipSpaces(k, text, 0);
    p < |text| && !IsE(text[p])
  }

  lemma {:induction false} SkipSpacesAcross(k: Classes, front: string, text: string, from: nat)
    requires from <= |front|
    ensures var p := SkipSpaces(k, front, from);
            SkipSpaces(k, front + text, from) == if p < |front| then p else |front| + SkipSpaces(k, text, 0)
    decreases |front| - from
  {
    if from == |front| {
      SkipSpacesShift(k, front, text, 0);
    } else if k.isSpace(front[from]) {
      SkipSpacesAcross(k, front, text, from + 1);
    }
  }

  /** A text without tokens, before a text that blocks, stays without tokens. */
  lemma NoTokenBefore(k: Classes, front: string, text: string)
    requires NoToken(k, front) && Blocks(k, text)
    ensures forall p :: 0 <= p < |front| ==> TokenAt(k, front + text, p).None?
  {
    forall p | 0 <= p < |front|
      ensures TokenAt(k, front + text, p).None?
    {
      assert TokenAt(k, front, p).None?;
      if IsOpen(front[p]) {
        SkipSpacesAcross(k, front, text, p + 1);
      }
    }
  }

  /** Main result on concatenation: a text without tokens, before a text that blocks,
      adds nothing to the scan. */
  lemma ScanAfterPlainText(k: Classes, front: string, text: string)
    requires NoToken(k, front) && Blocks(k, text)
    ensures Scan(k, front + text, 0) == Scan(k, text, 0)
  {
    NoTokenBefore(k, front, text);
    ScanSkips(k, front + text, 0, |front|);
    ScanShift(k, front, text, 0);
  }

  /** An opening bracket and the letter, `n` times. */
  function OpenTokens(n: nat): string {
    if n == 0 then "" else "[E" + OpenTokens(n - 1)
  }

  /** Each repetition is one malformed token. */
  lemma {:induction false} OpenTokensAreMalformed(k: Classes, n: nat)
    requires SoundClasses(k)
    ensures |OpenTokens(n)| == 2 * n
    ensures |Scan(k, OpenTokens(n), 0)| == n && Citations(Scan(k, OpenTokens(n), 0)) == []
  {
    hide TokenAt, Citations, CitationOf;
    NothingCited();
    if n > 0 {
      var rest := OpenTokens(n - 1);
      OpenTokensAreMalformed(k, n - 1);
      ScanOpenToken(k, rest);
      NoCitation("[E", Scan(k, rest, 0));
    }
  }

  lemma NothingCited()
    ensures Citations([]) == [] && CitationOf("[E").None?
  {
  }

  lemma ScanOpenToken(k: Classes, rest: string)
    requires SoundClasses(k) && (rest == "" || rest[0] == '[')
    ensures Scan(k, "[E" + rest, 0) == ["[E"] + Scan(k, rest, 0)
  {
    hide TokenAt;
    var text := "[E" + rest;
    OpenTokenEnds(k, rest);
    ScanShift(k, "[E", rest, 0);
    assert text[0..2] == "[E";
  }

  lemma OpenTokenEnds(k: Classes, rest: string)
    requires SoundClasses(k) && (rest == "" || rest[0] == '[')
    ensures TokenAt(k, "[E" + rest, 0) == Some(2)
  {
  }

  lemma {:induction false} NoCitation(token: string, tokens: seq<string>)
    requires CitationOf(token).None?
    ensures Citations([token] + tokens) == Citations(tokens)
  {
    hide CitationOf;
    var all := [token] + tokens;
    if tokens == [] {
      assert all[..0] == [];
    } else {
      NoCitation(token, tokens[..|tokens| - 1]);
      assert all[..|all| - 1] == [token] + tokens[..|tokens| - 1];
    }
  }
}
