/** UTF-8 (RFC 3629) and `_utf8_prefix` (app/agents/gateway.py). A `char` is a Unicode
    scalar value. */
module Utf8 {
  import opened Options
  import opened Strings

  type Byte = b: int | 0 <= b < 256

  /** Section 3 of RFC 3629. */
  function EncodeChar(c: char): (bytes: seq<Byte>)
    ensures 1 <= |bytes| <= 4
  {
    var v := c as int;
    if v < 0x80 then [v]
    else if v < 0x800 then [0xC0 + v / 0x40, 0x80 + v % 0x40]
    else if v < 0x1_0000 then [0xE0 + v / 0x1000, 0x80 + v / 0x40 % 0x40, 0x80 + v % 0x40]
    else [0xF0 + v / 0x4_0000, 0x80 + v / 0x1000 % 0x40, 0x80 + v / 0x40 % 0x40, 0x80 + v % 0x40]
  }

  function Encode(text: string): seq<Byte> {
    if text == "" then [] else EncodeChar(text[0]) + Encode(text[1..])
  }

  predicate IsContinuation(b: Byte) { 0x80 <= b < 0xC0 }
  predicate IsScalar(v: int) { 0 <= v < 0xD800 || 0xE000 <= v < 0x11_0000 }

  function Bits(b: Byte, mark: int): int { b as int - mark }

  /** The character whose encoding the bytes start with, and the length of that encoding.
      Overlong forms and surrogates are not encodings (section 3 of RFC 3629). */
  function Head(bytes: seq<Byte>): (head: Option<(char, nat)>)
    ensures head.Some? ==> 1 <= head.value.1 <= |bytes|
  {
    var n := |bytes|;
    if n >= 1 && bytes[0] < 0x80 then Some((bytes[0] as char, 1))
    else if n >= 2 && 0xC2 <= bytes[0] < 0xE0 && IsContinuation(bytes[1]) then
      Some(((Bits(bytes[0], 0xC0) * 0x40 + Bits(bytes[1], 0x80)) as char, 2))
    else if n >= 3 && 0xE0 <= bytes[0] < 0xF0 && IsContinuation(bytes[1]) && IsContinuation(bytes[2]) then
      var v := Bits(bytes[0], 0xE0) * 0x1000 + Bits(bytes[1], 0x80) * 0x40 + Bits(bytes[2], 0x80);
      if 0x800 <= v && IsScalar(v) then Some((v as char, 3)) else None
    else if
      && n >= 4 && 0xF0 <= bytes[0] < 0xF5
      && IsContinuation(bytes[1]) && IsContinuation(bytes[2]) && IsContinuation(bytes[3])
    then
      var v := Bits(bytes[0], 0xF0) * 0x4_0000 + Bits(bytes[1], 0x80) * 0x1000 + Bits(bytes[2], 0x80) * 0x40 +
          Bits(bytes[3], 0x80);
      if 0x1_0000 <= v && IsScalar(v) then Some((v as char, 4)) else None
    else None
  }

  /** `decode("utf-8", errors="ignore")`. What cannot be decoded is dropped byte by byte;
      the continuation bytes of a dropped sequence cannot start a character either. */
  function DecodeIgnore(bytes: seq<Byte>): string
    decreases |bytes|
  {
    if bytes == [] then ""
    else
      match Head(bytes)
      case None => DecodeIgnore(bytes[1..])
      case Some((c, n)) => [c] + DecodeIgnore(bytes[n..])
  }

  /** `_utf8_prefix`. */
  function Utf8Prefix(value: string, maxBytes: nat): string {
    var bytes := Encode(value);
    DecodeIgnore(if maxBytes < |bytes| then bytes[..maxBytes] else bytes)
  }

  // ----- Decoding an encoded character

  /** A number is put together again from its groups of six bits. */
  lemma SixBits(v: nat)
    ensures v / 0x40 * 0x40 + v % 0x40 == v
    ensures v / 0x1000 * 0x1000 + v / 0x40 % 0x40 * 0x40 + v % 0x40 == v
    ensures v / 0x4_0000 * 0x4_0000 + v / 0x1000 % 0x40 * 0x1000 + v / 0x40 % 0x40 * 0x40 + v % 0x40 == v
  {
    assert v / 0x1000 == v / 0x40 / 0x40;
    assert v / 0x4_0000 == v / 0x1000 / 0x40;
  }

  lemma HeadOfTwo(v: nat, s: seq<Byte>)
    requires 0x80 <= v < 0x800 && |s| >= 2 && s[0] == 0xC0 + v / 0x40 && s[1] == 0x80 + v % 0x40
    ensures Head(s) == Some((v as char, 2))
  {
  }

  lemma HeadOfThree(v: nat, s: seq<Byte>)
    requires 0x800 <= v < 0x1_0000 && IsScalar(v) && |s| >= 3
    requires s[0] == 0xE0 + v / 0x1000 && s[1] == 0x80 + v / 0x40 % 0x40 && s[2] == 0x80 + v % 0x40
    ensures Head(s) == Some((v as char, 3))
  {
  }

  lemma HeadOfFour(v: nat, s: seq<Byte>)
    requires 0x1_0000 <= v && IsScalar(v) && |s| >= 4
    requires s[0] == 0xF0 + v / 0x4_0000 && s[1] == 0x80 + v / 0x1000 % 0x40
    requires s[2] == 0x80 + v / 0x40 % 0x40 && s[3] == 0x80 + v % 0x40
    ensures Head(s) == Some((v as char, 4))
  {
    SixBits(v);
    assert Bits(s[0], 0xF0) == v / 0x4_0000 && Bits(s[1], 0x80) == v / 0x1000 % 0x40;
    assert Bits(s[2], 0x80) == v / 0x40 % 0x40 && Bits(s[3], 0x80) == v % 0x40;
  }

  lemma HeadOfEncoded(c: char, rest: seq<Byte>)
    ensures Head(EncodeChar(c) + rest) == Some((c, |EncodeChar(c)|))
  {
    hide Head, Bits;
    var bytes, v := EncodeChar(c), c as int;
    assert forall i :: 0 <= i < |bytes| ==> (bytes + rest)[i] == bytes[i];
    if v < 0x80 {
      HeadOfOne(v, bytes + rest);
    } else if v < 0x800 {
      HeadOfTwo(v, bytes + rest);
    } else if v < 0x1_0000 {
      HeadOfThree(v, bytes + rest);
    } else {
      HeadOfFour(v, bytes + rest);
    }
  }

  lemma HeadOfOne(v: nat, s: seq<Byte>)
    requires v < 0x80 && |s| >= 1 && s[0] == v
    ensures Head(s) == Some((v as char, 1))
  {
  }

  lemma DecodeStep(c: char, rest: seq<Byte>)
    ensures DecodeIgnore(EncodeChar(c) + rest) == [c] + DecodeIgnore(rest)
  {
    hide Head, EncodeChar;
    HeadOfEncoded(c, rest);
    assert (EncodeChar(c) + rest)[|EncodeChar(c)|..] == rest;
  }

  lemma ContinuationsAreDropped(bytes: seq<Byte>)
    requires |bytes| <= 3 && forall i :: 0 <= i < |bytes| ==> IsContinuation(bytes[i])
    ensures DecodeIgnore(bytes) == ""
    decreases |bytes|
  {
  }

  /** A character that was cut in two decodes to nothing. */
  lemma PartialIsDropped(c: char, n: nat)
    requires n < |EncodeChar(c)|
    ensures DecodeIgnore(EncodeChar(c)[..n]) == ""
  {
    if n > 0 {
      var bytes := EncodeChar(c)[..n];
      ContinuationsAreDropped(bytes[1..]);
      assert Head(bytes).None?;
    }
  }

  // ----- The longest prefix that fits

  /** How many characters of the text fit into the bytes. */
  function FittingLength(text: string, maxBytes: nat): (k: nat)
    ensures k <= |text|
  {
    if text == "" || maxBytes < |EncodeChar(text[0])| then 0
    else 1 + FittingLength(text[1..], maxBytes - |EncodeChar(text[0])|)
  }

  lemma {:induction false} CutDecodesToFitting(text: string, maxBytes: nat)
    ensures Utf8Prefix(text, maxBytes) == text[..FittingLength(text, maxBytes)]
  {
    hide EncodeChar, Head;
    if text != "" {
      var c, tail := text[0], Encode(text[1..]);
      var n := |EncodeChar(c)|;
      var bytes := EncodeChar(c) + tail;
      if maxBytes < n {
        assert bytes[..maxBytes] == EncodeChar(c)[..maxBytes];
        PartialIsDropped(c, maxBytes);
      } else {
        CutDecodesToFitting(text[1..], maxBytes - n);
        var rest := if maxBytes - n < |tail| then tail[..maxBytes - n] else tail;
        assert (if maxBytes < |bytes| then bytes[..maxBytes] else bytes) == EncodeChar(c) + rest;
        DecodeStep(c, rest);
        var k := FittingLength(text[1..], maxBytes - n);
        assert text[..1 + k] == [c] + text[1..][..k];
      }
    }
  }

  lemma {:induction false} FittingIsLongest(text: string, maxBytes: nat)
    ensures var k := FittingLength(text, maxBytes);
            && |Encode(text[..k])| <= maxBytes
            && (k < |text| ==> |Encode(text[..k + 1])| > maxBytes)
  {
    hide EncodeChar;
    if text != "" {
      var n := |EncodeChar(text[0])|;
      if maxBytes < n {
        assert text[..1][1..] == "";
      } else {
        FittingIsLongest(text[1..], maxBytes - n);
        var k := FittingLength(text[1..], maxBytes - n);
        assert text[..k + 1][1..] == text[1..][..k];
        if k + 1 < |text| {
          assert text[..k + 2][1..] == text[1..][..k + 1];
        }
      }
    }
  }

  lemma {:induction false} EncodeMonotone(text: string, k: nat, m: nat)
    requires k <= m <= |text|
    ensures |Encode(text[..k])| <= |Encode(text[..m])|
    ensures k < m ==> |Encode(text[..k])| < |Encode(text[..m])|
  {
    hide EncodeChar;
    if k > 0 {
      EncodeMonotone(text[1..], k - 1, m - 1);
      assert text[..k][1..] == text[1..][..k - 1];
      assert text[..m][1..] == text[1..][..m - 1];
    }
  }

  /** Main result: cutting the encoding and decoding what can be decoded yields the longest
      prefix of whole characters whose encoding fits; no other length is the longest. */
  lemma PrefixIsLongestFitting(text: string, maxBytes: nat, k: nat)
    requires k <= |text|
    ensures Utf8Prefix(text, maxBytes) == text[..k] <==>
              |Encode(text[..k])| <= maxBytes && (k < |text| ==> |Encode(text[..k + 1])| > maxBytes)
  {
    hide Utf8Prefix, Encode, FittingLength;
    var m := FittingLength(text, maxBytes);
    CutDecodesToFitting(text, maxBytes);
    FittingIsLongest(text, maxBytes);
    if k < m {
      EncodeMonotone(text, k + 1, m);
      assert |text[..k]| != |text[..m]|;
    } else if m < k {
      EncodeMonotone(text, m + 1, k);
      assert |text[..k]| != |text[..m]|;
    }
  }

  /** A text is left alone exactly when its encoding fits. */
  lemma PrefixIsWholeExactly(text: string, maxBytes: nat)
    ensures Utf8Prefix(text, maxBytes) == text <==> |Encode(text)| <= maxBytes
  {
    PrefixIsLongestFitting(text, maxBytes, |text|);
    assert text[..|text|] == text;
  }

  /** The cut text fits, is a prefix, and is not cut again. */
  lemma PrefixTwice(text: string, maxBytes: nat)
    ensures var cut := Utf8Prefix(text, maxBytes);
            cut <= text && |Encode(cut)| <= maxBytes && Utf8Prefix(cut, maxBytes) == cut
  {
    hide Utf8Prefix, Encode;
    CutDecodesToFitting(text, maxBytes);
    FittingIsLongest(text, maxBytes);
    PrefixIsWholeExactly(Utf8Prefix(text, maxBytes), maxBytes);
  }

  /** Round trip. */
  lemma {:induction false} DecodeOfEncode(text: string)
    ensures DecodeIgnore(Encode(text)) == text
  {
    hide EncodeChar;
    if text != "" {
      DecodeOfEncode(text[1..]);
      DecodeStep(text[0], Encode(text[1..]));
      assert [text[0]] + text[1..] == text;
    }
  }
}
