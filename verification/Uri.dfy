/** Percent-encoded path segments: sections 2.1 and 2.3 of RFC 3986, with non-ASCII characters left literal
    as section 2.2 of RFC 3987 allows. */
module Percent {
  import opened Orders
  import opened Sequences

  datatype SegmentError = Malformed | InvalidUtf8 | EmptySegment

  predicate IsHex(c: char) { '0' <= c <= '9' || 'A' <= c <= 'F' || 'a' <= c <= 'f' }

  function HexValue(c: char): (n: nat)
    requires IsHex(c)
    ensures n < 16
  {
    if '0' <= c <= '9' then c as int - '0' as int
    else if 'A' <= c <= 'F' then c as int - 'A' as int + 10
    else c as int - 'a' as int + 10
  }

  function HexChar(n: nat): (c: char)
    requires n < 16
    ensures IsHex(c) && HexValue(c) == n && (c as int) < 128
  {
    "0123456789ABCDEF"[n]
  }

  predicate IsUnreserved(c: char) {
    'A' <= c <= 'Z' || 'a' <= c <= 'z' || '0' <= c <= '9' || c in "-._~"
  }

  /** Every percent sign is followed by two hexadecimal digits. */
  predicate WellEscaped(s: string) {
    if s == "" then true
    else if s[0] != '%' then WellEscaped(s[1..])
    else |s| >= 3 && IsHex(s[1]) && IsHex(s[2]) && WellEscaped(s[3..])
  }

  predicate Continues(b: nat) { 0x80 <= b < 0xC0 }

  predicate IsScalar(n: nat) { n < 0xD800 || 0xE000 <= n < 0x11_0000 }

  /** Strict UTF-8: shortest forms only, no surrogates. */
  function Utf8Decode(bytes: seq<nat>): Option<string> {
    if bytes == [] then Some("")
    else
      var b := bytes[0];
      if b < 0x80 then Prepend(b, 0, Utf8Decode(bytes[1..]))
      else if 0xC2 <= b < 0xE0 && |bytes| >= 2 && Continues(bytes[1]) then
        Prepend((b - 0xC0) * 0x40 + (bytes[1] - 0x80), 0x80, Utf8Decode(bytes[2..]))
      else if 0xE0 <= b < 0xF0 && |bytes| >= 3 && Continues(bytes[1]) && Continues(bytes[2]) then
        Prepend(((b - 0xE0) * 0x40 + (bytes[1] - 0x80)) * 0x40 + (bytes[2] - 0x80), 0x800, Utf8Decode(bytes[3..]))
      else if 0xF0 <= b < 0xF5 && |bytes| >= 4 && Continues(bytes[1]) && Continues(bytes[2]) && Continues(bytes[3]) then
        Prepend((((b - 0xF0) * 0x40 + (bytes[1] - 0x80)) * 0x40 + (bytes[2] - 0x80)) * 0x40 + (bytes[3] - 0x80), 0x1_0000,
                Utf8Decode(bytes[4..]))
      else None
  }

  function Prepend(code: nat, least: nat, rest: Option<string>): Option<string> {
    if rest.None? || code < least || !IsScalar(code) then None else Some([code as char] + rest.value)
  }

  /** Escapes are undone over each stretch of ASCII, whose bytes must be UTF-8; other characters stand for
      themselves. The bytes of the stretch so far come along. */
  function Unquote(s: string, pending: seq<nat>): Option<string> {
    if s == "" then Utf8Decode(pending)
    else if (s[0] as int) >= 128 then
      var before, after := Utf8Decode(pending), Unquote(s[1..], []);
      if before.None? || after.None? then None else Some(before.value + [s[0]] + after.value)
    else if s[0] == '%' && |s| >= 3 && IsHex(s[1]) && IsHex(s[2]) then
      Unquote(s[3..], pending + [16 * HexValue(s[1]) + HexValue(s[2])])
    else Unquote(s[1..], pending + [s[0] as int])
  }

  function Decoded(s: string): Result<string, SegmentError> {
    if !WellEscaped(s) then Err(Malformed)
    else
      var text := Unquote(s, []);
      if text.None? then Err(InvalidUtf8) else if text.value == "" then Err(EmptySegment) else Ok(text.value)
  }

  method DecodeSegment(s: string) returns (r: Result<string, SegmentError>)
    ensures r == Decoded(s)
  {
    var index := 0;
    while index < |s|
      invariant 0 <= index <= |s|
      invariant WellEscaped(s) == WellEscaped(s[index..])
    {
      if s[index] != '%' {
        index := index + 1;
      } else {
        if index + 2 >= |s| || !IsHex(s[index + 1]) || !IsHex(s[index + 2]) {
          return Err(Malformed);
        }
        assert s[index..][3..] == s[index + 3..];
        index := index + 3;
      }
    }
    var text := Unquote(s, []);
    if text.None? {
      return Err(InvalidUtf8);
    }
    r := if text.value == "" then Err(EmptySegment) else Ok(text.value);
  }

  function EncodeChar(c: char): string {
    if IsUnreserved(c) || (c as int) >= 128 then [c]
    else ['%', HexChar(c as int / 16), HexChar(c as int % 16)]
  }

  function EncodeText(s: string): string {
    if s == "" then "" else EncodeChar(s[0]) + EncodeText(s[1..])
  }

  function Encoded(s: string): Result<string, SegmentError> {
    if s == "" then Err(EmptySegment) else Ok(EncodeText(s))
  }

  method EncodeSegment(s: string) returns (r: Result<string, SegmentError>)
    ensures r == Encoded(s)
  {
    if s == "" {
      return Err(EmptySegment);
    }
    var encoded := "";
    for i := 0 to |s|
      invariant encoded + EncodeText(s[i..]) == EncodeText(s)
    {
      var c := s[i];
      EncodeStep(s, i, encoded);
      if IsUnreserved(c) || (c as int) >= 128 {
        encoded := encoded + [c];
      } else {
        encoded := encoded + ['%', HexChar(c as int / 16), HexChar(c as int % 16)];
      }
    }
    assert s[|s|..] == "" && encoded + "" == encoded;
    r := Ok(encoded);
  }

  lemma EncodeStep(s: string, i: nat, encoded: string)
    requires i < |s|
    ensures (encoded + EncodeChar(s[i])) + EncodeText(s[i + 1..]) == encoded + EncodeText(s[i..])
  {
    assert s[i..][0] == s[i] && s[i..][1..] == s[i + 1..];
    Associate(encoded, EncodeChar(s[i]), EncodeText(s[i + 1..]));
  }

  // ---- Decoding undoes encoding ----

  predicate AllAscii(bytes: seq<nat>) { forall i :: 0 <= i < |bytes| ==> bytes[i] < 128 }

  function Chars(bytes: seq<nat>): string
    requires AllAscii(bytes)
  {
    seq(|bytes|, i requires 0 <= i < |bytes| => bytes[i] as char)
  }

  lemma {:induction false} AsciiDecodes(bytes: seq<nat>)
    requires AllAscii(bytes)
    ensures Utf8Decode(bytes) == Some(Chars(bytes))
  {
    if bytes != [] {
      AsciiDecodes(bytes[1..]);
      assert Chars(bytes) == [bytes[0] as char] + Chars(bytes[1..]);
    }
  }

  lemma {:induction false} UnquoteUndoes(s: string, pending: seq<nat>)
    requires AllAscii(pending)
    ensures Unquote(EncodeText(s), pending) == Some(Chars(pending) + s)
  {
    if s == "" {
      AsciiDecodes(pending);
      assert Chars(pending) + s == Chars(pending);
    } else {
      var c, rest := s[0], s[1..];
      assert s == [c] + rest;
      if (c as int) >= 128 {
        UnquoteUndoes(rest, []);
        assert Chars([]) + rest == rest;
        LiteralStep(c, EncodeText(rest), pending);
        Associate(Chars(pending), [c], rest);
      } else {
        UnquoteStep(c, EncodeText(rest), pending);
        UnquoteUndoes(rest, pending + [c as int]);
        assert Chars(pending + [c as int]) == Chars(pending) + [c];
        Associate(Chars(pending), [c], rest);
      }
    }
  }

  lemma LiteralStep(c: char, rest: string, pending: seq<nat>)
    requires (c as int) >= 128 && AllAscii(pending) && Unquote(rest, []).Some?
    ensures Unquote([c] + rest, pending) == Some(Chars(pending) + [c] + Unquote(rest, []).value)
  {
    AsciiDecodes(pending);
    assert ([c] + rest)[1..] == rest;
  }

  lemma UnquoteStep(c: char, rest: string, pending: seq<nat>)
    requires (c as int) < 128
    ensures Unquote(EncodeChar(c) + rest, pending) == Unquote(rest, pending + [c as int])
  {
    var text := EncodeChar(c) + rest;
    if IsUnreserved(c) {
      assert text[0] == c && text[1..] == rest;
    } else {
      assert text[0] == '%' && text[1] == HexChar(c as int / 16) && text[2] == HexChar(c as int % 16);
      assert text[3..] == rest;
    }
  }

  lemma {:induction false} EncodedIsWellEscaped(s: string)
    ensures WellEscaped(EncodeText(s))
  {
    if s != "" {
      var text, rest := EncodeText(s), EncodeText(s[1..]);
      EncodedIsWellEscaped(s[1..]);
      if IsUnreserved(s[0]) || (s[0] as int) >= 128 {
        assert text[1..] == rest;
      } else {
        assert text[3..] == rest;
      }
    }
  }

  /** Decoding undoes encoding on every text there is a segment for. */
  lemma DecodeUndoesEncode(s: string)
    requires s != ""
    ensures Encoded(s).Ok? && Decoded(Encoded(s).value) == Ok(s)
  {
    EncodedIsWellEscaped(s);
    UnquoteUndoes(s, []);
    assert Chars([]) + s == s;
  }

  // ---- Texts escaped to the last byte ----

  /** Six bits to a byte from the right, the rest in the leading byte. */
  function Utf8(c: char): seq<nat> {
    var n := c as int;
    var high := n / 0x40;
    var higher := high / 0x40;
    if n < 0x80 then [n]
    else if n < 0x800 then [0xC0 + high, 0x80 + n % 0x40]
    else if n < 0x1_0000 then [0xE0 + higher, 0x80 + high % 0x40, 0x80 + n % 0x40]
    else [0xF0 + higher / 0x40, 0x80 + higher % 0x40, 0x80 + high % 0x40, 0x80 + n % 0x40]
  }

  function Utf8Text(s: string): seq<nat> {
    if s == "" then [] else Utf8(s[0]) + Utf8Text(s[1..])
  }

  predicate AllBytes(bytes: seq<nat>) { forall i :: 0 <= i < |bytes| ==> bytes[i] < 256 }

  function Escape(bytes: seq<nat>): string
    requires AllBytes(bytes)
  {
    if bytes == [] then "" else ['%', HexChar(bytes[0] / 16), HexChar(bytes[0] % 16)] + Escape(bytes[1..])
  }

  lemma SixBits(n: nat)
    ensures n == n / 0x40 * 0x40 + n % 0x40
    ensures forall most: nat :: n < most * 0x40 ==> n / 0x40 < most
  {
  }

  lemma CharsAreScalars(c: char)
    ensures IsScalar(c as int) && (c as int) as char == c
  {
  }

  lemma Utf8Reads(c: char, rest: seq<nat>)
    ensures AllBytes(Utf8(c))
    ensures Utf8Decode(Utf8(c) + rest) == Prepend(c as int, 0, Utf8Decode(rest))
  {
    var n, all := c as int, Utf8(c) + rest;
    CharsAreScalars(c);
    SixBits(n);
    SixBits(n / 0x40);
    SixBits(n / 0x40 / 0x40);
    if n < 0x80 {
      assert all[1..] == rest;
    } else if n < 0x800 {
      assert all[2..] == rest;
    } else if n < 0x1_0000 {
      assert all[3..] == rest;
    } else {
      assert all[4..] == rest;
    }
  }

  lemma {:induction false} Utf8RoundTrip(s: string)
    ensures AllBytes(Utf8Text(s)) && Utf8Decode(Utf8Text(s)) == Some(s)
  {
    if s != "" {
      Utf8RoundTrip(s[1..]);
      Utf8Reads(s[0], Utf8Text(s[1..]));
      CharsAreScalars(s[0]);
      assert s == [s[0]] + s[1..];
    }
  }

  lemma Apart(high: nat, low: nat)
    requires low < 0x40
    ensures (high * 0x40 + low) / 0x40 == high && (high * 0x40 + low) % 0x40 == low
  {
  }

  lemma TwoBytes(a: nat, b: nat)
    requires 0xC2 <= a < 0xE0 && Continues(b)
    ensures var code := (a - 0xC0) * 0x40 + (b - 0x80); 0x80 <= code < 0x800 && Utf8(code as char) == [a, b]
  {
    Apart(a - 0xC0, b - 0x80);
  }

  lemma ThreeBytes(a: nat, b: nat, c: nat, code: nat)
    requires 0xE0 <= a < 0xF0 && Continues(b) && Continues(c)
    requires code == ((a - 0xE0) * 0x40 + (b - 0x80)) * 0x40 + (c - 0x80) && code >= 0x800 && IsScalar(code)
    ensures code < 0x1_0000 && Utf8(code as char) == [a, b, c]
  {
    Apart((a - 0xE0) * 0x40 + (b - 0x80), c - 0x80);
    Apart(a - 0xE0, b - 0x80);
  }

  lemma FourBytes(a: nat, b: nat, c: nat, e: nat, code: nat)
    requires 0xF0 <= a < 0xF5 && Continues(b) && Continues(c) && Continues(e)
    requires code == (((a - 0xF0) * 0x40 + (b - 0x80)) * 0x40 + (c - 0x80)) * 0x40 + (e - 0x80)
    requires code >= 0x1_0000 && IsScalar(code)
    ensures Utf8(code as char) == [a, b, c, e]
  {
    Apart(((a - 0xF0) * 0x40 + (b - 0x80)) * 0x40 + (c - 0x80), e - 0x80);
    Apart((a - 0xF0) * 0x40 + (b - 0x80), c - 0x80);
    Apart(a - 0xF0, b - 0x80);
  }

  lemma PrependedIs(code: nat, least: nat, rest: Option<string>)
    requires Prepend(code, least, rest).Some?
    ensures rest.Some? && code >= least && IsScalar(code)
    ensures var text := Prepend(code, least, rest).value;
      text[0] == code as char && text[1..] == rest.value && Utf8Text(text) == Utf8(code as char) + Utf8Text(rest.value)
  {
  }

  /** Nothing decodes but the UTF-8 form of the text it decodes to: no longer forms, no surrogates. */
  lemma {:induction false} DecodedIsItsUtf8(bytes: seq<nat>)
    requires Utf8Decode(bytes).Some?
    ensures Utf8Text(Utf8Decode(bytes).value) == bytes
  {
    if bytes != [] {
      var b := bytes[0];
      if b < 0x80 {
        PrependedIs(b, 0, Utf8Decode(bytes[1..]));
        DecodedIsItsUtf8(bytes[1..]);
        assert bytes == [b] + bytes[1..];
      } else if 0xC2 <= b < 0xE0 {
        var code := (b - 0xC0) * 0x40 + (bytes[1] - 0x80);
        PrependedIs(code, 0x80, Utf8Decode(bytes[2..]));
        DecodedIsItsUtf8(bytes[2..]);
        TwoBytes(b, bytes[1]);
        assert bytes == [b, bytes[1]] + bytes[2..];
      } else if 0xE0 <= b < 0xF0 {
        var code := ((b - 0xE0) * 0x40 + (bytes[1] - 0x80)) * 0x40 + (bytes[2] - 0x80);
        PrependedIs(code, 0x800, Utf8Decode(bytes[3..]));
        DecodedIsItsUtf8(bytes[3..]);
        ThreeBytes(b, bytes[1], bytes[2], code);
        assert bytes == [b, bytes[1], bytes[2]] + bytes[3..];
      } else {
        var code := (((b - 0xF0) * 0x40 + (bytes[1] - 0x80)) * 0x40 + (bytes[2] - 0x80)) * 0x40 + (bytes[3] - 0x80);
        PrependedIs(code, 0x1_0000, Utf8Decode(bytes[4..]));
        DecodedIsItsUtf8(bytes[4..]);
        FourBytes(b, bytes[1], bytes[2], bytes[3], code);
        assert bytes == [b, bytes[1], bytes[2], bytes[3]] + bytes[4..];
      }
    }
  }

  /** Bytes decode exactly when they are the UTF-8 form of some text. */
  lemma DecodesExactlyUtf8(bytes: seq<nat>)
    ensures Utf8Decode(bytes).Some? <==> exists s :: Utf8Text(s) == bytes
  {
    if Utf8Decode(bytes).Some? {
      DecodedIsItsUtf8(bytes);
    }
    forall s | Utf8Text(s) == bytes ensures Utf8Decode(bytes).Some? {
      Utf8RoundTrip(s);
    }
  }

  lemma EscapeStep(b: nat, rest: string, pending: seq<nat>)
    requires b < 256
    ensures var text := ['%', HexChar(b / 16), HexChar(b % 16)] + rest;
            Unquote(text, pending) == Unquote(rest, pending + [b]) && WellEscaped(text) == WellEscaped(rest)
  {
    var text := ['%', HexChar(b / 16), HexChar(b % 16)] + rest;
    assert text[0] == '%' && text[1] == HexChar(b / 16) && text[2] == HexChar(b % 16) && text[3..] == rest;
  }

  lemma {:induction false} EscapedUnquotes(bytes: seq<nat>, pending: seq<nat>)
    requires AllBytes(bytes)
    ensures Unquote(Escape(bytes), pending) == Utf8Decode(pending + bytes)
    ensures WellEscaped(Escape(bytes))
  {
    if bytes == [] {
      assert pending + [] == pending;
    } else {
      EscapedUnquotes(bytes[1..], pending + [bytes[0]]);
      EscapeStep(bytes[0], Escape(bytes[1..]), pending);
      assert pending + [bytes[0]] + bytes[1..] == pending + bytes;
    }
  }

  /** A text with every byte of its UTF-8 form escaped decodes to the same text as its printed form does. */
  lemma EscapedTextDecodes(s: string)
    requires s != ""
    ensures AllBytes(Utf8Text(s)) && Decoded(Escape(Utf8Text(s))) == Ok(s)
  {
    Utf8RoundTrip(s);
    EscapedUnquotes(Utf8Text(s), []);
    assert [] + Utf8Text(s) == Utf8Text(s);
  }

  predicate IsLowHex(c: char) { '0' <= c <= '9' || 'A' <= c <= 'F' }

  /** A printed text holds, besides ASCII letters, digits, hyphens, full stops, underscores, tildes and characters beyond
      ASCII, only percent signs, each before two digits from 0 to 9 and A to F. */
  predicate PrintedShape(text: string) {
    if text == "" then true
    else if text[0] == '%' then |text| >= 3 && IsLowHex(text[1]) && IsLowHex(text[2]) && PrintedShape(text[3..])
    else
      && ('A' <= text[0] <= 'Z' || 'a' <= text[0] <= 'z' || '0' <= text[0] <= '9' || text[0] in "-._~" || text[0] as int >= 128)
      && PrintedShape(text[1..])
  }

  lemma {:induction false} PrintsUpperCase(s: string)
    ensures PrintedShape(EncodeText(s))
  {
    if s != "" {
      var c, rest := s[0], EncodeText(s[1..]);
      PrintsUpperCase(s[1..]);
      if IsUnreserved(c) || c as int >= 128 {
        assert ([c] + rest)[1..] == rest;
      } else {
        var text := EncodeChar(c) + rest;
        assert text[0] == '%' && text[1] == HexChar(c as int / 16) && text[2] == HexChar(c as int % 16) && text[3..] == rest;
      }
    }
  }

  /** What needs no escape prints as it is, and nothing else does. */
  lemma {:induction false} PlainPrintsAsItIs(s: string)
    ensures |EncodeText(s)| >= |s|
    ensures EncodeText(s) == s <==> forall c :: c in s ==>
      'A' <= c <= 'Z' || 'a' <= c <= 'z' || '0' <= c <= '9' || c in "-._~" || c as int >= 128
  {
    if s != "" {
      var c, rest := s[0], s[1..];
      assert s == [c] + rest && c in s;
      assert forall x :: x in s <==> x == c || x in rest;
      PlainPrintsAsItIs(rest);
      if IsUnreserved(c) || c as int >= 128 {
        assert EncodeText(s)[1..] == EncodeText(rest);
      } else {
        assert |EncodeText(s)| == 3 + |EncodeText(rest)|;
      }
    }
  }

  /** One of the two ways to write a hexadecimal digit. */
  predicate IsDigitOf(c: char, n: nat)
    requires n < 16
  {
    c == "0123456789ABCDEF"[n] || c == "0123456789abcdef"[n]
  }

  /** Every byte escaped, each digit in either case. */
  predicate EscapesOf(text: string, bytes: seq<nat>)
    requires AllBytes(bytes)
  {
    if bytes == [] then text == ""
    else
      && |text| >= 3 && text[0] == '%' && IsDigitOf(text[1], bytes[0] / 16) && IsDigitOf(text[2], bytes[0] % 16)
      && EscapesOf(text[3..], bytes[1..])
  }

  lemma DigitsReadAlike(c: char, n: nat)
    requires n < 16 && IsDigitOf(c, n)
    ensures IsHex(c) && HexValue(c) == n
  {
  }

  lemma {:induction false} EitherCaseUnquotes(text: string, bytes: seq<nat>, pending: seq<nat>)
    requires AllBytes(bytes) && EscapesOf(text, bytes)
    ensures Unquote(text, pending) == Utf8Decode(pending + bytes)
    ensures WellEscaped(text)
  {
    if bytes == [] {
      assert pending + [] == pending;
    } else {
      var b := bytes[0];
      DigitsReadAlike(text[1], b / 16);
      DigitsReadAlike(text[2], b % 16);
      EitherCaseUnquotes(text[3..], bytes[1..], pending + [b]);
      assert 16 * HexValue(text[1]) + HexValue(text[2]) == b;
      assert pending + [b] + bytes[1..] == pending + bytes;
    }
  }

  /** However its escapes are written, in upper or lower case or both, an escaped text decodes to the same text. */
  lemma EitherCaseDecodes(s: string, text: string)
    requires s != "" && AllBytes(Utf8Text(s)) && EscapesOf(text, Utf8Text(s))
    ensures Decoded(text) == Ok(s)
  {
    Utf8RoundTrip(s);
    EitherCaseUnquotes(text, Utf8Text(s), []);
    assert [] + Utf8Text(s) == Utf8Text(s);
  }

  /** A printed segment holds no separator, and ends as its text does or in plain ASCII. */
  lemma {:induction false} EncodedShape(s: string)
    requires s != ""
    ensures EncodeText(s) != ""
    ensures forall i :: 0 <= i < |EncodeText(s)| ==> EncodeText(s)[i] != '/'
    ensures var text := EncodeText(s); var last := text[|text| - 1];
            last == s[|s| - 1] || (IsHex(last))
  {
    if |s| > 1 {
      EncodedShape(s[1..]);
      assert s[1..][|s| - 2] == s[|s| - 1];
    } else {
      assert EncodeText(s[1..]) == "";
    }
    assert s[0] == '/' ==> !IsUnreserved(s[0]);
  }
}

/** URIs of the behaviour tree (habitus/behavior/uri.py): four kinds of node, one canonical text for each. */
module Uris {
  import opened Orders
  import opened Decimal
  import opened Timestamps
  import opened Names
  import opened Percent

  datatype Level = Abstract | Overview

  datatype Form =
    | Registry
    | Directory(parts: seq<string>)
    | Layer(parts: seq<string>, level: Level)
    | Document(address: Address)

  datatype Uri = Uri(text: string, segments: seq<string>, form: Form)

  datatype UriError =
    | Blank | BadScheme | TrailingSlash | EmptyRawSegment | BadSegment(error: SegmentError) | Unmapped | NotADocument

  const PREFIX := "behavior://"
  const REGISTRY_FILE := "kinds.md"

  function SidecarName(level: Level): string {
    match level case Abstract => ".abstract.md" case Overview => ".overview.md"
  }

  function LevelOf(filename: string): Option<Level> {
    if filename == ".abstract.md" then Some(Abstract) else if filename == ".overview.md" then Some(Overview) else None
  }

  function KindSegment(kind: Kind): string {
    match kind case Occurrence => "occurrences" case GapKind => "gaps"
  }

  function KindOf(segments: seq<string>): Option<Kind> {
    if segments == [] then None
    else if segments[0] == "occurrences" then Some(Occurrence)
    else if segments[0] == "gaps" then Some(GapKind)
    else None
  }

  predicate DigitsOfWidth(s: string, width: nat) { |s| == width && AllDigits(s) }

  /** A dated branch: a year, a month, a day, each as far as given. */
  predicate DatedBranch(values: seq<string>) {
    && |values| <= 3
    && (|values| >= 1 ==> DigitsOfWidth(values[0], 4) && 1 <= Number(values[0]) <= 9999)
    && (|values| >= 2 ==> DigitsOfWidth(values[1], 2) && 1 <= Number(values[1]) <= 12)
    && (|values| == 3 ==>
         DigitsOfWidth(values[2], 2) && ValidDate(Date(Number(values[0]), Number(values[1]), Number(values[2]))))
  }

  /** The root, or a dated branch under a kind. The fixed directories are the kinds themselves. */
  predicate IsDirectory(parts: seq<string>) {
    parts == [] || (KindOf(parts).Some? && DatedBranch(parts[1..]))
  }

  function DateOf(year: string, month: string, day: string): Option<Date> {
    if !DigitsOfWidth(year, 4) || !DigitsOfWidth(month, 2) || !DigitsOfWidth(day, 2) then None
    else
      var date := Date(Number(year), Number(month), Number(day));
      if ValidDate(date) then Some(date) else None
  }

  function Stem(filename: string): Option<string> {
    if !EndsWith(filename, ".md") || LevelOf(filename).Some? then None
    else
      var stem := filename[..|filename| - 3];
      if stem == "" then None else Some(stem)
  }

  /** A document lies under a kind and a date. */
  function AddressOf(u: Unicode, segments: seq<string>): Option<Address> {
    var kind := KindOf(segments);
    if kind.None? || |segments| != 5 then None
    else
      var date, stem := DateOf(segments[1], segments[2], segments[3]), Stem(segments[4]);
      if date.None? || stem.None? then None else FromIdentity(u, kind.value, date.value, stem.value)
  }

  predicate IsRegistry(segments: seq<string>) { segments == [REGISTRY_FILE] }

  predicate IsLayer(segments: seq<string>) {
    segments != [] && LevelOf(segments[|segments| - 1]).Some? && IsDirectory(segments[..|segments| - 1])
  }

  predicate IsDocument(u: Unicode, segments: seq<string>) { AddressOf(u, segments).Some? }

  function Classify(u: Unicode, segments: seq<string>): Result<Form, UriError> {
    if segments == [REGISTRY_FILE] then Ok(Registry)
    else if IsDirectory(segments) then Ok(Directory(segments))
    else
      var level := if segments == [] then None else LevelOf(segments[|segments| - 1]);
      if level.Some? && IsDirectory(segments[..|segments| - 1]) then Ok(Layer(segments[..|segments| - 1], level.value))
      else
        var address := AddressOf(u, segments);
        if address.Some? then Ok(Document(address.value)) else Err(Unmapped)
  }

  function AddressSegments(a: Address): seq<string> {
    [KindSegment(a.kind), Digits(a.occurredOn.year, 4), Digits(a.occurredOn.month, 2), Digits(a.occurredOn.day, 2),
     a.identityName + ".md"]
  }

  function Canonical(form: Form): seq<string> {
    match form
    case Registry => [REGISTRY_FILE]
    case Directory(parts) => parts
    case Layer(parts, level) => parts + [SidecarName(level)]
    case Document(address) => AddressSegments(address)
  }

  function SplitSlash(s: string): (r: seq<string>)
    ensures r != []
  {
    if s == "" then [""]
    else if s[0] == '/' then [""] + SplitSlash(s[1..])
    else
      var rest := SplitSlash(s[1..]);
      [[s[0]] + rest[0]] + rest[1..]
  }

  function JoinSlash(segments: seq<string>): string {
    if segments == [] then ""
    else if |segments| == 1 then segments[0]
    else segments[0] + "/" + JoinSlash(segments[1..])
  }

  function EncodeAll(segments: seq<string>): seq<string> {
    if segments == [] then [] else [EncodeText(segments[0])] + EncodeAll(segments[1..])
  }

  function DecodeAll(raw: seq<string>): Result<seq<string>, UriError> {
    if raw == [] then Ok([])
    else
      var first := Decoded(raw[0]);
      if first.Err? then Err(BadSegment(first.error))
      else
        var rest := DecodeAll(raw[1..]);
        if rest.Err? then Err(rest.error) else Ok([first.value] + rest.value)
  }

  function Print(segments: seq<string>): string { PREFIX + JoinSlash(EncodeAll(segments)) }

  function Parsed(u: Unicode, text: string): Result<Uri, UriError> {
    if text == "" || !Stripped(text) then Err(Blank)
    else if !StartsWith(text, PREFIX) then Err(BadScheme)
    else ParsedPath(u, text[|PREFIX|..])
  }

  function ParsedPath(u: Unicode, path: string): Result<Uri, UriError> {
    if EndsWith(path, "/") then Err(TrailingSlash)
    else
      Named(u, if path == "" then [] else SplitSlash(path))
  }

  function Named(u: Unicode, raw: seq<string>): Result<Uri, UriError> {
    if "" in raw then Err(EmptyRawSegment)
    else
      var segments := DecodeAll(raw);
      if segments.Err? then Err(segments.error) else Located(u, segments.value)
  }

  function Located(u: Unicode, segments: seq<string>): Result<Uri, UriError> {
    var form := Classify(u, segments);
    if form.Err? then Err(form.error)
    else
      var canonical := Canonical(form.value);
      if "" in canonical then Err(BadSegment(EmptySegment)) else Ok(Uri(Print(canonical), canonical, form.value))
  }

  function FromSegments(u: Unicode, segments: seq<string>): Result<Uri, UriError> {
    if "" in segments then Err(BadSegment(EmptySegment)) else Parsed(u, Print(segments))
  }

  function FromAddress(u: Unicode, a: Address): Result<Uri, UriError> {
    FromSegments(u, AddressSegments(a))
  }

  function ToAddress(uri: Uri): Result<Address, UriError> {
    if uri.form.Document? then Ok(uri.form.address) else Err(NotADocument)
  }

  function Normalized(u: Unicode, text: string): Result<string, UriError> {
    var uri := Parsed(u, text);
    if uri.Err? then Err(uri.error) else Ok(uri.value.text)
  }

  // ---- One kind of node for each path ----

  /** No path is two kinds of node, and classification finds the kind there is, if any. */
  lemma FormsExcludeEachOther(u: Unicode, segments: seq<string>)
    ensures !(IsRegistry(segments) && (IsDirectory(segments) || IsLayer(segments) || IsDocument(u, segments)))
    ensures !(IsDirectory(segments) && (IsLayer(segments) || IsDocument(u, segments)))
    ensures !(IsLayer(segments) && IsDocument(u, segments))
    ensures var r := Classify(u, segments);
      && (r.Ok? && r.value.Registry? <==> IsRegistry(segments))
      && (r.Ok? && r.value.Directory? <==> IsDirectory(segments))
      && (r.Ok? && r.value.Layer? <==> IsLayer(segments))
      && (r.Ok? && r.value.Document? <==> IsDocument(u, segments))
      && (r.Ok? && !r.value.Document? ==> Canonical(r.value) == segments)
  {
    if IsRegistry(segments) {
      RegistryStandsAlone(u, segments);
    }
    LayersStandAlone(u, segments);
    if segments != [] {
      assert segments == segments[..|segments| - 1] + [segments[|segments| - 1]];
    }
  }

  lemma RegistryStandsAlone(u: Unicode, segments: seq<string>)
    requires IsRegistry(segments)
    ensures !IsDirectory(segments) && !IsLayer(segments) && !IsDocument(u, segments)
  {
  }

  /** A layer file is no dated branch, since its name begins with a dot, and no document. */
  lemma LayersStandAlone(u: Unicode, segments: seq<string>)
    ensures IsLayer(segments) ==> !IsDirectory(segments) && !IsDocument(u, segments)
    ensures IsDirectory(segments) ==> !IsDocument(u, segments)
  {
    if segments != [] && LevelOf(segments[|segments| - 1]).Some? {
      var last := segments[|segments| - 1];
      assert last[0] == '.' && !IsDigit(last[0]);
    }
  }

  // ---- Printing and parsing ----

  /** A separator at the end, or two in a row. */
  predicate Gapped(s: string) {
    s != "" && (s[|s| - 1] == '/' || exists i :: 0 < i < |s| && s[i - 1] == '/' && s[i] == '/')
  }

  lemma {:induction false} EmptyPieces(s: string)
    ensures "" in SplitSlash(s)[1..] <==> Gapped(s)
    ensures SplitSlash(s)[0] == "" <==> s == "" || s[0] == '/'
  {
    if s != "" {
      var rest := s[1..];
      EmptyPieces(rest);
      var pieces := SplitSlash(rest);
      assert pieces == [pieces[0]] + pieces[1..];
      assert forall i :: 0 < i < |rest| ==> rest[i - 1] == s[i] && rest[i] == s[i + 1];
      if s[0] == '/' {
        assert SplitSlash(s)[1..] == pieces;
        assert rest != "" && rest[0] == '/' ==> s[1 - 1] == '/' && s[1] == '/';
      } else {
        assert SplitSlash(s)[1..] == pieces[1..];
      }
      GappedFrom(s);
    }
  }

  lemma GappedFrom(s: string)
    requires s != ""
    ensures Gapped(s) <==> Gapped(s[1..]) || (s[0] == '/' && (|s| == 1 || s[1] == '/'))
  {
    var rest := s[1..];
    if i :| 0 < i < |s| && s[i - 1] == '/' && s[i] == '/' {
      assert i > 1 ==> rest[i - 2] == '/' && rest[i - 1] == '/';
    }
    if i :| 0 < i < |rest| && rest[i - 1] == '/' && rest[i] == '/' {
      assert s[i] == '/' && s[i + 1] == '/';
    }
    if s[0] == '/' && |s| > 1 && s[1] == '/' {
      assert 0 < 1 < |s| && s[1 - 1] == '/';
    }
  }

  /** Which texts are no URI before their segments are looked at, and in which order the faults are found: white space
      around the text, another scheme, a separator at the end, an empty segment. */
  lemma RefusedTexts(u: Unicode, text: string)
    ensures text == "" || IsSpace(text[0]) || IsSpace(text[|text| - 1]) ==> Parsed(u, text) == Err(Blank)
    ensures text != "" && !IsSpace(text[0]) && !IsSpace(text[|text| - 1]) ==>
      && (!(PREFIX <= text) <==> Parsed(u, text) == Err(BadScheme))
      && (PREFIX <= text ==>
           var path := text[|PREFIX|..];
           && (path != "" && path[|path| - 1] == '/' <==> Parsed(u, text) == Err(TrailingSlash))
           && (path != "" && path[|path| - 1] != '/' && (path[0] == '/' || Gapped(path)) <==>
                Parsed(u, text) == Err(EmptyRawSegment)))
  {
    if PREFIX <= text {
      RefusedPaths(u, text[|PREFIX|..]);
    }
  }

  lemma RefusedPaths(u: Unicode, path: string)
    ensures path != "" && path[|path| - 1] == '/' <==> ParsedPath(u, path) == Err(TrailingSlash)
    ensures path != "" && path[|path| - 1] != '/' && (path[0] == '/' || Gapped(path)) <==>
            ParsedPath(u, path) == Err(EmptyRawSegment)
    ensures ParsedPath(u, path) != Err(BadScheme)
  {
    if path != "" {
      WhereEmpty(path);
      assert path[|path| - 1..] == [path[|path| - 1]];
    }
    NamedFaults(u, if path == "" then [] else SplitSlash(path));
  }

  lemma NamedFaults(u: Unicode, raw: seq<string>)
    ensures Named(u, raw) == Err(EmptyRawSegment) <==> "" in raw
    ensures Named(u, raw) != Err(TrailingSlash) && Named(u, raw) != Err(BadScheme)
  {
    SegmentFaults(raw);
  }

  lemma WhereEmpty(path: string)
    requires path != ""
    ensures "" in SplitSlash(path) <==> path[0] == '/' || Gapped(path)
  {
    EmptyPieces(path);
    var pieces := SplitSlash(path);
    assert pieces == [pieces[0]] + pieces[1..];
  }

  /** Faults of segments are told apart from faults of the text. */
  lemma {:induction false} SegmentFaults(raw: seq<string>)
    ensures DecodeAll(raw).Err? ==> DecodeAll(raw).error.BadSegment?
  {
    if raw != [] {
      SegmentFaults(raw[1..]);
    }
  }

  lemma {:induction false} SplitSlashPrefix(s: string, rest: string)
    requires forall i :: 0 <= i < |s| ==> s[i] != '/'
    ensures SplitSlash(s + "/" + rest) == [s] + SplitSlash(rest)
    ensures SplitSlash(s) == [s]
  {
    var text := s + "/" + rest;
    if s == "" {
      assert text[1..] == rest;
    } else {
      SplitSlashPrefix(s[1..], rest);
      assert text[1..] == s[1..] + "/" + rest;
      assert [s[0]] + s[1..] == s;
    }
  }

  predicate Plain(segment: string) {
    segment != "" && forall i :: 0 <= i < |segment| ==> segment[i] != '/'
  }

  function LastChar(s: string): char
    requires s != ""
  {
    s[|s| - 1]
  }

  /** Splitting a printed path recovers its segments. */
  lemma {:induction false} SplitUndoesJoin(raw: seq<string>)
    requires raw != [] && forall r :: r in raw ==> Plain(r)
    ensures SplitSlash(JoinSlash(raw)) == raw
  {
    assert raw[0] in raw && raw == [raw[0]] + raw[1..];
    if |raw| == 1 {
      SplitSlashPrefix(raw[0], "");
    } else {
      assert forall r :: r in raw[1..] ==> r in raw;
      SplitUndoesJoin(raw[1..]);
      SplitSlashPrefix(raw[0], JoinSlash(raw[1..]));
    }
  }

  lemma {:induction false} JoinEnds(raw: seq<string>)
    requires raw != [] && raw[|raw| - 1] != ""
    ensures JoinSlash(raw) != "" && LastChar(JoinSlash(raw)) == LastChar(raw[|raw| - 1])
  {
    if |raw| > 1 {
      JoinEnds(raw[1..]);
      assert JoinSlash(raw) == (raw[0] + "/") + JoinSlash(raw[1..]);
    }
  }

  lemma {:induction false} EncodedEach(segments: seq<string>)
    ensures |EncodeAll(segments)| == |segments|
    ensures forall i :: 0 <= i < |segments| ==> EncodeAll(segments)[i] == EncodeText(segments[i])
  {
    if segments != [] {
      EncodedEach(segments[1..]);
    }
  }

  lemma EncodedPlain(segments: seq<string>)
    requires "" !in segments
    ensures forall r :: r in EncodeAll(segments) ==> Plain(r)
    ensures "" !in EncodeAll(segments)
  {
    EncodedEach(segments);
    var raw := EncodeAll(segments);
    forall i | 0 <= i < |raw| ensures Plain(raw[i]) {
      assert segments[i] in segments;
      EncodedShape(segments[i]);
    }
  }

  lemma {:induction false} EncodedDecodes(segments: seq<string>)
    requires "" !in segments
    ensures DecodeAll(EncodeAll(segments)) == Ok(segments)
  {
    if segments != [] {
      var first, rest := segments[0], segments[1..];
      assert segments == [first] + rest;
      assert first in segments && forall r :: r in rest ==> r in segments;
      EncodedDecodes(rest);
      DecodeUndoesEncode(first);
      assert EncodeAll(segments)[1..] == EncodeAll(rest);
    }
  }

  /** A path whose last segment does not end in white space or a separator. */
  predicate PlainEnd(segments: seq<string>) {
    segments == [] ||
    var last := segments[|segments| - 1]; last != "" && !IsSpace(last[|last| - 1]) && last[|last| - 1] != '/'
  }

  lemma PathEnds(segments: seq<string>)
    requires segments != [] && PlainEnd(segments)
    ensures var path := JoinSlash(EncodeAll(segments));
            path != "" && !IsSpace(LastChar(path)) && LastChar(path) != '/'
  {
    EncodedEach(segments);
    EncodedShape(segments[|segments| - 1]);
    JoinEnds(EncodeAll(segments));
  }

  lemma WholeEnds(path: string)
    requires path == "" || (!IsSpace(LastChar(path)) && LastChar(path) != '/')
    ensures Stripped(PREFIX + path) && !EndsWith(path, "/") && (PREFIX + path)[|PREFIX|..] == path
  {
    var text := PREFIX + path;
    assert text[0] == 'b';
    assert path == "" ==> text[|text| - 1] == '/';
    assert path != "" ==> text[|text| - 1] == LastChar(path) && path[|path| - 1..] == [LastChar(path)];
  }

  lemma PrintedPath(segments: seq<string>)
    requires "" !in segments && PlainEnd(segments)
    ensures var path := JoinSlash(EncodeAll(segments));
      && Stripped(Print(segments)) && !EndsWith(path, "/") && Print(segments)[|PREFIX|..] == path
      && (if path == "" then [] else SplitSlash(path)) == EncodeAll(segments)
      && "" !in EncodeAll(segments)
  {
    EncodedPlain(segments);
    EncodedEach(segments);
    if segments != [] {
      PathEnds(segments);
      SplitUndoesJoin(EncodeAll(segments));
    }
    WholeEnds(JoinSlash(EncodeAll(segments)));
  }

  /** Parsing what was printed gives the node that the segments name. */
  lemma ParsingUndoesPrinting(u: Unicode, segments: seq<string>)
    requires "" !in segments && PlainEnd(segments)
    ensures var form, r := Classify(u, segments), Parsed(u, Print(segments));
      && (form.Err? ==> r == Err(form.error))
      && (form.Ok? && "" !in Canonical(form.value) ==>
           r == Ok(Uri(Print(Canonical(form.value)), Canonical(form.value), form.value)))
  {
    PrintedPath(segments);
    EncodedDecodes(segments);
  }

  // ---- Canonical form ----

  lemma DirectoryEnds(parts: seq<string>)
    requires IsDirectory(parts)
    ensures "" !in parts && PlainEnd(parts)
  {
    if parts != [] {
      var last := parts[|parts| - 1];
      assert |parts| <= 4;
      assert |parts| > 1 ==> last == parts[1..][|parts| - 2];
      assert forall i :: 0 < i < |parts| ==> parts[i] == parts[1..][i - 1];
      assert |parts| > 1 ==> IsDigit(last[|last| - 1]);
    }
  }

  lemma MarkdownEnds(front: seq<string>, filename: string)
    requires "" !in front && EndsWith(filename, ".md")
    ensures "" !in front + [filename] && PlainEnd(front + [filename])
  {
    assert filename[|filename| - 1] == filename[|filename| - 3..][2];
  }

  lemma DatePartsRead(d: Date)
    requires ValidDate(d)
    ensures DateOf(Digits(d.year, 4), Digits(d.month, 2), Digits(d.day, 2)) == Some(d)
  {
    SmallPowers();
    NumberOfDigits(d.year, 4);
    NumberOfDigits(d.month, 2);
    NumberOfDigits(d.day, 2);
  }

  /** The budget of a name is counted in bytes of UTF-8. */
  lemma {:induction false} BytesAreOfUtf8(s: string)
    ensures Utf8Bytes(s) == |Utf8Text(s)|
  {
    if s != "" {
      BytesAreOfUtf8(s[1..]);
    }
  }

  lemma FirstIsDot(s: string)
    ensures StartsWith(s, ".") <==> s != "" && s[0] == '.'
  {
    assert s != "" ==> s == [s[0]] + s[1..];
  }

  lemma StemOfName(identity: string)
    requires identity != "" && identity[0] != '.'
    ensures Stem(identity + ".md") == Some(identity)
  {
    var filename := identity + ".md";
    assert filename[0] != '.';
    assert filename[|identity|..] == ".md" && filename[..|identity|] == identity;
  }

  lemma StemOf(u: Unicode, a: Address)
    requires WellMade(u, a)
    ensures Stem(a.identityName + ".md") == Some(a.identityName)
  {
    var canonical := u.fold(a.name);
    assert a.identityName == canonical + (SEPARATOR + Format(a.startedAt));
    FirstIsDot(canonical);
    StemOfName(a.identityName);
  }

  lemma AddressOfParts(u: Unicode, segments: seq<string>, kind: Kind, date: Date, identity: string)
    requires |segments| == 5 && KindOf(segments) == Some(kind)
    requires DateOf(segments[1], segments[2], segments[3]) == Some(date) && Stem(segments[4]) == Some(identity)
    ensures AddressOf(u, segments) == FromIdentity(u, kind, date, identity)
  {
  }

  lemma KindOfSegment(kind: Kind, segments: seq<string>)
    requires segments != [] && segments[0] == KindSegment(kind)
    ensures KindOf(segments) == Some(kind)
  {
    assert "gaps"[0] != "occurrences"[0];
  }

  lemma DocumentIsFound(u: Unicode, a: Address)
    requires Lawful(u) && WellMade(u, a)
    ensures AddressOf(u, AddressSegments(a)) == Some(a.(name := u.fold(a.name)))
  {
    DatePartsRead(a.occurredOn);
    StemOf(u, a);
    KindOfSegment(a.kind, AddressSegments(a));
    AddressOfParts(u, AddressSegments(a), a.kind, a.occurredOn, a.identityName);
    AddressFromItsIdentity(u, a);
  }

  lemma DocumentEnds(a: Address)
    ensures "" !in AddressSegments(a) && PlainEnd(AddressSegments(a))
  {
    var front, file := AddressSegments(a)[..4], a.identityName + ".md";
    assert file[|a.identityName|..] == ".md";
    assert forall s :: s in front ==> s != "";
    MarkdownEnds(front, file);
    assert AddressSegments(a) == front + [file];
  }

  /** The path of an address is a document, and reading it gives the same address in canonical form. */
  lemma DocumentPath(u: Unicode, a: Address)
    requires Lawful(u) && WellMade(u, a)
    ensures Classify(u, AddressSegments(a)) == Ok(Document(a.(name := u.fold(a.name))))
    ensures "" !in AddressSegments(a) && PlainEnd(AddressSegments(a))
  {
    DocumentIsFound(u, a);
    FormsExcludeEachOther(u, AddressSegments(a));
    DocumentEnds(a);
  }

  lemma FoundAddressIsWellMade(u: Unicode, segments: seq<string>)
    requires AddressOf(u, segments).Some?
    ensures WellMade(u, AddressOf(u, segments).value)
  {
  }

  lemma LayerIsFixed(u: Unicode, parts: seq<string>, level: Level)
    requires IsDirectory(parts)
    ensures var segments := parts + [SidecarName(level)];
      "" !in segments && PlainEnd(segments) && Classify(u, segments) == Ok(Layer(parts, level))
  {
    var segments := parts + [SidecarName(level)];
    DirectoryEnds(parts);
    MarkdownEnds(parts, SidecarName(level));
    FormsExcludeEachOther(u, segments);
    assert segments[|segments| - 1] == SidecarName(level) && segments[..|segments| - 1] == parts;
  }

  /** The canonical segments of a node are segments, and name a node with those canonical segments. */
  lemma CanonicalIsFixed(u: Unicode, segments: seq<string>)
    requires Lawful(u) && Classify(u, segments).Ok?
    ensures var canonical := Canonical(Classify(u, segments).value);
      && "" !in canonical && PlainEnd(canonical)
      && Classify(u, canonical).Ok? && Canonical(Classify(u, canonical).value) == canonical
  {
    FormsExcludeEachOther(u, segments);
    match Classify(u, segments).value
    case Registry => MarkdownEnds([], REGISTRY_FILE);
    case Directory(parts) => DirectoryEnds(parts);
    case Layer(parts, level) => LayerIsFixed(u, parts, level);
    case Document(address) =>
      FoundAddressIsWellMade(u, segments);
      DocumentPath(u, address);
  }

  /** Normalising twice is normalising once. */
  lemma NormalizingIsIdempotent(u: Unicode, text: string)
    requires Lawful(u) && Normalized(u, text).Ok?
    ensures Normalized(u, Normalized(u, text).value) == Normalized(u, text)
  {
    var path := text[|PREFIX|..];
    var raw := if path == "" then [] else SplitSlash(path);
    var segments := DecodeAll(raw).value;
    CanonicalIsFixed(u, segments);
    ParsingUndoesPrinting(u, Canonical(Classify(u, segments).value));
  }

  lemma AddressUri(u: Unicode, a: Address)
    requires Lawful(u) && WellMade(u, a)
    ensures var segments := AddressSegments(a);
            FromAddress(u, a) == Ok(Uri(Print(segments), segments, Document(a.(name := u.fold(a.name)))))
  {
    DocumentPath(u, a);
    PathUri(u, AddressSegments(a), Document(a.(name := u.fold(a.name))));
  }

  /** A path that is canonical already is that of its node's URI. */
  lemma PathUri(u: Unicode, segments: seq<string>, form: Form)
    requires "" !in segments && PlainEnd(segments)
    requires Classify(u, segments) == Ok(form) && Canonical(form) == segments
    ensures FromSegments(u, segments) == Ok(Uri(Print(segments), segments, form))
  {
    ParsingUndoesPrinting(u, segments);
  }

  /** The URI of an address leads back to that address. */
  lemma AddressRoundTrip(u: Unicode, a: Address)
    requires Lawful(u) && WellMade(u, a)
    ensures var uri := FromAddress(u, a);
      && uri.Ok? && ToAddress(uri.value).Ok?
      && SameAddress(ToAddress(uri.value).value, a)
      && ToAddress(uri.value).value.startedAt == a.startedAt
      && uri.value.segments == AddressSegments(a)
  {
    AddressUri(u, a);
  }

  lemma AddressText(u: Unicode, a: Address)
    requires Lawful(u) && WellMade(u, a)
    ensures FromAddress(u, a).Ok? && FromAddress(u, a).value.text == Print(AddressSegments(a))
    ensures "" !in AddressSegments(a) && PlainEnd(AddressSegments(a)) && ValidDate(a.occurredOn)
  {
    AddressUri(u, a);
    DocumentPath(u, a);
  }

  /** The date in a document's path is the date its name ends with, and the file name is neither hidden nor one of the
      layer files. */
  lemma PathDateIsTheTimestamps(u: Unicode, a: Address)
    requires WellMade(u, a)
    ensures a.startedAt.offset.Some? && |Format(a.startedAt)| == 26
    ensures var segments := AddressSegments(a);
      && segments[1] + segments[2] + segments[3] == Format(a.startedAt)[..8]
      && EndsWith(segments[4], Format(a.startedAt) + ".md")
      && segments[4][0] != '.'
  {
    StartsVisibly(u, a);
    ParseOfFormat(a.startedAt);
    FormatBeginsWithDate(a.startedAt);
    DateOfPath(a);
    FileNameEnds(u.fold(a.name), Format(a.startedAt), a.identityName);
  }

  lemma DateOfPath(a: Address)
    ensures var segments := AddressSegments(a);
      segments[1] + segments[2] + segments[3] == DateText(a.occurredOn) && segments[4] == a.identityName + ".md"
  {
  }

  lemma StartsVisibly(u: Unicode, a: Address)
    requires WellMade(u, a)
    ensures u.fold(a.name) != "" && u.fold(a.name)[0] != '.' && a.occurredOn == a.startedAt.date && ValidStamp(a.startedAt)
    ensures LocalTimestamp(a.startedAt).Ok? && a.startedAt.offset.Some? && WholeMinutes(a.startedAt)
    ensures a.identityName == u.fold(a.name) + SEPARATOR + Format(a.startedAt)
  {
    FirstIsDot(u.fold(a.name));
    LocalIsWhole(a.startedAt);
  }

  lemma FileNameEnds(name: string, stamp: string, identity: string)
    requires identity == name + SEPARATOR + stamp && name != ""
    ensures EndsWith(identity + ".md", stamp + ".md") && (identity + ".md")[0] == name[0]
  {
    assert identity + ".md" == (name + SEPARATOR) + (stamp + ".md");
  }

  /** A dated branch is a directory exactly when a document could lie under it: some month of the year, some day of the
      month, and in the end a day there is. */
  lemma DatedDirectories(parts: seq<string>)
    requires 1 <= |parts| <= 4
    ensures |parts| == 1 ==> (IsDirectory(parts) <==> KindOf(parts).Some?)
    ensures |parts| == 4 ==> (IsDirectory(parts) <==> KindOf(parts).Some? && DateOf(parts[1], parts[2], parts[3]).Some?)
    ensures |parts| < 4 ==> (IsDirectory(parts) <==> exists next :: IsDirectory(parts + [next]))
  {
    if |parts| < 4 {
      if IsDirectory(parts) {
        var next := BranchGrows(parts[1..]);
        assert (parts + [next])[1..] == parts[1..] + [next];
        assert IsDirectory(parts + [next]);
      }
      if next :| IsDirectory(parts + [next]) {
        assert (parts + [next])[1..] == parts[1..] + [next];
        BranchShrinks(parts[1..], next);
      }
    }
  }

  lemma BranchGrows(values: seq<string>) returns (next: string)
    requires |values| < 3 && DatedBranch(values)
    ensures DatedBranch(values + [next])
  {
    SmallPowers();
    if values == [] {
      next := Digits(2000, 4);
      NumberOfDigits(2000, 4);
    } else {
      next := Digits(1, 2);
      NumberOfDigits(1, 2);
    }
  }

  lemma BranchShrinks(values: seq<string>, next: string)
    requires DatedBranch(values + [next])
    ensures DatedBranch(values)
  {
    assert forall i :: 0 <= i < |values| ==> (values + [next])[i] == values[i];
  }

  /** Every document lies in the directory of a day there is. */
  lemma DocumentsLieInDirectories(u: Unicode, segments: seq<string>)
    requires IsDocument(u, segments)
    ensures |segments| == 5 && IsDirectory(segments[..4])
  {
    DatedDirectories(segments[..4]);
  }

  /** Two addresses share a URI exactly when they are the same address. */
  lemma UriIdentifiesAddress(u: Unicode, a: Address, b: Address)
    requires Lawful(u) && WellMade(u, a) && WellMade(u, b)
    ensures FromAddress(u, a).Ok? && FromAddress(u, b).Ok?
    ensures FromAddress(u, a).value.text == FromAddress(u, b).value.text <==> SameAddress(a, b)
  {
    AddressText(u, a);
    AddressText(u, b);
    SegmentsIdentify(a, b);
    if Print(AddressSegments(a)) == Print(AddressSegments(b)) {
      PrintIsInjective(AddressSegments(a), AddressSegments(b));
    }
  }

  /** Paths that print alike are alike. */
  lemma PrintIsInjective(segments: seq<string>, others: seq<string>)
    requires "" !in segments && PlainEnd(segments) && "" !in others && PlainEnd(others)
    requires Print(segments) == Print(others)
    ensures segments == others
  {
    PrintedPath(segments);
    PrintedPath(others);
    EncodedDecodes(segments);
    EncodedDecodes(others);
  }

  lemma SegmentsIdentify(a: Address, b: Address)
    requires ValidDate(a.occurredOn) && ValidDate(b.occurredOn)
    ensures AddressSegments(a) == AddressSegments(b) <==> SameAddress(a, b)
  {
    if AddressSegments(a) == AddressSegments(b) {
      var s, t := AddressSegments(a), AddressSegments(b);
      assert s[0] == t[0] && s[1] == t[1] && s[2] == t[2] && s[3] == t[3] && s[4] == t[4];
      DatePartsRead(a.occurredOn);
      DatePartsRead(b.occurredOn);
      assert s[4][..|s[4]| - 3] == a.identityName && t[4][..|t[4]| - 3] == b.identityName;
    }
  }
}
