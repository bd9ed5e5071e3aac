// Query strings: the program's parser, and the encodings of section 2.1 of RFC 3986 that it reads.

module UrlQuery {
  import opened Hex
  import opened Pairs
  import opened Text
  import opened Wrappers

  // --- Decoding ---

  predicate IsSpace(c: char) {
    c == ' ' || 9 <= c as int <= 13
  }

  // What strtol reads from two characters in base 16: white space and a sign may come first,
  // and reading stops at the first character that is no digit.
  function ReadTwo(a: char, b: char): int {
    match (DigitValue(a), DigitValue(b))
    case (Some(high), Some(low)) => 16 * (high as int) + low
    case (Some(high), None) => high
    case (None, Some(low)) => if IsSpace(a) || a == '+' then low else if a == '-' then 0 - low as int else 0
    case (None, None) => 0
  }

  function HexChar(a: char, b: char): char {
    (ReadTwo(a, b) % 256) as char
  }

  function Decoded(s: string): string {
    if |s| == 0 then ""
    else if s[0] == '%' && |s| > 2 then [HexChar(s[1], s[2])] + Decoded(s[3..])
    else [if s[0] == '+' then ' ' else s[0]] + Decoded(s[1..])
  }

  method UrlDecode(encoded: string) returns (decoded: string)
    ensures decoded == Decoded(encoded)
  {
    decoded := "";
    var i := 0;
    while i < |encoded|
      invariant i <= |encoded| && Decoded(encoded) == decoded + Decoded(encoded[i..])
    {
      NextDecoded(decoded, encoded, i);
      if encoded[i] == '%' && i + 2 < |encoded| {
        decoded := decoded + [HexChar(encoded[i + 1], encoded[i + 2])];
        i := i + 2;
      } else if encoded[i] == '+' {
        decoded := decoded + [' '];
      } else {
        decoded := decoded + [encoded[i]];
      }
      i := i + 1;
    }
  }

  lemma NextDecoded(decoded: string, s: string, i: nat)
    requires i < |s|
    ensures decoded + Decoded(s[i..]) ==
            if s[i] == '%' && i + 2 < |s| then decoded + [HexChar(s[i + 1], s[i + 2])] + Decoded(s[i + 3..])
            else decoded + [if s[i] == '+' then ' ' else s[i]] + Decoded(s[i + 1..])
  {
    DecodedAt(s, i);
    if s[i] == '%' && i + 2 < |s| {
      Concat(decoded, [HexChar(s[i + 1], s[i + 2])], Decoded(s[i + 3..]));
    } else {
      Concat(decoded, [if s[i] == '+' then ' ' else s[i]], Decoded(s[i + 1..]));
    }
  }

  lemma DecodedAt(s: string, i: nat)
    requires i < |s|
    ensures Decoded(s[i..]) ==
            if s[i] == '%' && i + 2 < |s| then [HexChar(s[i + 1], s[i + 2])] + Decoded(s[i + 3..])
            else [if s[i] == '+' then ' ' else s[i]] + Decoded(s[i + 1..])
  {
    var rest := s[i..];
    assert rest[1..] == s[i + 1..];
    if |rest| > 2 {
      assert rest[3..] == s[i + 3..];
    }
  }

  // --- The items of a query ---

  // The segments between ampersands; an empty one at the end is not looked at.
  function Segments(query: string): seq<string> {
    var segments := Split(query, '&');
    if |segments[|segments| - 1]| == 0 then segments[..|segments| - 1] else segments
  }

  // A segment is split at its first equals sign and then decoded.
  function Item(segment: string): Pair {
    match Find(segment, "=", 0)
    case Some(i) => Pair(Decoded(segment[..i]), Decoded(segment[i + 1..]))
    case None => Pair(Decoded(segment), "")
  }

  function Items(segments: seq<string>): seq<Pair> {
    seq(|segments|, i requires 0 <= i < |segments| => Item(segments[i]))
  }

  function SegmentsFrom(query: string, start: nat): seq<string> {
    if start >= |query| then [] else Segments(query[start..])
  }

  lemma NextSegment(query: string, start: nat, end: nat)
    requires start <= end <= |query| && start < |query|
    requires '&' !in query[start..end] && (end < |query| ==> query[end] == '&')
    ensures SegmentsFrom(query, start) == [query[start..end]] + SegmentsFrom(query, end + 1)
  {
    var here := query[start..end];
    SplitPlain(here, '&');
    if end == |query| {
      assert query[start..] == here;
    } else {
      var rest := query[end + 1..];
      assert query[start..] == here + "&" + rest;
      SplitConcat(here, rest, '&');
      LastOfConcat([here], Split(rest, '&'));
      if |rest| == 0 {
        assert Split(rest, '&') == [""];
      }
    }
  }

  lemma LastOfConcat(a: seq<string>, b: seq<string>)
    requires |b| > 0
    ensures (a + b)[|a + b| - 1] == b[|b| - 1] && (a + b)[..|a + b| - 1] == a + b[..|b| - 1]
  {
  }

  lemma ItemsOfNext(segment: string, rest: seq<string>)
    ensures Items([segment] + rest) == [Item(segment)] + Items(rest)
  {
  }

  // The item of the segment between two positions.
  method ReadItem(query: string, start: nat, end: nat) returns (item: Pair)
    requires start <= end <= |query|
    ensures item == Item(query[start..end])
  {
    var equals := Find(query, "=", start);
    FindInSlice(query, "=", start, end);
    var key, value := query[start..end], "";
    if equals.Some? && equals.value < end {
      assert key[..equals.value - start] == query[start..equals.value];
      assert key[equals.value - start + 1..] == query[equals.value + 1..end];
      key, value := query[start..equals.value], query[equals.value + 1..end];
    }
    key := UrlDecode(key);
    value := UrlDecode(value);
    item := Pair(key, value);
  }

  // The place of the next ampersand, or the end.
  method SegmentEnd(query: string, start: nat) returns (end: nat)
    requires start < |query|
    ensures start <= end <= |query|
    ensures '&' !in query[start..end] && (end < |query| ==> query[end] == '&')
  {
    var r := Find(query, "&", start);
    FindIsFirst(query, "&", start);
    end := if r.Some? then r.value else |query|;
    forall i | start <= i < end ensures query[i] != '&' {
      AtOne(query, '&', i);
    }
    if r.Some? {
      AtOne(query, '&', end);
    }
  }

  // --- Percent-encoding ---

  // A text is an encoding of s when every character stands for itself, or is escaped by its
  // number in hexadecimal of either case, or is a space written as a plus sign.
  predicate Encodes(text: string, s: string) {
    if |s| == 0 then |text| == 0
    else if |text| == 0 then false
    else if text[0] == '%' then |text| > 2 && Escapes(text[1], text[2], s[0]) && Encodes(text[3..], s[1..])
    else if text[0] == '+' then s[0] == ' ' && Encodes(text[1..], s[1..])
    else text[0] == s[0] && IsPlain(text[0]) && Encodes(text[1..], s[1..])
  }

  predicate IsPlain(c: char) {
    c != '&' && c != '=' && c != '%' && c != '+'
  }

  predicate Escapes(a: char, b: char, c: char) {
    match (DigitValue(a), DigitValue(b))
    case (Some(high), Some(low)) => 16 * (high as int) + low == c as int
    case _ => false
  }

  lemma {:induction false} DecodeEncoded(text: string, s: string)
    requires Encodes(text, s)
    ensures Decoded(text) == s
  {
    if |s| > 0 {
      var n := if text[0] == '%' then 3 else 1;
      DecodeEncoded(text[n..], s[1..]);
      assert s == [s[0]] + s[1..];
    }
  }

  lemma {:induction false} EncodedIsPlain(text: string, s: string)
    requires Encodes(text, s)
    ensures '&' !in text && '=' !in text
  {
    if |s| > 0 {
      var n := if text[0] == '%' then 3 else 1;
      EncodedIsPlain(text[n..], s[1..]);
      assert text == text[..n] + text[n..];
      assert forall c :: c in text[..n] ==> c != '&' && c != '=';
    }
  }

  // The encoding that escapes all but the unreserved characters.
  predicate IsUnreserved(c: char) {
    'a' <= c <= 'z' || 'A' <= c <= 'Z' || '0' <= c <= '9' || c == '-' || c == '.' || c == '_' || c == '~'
  }

  function PercentEncoded(s: string): string
    requires IsBytes(s)
  {
    if |s| == 0 then ""
    else if IsUnreserved(s[0]) then [s[0]] + PercentEncoded(s[1..])
    else ['%', Digit(s[0] as int / 16), Digit(s[0] as int % 16)] + PercentEncoded(s[1..])
  }

  predicate IsBytes(s: string) {
    forall i :: 0 <= i < |s| ==> s[i] as int < 256
  }

  lemma {:induction false} PercentEncodes(s: string)
    requires IsBytes(s)
    ensures Encodes(PercentEncoded(s), s)
  {
    if |s| > 0 {
      PercentEncodes(s[1..]);
      var text, rest := PercentEncoded(s), PercentEncoded(s[1..]);
      if IsUnreserved(s[0]) {
        assert text[1..] == rest;
      } else {
        DigitRoundTrip(s[0] as int / 16);
        DigitRoundTrip(s[0] as int % 16);
        assert text[3..] == rest;
      }
    }
  }

  // --- Escapes of either case, and escapes that are none ---

  lemma EscapeInCapitals(a: char, b: char)
    ensures HexChar(Small(a), Small(b)) == HexChar(a, b)
  {
    DigitTable(a);
    DigitTable(b);
  }

  // The text with its escapes in small letters.
  function SmallEscapes(s: string): (t: string)
    ensures |t| == |s|
  {
    if |s| == 0 then ""
    else if s[0] == '%' && |s| > 2 then ['%', Small(s[1]), Small(s[2])] + SmallEscapes(s[3..])
    else [s[0]] + SmallEscapes(s[1..])
  }

  // Every text, well formed or not, is decoded as with its escapes in small letters.
  lemma {:induction false} CapitalsDecoded(s: string)
    ensures Decoded(SmallEscapes(s)) == Decoded(s)
  {
    if |s| > 0 {
      var t := SmallEscapes(s);
      if s[0] == '%' && |s| > 2 {
        EscapeInCapitals(s[1], s[2]);
        CapitalsDecoded(s[3..]);
        assert t[3..] == SmallEscapes(s[3..]);
      } else {
        CapitalsDecoded(s[1..]);
        assert t[1..] == SmallEscapes(s[1..]);
      }
    }
  }

  // What escapes without two digits are read as: one digit alone, a zero character, or one digit
  // behind a blank or a sign; a percent sign with less than two characters behind it stays.
  lemma MalformedEscapes(a: char, b: char)
    ensures DigitValue(a).Some? && DigitValue(b).None? ==> HexChar(a, b) == DigitValue(a).value as char
    ensures DigitValue(a).None? && DigitValue(b).None? ==> HexChar(a, b) == '\0'
    ensures DigitValue(b).Some? && a in {' ', '\t', '\n', '\r', '+'} ==> HexChar(a, b) == DigitValue(b).value as char
    ensures DigitValue(b).Some? && DigitValue(b).value > 0 ==> HexChar('-', b) == (256 - DigitValue(b).value) as char
    ensures DigitValue(b).Some? && DigitValue(a).None? && !IsSpace(a) && a != '+' && a != '-' ==> HexChar(a, b) == '\0'
    ensures Decoded("%") == "%" && (a != '+' ==> Decoded(['%', a]) == ['%', a])
  {
    assert "%"[1..] == "" && ['%', a][1..] == [a] && [a][1..] == "";
  }

  // --- Queries made of encoded pairs ---

  // Two texts for each pair: its encoded name and its encoded value.
  predicate EncodesPair(text: Pair, pair: Pair) {
    Encodes(text.name, pair.name) && Encodes(text.value, pair.value)
  }

  function ItemText(text: Pair): string {
    text.name + "=" + text.value
  }

  function ItemTexts(texts: seq<Pair>): seq<string> {
    seq(|texts|, i requires 0 <= i < |texts| => ItemText(texts[i]))
  }

  function QueryText(texts: seq<Pair>): string {
    if |texts| == 0 then "" else Join(ItemTexts(texts), '&')
  }

  // The parser turns such a query, however its characters are encoded, into the pairs themselves.
  lemma QueryRoundTrip(texts: seq<Pair>, pairs: seq<Pair>)
    requires |texts| == |pairs| && forall i :: 0 <= i < |pairs| ==> EncodesPair(texts[i], pairs[i])
    ensures Items(SegmentsFrom(QueryText(texts), 0)) == pairs
  {
    if |texts| > 0 {
      var pieces := ItemTexts(texts);
      forall i | 0 <= i < |texts| ensures IsSegment(pieces[i]) && Item(pieces[i]) == pairs[i] {
        ItemRoundTrip(texts[i], pairs[i]);
      }
      SegmentsJoined(pieces);
    }
  }

  // A name without an equals sign has an empty value.
  lemma NameAlone(text: string, name: string)
    requires Encodes(text, name)
    ensures Item(text) == Pair(name, "")
  {
    EncodedIsPlain(text, name);
    DecodeEncoded(text, name);
    assert text[0..] == text;
    FindAbsent(text, 0, "=");
  }

  predicate IsSegment(piece: string) {
    '&' !in piece && |piece| > 0
  }

  lemma SegmentsJoined(pieces: seq<string>)
    requires |pieces| > 0 && forall i :: 0 <= i < |pieces| ==> IsSegment(pieces[i])
    ensures SegmentsFrom(Join(pieces, '&'), 0) == pieces
  {
    var query := Join(pieces, '&');
    assert |query| >= |pieces[0]|;
    assert query[0..] == query;
    SplitJoin(pieces, '&');
    assert IsSegment(pieces[|pieces| - 1]);
  }

  lemma ItemRoundTrip(text: Pair, pair: Pair)
    requires EncodesPair(text, pair)
    ensures Item(ItemText(text)) == pair
    ensures IsSegment(ItemText(text))
  {
    EncodedIsPlain(text.name, pair.name);
    EncodedIsPlain(text.value, pair.value);
    DecodeEncoded(text.name, pair.name);
    DecodeEncoded(text.value, pair.value);
    var item := ItemText(text);
    assert item[0..] == text.name + "=" + text.value;
    FindAfter(item, 0, text.name, "=", text.value);
    Pieces(item, 0, text.name, "=", text.value);
  }
}
