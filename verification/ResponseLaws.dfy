// What the client recovers from the responses that the server builds.

module ResponseLaws {
  import opened Bytes
  import opened Decimal
  import opened HeaderText
  import opened Pairs
  import opened RequestText
  import opened ResponseText
  import opened StatusLaws
  import opened Text
  import opened Wrappers
  import Chunked
  import SortedMap

  // --- Trimming ---

  lemma {:induction false} TrimLeftAppend(s: string, c: char)
    requires IsBlankChar(c)
    ensures TrimLeft(s + [c]) == if |TrimLeft(s)| == 0 then "" else TrimLeft(s) + [c]
  {
    if |s| > 0 && IsBlankChar(s[0]) {
      TrimLeftAppend(s[1..], c);
      TailOfConcat(s, [c]);
    } else if |s| == 0 {
      assert s + [c] == [c];
      assert TrimLeft([c]) == TrimLeft([c][1..]);
    }
  }

  lemma TrimPadded(s: string, c: char)
    requires IsBlankChar(c)
    ensures Trim([c] + s) == Trim(s) && Trim(s + [c]) == Trim(s)
  {
    assert ([c] + s)[1..] == s;
    TrimLeftAppend(s, c);
    var left := TrimLeft(s);
    assert (left + [c])[..|left|] == left;
  }

  // What is trimmed is blanks at both ends, and all of them.
  lemma TrimExactly(s: string) returns (left: string, right: string)
    ensures s == left + Trim(s) + right
    ensures forall c :: c in left || c in right ==> c in {' ', '\t', '\r', '\n'}
    ensures Trim(s) != "" ==>
              Trim(s)[0] !in {' ', '\t', '\r', '\n'} && Trim(s)[|Trim(s)| - 1] !in {' ', '\t', '\r', '\n'}
  {
    left := LeftTrimmed(s);
    right := RightTrimmed(TrimLeft(s));
    Concat(left, Trim(s), right);
  }

  lemma {:induction false} LeftTrimmed(s: string) returns (left: string)
    ensures s == left + TrimLeft(s) && forall c :: c in left ==> c in {' ', '\t', '\r', '\n'}
    ensures TrimLeft(s) != "" ==> TrimLeft(s)[0] !in {' ', '\t', '\r', '\n'}
  {
    left := "";
    if |s| > 0 && IsBlankChar(s[0]) {
      var rest := LeftTrimmed(s[1..]);
      left := [s[0]] + rest;
    }
  }

  lemma {:induction false} RightTrimmed(s: string) returns (right: string)
    ensures s == TrimRight(s) + right && forall c :: c in right ==> c in {' ', '\t', '\r', '\n'}
    ensures TrimRight(s) != "" ==>
              TrimRight(s)[0] == s[0] && TrimRight(s)[|TrimRight(s)| - 1] !in {' ', '\t', '\r', '\n'}
    decreases |s|
  {
    right := "";
    if |s| > 0 && IsBlankChar(s[|s| - 1]) {
      var rest := RightTrimmed(s[..|s| - 1]);
      right := rest + [s[|s| - 1]];
    }
  }

  // --- The lines ---

  predicate IsField(h: Pair) {
    ':' !in h.name && '\r' !in h.name && '\n' !in h.name && '\r' !in h.value && '\n' !in h.value
  }

  predicate AreFields(headers: seq<Pair>) {
    forall i :: 0 <= i < |headers| ==> IsField(headers[i])
  }

  function Trimmed(headers: seq<Pair>): seq<Pair> {
    seq(|headers|, i requires 0 <= i < |headers| => Pair(Trim(headers[i].name), Trim(headers[i].value)))
  }

  // A header line is read with its name and value trimmed, with or without a carriage return.
  lemma HeaderLineTrimmed(h: Pair, end: string)
    requires IsField(h) && (end == "" || end == "\r")
    ensures LineHeader(HeaderLine(h) + end) == Some(Pair(Trim(h.name), Trim(h.value)))
  {
    var line, after := HeaderLine(h) + end, " " + (h.value + end);
    assert line[0..] == h.name + ":" + after;
    FindAfter(line, 0, h.name, ":", after);
    Pieces(line, 0, h.name, ":", after);
    TrimPadded(h.value + end, ' ');
    if end == "\r" {
      TrimPadded(h.value, '\r');
    } else {
      assert h.value + end == h.value;
    }
  }

  lemma HeaderLineIsOneLine(h: Pair)
    requires IsField(h)
    ensures '\n' !in HeaderLine(h) && |HeaderLine(h)| > 0
  {
  }

  // The lines of the text up to the blank line: all but the last keep their carriage return.
  lemma {:induction false} SectionLines(first: string, headers: seq<Pair>)
    requires '\n' !in first && AreFields(headers)
    ensures Split(Section(first, headers), '\n') ==
            if |headers| == 0 then [first]
            else [first + "\r"] + Split(Section(HeaderLine(headers[0]), headers[1..]), '\n')
    decreases |headers|
  {
    if |headers| == 0 {
      SplitPlain(first, '\n');
    } else {
      var rest := Section(HeaderLine(headers[0]), headers[1..]);
      var line := first + "\r";
      assert first + CRLF + rest == line + "\n" + rest;
      SplitPlain(line, '\n');
      SplitConcat(line, rest, '\n');
    }
  }

  // All header lines are read in order, after a first line that begins the section.
  lemma {:induction false} SectionRead(first: string, headers: seq<Pair>, read: seq<Pair>)
    requires '\n' !in first && |first| > 0 && AreFields(headers)
    requires forall end :: end == "" || end == "\r" ==> FirstRead(first + end, read)
    ensures LinesHeaders(Split(Section(first, headers), '\n')) == read + Trimmed(headers)
    decreases |headers|
  {
    SectionLines(first, headers);
    if |headers| == 0 {
      assert FirstRead(first + "", read);
      assert first + "" == first;
      assert [first][1..] == [];
    } else {
      assert FirstRead(first + "\r", read);
      var h, tail := headers[0], headers[1..];
      var one := [Pair(Trim(h.name), Trim(h.value))];
      HeaderLineIsOneLine(h);
      forall end | end == "" || end == "\r" ensures FirstRead(HeaderLine(h) + end, one) {
        HeaderLineTrimmed(h, end);
      }
      SectionRead(HeaderLine(h), tail, one);
      FirstLineRead(first + "\r", Split(Section(HeaderLine(h), tail), '\n'), read);
      assert Trimmed(headers) == one + Trimmed(tail);
    }
  }

  predicate FirstRead(line: string, read: seq<Pair>) {
    read == match LineHeader(line) case None => [] case Some(h) => [h]
  }

  lemma FirstLineRead(line: string, rest: seq<string>, read: seq<Pair>)
    requires |line| > 0 && FirstRead(line, read)
    ensures LinesHeaders([line] + rest) == read + LinesHeaders(rest)
  {
    assert ([line] + rest)[1..] == rest;
  }

  // A line without a colon gives no header.
  lemma PlainLineRead(line: string, end: string)
    requires IsOneLine(line) && (end == "" || end == "\r")
    ensures FirstRead(line + end, [])
  {
    FindAbsent(line + end, 0, ":");
  }

  // --- The whole response ---

  predicate HasFields(h: Headers) {
    forall k :: k in h ==> IsField(Pair(k, h[k]))
  }

  predicate IsTrimmed(h: Headers) {
    forall k :: k in h ==> Trim(k) == k && Trim(h[k]) == h[k]
  }

  lemma EntriesAreFields(h: Headers)
    requires HasFields(h)
    ensures AreFields(SortedMap.Entries(h))
    ensures IsTrimmed(h) ==> Trimmed(SortedMap.Entries(h)) == SortedMap.Entries(h)
  {
    var s := SortedMap.Entries(h);
    SortedMap.SortedAscends(h, h.Keys);
    assert forall i :: 0 <= i < |s| ==> SortedMap.IsEntry(h, h.Keys, s[i]);
  }

  lemma FieldsAreHeaders(headers: seq<Pair>)
    requires AreFields(headers)
    ensures AreHeaders(headers)
  {
    assert forall i :: 0 <= i < |headers| ==> IsField(headers[i]);
  }

  // Every built response with one-line headers is read: its blank line is found, the names and
  // values come back trimmed, and the rest is the body.
  lemma BuiltRead(s: Status, h: Headers, content: string)
    requires HasFields(h)
    ensures var raw := BuiltText(s, h, content);
            var end := Find(raw, BLANK, 0);
            && end.Some?
            && SectionHeaders(raw[..end.value]) == Store(INITIAL_HEADERS, Trimmed(SortedMap.Entries(h)))
            && raw[end.value + 4..] == content
  {
    var first, entries := StatusLine(s), SortedMap.Entries(h);
    EntriesAreFields(h);
    FieldsAreHeaders(entries);
    StatusLineIsOneLine(s);
    FirstLineEnds(first, entries, content);
    HeadersAndBodyRead(first, entries, content);
    SectionCut(first, entries, content);
    forall end | end == "" || end == "\r" ensures FirstRead(first + end, []) {
      PlainLineRead(first, end);
    }
    SectionRead(first, entries, []);
    assert [] + Trimmed(entries) == Trimmed(entries);
  }

  lemma FirstLineEnds(first: string, headers: seq<Pair>, body: string)
    requires '\r' !in first
    ensures Find(Printed(first, headers, body), CRLF, 0) == Some(|first|)
  {
    var raw, rest := Printed(first, headers, body), PrintedHeaders(headers) + CRLF + body;
    assert raw[0..] == first + CRLF + rest;
    FindAfter(raw, 0, first, CRLF, rest);
  }

  lemma SectionCut(first: string, headers: seq<Pair>, body: string)
    ensures var raw, section := Printed(first, headers, body), Section(first, headers);
            |raw| >= |section| + 4 && raw[..|section|] == section && raw[|section| + 4..] == body
  {
    SectionPrinted(first, headers);
    Regroup(first, PrintedHeaders(headers), Section(first, headers), body);
  }

  // The status that is read of a built response.
  ghost function ReadStatus(s: Status, h: Headers, content: string): Option<Status> {
    match Find(Rest(h, content), HTTP_1_1, 0)
    case None => Some(Shown(s))
    case Some(i) => StatusBehind(Rest(h, content), i)
  }

  // Without a Connection header the client adds the one of a connection that is kept.
  lemma ConnectionIsKept(s: Status, h: Headers, content: string)
    requires HasFields(h) && IsTrimmed(h) && "Connection" !in h
    ensures var raw := BuiltText(s, h, content);
            var end := Find(raw, BLANK, 0);
            end.Some? && SectionHeaders(raw[..end.value]) == h["Connection" := "keep-alive"]
  {
    BuiltRead(s, h, content);
    EntriesAreFields(h);
    SortedMap.StoreOver(h, INITIAL_HEADERS);
  }

  // Headers and content come back exactly, with the status that is read; a body that the headers
  // call chunked is decoded.
  lemma BuiltParsed(s: Status, h: Headers, content: string)
    requires HasFields(h) && IsTrimmed(h) && "Connection" in h
    ensures ParsedResponse(BuiltText(s, h, content)) ==
            match ReadStatus(s, h, content)
            case None => Failed(BadStatus)
            case Some(status) => ParsedBody(status, h, content)
  {
    BuiltRead(s, h, content);
    EntriesAreFields(h);
    SortedMap.StoreEntries(h, INITIAL_HEADERS);
    BuiltTextRest(s, h, content);
    StatusOf(s, Rest(h, content));
  }

  lemma BuiltRoundTrip(s: Status, h: Headers, content: string)
    requires HasFields(h) && IsTrimmed(h) && "Connection" in h
    requires Find(Rest(h, content), HTTP_1_1, 0).None?
    ensures ParsedResponse(BuiltText(s, h, content)) == ParsedBody(Shown(s), h, content)
  {
    BuiltParsed(s, h, content);
  }

  // Headers and content give back every status exactly if no HTTP/1.1 stands in them.
  lemma BuiltRoundTripExactly(h: Headers, content: string)
    requires HasFields(h) && IsTrimmed(h) && "Connection" in h && !IsChunked(h)
    ensures (forall s: Status :: ParsedResponse(BuiltText(s, h, content)) == Parsed(Shown(s), h, content)) <==>
            Find(Rest(h, content), HTTP_1_1, 0).None?
  {
    forall s: Status ensures ParsedResponse(BuiltText(s, h, content)) ==
                             match ReadStatus(s, h, content)
                             case None => Failed(BadStatus)
                             case Some(status) => Parsed(status, h, content)
    {
      BuiltParsed(s, h, content);
    }
    if Find(Rest(h, content), HTTP_1_1, 0).Some? {
      assert ReadStatus(200, h, content) == ReadStatus(404, h, content);
      assert ParsedResponse(BuiltText(200, h, content)) == ParsedResponse(BuiltText(404, h, content));
      assert Shown(200) != Shown(404);
    }
  }

  // A response with this header is read as the data of its chunks, whatever follows the last one.
  lemma ChunkedBuiltRead(s: Status, h: Headers, chunks: seq<Chunked.Chunk>, last: string, rest: string)
    requires HasFields(h) && IsTrimmed(h) && "Connection" in h
    requires "Transfer-Encoding" in h && h["Transfer-Encoding"] == "chunked"
    requires Chunked.AreChunks(chunks) && Chunked.IsSize(last, 0)
    requires |Chunked.Encoded(chunks, last) + rest| < TWO_64 - 2
    requires Find(Rest(h, Chunked.Encoded(chunks, last) + rest), HTTP_1_1, 0).None?
    ensures ParsedResponse(BuiltText(s, h, Chunked.Encoded(chunks, last) + rest)) ==
            Parsed(Shown(s), h, Chunked.Flat(chunks))
  {
    BuiltRoundTrip(s, h, Chunked.Encoded(chunks, last) + rest);
    Chunked.ChunkedRoundTrip(chunks, last, rest);
  }

  // With any other value, or without the header, the content is the body as it stands.
  lemma PlainBuiltRead(s: Status, h: Headers, content: string)
    requires HasFields(h) && IsTrimmed(h) && "Connection" in h
    requires "Transfer-Encoding" !in h || h["Transfer-Encoding"] != "chunked"
    requires Find(Rest(h, content), HTTP_1_1, 0).None?
    ensures ParsedResponse(BuiltText(s, h, content)) == Parsed(Shown(s), h, content)
  {
    BuiltRoundTrip(s, h, content);
  }

  // --- What a build does to the headers ---

  // A build keeps every header that is there, and adds a content type, a cache control for an
  // event stream without one, and a length unless the response is chunked.
  lemma BuildAddsExactly(h: Headers, t: ContentType, length: nat, chunked: bool, name: string)
    ensures var built := BuiltHeaders(h, t, length, chunked);
            if name == "Cache-Control" && t == SSE && "Content-Type" !in h then
              name in built && built[name] == "no-cache"
            else if name in h then name in built && built[name] == h[name]
            else if name == "Content-Type" then name in built && built[name] == ContentTypeText(t)
            else if name == "Content-Length" && !chunked then name in built && built[name] == DecimalText(length)
            else name !in built
  {
    assert CONTENT_TYPE != CONTENT_LENGTH && CONTENT_LENGTH != "Cache-Control" && CONTENT_TYPE != "Cache-Control" by {
      assert CONTENT_TYPE[8] == 'T' && CONTENT_LENGTH[8] == 'L' && "Cache-Control"[1] == 'a' && CONTENT_TYPE[1] == 'o';
    }
  }

  // --- Responses that arrive in part ---

  // The length of a built text up to its content.
  ghost function HeadLength(s: Status, h: Headers): nat {
    |BuiltText(s, h, "")|
  }

  // The first k characters of a built text are the text of a shorter content, or have no blank
  // line yet.
  lemma CutBuilt(s: Status, h: Headers, content: string, k: nat)
    requires HasFields(h) && k <= |BuiltText(s, h, content)|
    ensures var cut, head := BuiltText(s, h, content)[..k], HeadLength(s, h);
            && |BuiltText(s, h, content)| == head + |content|
            && (k < head ==> ParsedResponse(cut) == Failed(MissingTerminator))
            && (k >= head ==> cut == BuiltText(s, h, content[..k - head]))
  {
    CutContent(s, h, content, k);
    if k < HeadLength(s, h) {
      BlankEndsHead(s, h, content);
      CutHead(BuiltText(s, h, content), HeadLength(s, h) - 4, k);
    }
  }

  lemma CutHead(raw: string, blank: nat, k: nat)
    requires Find(raw, BLANK, 0) == Some(blank) && k < blank + 4 && k <= |raw|
    ensures ParsedResponse(raw[..k]) == Failed(MissingTerminator)
  {
    NoBlankBefore(raw, blank, k);
  }

  lemma CutContent(s: Status, h: Headers, content: string, k: nat)
    requires k <= |BuiltText(s, h, content)|
    ensures var head := HeadLength(s, h);
            && |BuiltText(s, h, content)| == head + |content|
            && (k >= head ==> BuiltText(s, h, content)[..k] == BuiltText(s, h, content[..k - head]))
  {
    var before := StatusLine(s) + CRLF + PrintedHeaders(SortedMap.Entries(h)) + CRLF;
    assert before + "" == before;
    CutConcat(before, content, k);
  }

  lemma BlankEndsHead(s: Status, h: Headers, content: string)
    requires HasFields(h)
    ensures Find(BuiltText(s, h, content), BLANK, 0) == Some(HeadLength(s, h) - 4)
  {
    BuiltRead(s, h, content);
    BuiltRead(s, h, "");
    var raw := BuiltText(s, h, content);
    var before := StatusLine(s) + CRLF + PrintedHeaders(SortedMap.Entries(h)) + CRLF;
    assert before + "" == before;
    assert |raw| == |before| + |content|;
    assert |raw[Find(raw, BLANK, 0).value + 4..]| == |content|;
  }

  lemma NoBlankBefore(raw: string, blank: nat, k: nat)
    requires Find(raw, BLANK, 0) == Some(blank) && k < blank + 4 && k <= |raw|
    ensures Find(raw[..k], BLANK, 0) == None
  {
    FindIsFirst(raw, BLANK, 0);
    FindIsFirst(raw[..k], BLANK, 0);
    forall i: nat | i + 4 <= k ensures !At(raw[..k], BLANK, i) {
      AtIsSlice(raw, BLANK, i);
      AtIsSlice(raw[..k], BLANK, i);
      assert raw[..k][i..i + 4] == raw[i..i + 4];
    }
  }

  // A page with a word behind a quoted HTTP/1.1 cannot be read at all.
  lemma QuotedWordFails(rest: string)
    ensures var content := HTTP_1_1 + ("is" + " " + rest);
            ParsedResponse(BuiltText(OK, PlainHeaders(content), content)) == Failed(BadStatus)
  {
    var content := HTTP_1_1 + ("is" + " " + rest);
    QuotedWordThrows(rest);
    PlainHeadersAreFields(content);
    BuiltRead(OK, PlainHeaders(content), content);
  }

  lemma PlainHeadersAreFields(content: string)
    ensures HasFields(PlainHeaders(content))
  {
    DecimalIsPlain(|content|);
    FixedNamesAreOneLine();
    KeepAliveIsOneLine();
    PlainTextIsOneLine();
  }

  lemma FixedNamesAreOneLine()
    ensures IsOneLine("Connection") && IsOneLine(CONTENT_TYPE) && IsOneLine(CONTENT_LENGTH)
  {
  }

  lemma KeepAliveIsOneLine()
    ensures IsOneLine("keep-alive")
  {
  }

  lemma PlainTextIsOneLine()
    ensures IsOneLine("text/plain; charset=utf-8")
  {
  }

  // --- Building again ---

  // A second build changes no header, so it gives the same text for the same content.
  lemma BuildIsStable(s: Status, h: Headers, t: ContentType, content: string, chunked: bool)
    ensures var built := BuiltHeaders(h, t, |content|, chunked);
            && BuiltHeaders(built, t, |content|, chunked) == built
            && BuiltText(s, BuiltHeaders(built, t, |content|, chunked), content) == BuiltText(s, built, content)
  {
  }

  // The length in a first build is right unless another was set before; in a later build it is
  // right exactly when the content has kept its length.
  lemma LengthAfterBuilds(h: Headers, t: ContentType, n: nat, m: nat)
    ensures var first := BuiltHeaders(h, t, n, false);
            var second := BuiltHeaders(first, t, m, false);
            && CONTENT_LENGTH in first && CONTENT_LENGTH in second
            && (CONTENT_LENGTH !in h ==> first[CONTENT_LENGTH] == DecimalText(n)
                                         && (second[CONTENT_LENGTH] == DecimalText(m) <==> n == m))
            && (CONTENT_LENGTH in h ==> second[CONTENT_LENGTH] == first[CONTENT_LENGTH] == h[CONTENT_LENGTH])
  {
    if DecimalText(n) == DecimalText(m) {
      DecimalInjective(n, m);
    }
  }

  // The length that is added is read back as the length of the content.
  lemma LengthRead(h: Headers, t: ContentType, content: string)
    requires CONTENT_LENGTH !in h && |content| <= MAX_INT
    ensures Stoi(BuiltHeaders(h, t, |content|, false)[CONTENT_LENGTH]) == Some(|content|)
  {
    StoiReadsDecimal(|content|);
  }
}
