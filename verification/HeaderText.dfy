// Headers as they are printed, by the client and by the server, and as the request parser
// reads them.

module HeaderText {
  import opened Pairs
  import opened RequestText
  import opened Text
  import opened Wrappers

  function HeaderLine(h: Pair): string {
    h.name + ": " + h.value
  }

  function PrintedHeaders(headers: seq<Pair>): string {
    if |headers| == 0 then "" else HeaderLine(headers[0]) + CRLF + PrintedHeaders(headers[1..])
  }

  predicate IsHeader(h: Pair) {
    ':' !in h.name && '\r' !in h.name && '\r' !in h.value
  }

  predicate AreHeaders(headers: seq<Pair>) {
    forall i :: 0 <= i < |headers| ==> IsHeader(headers[i])
  }

  lemma HeaderLineRead(h: Pair)
    requires IsHeader(h)
    ensures HeaderOf(HeaderLine(h)) == Some(h)
  {
    var line := HeaderLine(h);
    assert line[0..] == h.name + ":" + (" " + h.value);
    FindAfter(line, 0, h.name, ":", " " + h.value);
    Pieces(line, 0, h.name, ":", " " + h.value);
  }

  // One printed header is read, and the scan goes on behind it.
  lemma OneHeaderRead(raw: string, pos: nat, h: Pair, rest: string)
    requires IsHeader(h) && pos <= |raw| && raw[pos..] == HeaderLine(h) + CRLF + rest
    ensures var next := pos + |HeaderLine(h)| + 2;
            && next <= |raw| && raw[next..] == rest
            && HeadersFrom(raw, pos) == WithHeader(Some(h), HeadersFrom(raw, next))
  {
    var line := HeaderLine(h);
    FindAfter(raw, pos, line, CRLF, rest);
    Pieces(raw, pos, line, CRLF, rest);
    HeaderLineRead(h);
    HeadersStep(raw, pos, pos + |line|, h);
  }

  lemma HeadersStep(raw: string, pos: nat, end: nat, h: Pair)
    requires Find(raw, CRLF, pos) == Some(end) && pos < end && HeaderOf(raw[pos..end]) == Some(h)
    ensures HeadersFrom(raw, pos) == WithHeader(Some(h), HeadersFrom(raw, end + 2))
  {
  }

  lemma BlankRead(raw: string, pos: nat, body: string)
    requires pos <= |raw| && raw[pos..] == "" + CRLF + body
    ensures |raw| == pos + 2 + |body| && HeadersFrom(raw, pos) == Scan([], pos + 2)
  {
    FindAfter(raw, pos, "", CRLF, body);
  }

  // The printed headers are read in order, and the scan stops behind the blank line.
  lemma {:induction false} PrintedHeadersRead(raw: string, pos: nat, headers: seq<Pair>, body: string)
    requires AreHeaders(headers)
    requires pos <= |raw| && raw[pos..] == PrintedHeaders(headers) + CRLF + body
    ensures |body| <= |raw| && HeadersFrom(raw, pos) == Scan(headers, |raw| - |body|)
    decreases |headers|
  {
    if |headers| == 0 {
      BlankRead(raw, pos, body);
    } else {
      var rest := PrintedHeaders(headers[1..]) + CRLF + body;
      HeadersSplit(headers, body);
      HeadAndTail(headers);
      OneHeaderRead(raw, pos, headers[0], rest);
      PrintedHeadersRead(raw, pos + |HeaderLine(headers[0])| + 2, headers[1..], body);
    }
  }

  lemma HeadersSplit(headers: seq<Pair>, body: string)
    requires |headers| > 0
    ensures PrintedHeaders(headers) + CRLF + body ==
            HeaderLine(headers[0]) + CRLF + (PrintedHeaders(headers[1..]) + CRLF + body)
  {
    SplitOff(HeaderLine(headers[0]) + CRLF, PrintedHeaders(headers[1..]), CRLF, body);
  }

  lemma SplitOff(line: string, rest: string, end: string, body: string)
    ensures line + rest + end + body == line + (rest + end + body)
  {
  }

  // A first line and headers up to the end of the last line.
  function Section(first: string, headers: seq<Pair>): string
    decreases |headers|
  {
    if |headers| == 0 then first else first + CRLF + Section(HeaderLine(headers[0]), headers[1..])
  }

  lemma {:induction false} SectionPrinted(first: string, headers: seq<Pair>)
    ensures first + CRLF + PrintedHeaders(headers) == Section(first, headers) + CRLF
    decreases |headers|
  {
    if |headers| > 0 {
      var line, rest := HeaderLine(headers[0]), PrintedHeaders(headers[1..]);
      SectionPrinted(line, headers[1..]);
      Concat(first + CRLF, Section(line, headers[1..]), CRLF);
    } else {
      assert first + CRLF + "" == first + CRLF;
    }
  }

  // The text of a first line, headers and a body.
  function Printed(first: string, headers: seq<Pair>, body: string): string {
    first + CRLF + PrintedHeaders(headers) + CRLF + body
  }

  // It is read back: the headers, the place of the blank line, and the body behind it.
  lemma HeadersAndBodyRead(first: string, headers: seq<Pair>, body: string)
    requires AreHeaders(headers) && Find(Printed(first, headers, body), CRLF, 0) == Some(|first|)
    ensures var raw := Printed(first, headers, body);
            && HeadersFrom(raw, |first| + 2).headers == headers
            && Find(raw, BLANK, 0) == Some(|Section(first, headers)|)
            && BodyOf(raw) == body
  {
    var raw, section := Printed(first, headers, body), Section(first, headers);
    SectionPrinted(first, headers);
    Regroup(first, PrintedHeaders(headers), section, body);
    BlankAfterSection(raw, section, body);
    PrintedHeadersRead(raw, |first| + 2, headers, body);
    HeadersEndAtBody(raw);
  }

  lemma Regroup(first: string, printed: string, section: string, body: string)
    requires first + CRLF + printed == section + CRLF
    ensures var raw := first + CRLF + printed + CRLF + body;
            && raw == section + BLANK + body
            && |raw| >= |first| + 2 && raw[|first| + 2..] == printed + CRLF + body
            && raw[|section| + 4..] == body
  {
    assert BLANK == CRLF + CRLF;
  }

  lemma BlankAfterSection(raw: string, section: string, body: string)
    requires raw == section + BLANK + body
    ensures Find(raw, BLANK, 0).Some?
  {
    assert raw[|section|..|section| + 4] == BLANK;
    AtIsSlice(raw, BLANK, |section|);
    FindIsFirst(raw, BLANK, 0);
  }
}
