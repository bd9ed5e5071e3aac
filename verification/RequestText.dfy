// The text of a request: what the parser makes of any text, and the texts that clients print.

module RequestText {
  import opened Pairs
  import opened Text
  import opened UrlQuery
  import opened Wrappers

  const BLANK := "\r\n\r\n"

  // What is parsed from a request. The headers are values here, not views of the text.
  datatype Message = Message(verb: string, path: string, version: string, normalPath: string, queryString: string,
                             query: map<string, string>, headers: map<string, string>, body: string)

  const EMPTY := Message("", "", "", "", "", map[], map[], "")

  // --- The request line ---

  datatype Line = NoLine | Line(verb: string, path: string, version: string)

  function RequestLine(line: string): Line {
    match Find(line, " ", 0)
    case None => NoLine
    case Some(m1) =>
      match Find(line, " ", m1 + 1)
      case None => NoLine
      case Some(m2) => Line(line[..m1], line[m1 + 1..m2], line[m2 + 1..])
  }

  // A path before its query, and the query after the first question mark.
  function PathOf(path: string): string {
    match Find(path, "?", 0) case Some(i) => path[..i] case None => path
  }

  function QueryPart(path: string): Option<string> {
    match Find(path, "?", 0) case Some(i) => Some(path[i + 1..]) case None => None
  }

  function QueryOf(query: string): map<string, string> {
    Store(map[], Items(SegmentsFrom(query, 0)))
  }

  function WithPath(m: Message, path: string): Message {
    match QueryPart(path)
    case Some(query) => m.(path := path, normalPath := PathOf(path), queryString := query, query := QueryOf(query))
    case None => m.(path := path, normalPath := path, query := map[])
  }

  function WithLine(m: Message, line: Line): Message {
    if line.NoLine? then m else WithPath(m.(verb := line.verb, version := line.version), line.path)
  }

  // --- The headers ---

  // The header of a line, if it has a colon; one space after the colon is skipped.
  function HeaderOf(line: string): Option<Pair> {
    match Find(line, ":", 0)
    case None => None
    case Some(i) => Some(Pair(line[..i], SkipSpace(line[i + 1..])))
  }

  function SkipSpace(value: string): string {
    if |value| > 0 && value[0] == ' ' then value[1..] else value
  }

  // The header of the line between two positions, by positions in the whole text.
  lemma HeaderAt(raw: string, pos: nat, colon: nat, end: nat)
    requires pos <= colon < end <= |raw| && Find(raw[pos..end], ":", 0) == Some(colon - pos)
    ensures var start := if colon + 1 < end && raw[colon + 1] == ' ' then colon + 2 else colon + 1;
            HeaderOf(raw[pos..end]) == Some(Pair(raw[pos..colon], raw[start..end]))
  {
    var line := raw[pos..end];
    var value := line[colon - pos + 1..];
    assert line[..colon - pos] == raw[pos..colon];
    assert value == raw[colon + 1..end];
  }

  datatype Scan = Scan(headers: seq<Pair>, stop: nat)

  function WithHeader(header: Option<Pair>, rest: Scan): Scan {
    if header.None? then rest else Scan([header.value] + rest.headers, rest.stop)
  }

  // The headers from a position on, and where their scan stops.
  function HeadersFrom(raw: string, pos: nat): Scan
    decreases |raw| - pos
  {
    if pos >= |raw| then Scan([], pos)
    else
      match Find(raw, CRLF, pos)
      case None => Scan([], pos)
      case Some(end) =>
        if end == pos then Scan([], end + 2)
        else WithHeader(HeaderOf(raw[pos..end]), HeadersFrom(raw, end + 2))
  }

  // --- The whole text ---

  function BodyOf(raw: string): string {
    match Find(raw, BLANK, 0) case Some(i) => raw[i + 4..] case None => ""
  }

  function Parsed(raw: string): Message {
    match Find(raw, CRLF, 0)
    case None => EMPTY
    case Some(end) =>
      WithLine(EMPTY, RequestLine(raw[..end]))
      .(headers := Store(map[], HeadersFrom(raw, end + 2).headers), body := BodyOf(raw))
  }

  // The path of any request is its path before the query, and with a question mark that, the mark
  // and the query; the path before the query has no mark.
  lemma PathParts(raw: string)
    ensures var m := Parsed(raw);
            && '?' !in m.normalPath
            && m.path == (if '?' in m.path then m.normalPath + "?" + m.queryString else m.normalPath)
            && m.query == (if '?' in m.path then QueryOf(m.queryString) else map[])
  {
    var end := Find(raw, CRLF, 0);
    if end.Some? && RequestLine(raw[..end.value]).Line? {
      MarkSplits(RequestLine(raw[..end.value]).path);
    }
  }

  lemma MarkSplits(path: string)
    ensures match Find(path, "?", 0)
            case Some(i) => '?' !in path[..i] && '?' in path && path == path[..i] + "?" + path[i + 1..]
            case None => '?' !in path
  {
    FindIsFirst(path, "?", 0);
    forall i | 0 <= i < |path| ensures At(path, "?", i) <==> path[i] == '?' {
      AtOne(path, '?', i);
    }
  }

  // --- The scan of the headers and the search for the body agree ---

  lemma AtCrlf(s: string, i: nat)
    ensures At(s, CRLF, i) <==> i + 1 < |s| && s[i] == '\r' && s[i + 1] == '\n'
  {
    AtIsSlice(s, CRLF, i);
    if i + 2 <= |s| {
      assert s[i..i + 2] == [s[i], s[i + 1]];
    }
  }

  lemma AtBlank(s: string, i: nat)
    ensures At(s, BLANK, i) <==> At(s, CRLF, i) && At(s, CRLF, i + 2)
  {
    AtIsSlice(s, BLANK, i);
    AtCrlf(s, i);
    AtCrlf(s, i + 2);
    if i + 4 <= |s| {
      assert s[i..i + 4] == [s[i], s[i + 1], s[i + 2], s[i + 3]];
    }
  }

  // The end of a line that begins after a line end and not after the first blank line.
  lemma LineEndBeforeBlank(raw: string, pos: nat, blank: nat)
    requires Find(raw, BLANK, 0) == Some(blank) && 2 <= pos <= blank + 2
    requires At(raw, CRLF, pos - 2)
    ensures var r := Find(raw, CRLF, pos);
            r.Some? && if r.value == pos then pos == blank + 2 else r.value <= blank
  {
    FindIsFirst(raw, BLANK, 0);
    FindIsFirst(raw, CRLF, pos);
    AtBlank(raw, blank);
    AtBlank(raw, pos - 2);
    AtCrlf(raw, pos - 2);
    AtCrlf(raw, blank);
    AtCrlf(raw, blank + 2);
    assert At(raw, CRLF, blank + 2);
    var end := Find(raw, CRLF, pos).value;
    AtCrlf(raw, end);
  }

  // From any line start up to there, the scan stops right after the first blank line.
  lemma {:induction false} ScanStopsAfterBlank(raw: string, pos: nat, blank: nat)
    requires Find(raw, BLANK, 0) == Some(blank) && 2 <= pos <= blank + 2
    requires At(raw, CRLF, pos - 2)
    ensures HeadersFrom(raw, pos).stop == blank + 4
    decreases |raw| - pos
  {
    LineEndBeforeBlank(raw, pos, blank);
    var end := Find(raw, CRLF, pos).value;
    if end > pos {
      FindIsFirst(raw, CRLF, pos);
      ScanStopsAfterBlank(raw, end + 2, blank);
    }
  }

  // So the headers end exactly where the body begins.
  lemma HeadersEndAtBody(raw: string)
    requires Find(raw, BLANK, 0).Some?
    ensures var lineEnd := Find(raw, CRLF, 0);
            && lineEnd.Some?
            && var stop := HeadersFrom(raw, lineEnd.value + 2).stop;
               stop == Find(raw, BLANK, 0).value + 4 <= |raw| && BodyOf(raw) == raw[stop..]
  {
    var blank := Find(raw, BLANK, 0).value;
    FindIsFirst(raw, BLANK, 0);
    FindIsFirst(raw, CRLF, 0);
    AtBlank(raw, blank);
    ScanStopsAfterBlank(raw, Find(raw, CRLF, 0).value + 2, blank);
  }

  // Without a blank line the scan only stops where no line end is left.
  lemma {:induction false} ScanWithoutBlank(raw: string, pos: nat)
    requires Find(raw, BLANK, 0).None? && pos >= 2 && At(raw, CRLF, pos - 2)
    ensures Find(raw, CRLF, HeadersFrom(raw, pos).stop).None?
    decreases |raw| - pos
  {
    FindIsFirst(raw, BLANK, 0);
    FindIsFirst(raw, CRLF, pos);
    AtBlank(raw, pos - 2);
    if Find(raw, CRLF, pos).Some? {
      ScanWithoutBlank(raw, Find(raw, CRLF, pos).value + 2);
    }
  }
}
