// What the request parser recovers from the requests that a client prints.

module RequestLaws {
  import opened HeaderText
  import opened Pairs
  import opened RequestText
  import opened Text
  import opened Wrappers

  const VERSION := "HTTP/1.1"

  function PrintedLine(verb: string, path: string): string {
    verb + " " + path + " " + VERSION
  }

  // The request of HttpClient::sendRequest: two headers and no body.
  function ClientHeaders(host: string, keepAlive: bool): seq<Pair> {
    [Pair("Host", host), Pair("Connection", if keepAlive then "keep-alive" else "close")]
  }

  // The client builds its request step by step in an output stream.
  method ClientRequest(verb: string, path: string, host: string, keepAlive: bool) returns (oss: string)
    ensures oss == Printed(PrintedLine(verb, path), ClientHeaders(host, keepAlive), "")
  {
    var connection := if keepAlive then "keep-alive" else "close";
    oss := verb + " " + path + " " + VERSION + CRLF;
    oss := oss + ("Host" + ": " + host + CRLF);
    oss := oss + ("Connection" + ": " + connection + CRLF);
    oss := oss + CRLF;
    TwoHeaders(Pair("Host", host), Pair("Connection", connection));
    assert oss + "" == oss;
  }

  lemma TwoHeaders(a: Pair, b: Pair)
    ensures PrintedHeaders([a, b]) == (HeaderLine(a) + CRLF) + (HeaderLine(b) + CRLF)
  {
    assert [a, b][1..] == [b] && [b][1..] == [];
    assert PrintedHeaders([b]) == HeaderLine(b) + CRLF + "";
  }

  // --- The request line ---

  // A request line that is split into three parts is made of them.
  lemma LineParts(line: string)
    requires RequestLine(line).Line?
    ensures var r := RequestLine(line);
            line == r.verb + " " + r.path + " " + r.version && ' ' !in r.verb && ' ' !in r.path
  {
    var m1 := Find(line, " ", 0).value;
    var m2 := Find(line, " ", m1 + 1).value;
    NoSpaceBefore(line, 0, m1);
    NoSpaceBefore(line, m1 + 1, m2);
    assert line[0..m1] == line[..m1];
    assert line == line[..m1] + [line[m1]] + line[m1 + 1..m2] + [line[m2]] + line[m2 + 1..];
  }

  lemma NoSpaceBefore(line: string, from: nat, at: nat)
    requires Find(line, " ", from) == Some(at)
    ensures from <= at < |line| && line[at] == ' ' && ' ' !in line[from..at]
  {
    FindIsFirst(line, " ", from);
    AtOne(line, ' ', at);
    forall i | from <= i < at ensures line[i] != ' ' {
      AtOne(line, ' ', i);
    }
  }

  // Splitting gives the printed parts exactly when there is no space in the first two.
  lemma LineRecovered(verb: string, path: string)
    ensures RequestLine(PrintedLine(verb, path)) == Line(verb, path, VERSION) <==> ' ' !in verb && ' ' !in path
  {
    var line := PrintedLine(verb, path);
    if ' ' !in verb && ' ' !in path {
      var rest := path + " " + VERSION;
      assert line[0..] == verb + " " + rest;
      FindAfter(line, 0, verb, " ", rest);
      Pieces(line, 0, verb, " ", rest);
      FindAfter(line, |verb| + 1, path, " ", VERSION);
      Pieces(line, |verb| + 1, path, " ", VERSION);
    } else if RequestLine(line) == Line(verb, path, VERSION) {
      LineParts(line);
    }
  }

  // The line of a request ends where it was printed to end, unless a line end stands in it.
  lemma FirstLineEnd(verb: string, path: string, rest: string)
    ensures var line := PrintedLine(verb, path);
            Find(line + CRLF + rest, CRLF, 0) == if Find(line, CRLF, 0).None? then Some(|line|) else Find(line, CRLF, 0)
  {
    var line := PrintedLine(verb, path);
    var raw := line + CRLF + rest;
    assert line[|line| - 1] == VERSION[7];
    FindIsFirst(line, CRLF, 0);
    forall i | 0 <= i < |line| ensures At(raw, CRLF, i) <==> At(line, CRLF, i) {
      AtCrlf(raw, i);
      AtCrlf(line, i);
    }
    if Find(line, CRLF, 0).None? {
      AtCrlf(raw, |line|);
      FirstIsFound(raw, CRLF, 0, |line|);
    } else {
      FirstIsFound(raw, CRLF, 0, Find(line, CRLF, 0).value);
    }
  }

  predicate IsPrintable(verb: string, path: string) {
    ' ' !in verb && ' ' !in path && Find(PrintedLine(verb, path), CRLF, 0).None?
  }

  // Whatever follows the line: method, path and version are recovered exactly when there is no
  // space in method or path and no line end in the line.
  lemma RequestLineRecovered(verb: string, path: string, rest: string)
    ensures var line := PrintedLine(verb, path);
            var raw := line + CRLF + rest;
            var end := Find(raw, CRLF, 0);
            && end.Some?
            && (RequestLine(raw[..end.value]) == Line(verb, path, VERSION) <==> IsPrintable(verb, path))
  {
    var line := PrintedLine(verb, path);
    var raw := line + CRLF + rest;
    FirstLineEnd(verb, path, rest);
    LineRecovered(verb, path);
    var first := raw[..Find(raw, CRLF, 0).value];
    if Find(line, CRLF, 0).None? {
      assert first == line;
    } else {
      assert |first| < |line|;
      if RequestLine(first) == Line(verb, path, VERSION) {
        LineParts(first);
      }
    }
  }

  // --- The whole request ---

  // A printed request comes back whole: whatever its body holds, each header under its last value.
  lemma PrintedRead(verb: string, path: string, headers: seq<Pair>, body: string)
    requires IsPrintable(verb, path) && AreHeaders(headers)
    ensures Parsed(Printed(PrintedLine(verb, path), headers, body)) ==
            WithPath(EMPTY.(verb := verb, version := VERSION), path).(headers := Store(map[], headers), body := body)
  {
    PrintedLineRead(verb, path, headers, body);
    HeadersAndBodyRead(PrintedLine(verb, path), headers, body);
  }

  lemma PrintedLineRead(verb: string, path: string, headers: seq<Pair>, body: string)
    requires IsPrintable(verb, path)
    ensures var line := PrintedLine(verb, path);
            && Find(Printed(line, headers, body), CRLF, 0) == Some(|line|)
            && RequestLine(Printed(line, headers, body)[..|line|]) == Line(verb, path, VERSION)
  {
    var line, rest := PrintedLine(verb, path), PrintedHeaders(headers) + CRLF + body;
    assert Printed(line, headers, body) == line + CRLF + rest;
    FirstLineEnd(verb, path, rest);
    RequestLineRecovered(verb, path, rest);
  }

  lemma ClientHeadersAreHeaders(host: string, keepAlive: bool)
    requires '\r' !in host
    ensures AreHeaders(ClientHeaders(host, keepAlive))
  {
  }

  // The client's own request: method, path, version, Host and Connection, and an empty body.
  lemma ClientRequestRead(verb: string, path: string, host: string, keepAlive: bool)
    requires IsPrintable(verb, path) && '\r' !in host
    ensures var m := Parsed(Printed(PrintedLine(verb, path), ClientHeaders(host, keepAlive), ""));
            && m.verb == verb && m.path == path && m.version == VERSION && m.body == ""
            && m.headers == map["Host" := host, "Connection" := if keepAlive then "keep-alive" else "close"]
  {
    var hs := ClientHeaders(host, keepAlive);
    ClientHeadersAreHeaders(host, keepAlive);
    PrintedRead(verb, path, hs, "");
    assert Store(map[], hs) == map["Host" := host, "Connection" := hs[1].value] by {
      assert hs[1..] == [hs[1]] && hs[1..][1..] == [];
      var one := map[][hs[0].name := hs[0].value];
      assert Store(one, hs[1..]) == Store(one[hs[1].name := hs[1].value], []);
    }
  }

  // --- Requests that arrive in part ---

  // A read has the method and the path of a printed request line.
  predicate HasLine(m: Message, verb: string, path: string) {
    m.verb == verb && m.path == path && m.version == VERSION
  }

  // The first k characters are a request for the printed method and path exactly if they have
  // the whole line with its end; with less, nothing is parsed at all.
  lemma CutRequest(verb: string, path: string, rest: string, k: nat)
    requires IsPrintable(verb, path) && k <= |PrintedLine(verb, path) + CRLF + rest|
    ensures var line := PrintedLine(verb, path);
            var m := Parsed((line + CRLF + rest)[..k]);
            && (k < |line| + 2 ==> m == EMPTY)
            && (k >= |line| + 2 ==> m.query == WithPath(EMPTY, path).query)
            && (HasLine(m, verb, path) <==> k >= |line| + 2)
  {
    var line := PrintedLine(verb, path);
    var raw := line + CRLF + rest;
    if k < |line| + 2 {
      NoLineEndYet(verb, path, k);
      CutConcat(line + CRLF, rest, k);
    } else {
      CutConcat(line + CRLF, rest, k);
      var cut := line + CRLF + rest[..k - |line| - 2];
      RequestLineRecovered(verb, path, rest[..k - |line| - 2]);
      LineParsed(cut, Find(cut, CRLF, 0).value, verb, path);
    }
  }

  lemma LineParsed(raw: string, end: nat, verb: string, path: string)
    requires Find(raw, CRLF, 0) == Some(end) && RequestLine(raw[..end]) == Line(verb, path, VERSION)
    ensures HasLine(Parsed(raw), verb, path) && Parsed(raw).query == WithPath(EMPTY, path).query
  {
  }

  lemma NoLineEndYet(verb: string, path: string, k: nat)
    requires IsPrintable(verb, path) && k < |PrintedLine(verb, path)| + 2
    ensures Find((PrintedLine(verb, path) + CRLF)[..k], CRLF, 0) == None
  {
    var line := PrintedLine(verb, path);
    var cut := (line + CRLF)[..k];
    assert line[|line| - 1] == VERSION[7];
    FindIsFirst(line, CRLF, 0);
    FindIsFirst(cut, CRLF, 0);
    forall i: nat ensures !At(cut, CRLF, i) {
      AtCrlf(cut, i);
      AtCrlf(line, i);
      if i + 1 < |line| {
        assert !At(line, CRLF, i);
      }
    }
  }

  // Reads of at most so many characters can have the line exactly if it fits.
  lemma LineFitsExactly(verb: string, path: string, rest: string, limit: nat)
    requires IsPrintable(verb, path)
    ensures var line := PrintedLine(verb, path);
            var raw := line + CRLF + rest;
            (exists k :: 0 <= k <= |raw| && k <= limit && HasLine(Parsed(raw[..k]), verb, path)) <==>
            |line| + 2 <= limit
  {
    var line := PrintedLine(verb, path);
    var raw := line + CRLF + rest;
    forall k | 0 <= k <= |raw| ensures HasLine(Parsed(raw[..k]), verb, path) <==> k >= |line| + 2 {
      CutRequest(verb, path, rest, k);
    }
    if |line| + 2 <= limit {
      assert HasLine(Parsed(raw[..|line| + 2]), verb, path);
    }
  }
}
