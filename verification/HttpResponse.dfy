// Responses: built by the server, parsed by the client.

module HttpResponse {
  import opened Chunked
  import opened Decimal
  import opened HeaderText
  import opened Pairs
  import opened ResponseText
  import opened RequestText
  import opened Text
  import opened Wrappers
  import SortedMap

  class Response {
    var status: Status
    var contentType: ContentType
    var content: string
    var headers: Headers

    // The content type that the program leaves without a value is a parameter.
    constructor (defaults: seq<Pair>, undefined: ContentType)
      ensures status == OK && contentType == undefined && content == ""
      ensures headers == Store(map[], defaults)["Connection" := "keep-alive"]
    {
      status, contentType, content, headers := OK, undefined, "", map[];
      new;
      for i := 0 to |defaults|
        invariant status == OK && contentType == undefined && content == ""
        invariant Store(map[], defaults) == Store(headers, defaults[i..])
      {
        SetHeader(defaults[i].name, defaults[i].value);
      }
      SetHeader("Connection", "keep-alive");
    }

    method SetHeader(key: string, value: string)
      modifies `headers
      ensures headers == old(headers)[key := value]
    {
      headers := headers[key := value];
    }

    method SetContent(text: string, t: ContentType, s: Status)
      modifies `status, `contentType, `content
      ensures status == s && contentType == t && content == text
    {
      status := s;
      contentType := t;
      content := text;
    }

    method Append(text: string)
      modifies `content
      ensures content == old(content) + text
    {
      content := content + text;
    }

    // The text to send, and no text for no content. What a named file holds is a parameter.
    method Build(chunked: bool, readFile: string -> string) returns (text: Option<string>)
      modifies `content, `headers
      ensures |old(content)| == 0 ==> text.None? && content == old(content) && headers == old(headers)
      ensures |old(content)| > 0 ==>
                && content == (if NamesFile(contentType, old(content)) then readFile(old(content)) else old(content))
                && headers == BuiltHeaders(old(headers), contentType, |content|, chunked)
                && text == Some(BuiltText(status, headers, content))
    {
      if |content| == 0 {
        return None;
      }
      if NamesFile(contentType, content) {
        content := readFile(content);
      }
      if CONTENT_TYPE !in headers {
        SetHeader(CONTENT_TYPE, ContentTypeText(contentType));
        if contentType == SSE {
          SetHeader("Cache-Control", "no-cache");
        }
      }
      if !chunked && CONTENT_LENGTH !in headers {
        SetHeader(CONTENT_LENGTH, DecimalText(|content|));
      }
      var body := StatusLine(status) + CRLF;
      body := AppendHeaders(body);
      body := body + CRLF;
      body := body + content;
      text := Some(body);
    }

    // Appends the headers in the order of their names.
    method AppendHeaders(start: string) returns (body: string)
      ensures body == start + PrintedHeaders(SortedMap.Entries(headers))
    {
      body := start;
      var todo := headers.Keys;
      while |todo| > 0
        invariant todo <= headers.Keys
        invariant body + PrintedHeaders(SortedMap.Sorted(headers, todo)) ==
                  start + PrintedHeaders(SortedMap.Entries(headers))
        decreases |todo|
      {
        var key := FirstKey(todo);
        ghost var before, rest := body, PrintedHeaders(SortedMap.Sorted(headers, todo - {key}));
        NextHeader(headers, todo, key);
        body := body + key;
        body := body + ": ";
        body := body + headers[key];
        body := body + CRLF;
        assert body == before + (HeaderLine(Pair(key, headers[key])) + CRLF);
        Concat(before, HeaderLine(Pair(key, headers[key])) + CRLF, rest);
        todo := todo - {key};
      }
    }
  }

  predicate NamesFile(t: ContentType, content: string) {
    t == HTML && |content| >= 5 && content[|content| - 5..] == ".html"
  }

  // Iteration over a std::map visits the least key first.
  method FirstKey(keys: set<string>) returns (k: string)
    requires |keys| > 0
    ensures k in keys && k == SortedMap.Least(keys)
  {
    SortedMap.LeastExistsAtAll(keys);
    k :| k in keys && forall other :: other in keys ==> SortedMap.Leq(k, other);
    SortedMap.LeastIsUnique(k, SortedMap.Least(keys), keys);
  }

  lemma NextHeader(headers: Headers, keys: set<string>, k: string)
    requires keys <= headers.Keys && |keys| > 0 && k == SortedMap.Least(keys)
    ensures PrintedHeaders(SortedMap.Sorted(headers, keys)) ==
            HeaderLine(Pair(k, headers[k])) + CRLF + PrintedHeaders(SortedMap.Sorted(headers, keys - {k}))
  {
    var all, rest := SortedMap.Sorted(headers, keys), SortedMap.Sorted(headers, keys - {k});
    TailOfConcat([Pair(k, headers[k])], rest);
    assert all[1..] == rest;
  }

  // --- The client ---

  method ParseStatus(raw: string) returns (status: Option<Status>)
    ensures status == ParsedStatus(raw)
  {
    var start := Find(raw, HTTP_1_1, 0);
    if start.None? {
      start := Find(raw, HTTP_1_0, 0);
    }
    if start.None? {
      return Some(OK);
    }
    var end := Find(raw, " ", start.value + 9);
    if end.None? {
      return Some(OK);
    }
    var code := Stoi(raw[start.value + 9..end.value]);
    if code.None? {
      return None;
    }
    status := Some(ParsedCode(code.value));
  }

  method ParseHeaderLines(response: Response, section: string)
    modifies response`headers
    ensures response.headers == Store(old(response.headers), LinesHeaders(Split(section, '\n')))
  {
    var lines := Split(section, '\n');
    var i := 0;
    while i < |lines| && |lines[i]| > 0
      invariant i <= |lines|
      invariant Store(old(response.headers), LinesHeaders(lines)) == Store(response.headers, LinesHeaders(lines[i..]))
    {
      assert lines[i..][1..] == lines[i + 1..];
      var header := LineHeader(lines[i]);
      if header.Some? {
        response.SetHeader(header.value.name, header.value.value);
      }
      i := i + 1;
    }
  }

  // The response is returned with an error or filled in.
  method ParseResponse(raw: string, undefined: ContentType) returns (error: Option<ParseError>, response: Response)
    ensures fresh(response)
    ensures match ParsedResponse(raw)
            case Failed(e) => error == Some(e)
            case Parsed(s, h, c) =>
              error == None && response.status == s && response.headers == h && response.content == c
  {
    response := new Response([], undefined);
    var headerEnd := Find(raw, BLANK, 0);
    if headerEnd.None? {
      error := Some(MissingTerminator);
      return;
    }
    var status := ParseStatus(raw);
    if status.None? {
      error := Some(BadStatus);
      return;
    }
    ParseHeaderLines(response, raw[..headerEnd.value]);
    var body := raw[headerEnd.value + 4..];
    if IsChunked(response.headers) {
      var decoded := ParseChunkedBody(body);
      if decoded.None? {
        error := Some(Endless);
        return;
      }
      if decoded.value.Err? {
        error := Some(BadChunks(decoded.value.error));
        return;
      }
      body := decoded.value.text;
    }
    response.status := status.value;
    response.Append(body);
    error := None;
  }
}
