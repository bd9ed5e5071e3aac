// A parsed HTTP request.

module HttpRequest {
  import opened Pairs
  import opened RequestText
  import opened Text
  import opened UrlQuery
  import opened Wrappers

  class Request {
    var verb: string
    var path: string
    var version: string
    var normalPath: string
    var queryString: string
    var params: map<string, string>
    var query: map<string, string>
    var headers: map<string, string>
    var body: string

    ghost function Contents(): Message
      reads this
    {
      Message(verb, path, version, normalPath, queryString, query, headers, body)
    }

    constructor (raw: string)
      ensures Contents() == Parsed(raw) && params == map[]
    {
      verb, path, version, normalPath, queryString, body := "", "", "", "", "", "";
      params, query, headers := map[], map[], map[];
      new;
      var lineEnd := Find(raw, CRLF, 0);
      if lineEnd.Some? {
        ParseRequestLine(raw[..lineEnd.value]);
        assert Contents() == WithLine(EMPTY, RequestLine(raw[..lineEnd.value]));
        var pos := ParseHeaders(raw, lineEnd.value + 2);
        var headerEnd := Find(raw, BLANK, 0);
        if headerEnd.Some? {
          body := raw[headerEnd.value + 4..];
        }
      }
    }

    method ParseRequestLine(line: string)
      modifies this
      ensures Contents() == WithLine(old(Contents()), RequestLine(line))
      ensures params == if RequestLine(line).NoLine? then old(params) else map[]
    {
      var m1 := Find(line, " ", 0);
      if m1.None? {
        return;
      }
      var m2 := Find(line, " ", m1.value + 1);
      if m2.None? {
        return;
      }
      ghost var parts := RequestLine(line);
      assert parts == Line(line[..m1.value], line[m1.value + 1..m2.value], line[m2.value + 1..]);
      verb := line[..m1.value];
      version := line[m2.value + 1..];
      params := map[];
      StorePath(line[m1.value + 1..m2.value]);
    }

    // The path of a request line with its query.
    method StorePath(target: string)
      modifies `path, `query, `normalPath, `queryString
      ensures Contents() == WithPath(old(Contents()), target)
    {
      path := target;
      query := map[];
      var mark := Find(path, "?", 0);
      if mark.Some? {
        normalPath := path[..mark.value];
        queryString := path[mark.value + 1..];
        ParseQueryString(queryString);
      } else {
        normalPath := path;
      }
    }

    // Stores the headers from a position on and returns where the scan stopped.
    method ParseHeaders(raw: string, start: nat) returns (pos: nat)
      modifies `headers
      ensures headers == Store(old(headers), HeadersFrom(raw, start).headers)
      ensures pos == HeadersFrom(raw, start).stop
    {
      pos := start;
      while pos < |raw|
        invariant Store(old(headers), HeadersFrom(raw, start).headers) == Store(headers, HeadersFrom(raw, pos).headers)
        invariant HeadersFrom(raw, start).stop == HeadersFrom(raw, pos).stop
        decreases |raw| - pos
      {
        var end := Find(raw, CRLF, pos);
        if end.None? {
          break;
        }
        if end.value == pos {
          pos := end.value + 2;
          return;
        }
        var header := ReadHeader(raw, pos, end.value);
        if header.Some? {
          headers := headers[header.value.name := header.value.value];
        }
        pos := end.value + 2;
      }
    }

    // The header of the line between two positions; the colon is looked for in the whole text.
    static method ReadHeader(raw: string, pos: nat, end: nat) returns (header: Option<Pair>)
      requires pos <= end <= |raw|
      ensures header == HeaderOf(raw[pos..end])
    {
      var colon := Find(raw, ":", pos);
      FindInSlice(raw, ":", pos, end);
      if colon.None? || colon.value >= end {
        return None;
      }
      HeaderAt(raw, pos, colon.value, end);
      var name := raw[pos..colon.value];
      var valueStart := colon.value + 1;
      if valueStart < end && raw[valueStart] == ' ' {
        valueStart := valueStart + 1;
      }
      header := Some(Pair(name, raw[valueStart..end]));
    }

    method ParseQueryString(text: string)
      modifies `query
      ensures query == Store(old(query), Items(SegmentsFrom(text, 0)))
    {
      var start := 0;
      while start < |text|
        invariant Store(old(query), Items(SegmentsFrom(text, 0))) == Store(query, Items(SegmentsFrom(text, start)))
        decreases |text| - start
      {
        var item, next := NextItem(text, start, query);
        query := query[item.name := item.value];
        start := next;
      }
    }

    // The item of the segment at a position, and the position behind its ampersand.
    static method NextItem(text: string, start: nat, ghost m: map<string, string>) returns (item: Pair, next: nat)
      requires start < |text|
      ensures start < next
      ensures Store(m, Items(SegmentsFrom(text, start))) ==
              Store(m[item.name := item.value], Items(SegmentsFrom(text, next)))
    {
      var end := SegmentEnd(text, start);
      item := ReadItem(text, start, end);
      StoreNextItem(m, text, start, end);
      next := end + 1;
    }

    // Storing the item of the first segment, and then those of the others.
    static lemma StoreNextItem(m: map<string, string>, text: string, start: nat, end: nat)
      requires start <= end <= |text| && start < |text|
      requires '&' !in text[start..end] && (end < |text| ==> text[end] == '&')
      ensures var item := Item(text[start..end]);
              Store(m, Items(SegmentsFrom(text, start))) ==
              Store(m[item.name := item.value], Items(SegmentsFrom(text, end + 1)))
    {
      NextSegment(text, start, end);
      ItemsOfNext(text[start..end], SegmentsFrom(text, end + 1));
      TailOfConcat([Item(text[start..end])], Items(SegmentsFrom(text, end + 1)));
    }

    method SetParam(key: string, value: string)
      modifies `params
      ensures params == old(params)[key := value]
    {
      params := params[key := value];
    }

    method SetQuery(key: string, value: string)
      modifies `query
      ensures query == old(query)[key := value]
    {
      query := query[key := value];
    }
  }
}
