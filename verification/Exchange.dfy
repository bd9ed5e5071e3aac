// Whole exchanges: from the client's request to its handler, from the handler's response back
// to the client, and from a WebSocket client's message to the server, each through the reads
// that take it in.

module Exchange {
  import opened HeaderText
  import opened Pairs
  import opened RequestText
  import opened RouteSpec
  import opened Text
  import opened UrlQuery
  import opened Wrappers
  import HttpRequest
  import HttpResponse
  import RequestLaws
  import ResponseLaws
  import ResponseText
  import RouteLaws
  import Routing
  import Reading
  import Sending
  import StatusLaws
  import Bytes
  import WebSocketFrames
  import WebSockets

  // --- The request ---

  // The server's part: what one read has taken is parsed as a request and looked up.
  method FindHandler(router: Routing.Router, raw: string)
    returns (request: HttpRequest.Request, handler: Option<Handler>)
    requires router.Valid()
    ensures fresh(request) && request.Contents() == RequestText.Parsed(raw)
    ensures var m := RequestText.Parsed(raw);
            var walked := Walk(WalksOf(router.registrations), Root, SplitPath(PathOf(m.path)), map[]);
            && request.params == walked.params
            && handler == RouteLaws.Matched(router.registrations, m.verb, SplitPath(PathOf(m.path)), map[])
  {
    request := new HttpRequest.Request(raw);
    ghost var m := request.Contents();
    handler := router.Match(request);
    assert request.Contents() == m;
  }

  // The path of a request for some segments and some encoded query items.
  function Target(segments: seq<string>, texts: seq<Pair>): string {
    RouteLaws.JoinPath(segments) + "?" + QueryText(texts)
  }

  predicate IsSegmentText(segment: string) {
    RouteLaws.IsPart(segment) && '?' !in segment
  }

  // Whatever is registered, a read of the request that a client prints for some segments and
  // query pairs gets the handler, the query pairs and the parameters that the route list gives
  // them, if it takes the whole request line, and otherwise is no request at all.
  lemma RequestReachesHandler(regs: seq<Registration>, verb: string, segments: seq<string>,
                              texts: seq<Pair>, pairs: seq<Pair>, host: string, keepAlive: bool, k: nat)
    requires forall i :: 0 <= i < |segments| ==> IsSegmentText(segments[i])
    requires |texts| == |pairs| && forall i :: 0 <= i < |pairs| ==> EncodesPair(texts[i], pairs[i])
    requires RequestLaws.IsPrintable(verb, Target(segments, texts))
    requires k <= |ClientText(verb, Target(segments, texts), host, keepAlive)|
    ensures var target := Target(segments, texts);
            var m := RequestText.Parsed(ClientText(verb, target, host, keepAlive)[..k]);
            if k < |RequestLaws.PrintedLine(verb, target)| + 2 then m == RequestText.EMPTY
            else
              && m.query == Store(map[], pairs)
              && RouteLaws.Matched(regs, m.verb, SplitPath(PathOf(m.path)), map[]) ==
                 RouteLaws.Matched(regs, verb, segments, map[])
  {
    var target := Target(segments, texts);
    ClientTextLine(verb, target, host, keepAlive);
    RequestLaws.CutRequest(verb, target, AfterLine(host, keepAlive), k);
    TargetRead(segments, texts);
    QueryRoundTrip(texts, pairs);
  }

  // The text of the client's request.
  function ClientText(verb: string, target: string, host: string, keepAlive: bool): string {
    Printed(RequestLaws.PrintedLine(verb, target), RequestLaws.ClientHeaders(host, keepAlive), "")
  }

  function AfterLine(host: string, keepAlive: bool): string {
    PrintedHeaders(RequestLaws.ClientHeaders(host, keepAlive)) + CRLF + ""
  }

  lemma ClientTextLine(verb: string, target: string, host: string, keepAlive: bool)
    ensures ClientText(verb, target, host, keepAlive) ==
            RequestLaws.PrintedLine(verb, target) + CRLF + AfterLine(host, keepAlive)
  {
  }

  // Some read has the request exactly if its line fits in the buffer with its end.
  lemma RequestArrivesExactly(verb: string, target: string, host: string, keepAlive: bool, tls: bool)
    requires RequestLaws.IsPrintable(verb, target)
    ensures var raw := ClientText(verb, target, host, keepAlive);
            (exists k :: 0 <= k <= |raw| && k <= Reading.ServerLimit(tls)
                         && RequestLaws.HasLine(RequestText.Parsed(raw[..k]), verb, target)) <==>
            |RequestLaws.PrintedLine(verb, target)| <= if tls then 4093 else 1022
  {
    ClientTextLine(verb, target, host, keepAlive);
    RequestLaws.LineFitsExactly(verb, target, AfterLine(host, keepAlive), Reading.ServerLimit(tls));
  }

  // What is no request reaches no route that was registered for some method.
  lemma EmptyReachesNothing(regs: seq<Registration>)
    requires forall i :: 0 <= i < |regs| ==> regs[i].verb != ""
    ensures var m := RequestText.EMPTY;
            RouteLaws.Matched(regs, m.verb, SplitPath(PathOf(m.path)), map[]) == None
  {
    RouteLaws.EmptyPath();
    NoEmptyVerb(regs, Root);
  }

  lemma {:induction false} NoEmptyVerb(regs: seq<Registration>, p: Shape)
    requires forall i :: 0 <= i < |regs| ==> regs[i].verb != ""
    ensures FirstHandler(regs, "", p) == None
  {
    if |regs| > 0 {
      NoEmptyVerb(regs[..|regs| - 1], p);
    }
  }

  lemma TargetRead(segments: seq<string>, texts: seq<Pair>)
    requires forall i :: 0 <= i < |segments| ==> IsSegmentText(segments[i])
    ensures SplitPath(PathOf(Target(segments, texts))) == segments
    ensures QueryPart(Target(segments, texts)) == Some(QueryText(texts))
  {
    var target, path, query := Target(segments, texts), RouteLaws.JoinPath(segments), QueryText(texts);
    NoMarkInPath(segments);
    assert target[0..] == path + "?" + query;
    FindAfter(target, 0, path, "?", query);
    Pieces(target, 0, path, "?", query);
    assert target[..|path|] == target[0..|path|];
    assert forall i :: 0 <= i < |segments| ==> IsSegmentText(segments[i]);
    RouteLaws.SplitPathJoin(segments);
  }

  lemma {:induction false} NoMarkInPath(segments: seq<string>)
    requires forall i :: 0 <= i < |segments| ==> IsSegmentText(segments[i])
    ensures '?' !in RouteLaws.JoinPath(segments)
    decreases |segments|
  {
    if |segments| > 0 {
      NoMarkInPath(segments[1..]);
      assert IsSegmentText(segments[0]);
    }
  }

  // --- The response ---

  // The server's part: a response is built and sent, and nothing is sent for no content.
  method Respond(response: HttpResponse.Response, transport: Sending.Transport, readFile: string -> string)
    returns (verdict: Option<Sending.Verdict>)
    modifies response, transport
    ensures response.status == old(response.status)
    ensures response.content == if HttpResponse.NamesFile(old(response.contentType), old(response.content))
                                then readFile(old(response.content)) else old(response.content)
    ensures verdict.None? <==> old(response.content) == ""
    ensures response.headers ==
            if verdict.None? then old(response.headers)
            else ResponseText.BuiltHeaders(old(response.headers), response.contentType, |response.content|, false)
    ensures verdict.None? ==> transport.accepted == old(transport.accepted)
    ensures var before := old(transport.accepted);
            && before <= transport.accepted
            && (verdict.Some? ==>
                  var sent, text := transport.accepted[|before|..], TextOf(response);
                  sent <= text && (verdict == Some(Sending.Sent) <==> sent == text))
  {
    var text := response.Build(false, readFile);
    if text.None? {
      return None;
    }
    TextIsLong(response.status, response.headers, response.content);
    var sent := Sending.SendResponse(transport, text.value);
    SentAll(old(transport.accepted), transport.accepted, text.value);
    verdict := Some(sent);
  }

  ghost function TextOf(response: HttpResponse.Response): string
    reads response
  {
    ResponseText.BuiltText(response.status, response.headers, response.content)
  }

  lemma TextIsLong(s: ResponseText.Status, h: ResponseText.Headers, content: string)
    ensures ResponseText.BuiltText(s, h, content) != ""
  {
    assert |ResponseText.StatusLine(s)| >= 9;
  }

  lemma SentAll(before: string, after: string, text: string)
    requires before <= after
    ensures after == before + text <==> after[|before|..] == text
  {
  }

  // What the client has of a response: no text that it parses, or what it makes of it.
  datatype Reception = NoResponse(ending: Reading.Ending) | Response(parsed: ResponseText.Parsed)

  // The client's part: the reads are put together and parsed.
  method Receive(sent: string, recvs: seq<Reading.Recv>, tls: bool, undefined: ResponseText.ContentType)
    returns (reception: Reception)
    ensures var p := Reading.ReadUnder(|sent|, recvs, tls);
            && p.count <= |sent|
            && reception == if p.ending == Reading.Finished then Response(ResponseText.ParsedResponse(sent[..p.count]))
                            else NoResponse(p.ending)
  {
    var raw, ending := Reading.ReadResponse(sent, recvs, tls);
    if ending != Reading.Finished {
      return NoResponse(ending);
    }
    var error, response := HttpResponse.ParseResponse(raw, undefined);
    reception := Response(if error.Some? then ResponseText.Failed(error.value)
                          else ResponseText.Parsed(response.status, response.headers, response.content));
  }

  // Under every schedule of writes and reads the client has a first part of the text, perhaps
  // with a shorter content, and has all of it exactly if everything was sent and no read stopped
  // the loop before the end.
  method RespondAndReceive(response: HttpResponse.Response, transport: Sending.Transport, readFile: string -> string,
                           recvs: seq<Reading.Recv>, undefined: ResponseText.ContentType)
    returns (verdict: Option<Sending.Verdict>, reception: Reception)
    modifies response, transport
    ensures response.status == old(response.status)
    ensures response.content == if HttpResponse.NamesFile(old(response.contentType), old(response.content))
                                then readFile(old(response.content)) else old(response.content)
    ensures response.headers ==
            if verdict.None? then old(response.headers)
            else ResponseText.BuiltHeaders(old(response.headers), response.contentType, |response.content|, false)
    ensures verdict.None? <==> old(response.content) == ""
    ensures verdict.None? ==> transport.accepted == old(transport.accepted) && IsNothing(reception)
    ensures verdict.Some? ==>
              var before := old(transport.accepted);
              && before <= transport.accepted
              && IsReception(reception, response.status, response.headers, response.content,
                             transport.accepted[|before|..], recvs, transport.tls)
              && (verdict == Some(Sending.Sent) <==> transport.accepted == before + TextOf(response))
  {
    ghost var before := transport.accepted;
    var length := |transport.accepted|;
    verdict := Respond(response, transport, readFile);
    var sent := transport.accepted[length..];
    SentAll(before, transport.accepted, TextOf(response));
    reception := Receive(sent, recvs, transport.tls, undefined);
    if verdict.Some? {
      ReceptionIs(response.status, response.headers, response.content, sent, recvs, transport.tls, reception);
    }
  }

  // The client gets no response.
  predicate IsNothing(reception: Reception) {
    reception.Response? ==> reception.parsed == ResponseText.Failed(ResponseText.MissingTerminator)
  }

  // What the client has of a response when so much of its text has been sent.
  ghost predicate IsReception(reception: Reception, s: ResponseText.Status, h: ResponseText.Headers, content: string,
                              sent: string, recvs: seq<Reading.Recv>, tls: bool)
  {
    var text, p := ResponseText.BuiltText(s, h, content), Reading.ReadUnder(|sent|, recvs, tls);
    && p.count <= |sent| <= |text|
    && (reception.Response? <==> p.ending == Reading.Finished)
    && (reception.NoResponse? ==> reception.ending == p.ending)
    && (reception.Response? && IsReadable(h) ==> reception.parsed == ReadCut(s, h, content, p.count))
    && (p == Reading.Progress(|text|, Reading.Finished) <==> sent == text && Reading.TakesAll(|text|, recvs, tls))
  }

  lemma ReceptionIs(s: ResponseText.Status, h: ResponseText.Headers, content: string, sent: string,
                    recvs: seq<Reading.Recv>, tls: bool, reception: Reception)
    requires sent <= ResponseText.BuiltText(s, h, content)
    requires var p := Reading.ReadUnder(|sent|, recvs, tls);
             && p.count <= |sent|
             && reception == if p.ending == Reading.Finished then Response(ResponseText.ParsedResponse(sent[..p.count]))
                             else NoResponse(p.ending)
    ensures IsReception(reception, s, h, content, sent, recvs, tls)
  {
    var text, p := ResponseText.BuiltText(s, h, content), Reading.ReadUnder(|sent|, recvs, tls);
    Reading.ReadAllExactly(|sent|, recvs, tls);
    assert sent[..p.count] == text[..p.count];
    if IsReadable(h) {
      ReadCutIs(s, h, content, p.count);
    }
  }

  // Headers that the client can read: trimmed names and values of one line.
  ghost predicate IsReadable(h: ResponseText.Headers) {
    ResponseLaws.HasFields(h) && ResponseLaws.IsTrimmed(h) && "Connection" in h
  }

  // What the client makes of a response: its headers and content, with the status that is read.
  ghost function ReadBack(s: ResponseText.Status, h: ResponseText.Headers, content: string): ResponseText.Parsed {
    match ResponseLaws.ReadStatus(s, h, content)
    case None => ResponseText.Failed(ResponseText.BadStatus)
    case Some(status) => ResponseText.ParsedBody(status, h, content)
  }

  // What the client makes of the first k characters of it: nothing without the blank line, and
  // otherwise the response with a content that may be shorter.
  ghost function ReadCut(s: ResponseText.Status, h: ResponseText.Headers, content: string, k: nat): ResponseText.Parsed
    requires k <= |ResponseText.BuiltText(s, h, content)|
  {
    ResponseLaws.CutContent(s, h, content, k);
    var head := ResponseLaws.HeadLength(s, h);
    if k < head then ResponseText.Failed(ResponseText.MissingTerminator) else ReadBack(s, h, content[..k - head])
  }

  lemma ReadCutIs(s: ResponseText.Status, h: ResponseText.Headers, content: string, k: nat)
    requires IsReadable(h) && k <= |ResponseText.BuiltText(s, h, content)|
    ensures ResponseText.ParsedResponse(ResponseText.BuiltText(s, h, content)[..k]) == ReadCut(s, h, content, k)
  {
    var head := ResponseLaws.HeadLength(s, h);
    ResponseLaws.CutBuilt(s, h, content, k);
    if k >= head {
      ResponseLaws.BuiltParsed(s, h, content[..k - head]);
    }
  }

  // The server's answer when there is no handler and no file. Only GET and HEAD get one; with
  // default headers without an HTTP/1.1 in them the client has the 404 and its text exactly if
  // everything was sent and read.
  method RespondNotFound(verb: string, response: HttpResponse.Response, transport: Sending.Transport,
                         readFile: string -> string, recvs: seq<Reading.Recv>, undefined: ResponseText.ContentType)
    returns (verdict: Option<Sending.Verdict>, reception: Reception)
    requires response.content == ""
    modifies response, transport
    ensures verdict.Some? <==> verb == "GET" || verb == "HEAD"
    ensures verdict.Some? ==> response.content == NOT_FOUND && response.status == 404
    ensures verdict.None? ==> transport.accepted == old(transport.accepted) && IsNothing(reception)
    ensures verdict.Some? && IsReadable(response.headers) && !ResponseText.IsChunked(response.headers)
            && Find(StatusLaws.Rest(response.headers, NOT_FOUND), ResponseText.HTTP_1_1, 0).None? ==>
              (reception == Response(ResponseText.Parsed(404, response.headers, NOT_FOUND)) <==>
               && verdict == Some(Sending.Sent)
               && Reading.TakesAll(|TextOf(response)|, recvs, transport.tls))
  {
    if verb == "GET" || verb == "HEAD" {
      response.SetContent(NOT_FOUND, ResponseText.PLAIN_TEXT, 404);
    }
    ghost var before := transport.accepted;
    verdict, reception := RespondAndReceive(response, transport, readFile, recvs, undefined);
    if verdict.Some? {
      ghost var sent := transport.accepted[|before|..];
      SentAll(before, transport.accepted, TextOf(response));
      NotFoundReceived(response.headers, sent, recvs, transport.tls, reception);
    }
  }

  lemma NotFoundReceived(h: ResponseText.Headers, sent: string, recvs: seq<Reading.Recv>, tls: bool,
                         reception: Reception)
    requires IsReception(reception, 404, h, NOT_FOUND, sent, recvs, tls)
    ensures IsReadable(h) && !ResponseText.IsChunked(h)
            && Find(StatusLaws.Rest(h, NOT_FOUND), ResponseText.HTTP_1_1, 0).None? ==>
              var text := ResponseText.BuiltText(404, h, NOT_FOUND);
              (reception == Response(ResponseText.Parsed(404, h, NOT_FOUND)) <==>
               sent == text && Reading.TakesAll(|text|, recvs, tls))
  {
    NotFoundRead(h);
  }

  // Only the whole text is read as the page.
  lemma NotFoundRead(h: ResponseText.Headers)
    ensures IsReadable(h) && !ResponseText.IsChunked(h)
            && Find(StatusLaws.Rest(h, NOT_FOUND), ResponseText.HTTP_1_1, 0).None? ==>
              forall k: nat :: k <= |ResponseText.BuiltText(404, h, NOT_FOUND)| ==>
                (ReadCut(404, h, NOT_FOUND, k) == ResponseText.Parsed(404, h, NOT_FOUND) <==>
                 k == |ResponseText.BuiltText(404, h, NOT_FOUND)|)
  {
    if IsReadable(h) && !ResponseText.IsChunked(h) {
      forall k: nat | k <= |ResponseText.BuiltText(404, h, NOT_FOUND)|
        ensures ReadCut(404, h, NOT_FOUND, k).Parsed? ==>
                  |ReadCut(404, h, NOT_FOUND, k).content| + ResponseLaws.HeadLength(404, h) == k
      {
        CutLength(404, h, NOT_FOUND, k);
      }
      ResponseLaws.CutBuilt(404, h, NOT_FOUND, 0);
      assert NOT_FOUND[..|NOT_FOUND|] == NOT_FOUND;
    }
  }

  // A body that is not chunked comes back as long as it was read.
  lemma CutLength(s: ResponseText.Status, h: ResponseText.Headers, content: string, k: nat)
    requires IsReadable(h) && !ResponseText.IsChunked(h) && k <= |ResponseText.BuiltText(s, h, content)|
    ensures var r := ReadCut(s, h, content, k);
            r.Parsed? ==> |r.content| + ResponseLaws.HeadLength(s, h) == k
  {
    ResponseLaws.CutBuilt(s, h, content, k);
  }

  const NOT_FOUND := "Not Found"

  // --- WebSocket messages ---

  // What the server's handler has of one read: the opcode's result and the text.
  datatype Delivery = NotAFrame | Frame(result: WebSockets.ReadResult, text: seq<Bytes.byte>)

  function FirstByteOf(isBinary: bool): Bytes.byte {
    0x80 | if isBinary then WebSocketFrames.BINARY else WebSocketFrames.TEXT
  }

  function FrameOf(message: seq<Bytes.byte>, isBinary: bool): seq<Bytes.byte>
    requires |message| < Bytes.TWO_64
  {
    WebSocketFrames.Framed(FirstByteOf(isBinary), WebSocketFrames.FormFor(|message|), None, message)
  }

  // The first k bytes of a client's frame, if a read takes so many: only all of them are the
  // message. A binary message arrives in the frame, but what is handed out with it is text, of
  // which there is none.
  function Delivered(message: seq<Bytes.byte>, isBinary: bool, k: nat): Delivery
    requires |message| < Bytes.TWO_64
  {
    if k < 2 then NotAFrame
    else if k >= |FrameOf(message, isBinary)| then
      if isBinary then Frame(WebSockets.Binary, []) else Frame(WebSockets.Text, message)
    else if k >= 10 && |message| + 10 >= Bytes.TWO_64 then Frame(WebSockets.Threw, [])
    else Frame(WebSockets.Fail, [])
  }

  // The client's message, and what one read of its frame has for a fresh connection.
  method DeliverMessage(message: seq<Bytes.byte>, isBinary: bool, count: nat, tls: bool) returns (delivery: Delivery)
    requires |message| < Bytes.TWO_64
    ensures delivery == Delivered(message, isBinary,
                                  Reading.Taken(count, Reading.ServerLimit(tls), |FrameOf(message, isBinary)|))
  {
    var frame := WebSockets.ClientMessage(message, isBinary);
    var k := Reading.Taken(count, Reading.ServerLimit(tls), |frame|);
    var piece := frame[..k];
    PieceRead(message, isBinary, k);
    if WebSockets.GetWebSocketFrame(piece).None? {
      return NotAFrame;
    }
    var ws := new WebSockets.WebSocket(piece);
    var result, received := ws.Read([]);
    delivery := Frame(result, received);
  }

  lemma FirstByteIs(isBinary: bool)
    ensures FirstByteOf(isBinary) & 0x0F == if isBinary then WebSocketFrames.BINARY else WebSocketFrames.TEXT
    ensures FirstByteOf(isBinary) & 0x80 != 0
  {
  }

  lemma PieceRead(message: seq<Bytes.byte>, isBinary: bool, k: nat)
    requires |message| < Bytes.TWO_64 && k <= |FrameOf(message, isBinary)|
    ensures var piece := FrameOf(message, isBinary)[..k];
            && (WebSockets.GetWebSocketFrame(piece).None? <==> k < 2)
            && (k >= 2 ==> piece[0] & 0x0F == if isBinary then WebSocketFrames.BINARY else WebSocketFrames.TEXT)
            && (WebSocketFrames.IsComplete(piece) <==> k == |FrameOf(message, isBinary)|)
            && (WebSocketFrames.IsComplete(piece) ==> WebSocketFrames.PayloadOf(piece) == message)
            && (k < |FrameOf(message, isBinary)| ==>
                  (WebSocketFrames.LengthWraps(piece) <==> k >= 10 && |message| + 10 >= Bytes.TWO_64))
  {
    var frame, first, form := FrameOf(message, isBinary), FirstByteOf(isBinary), WebSocketFrames.FormFor(|message|);
    FirstByteIs(isBinary);
    assert frame[0] == first;
    if k == |frame| {
      WebSocketFrames.FrameRoundTrip(first, form, None, message, []);
      assert frame + [] == frame && frame[..k] == frame;
    } else {
      WebSocketFrames.FrameIsDelimited(first, form, None, message, k);
      PieceWraps(message, first, k);
    }
  }

  lemma PieceWraps(message: seq<Bytes.byte>, first: Bytes.byte, k: nat)
    requires |message| < Bytes.TWO_64 && first & 0x0F != WebSocketFrames.CLOSE
    requires k < |WebSocketFrames.Framed(first, WebSocketFrames.FormFor(|message|), None, message)|
    ensures var piece := WebSocketFrames.Framed(first, WebSocketFrames.FormFor(|message|), None, message)[..k];
            WebSocketFrames.LengthWraps(piece) <==> k >= 10 && |message| + 10 >= Bytes.TWO_64
  {
    var form := WebSocketFrames.FormFor(|message|);
    var header := WebSocketFrames.Header(first, |message|, form, None);
    var frame := WebSocketFrames.Framed(first, form, None, message);
    assert frame == header + message;
    if k >= |header| {
      assert frame[..k] == header + message[..k - |header|];
      WebSocketFrames.HeaderRead(first, |message|, form, None, message[..k - |header|]);
    } else {
      assert frame[..k] == header[..k];
      WebSocketFrames.HeaderRead(first, |message|, form, None, []);
      assert header + [] == header;
      assert k >= 2 ==> header[..k][1] == header[1];
    }
  }

  // Some read delivers the message exactly if it leaves the four bytes of its header.
  lemma MessageArrivesExactly(message: seq<Bytes.byte>, isBinary: bool, tls: bool)
    requires |message| < Bytes.TWO_64
    ensures (exists count ::
               WasRead(Delivered(message, isBinary, Reading.Taken(count, Reading.ServerLimit(tls),
                                                                  |FrameOf(message, isBinary)|)))) <==>
            |message| <= if tls then 4091 else 1020
  {
    var frame, limit := FrameOf(message, isBinary), Reading.ServerLimit(tls);
    if |message| + 4 <= limit {
      assert WasRead(Delivered(message, isBinary, Reading.Taken(|frame|, limit, |frame|)));
    }
  }

  // What is read is a message, and not a failure.
  predicate WasRead(d: Delivery) {
    d.Frame? && (d.result.Text? || d.result.Binary?)
  }
}
