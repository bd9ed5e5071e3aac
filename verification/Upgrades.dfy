// The opening handshake from end to end: the client's request, the server's answer, and what the
// client looks for in it.

module Upgrades {
  import opened HeaderText
  import opened Pairs
  import opened RequestText
  import opened Text
  import opened Wrappers
  import Base64
  import Bytes
  import Decimal
  import Handshake
  import HttpRequest
  import RequestLaws

  // The headers of WebSocketClient::handshake.
  function UpgradeHeaders(host: string, port: nat, key: string): seq<Pair> {
    [Pair("Host", host + ":" + Decimal.DecimalText(port)),
     Pair("Upgrade", "websocket"),
     Pair("Connection", "Upgrade"),
     Pair("Sec-WebSocket-Key", key),
     Pair("Sec-WebSocket-Version", "13")]
  }

  function UpgradeText(path: string, host: string, port: nat, key: string): string {
    Printed(RequestLaws.PrintedLine("GET", path), UpgradeHeaders(host, port, key), "")
  }

  // The client's request, line by line; its random bytes are a parameter.
  method ClientUpgrade(path: string, host: string, port: nat, nonce: seq<Bytes.byte>) returns (request: string)
    ensures request == UpgradeText(path, host, port, Base64.Encoded(nonce))
  {
    var key := Base64.Encode(nonce);
    var number := Decimal.DecimalText(port);
    ghost var headers := UpgradeHeaders(host, port, key);
    request := "GET" + " " + path + " " + "HTTP/1.1" + CRLF;
    ghost var line := request;
    request := request + ("Host" + ": " + (host + ":" + number) + CRLF);
    request := request + ("Upgrade" + ": " + "websocket" + CRLF);
    request := request + ("Connection" + ": " + "Upgrade" + CRLF);
    request := request + ("Sec-WebSocket-Key" + ": " + key + CRLF);
    request := request + ("Sec-WebSocket-Version" + ": " + "13" + CRLF);
    FiveHeaders(line, headers);
    request := request + CRLF;
    assert request + "" == request;
  }

  lemma FiveHeaders(line: string, h: seq<Pair>)
    requires |h| == 5
    ensures line + PrintedHeaders(h) ==
            line + (HeaderLine(h[0]) + CRLF) + (HeaderLine(h[1]) + CRLF) + (HeaderLine(h[2]) + CRLF)
            + (HeaderLine(h[3]) + CRLF) + (HeaderLine(h[4]) + CRLF)
  {
    var t0 := line + (HeaderLine(h[0]) + CRLF);
    var t1 := t0 + (HeaderLine(h[1]) + CRLF);
    var t2 := t1 + (HeaderLine(h[2]) + CRLF);
    var t3 := t2 + (HeaderLine(h[3]) + CRLF);
    OneHeader(line, h, 0);
    OneHeader(t0, h, 1);
    OneHeader(t1, h, 2);
    OneHeader(t2, h, 3);
    OneHeader(t3, h, 4);
    assert h[0..] == h && h[5..] == [];
    var all := t3 + (HeaderLine(h[4]) + CRLF);
    assert all + PrintedHeaders([]) == all;
  }

  lemma OneHeader(line: string, h: seq<Pair>, i: nat)
    requires i < |h|
    ensures line + PrintedHeaders(h[i..]) == line + (HeaderLine(h[i]) + CRLF) + PrintedHeaders(h[i + 1..])
  {
    assert h[i..][1..] == h[i + 1..];
    Concat(line, HeaderLine(h[i]) + CRLF, PrintedHeaders(h[i + 1..]));
  }

  // The server's part: one read is parsed and answered.
  method AnswerUpgrade(raw: string) returns (answer: Handshake.Answer)
    ensures var headers := Parsed(raw).headers;
            && (answer == Handshake.Undefined <==> "Upgrade" in headers && "Connection" !in headers)
            && (answer.Switching? <==> Handshake.IsUpgrade(headers) && "Connection" in headers)
            && (answer.Switching? ==>
                  answer.response ==
                  Handshake.SwitchingProtocols(Handshake.AcceptKey(headers["Sec-WebSocket-Key"])))
  {
    var request := new HttpRequest.Request(raw);
    answer := Handshake.ProcessHandshake(request.headers);
  }

  // The client's test of the answer.
  predicate IsAccepted(response: string) {
    Find(response, "101 Switching Protocols", 0).Some?
  }

  // Every request of the client that is read whole is answered with the accept key of its own
  // key, and the client takes the answer.
  method ShakeHands(path: string, host: string, port: nat, nonce: seq<Bytes.byte>) returns (answer: Handshake.Answer)
    requires RequestLaws.IsPrintable("GET", path) && '\r' !in host && |nonce| == 16
    ensures answer == Handshake.Switching(
                        Handshake.SwitchingProtocols(Handshake.AcceptKey(Base64.Encoded(nonce))))
    ensures IsAccepted(answer.response)
  {
    var raw := ClientUpgrade(path, host, port, nonce);
    UpgradeRead(path, host, port, nonce);
    Handshake.ClientKeyAccepted(nonce, Parsed(raw).headers);
    answer := AnswerUpgrade(raw);
    AnswerAccepted(Handshake.AcceptKey(Base64.Encoded(nonce)));
  }

  lemma UpgradeRead(path: string, host: string, port: nat, nonce: seq<Bytes.byte>)
    requires RequestLaws.IsPrintable("GET", path) && '\r' !in host
    ensures var key := Base64.Encoded(nonce);
            var headers := Parsed(UpgradeText(path, host, port, key)).headers;
            && "Upgrade" in headers && headers["Upgrade"] == "websocket"
            && "Connection" in headers && headers["Connection"] == "Upgrade"
            && "Sec-WebSocket-Key" in headers && headers["Sec-WebSocket-Key"] == key
  {
    var headers := UpgradeHeaders(host, port, Base64.Encoded(nonce));
    UpgradeHeadersAreHeaders(host, port, nonce);
    RequestLaws.PrintedRead("GET", path, headers, "");
    UpgradeStored(host, port, Base64.Encoded(nonce));
  }

  lemma UpgradeHeadersAreHeaders(host: string, port: nat, nonce: seq<Bytes.byte>)
    requires '\r' !in host
    ensures AreHeaders(UpgradeHeaders(host, port, Base64.Encoded(nonce)))
  {
    Base64.EncodedHasNoLineEnd(nonce);
    PortHasNoLineEnd(port);
    HostIsHeader(host, Decimal.DecimalText(port));
    UpgradeIsHeader();
    ConnectionIsHeader();
    KeyIsHeader(Base64.Encoded(nonce));
    VersionIsHeader();
  }

  lemma HostIsHeader(host: string, port: string)
    requires '\r' !in host && '\r' !in port
    ensures IsHeader(Pair("Host", host + ":" + port))
  {
  }

  lemma UpgradeIsHeader()
    ensures IsHeader(Pair("Upgrade", "websocket"))
  {
  }

  lemma ConnectionIsHeader()
    ensures IsHeader(Pair("Connection", "Upgrade"))
  {
  }

  lemma KeyIsHeader(key: string)
    requires '\r' !in key
    ensures IsHeader(Pair("Sec-WebSocket-Key", key))
  {
  }

  lemma VersionIsHeader()
    ensures IsHeader(Pair("Sec-WebSocket-Version", "13"))
  {
  }

  // No name comes twice: they all have different lengths.
  lemma UpgradeStored(host: string, port: nat, key: string)
    ensures var stored := Store(map[], UpgradeHeaders(host, port, key));
            && "Upgrade" in stored && stored["Upgrade"] == "websocket"
            && "Connection" in stored && stored["Connection"] == "Upgrade"
            && "Sec-WebSocket-Key" in stored && stored["Sec-WebSocket-Key"] == key
  {
    var h := UpgradeHeaders(host, port, key);
    assert |h[0].name| == 4 && |h[1].name| == 7 && |h[2].name| == 10 && |h[3].name| == 17 && |h[4].name| == 21;
    DifferentLengths(h, 1);
    DifferentLengths(h, 2);
    DifferentLengths(h, 3);
  }

  lemma DifferentLengths(h: seq<Pair>, i: nat)
    requires i < |h| && forall j :: i < j < |h| ==> |h[j].name| != |h[i].name|
    ensures h[i].name in Store(map[], h) && Store(map[], h)[h[i].name] == h[i].value
  {
    assert IsLast(h, h[i].name, i);
    StoreKeepsLast(map[], h, h[i].name);
  }

  lemma PortHasNoLineEnd(port: nat)
    ensures '\r' !in Decimal.DecimalText(port)
  {
    Decimal.DecimalIsDigits(port);
    assert !Decimal.IsDigit('\r');
  }

  lemma AnswerAccepted(accept: string)
    ensures IsAccepted(Handshake.SwitchingProtocols(accept))
  {
    var rest := CRLF + "Upgrade: websocket" + CRLF + "Connection: Upgrade" + CRLF
                + ("Sec-WebSocket-Accept: " + accept + CRLF + CRLF);
    AnswerParts("HTTP/1.1 ", "101 Switching Protocols", "Upgrade: websocket", "Connection: Upgrade",
                "Sec-WebSocket-Accept: " + accept + CRLF + CRLF);
    StandsBehind("HTTP/1.1 ", "101 Switching Protocols", rest);
  }

  lemma AnswerParts(a: string, b: string, c: string, d: string, e: string)
    ensures a + b + CRLF + c + CRLF + d + CRLF + e == a + b + (CRLF + c + CRLF + d + CRLF + e)
  {
  }

  lemma StandsBehind(a: string, pattern: string, rest: string)
    ensures Find(a + pattern + rest, pattern, 0).Some?
  {
    var s := a + pattern + rest;
    FindIsFirst(s, pattern, 0);
    AtIsSlice(s, pattern, |a|);
    assert s[|a|..|a| + |pattern|] == pattern;
  }
}
