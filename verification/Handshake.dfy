// The opening handshake of a WebSocket, section 4 of RFC 6455.

module Handshake {
  import opened Bytes
  import opened Text
  import opened Wrappers
  import Base64
  import Sha1

  const MAGIC := "258EAFA5-E914-47DA-95CA-C5AB0DC85B11"

  // The bytes of a text with one byte for each character.
  function BytesOf(s: string): seq<byte> {
    seq(|s|, i requires 0 <= i < |s| => ToByte(s[i] as nat % 256))
  }

  function AcceptKey(clientKey: string): string {
    Base64.Encoded(Sha1.Digest(BytesOf(clientKey + MAGIC)))
  }

  method ComputeAcceptKey(clientKey: string) returns (accept: string)
    ensures accept == AcceptKey(clientKey)
  {
    var hash := Sha1.Hash(BytesOf(clientKey + MAGIC));
    accept := Base64.Encode(hash);
  }

  // Every accept key has 28 characters, exactly the last of them an equals sign, and its
  // receiver can get the hash back.
  lemma AcceptKeyForm(clientKey: string)
    ensures var accept := AcceptKey(clientKey);
            && |accept| == 28
            && (forall i :: 0 <= i < 28 ==> (accept[i] == '=' <==> i == 27))
            && Base64.Decoded(accept) == Some(Sha1.Digest(BytesOf(clientKey + MAGIC)))
  {
    DigestForm(Sha1.Digest(BytesOf(clientKey + MAGIC)));
  }

  lemma DigestForm(digest: seq<byte>)
    requires |digest| == 20
    ensures var accept := Base64.Encoded(digest);
            && |accept| == 28
            && (forall i :: 0 <= i < 28 ==> (accept[i] == '=' <==> i == 27))
            && Base64.Decoded(accept) == Some(digest)
  {
    PaddedForm(digest);
    Base64.DecodeEncoded(digest);
  }

  // The last characters of an encoding, and only those, are equals signs.
  lemma PaddedForm(bytes: seq<byte>)
    ensures var encoded, pad := Base64.Encoded(bytes), Base64.PadCount(|bytes|);
            && |encoded| == 4 * ((|bytes| + 2) / 3)
            && (forall i :: 0 <= i < |encoded| ==> (encoded[i] == '=' <==> i >= |encoded| - pad))
  {
    Base64.EncodedLength(bytes);
    Base64.SymbolsArePlain(bytes);
    var symbols := Base64.Symbols(bytes);
    assert Base64.Encoded(bytes) == symbols + Base64.Equals(Base64.PadCount(|bytes|));
    assert forall i :: 0 <= i < |symbols| ==> symbols[i] in symbols;
  }

  // --- Which upgrade requests are accepted ---

  type Headers = map<string, string>

  predicate IsClientKey(key: string) {
    |key| == 24 && key[22] == '=' && key[23] == '='
  }

  predicate IsUpgrade(headers: Headers) {
    && "Upgrade" in headers && headers["Upgrade"] == "websocket"
    && "Sec-WebSocket-Key" in headers && IsClientKey(headers["Sec-WebSocket-Key"])
  }

  function SwitchingProtocols(accept: string): string {
    "HTTP/1.1 " + "101 Switching Protocols" + CRLF + "Upgrade: websocket" + CRLF + "Connection: Upgrade" + CRLF
    + ("Sec-WebSocket-Accept: " + accept + CRLF + CRLF)
  }

  // The test of the value, with its length and its first letter looked at first. A capital
  // first letter passes the second test but not the third.
  predicate NamesWebsocket(value: string) {
    |value| == 9 && (value[0] == 'w' || value[0] == 'W') && value[0..9] == "websocket"
  }

  lemma NamesWebsocketExactly(value: string)
    ensures NamesWebsocket(value) <==> value == "websocket"
  {
    if |value| == 9 {
      assert value[0..9] == value;
    }
  }

  // What happens to a request: it is no upgrade, it gets a response, or the program reads behind
  // the end of the header map, after which nothing is known.
  datatype Answer = Refused | Switching(response: string) | Undefined

  // The test of the Connection header looks at its value only where there is none: then the
  // outcome is undefined, and otherwise any value is accepted.
  method ProcessHandshake(headers: Headers) returns (answer: Answer)
    ensures answer == Undefined <==> "Upgrade" in headers && "Connection" !in headers
    ensures answer.Switching? <==> IsUpgrade(headers) && "Connection" in headers
    ensures answer.Switching? ==> answer.response == SwitchingProtocols(AcceptKey(headers["Sec-WebSocket-Key"]))
  {
    if "Upgrade" !in headers {
      return Refused;
    }
    if "Connection" !in headers {
      return Undefined;
    }
    NamesWebsocketExactly(headers["Upgrade"]);
    if !NamesWebsocket(headers["Upgrade"]) {
      return Refused;
    }
    if "Sec-WebSocket-Key" !in headers {
      return Refused;
    }
    var key := headers["Sec-WebSocket-Key"];
    if !IsClientKey(key) {
      return Refused;
    }
    var accept := ComputeAcceptKey(key);
    answer := Switching(SwitchingProtocols(accept));
  }

  // The key of every client is accepted: the base64 form of sixteen bytes.
  lemma ClientKeyAccepted(nonce: seq<byte>, headers: Headers)
    requires |nonce| == 16
    requires "Upgrade" in headers && headers["Upgrade"] == "websocket"
    requires "Sec-WebSocket-Key" in headers && headers["Sec-WebSocket-Key"] == Base64.Encoded(nonce)
    ensures IsUpgrade(headers)
  {
    PaddedForm(nonce);
  }
}
