// The program's WebSocket: reading a frame into the connection's frame record, and the frames
// that the server and the client write.

module WebSockets {
  import opened Bytes
  import opened WebSocketFrames
  import opened Wrappers

  datatype Frame = Frame(
    fin: bool, opcode: byte, mask: bool, payloadLength: nat, maskingKey: MaskingKey,
    payloadData: seq<byte>, textPayload: seq<byte>)

  // Thrown stands for the exception of a vector that is resized beyond its limit.
  datatype FrameResult = Whole | Refused | Thrown

  datatype ReadResult = Fail | Text | Binary | Ping | Pong | Threw

  // A frame record with the header fields that have arrived; a Close frame is not looked at
  // beyond its first byte.
  function WithHeader(f: Frame, data: seq<byte>): Frame {
    if |data| < 2 then f
    else
      var first := f.(fin := data[0] & 0x80 != 0, opcode := data[0] & 0x0F);
      if IsClose(data) then first
      else WithLength(first.(mask := IsMasked(data)), data)
  }

  function WithLength(f: Frame, data: seq<byte>): Frame
    requires |data| >= 2
  {
    if |data| < 2 + FormSize(FormOf(data)) then f.(payloadLength := (data[1] & 0x7F) as nat)
    else if IsMasked(data) && |data| >= HeaderSize(data) then
      f.(payloadLength := LengthOf(data), maskingKey := KeyOf(data).value)
    else f.(payloadLength := LengthOf(data))
  }

  class WebSocket {
    var frame: Frame
    var byteData: seq<byte>

    constructor (rawRequest: seq<byte>)
      ensures byteData == rawRequest
      ensures frame.textPayload == [] && frame.payloadData == []
    {
      frame := Frame(false, CONTINUATION, false, 0, [0, 0, 0, 0], [], []);
      byteData := rawRequest;
    }

    // Succeeds exactly on complete frames other than Close. The payload of a text frame is
    // also kept as text; the text of an earlier frame stays otherwise. For a length whose sum
    // with the offset wraps the size test does not hold, and making room for it throws.
    method ReadFrame(data: seq<byte>) returns (result: FrameResult)
      modifies `frame
      ensures result == if IsComplete(data) then Whole else if LengthWraps(data) then Thrown else Refused
      ensures result == Whole ==>
                && frame.fin == (data[0] & 0x80 != 0) && frame.opcode == data[0] & 0x0F
                && frame.mask == IsMasked(data) && frame.payloadLength == LengthOf(data)
                && frame.maskingKey == (if IsMasked(data) then KeyOf(data).value else old(frame.maskingKey))
                && frame.payloadData == PayloadOf(data)
                && frame.textPayload == (if frame.opcode == TEXT then PayloadOf(data) else old(frame.textPayload))
      ensures result != Whole ==> frame == WithHeader(old(frame), data)
    {
      var offset := ReadHeader(data);
      if offset.None? {
        return Refused;
      }
      if |data| < offset.value + frame.payloadLength {
        return if offset.value + frame.payloadLength >= TWO_64 then Thrown else Refused;
      }
      ReadPayload(data[offset.value..offset.value + frame.payloadLength]);
      result := Whole;
    }

    // The fields before the payload, and where the payload begins.
    method ReadHeader(data: seq<byte>) returns (offset: Option<nat>)
      modifies `frame
      ensures offset.Some? <==> |data| >= 2 && !IsClose(data) && |data| >= HeaderSize(data)
      ensures offset.Some? ==> offset.value == HeaderSize(data)
      ensures frame == WithHeader(old(frame), data)
    {
      if |data| < 2 {
        return None;
      }
      frame := frame.(fin := data[0] & 0x80 != 0, opcode := data[0] & 0x0F);
      if frame.opcode == CLOSE {
        return None;
      }
      frame := frame.(mask := data[1] & 0x80 != 0, payloadLength := (data[1] & 0x7F) as nat);
      var length, at := ReadLength(data);
      if length.None? {
        return None;
      }
      frame := frame.(payloadLength := length.value);
      if frame.mask {
        if |data| < at + 4 {
          return None;
        }
        frame := frame.(maskingKey := data[at..at + 4]);
        at := at + 4;
      }
      offset := Some(at);
    }

    // The payload, unmasked if need be, and its text.
    method ReadPayload(masked: seq<byte>)
      modifies `frame
      ensures var payload := Masked(masked, if old(frame.mask) then Some(old(frame.maskingKey)) else None);
              frame == old(frame).(payloadData := payload,
                                   textPayload := if old(frame.opcode) == TEXT then payload else old(frame.textPayload))
    {
      var payload := Unmask(masked, frame.mask, frame.maskingKey);
      frame := frame.(payloadData := payload);
      if frame.opcode == TEXT {
        frame := frame.(textPayload := frame.payloadData);
      }
    }

    // The length field that a code announces: the code itself, or the two or eight bytes after it.
    static method ReadLength(data: seq<byte>) returns (length: Option<nat>, offset: nat)
      requires |data| >= 2
      ensures offset == 2 + FormSize(FormOf(data))
      ensures length == if |data| < offset then None else Some(LengthOf(data))
    {
      offset := 2;
      var code := (data[1] & 0x7F) as nat;
      CodeValue(data[1]);
      if code == 126 {
        offset := 4;
        if |data| < 4 {
          return None, offset;
        }
        TwoBytes(data[2..4]);
        length := Some(data[2] as nat * 256 + data[3] as nat);
      } else if code == 127 {
        offset := 10;
        if |data| < 10 {
          return None, offset;
        }
        var n := ReadEight(data);
        length := Some(n);
      } else {
        length := Some(code);
      }
    }

    // Eight bytes, the most significant first, each at its place.
    static method ReadEight(data: seq<byte>) returns (n: nat)
      requires |data| >= 10
      ensures n == BigEndianValue(data[2..10])
    {
      n := 0;
      assert data[2..2] == [];
      for i := 0 to 8
        invariant n == Placed(data, i)
      {
        ByteInPlace(data, i);
        n := n + data[2 + i] as nat * Pow256(7 - i);
      }
    }

    // The first i of these bytes, at their places.
    static function Placed(data: seq<byte>, i: nat): nat
      requires |data| >= 10 && i <= 8
    {
      BigEndianValue(data[2..2 + i]) * Pow256(8 - i)
    }

    static lemma ByteInPlace(data: seq<byte>, i: nat)
      requires |data| >= 10 && i < 8
      ensures Placed(data, i + 1) == Placed(data, i) + data[2 + i] as nat * Pow256(7 - i)
    {
      NextByte(data[2..2 + i], data[2 + i], 8 - i);
      assert data[2..2 + (i + 1)] == data[2..2 + i] + [data[2 + i]];
    }

    static lemma CodeValue(b: byte)
      ensures (b & 0x7F) as nat == 126 <==> b & 0x7F == 126
      ensures (b & 0x7F) as nat == 127 <==> b & 0x7F == 127
    {
    }

    static lemma TwoBytes(bytes: seq<byte>)
      requires |bytes| == 2
      ensures BigEndianValue(bytes) == bytes[0] as nat * 256 + bytes[1] as nat
    {
      assert bytes[..1][..0] == [];
      assert BigEndianValue(bytes[..1]) == bytes[0] as nat;
    }

    // Putting one more byte in its place.
    static lemma NextByte(bytes: seq<byte>, b: byte, k: nat)
      requires k > 0
      ensures BigEndianValue(bytes + [b]) * Pow256(k - 1) ==
              BigEndianValue(bytes) * Pow256(k) + b as nat * Pow256(k - 1)
    {
      var v, p, n := BigEndianValue(bytes), Pow256(k - 1), b as nat;
      assert (bytes + [b])[..|bytes|] == bytes;
      Distribute(v, n, p);
    }

    static lemma Distribute(v: int, n: int, p: int)
      ensures (v * 256 + n) * p == v * (256 * p) + n * p
    {
    }

    static method Unmask(masked: seq<byte>, mask: bool, key: MaskingKey) returns (payload: seq<byte>)
      ensures payload == Masked(masked, if mask then Some(key) else None)
    {
      payload := [];
      for i := 0 to |masked|
        invariant payload == Masked(masked, if mask then Some(key) else None)[..i]
      {
        var b := masked[i];
        if mask {
          b := b ^ key[i % 4];
        }
        payload := payload + [b];
      }
    }

    // The text is handed out whatever the opcode, so for other frames it is the text of an
    // earlier text frame, if any. Without a frame the message stays.
    method Read(msg: seq<byte>) returns (result: ReadResult, msg': seq<byte>)
      modifies `frame
      ensures IsComplete(byteData) ==>
                && result == ResultOf(byteData[0] & 0x0F) && msg' == frame.textPayload
                && frame.payloadData == PayloadOf(byteData)
                && frame.textPayload == if result == Text then PayloadOf(byteData) else old(frame.textPayload)
      ensures !IsComplete(byteData) ==>
                && result == (if LengthWraps(byteData) then Threw else Fail) && msg' == msg
                && frame == WithHeader(old(frame), byteData)
    {
      var read := ReadFrame(byteData);
      if read != Whole {
        return if read == Thrown then Threw else Fail, msg;
      }
      msg' := frame.textPayload;
      result := ResultOf(frame.opcode);
    }
  }

  function ResultOf(opcode: byte): ReadResult {
    if opcode == TEXT then Text
    else if opcode == BINARY then Binary
    else if opcode == PING then Ping
    else if opcode == PONG then Pong
    else Fail
  }

  // --- The encoders ---

  // The length field of WebSocketClient::sendMessage and sendPing: every length, in its shortest form.
  method LengthField(len: nat) returns (field: seq<byte>)
    requires len < TWO_64
    ensures field == [LengthCode(len, FormFor(len))] + ExtendedLength(len, FormFor(len))
  {
    if len <= 125 {
      field := [ToByte(len)];
    } else if len <= 65535 {
      field := [126];
      field := field + [ByteAt(len, 1)];
      field := field + [ByteAt(len, 0)];
      assert BigEndian(len, 1) == [ByteAt(len, 0)];
    } else {
      field := PushBytes([127], len);
    }
  }

  // The eight bytes of a long length, the most significant first.
  method PushBytes(start: seq<byte>, len: nat) returns (field: seq<byte>)
    ensures field == start + BigEndian(len, 8)
  {
    field := start;
    var i := 8;
    while i > 0
      invariant 0 <= i <= 8 && field + BigEndian(len, i) == start + BigEndian(len, 8)
    {
      i := i - 1;
      field := field + [ByteAt(len, i)];
    }
  }

  lemma Unmasked(first: byte, form: LengthForm, payload: seq<byte>)
    requires FitsForm(|payload|, form)
    ensures Framed(first, form, None, payload) ==
            [first] + ([LengthCode(|payload|, form)] + ExtendedLength(|payload|, form)) + payload
  {
    OrZero(LengthCode(|payload|, form));
  }

  lemma OrZero(b: byte)
    ensures 0 | b == b
  {
  }

  method ClientMessage(message: seq<byte>, isBinary: bool) returns (frame: seq<byte>)
    requires |message| < TWO_64
    ensures frame == Framed(0x80 | if isBinary then BINARY else TEXT, FormFor(|message|), None, message)
  {
    frame := [0x80 | if isBinary then 0x02 else 0x01];
    var field := LengthField(|message|);
    frame := frame + field;
    frame := frame + message;
    Unmasked(frame[0], FormFor(|message|), message);
  }

  method ClientPing(payload: seq<byte>) returns (frame: seq<byte>)
    requires |payload| < TWO_64
    ensures frame == Framed(0x80 | PING, FormFor(|payload|), None, payload)
  {
    frame := [0x89];
    var field := LengthField(|payload|);
    frame := frame + field;
    frame := frame + payload;
    Unmasked(frame[0], FormFor(|payload|), payload);
  }

  // WebSocket::send: the eight length bytes of a long message are left out.
  function ServerFrame(message: seq<byte>, opcode: byte): seq<byte> {
    if |message| <= 65535 then Framed(0x80 | opcode, FormFor(|message|), None, message)
    else [0x80 | opcode, 127] + message
  }

  method ServerSend(message: seq<byte>, opcode: byte) returns (buffer: seq<byte>)
    requires opcode == TEXT || opcode == BINARY
    ensures buffer == ServerFrame(message, opcode)
  {
    buffer := [0x80 | opcode];
    if |message| < 126 {
      buffer := buffer + [ToByte(|message|)];
    } else if |message| <= 0xFFFF {
      buffer := buffer + [126];
      buffer := buffer + [ByteAt(|message|, 1)];
      buffer := buffer + [ByteAt(|message|, 0)];
      TwoBytesAt(|message|);
    } else {
      buffer := buffer + [127];
    }
    buffer := buffer + message;
    if |message| <= 65535 {
      Unmasked(0x80 | opcode, FormFor(|message|), message);
    }
  }

  lemma TwoBytesAt(n: nat)
    ensures BigEndian(n, 2) == [ByteAt(n, 1), ByteAt(n, 0)]
  {
    assert BigEndian(n, 1) == [ByteAt(n, 0)];
  }

  // writeFrame: the length code alone, and the key if the frame is masked.
  function FirstByte(fin: bool, opcode: byte): byte {
    (if fin then 0x80 else 0x00) | opcode
  }

  function CodeFor(n: nat): byte {
    if n < 126 then ToByte(n) else if n <= 0xFFFF then 126 else 127
  }

  function BareFrame(message: seq<byte>, fin: bool, opcode: byte, key: Option<MaskingKey>): seq<byte> {
    [FirstByte(fin, opcode), MaskBit(key) | CodeFor(|message|)] + KeyBytes(key) + Masked(message, key)
  }

  // The random key of a masked frame is a parameter.
  method WriteFrame(message: seq<byte>, fin: bool, opcode: byte, key: Option<MaskingKey>) returns (frame: seq<byte>)
    ensures frame == BareFrame(message, fin, opcode, key)
  {
    frame := [FirstByte(fin, opcode)];
    if key.Some? {
      frame := frame + [0x80 | CodeFor(|message|)];
      frame := frame + key.value;
      frame := PushMasked(frame, message, key.value);
    } else {
      frame := frame + [CodeFor(|message|)];
      frame := frame + message;
      OrZero(CodeFor(|message|));
    }
  }

  method PushMasked(start: seq<byte>, message: seq<byte>, key: MaskingKey) returns (frame: seq<byte>)
    ensures frame == start + Masked(message, Some(key))
  {
    frame := start;
    ghost var masked := Masked(message, Some(key));
    for i := 0 to |message|
      invariant frame == start + masked[..i]
    {
      frame := frame + [message[i] ^ key[i % 4]];
      assert masked[..i + 1] == masked[..i] + [masked[i]];
    }
    assert masked[..|message|] == masked;
  }

  // --- Which frames are read back ---

  predicate Recovers(data: seq<byte>, message: seq<byte>) {
    IsComplete(data) && PayloadOf(data) == message
  }

  lemma FirstByteRead(fin: bool, opcode: byte)
    requires opcode < 16
    ensures FirstByte(fin, opcode) & 0x0F == opcode && (FirstByte(fin, opcode) & 0x80 != 0 <==> fin)
  {
  }

  // The server's frames are read back exactly up to 65535 bytes: beyond that the reader takes
  // the first bytes of the message for the missing length.
  lemma ServerFrameRead(message: seq<byte>, opcode: byte)
    requires opcode == TEXT || opcode == BINARY
    ensures Recovers(ServerFrame(message, opcode), message) <==> |message| <= 65535
  {
    FirstByteRead(true, opcode);
    var data := ServerFrame(message, opcode);
    if |message| <= 65535 {
      FrameRoundTrip(0x80 | opcode, FormFor(|message|), None, message, []);
      assert data + [] == data;
    } else {
      assert data[1] == 127;
      assert FormOf(data) == Bits64;
      assert IsComplete(data) ==> |PayloadOf(data)| == LengthOf(data) < |message|;
    }
  }

  // writeFrame's frames are read back exactly up to 125 bytes, masked or not.
  lemma BareFrameRead(message: seq<byte>, fin: bool, opcode: byte, key: Option<MaskingKey>)
    requires opcode < 16 && opcode != CLOSE
    ensures Recovers(BareFrame(message, fin, opcode, key), message) <==> |message| <= 125
  {
    FirstByteRead(fin, opcode);
    if |message| <= 125 {
      ShortBareFrame(message, FirstByte(fin, opcode), key);
    } else {
      LongBareFrame(message, FirstByte(fin, opcode), key);
    }
  }

  lemma ShortBareFrame(message: seq<byte>, first: byte, key: Option<MaskingKey>)
    requires |message| <= 125 && first & 0x0F != CLOSE
    ensures Recovers([first, MaskBit(key) | CodeFor(|message|)] + KeyBytes(key) + Masked(message, key), message)
  {
    var data := [first, MaskBit(key) | CodeFor(|message|)] + KeyBytes(key) + Masked(message, key);
    assert data == Framed(first, Bits7, key, message);
    FrameRoundTrip(first, Bits7, key, message, []);
    assert data + [] == data;
  }

  lemma LongBareFrame(message: seq<byte>, first: byte, key: Option<MaskingKey>)
    requires |message| > 125
    ensures !Recovers([first, MaskBit(key) | CodeFor(|message|)] + KeyBytes(key) + Masked(message, key), message)
  {
    var data := [first, MaskBit(key) | CodeFor(|message|)] + KeyBytes(key) + Masked(message, key);
    assert data[1] == MaskBit(key) | CodeFor(|message|);
    MaskedCode(key);
    assert FormOf(data) != Bits7;
    assert IsComplete(data) ==> |PayloadOf(data)| == LengthOf(data) < |message|;
  }

  lemma MaskedCode(key: Option<MaskingKey>)
    ensures (MaskBit(key) | 126) & 0x7F == 126 && (MaskBit(key) | 127) & 0x7F == 127
    ensures (MaskBit(key) | 126) & 0x80 != 0 <==> key.Some?
    ensures (MaskBit(key) | 127) & 0x80 != 0 <==> key.Some?
  {
  }

  // The bytes that are written: the code and the flags, the key if there is one, and each byte of
  // the message combined with the key byte of its place.
  lemma BareFrameBytes(message: seq<byte>, fin: bool, opcode: byte, key: Option<MaskingKey>, i: nat)
    requires opcode < 16 && i < |message|
    ensures var frame, at := BareFrame(message, fin, opcode, key), if key.Some? then 6 else 2;
            && |frame| == at + |message|
            && frame[0] & 0x0F == opcode && (frame[0] & 0x80 != 0 <==> fin)
            && (frame[1] & 0x80 != 0 <==> key.Some?)
            && (key.Some? ==> frame[2..6] == key.value)
            && frame[at + i] == if key.Some? then message[i] ^ key.value[i % 4] else message[i]
  {
    var frame := BareFrame(message, fin, opcode, key);
    FirstByteRead(fin, opcode);
    SecondByte(CodeFor(|message|), key);
    assert frame[1] == MaskBit(key) | CodeFor(|message|);
    ThreeParts([FirstByte(fin, opcode), frame[1]], KeyBytes(key), Masked(message, key), i);
  }

  lemma ThreeParts(head: seq<byte>, key: seq<byte>, masked: seq<byte>, i: nat)
    requires i < |masked|
    ensures var frame := head + key + masked;
            frame[|head|..|head| + |key|] == key && frame[|head| + |key| + i] == masked[i]
  {
  }

  lemma SecondByte(code: byte, key: Option<MaskingKey>)
    requires code <= 127
    ensures (MaskBit(key) | code) & 0x80 != 0 <==> key.Some?
  {
  }

  const HELLO: seq<byte> := [0x48, 0x65, 0x6C, 0x6C, 0x6F]
  const HELLO_KEY: MaskingKey := [0x37, 0xFA, 0x21, 0x3D]
  const HELLO_FRAME: seq<byte> := [0x81, 0x85, 0x37, 0xFA, 0x21, 0x3D, 0x7F, 0x9F, 0x4D, 0x51, 0x58]

  // The masked text message of section 5.7 of RFC 6455.
  lemma MaskedHello()
    ensures BareFrame(HELLO, true, TEXT, Some(HELLO_KEY)) == HELLO_FRAME
    ensures IsComplete(HELLO_FRAME) && PayloadOf(HELLO_FRAME) == HELLO
  {
    HelloMasked();
    HelloStart();
    assert BareFrame(HELLO, true, TEXT, Some(HELLO_KEY)) == HELLO_FRAME;
    BareFrameRead(HELLO, true, TEXT, Some(HELLO_KEY));
  }

  lemma HelloMasked()
    ensures Masked(HELLO, Some(HELLO_KEY)) == [0x7F, 0x9F, 0x4D, 0x51, 0x58]
  {
  }

  lemma HelloStart()
    ensures FirstByte(true, TEXT) == 0x81 && MaskBit(Some(HELLO_KEY)) | CodeFor(5) == 0x85
  {
  }

  // What is read of frames by their opcodes, as section 5.2 of RFC 6455 has them; frames of other
  // opcodes are read as failures.
  lemma ResultsOfOpcodes(opcode: byte)
    ensures ResultOf(0x1) == Text && ResultOf(0x2) == Binary && ResultOf(0x9) == Ping && ResultOf(0xA) == Pong
    ensures opcode != 0x1 && opcode != 0x2 && opcode != 0x9 && opcode != 0xA ==> ResultOf(opcode) == Fail
    ensures CLOSE == 0x8 && CONTINUATION == 0x0
  {
  }

  // A fresh connection reads the client's ping as one, and a pong with any payload that fits.
  method ReadPing(payload: seq<byte>) returns (result: ReadResult)
    requires |payload| < TWO_64
    ensures result == Ping
  {
    var frame := ClientPing(payload);
    WholeFrameRead(0x80 | PING, FormFor(|payload|), None, payload);
    var ws := new WebSocket(frame);
    var msg;
    result, msg := ws.Read([]);
  }

  lemma PongRead(payload: seq<byte>, key: Option<MaskingKey>)
    requires |payload| < TWO_64
    ensures var frame := Framed(0x8A, FormFor(|payload|), key, payload);
            IsComplete(frame) && PayloadOf(frame) == payload && ResultOf(frame[0] & 0x0F) == Pong
  {
    WholeFrameRead(0x8A, FormFor(|payload|), key, payload);
  }

  // A refused frame leaves the payloads of earlier frames.
  lemma RefusedKeepsPayload(f: Frame, data: seq<byte>)
    ensures var f' := WithHeader(f, data);
            && f'.payloadData == f.payloadData && f'.textPayload == f.textPayload
            && (|data| < 2 ==> f' == f)
            && (|data| >= 2 ==> f'.fin == (data[0] & 0x80 != 0) && f'.opcode == data[0] & 0x0F)
  {
  }

  // --- Telling frames from requests ---

  function GetWebSocketFrame(data: seq<byte>): Option<byte> {
    if |data| < 2 then None
    else
      var opcode := data[0] & 0x0F;
      if opcode > 0xA then None
      else if data[0] & 0x80 != 0 && opcode <= 0xA then Some(opcode)
      else None
  }

  // A frame that some opcode was written into is known by it, if it is final and the opcode is not
  // above the last one in use; other frames, and all texts in ASCII, are taken for requests.
  lemma FramesAndRequests(data: seq<byte>, fin: bool, opcode: byte)
    requires |data| >= 2 && opcode < 16
    ensures data[0] == FirstByte(fin, opcode) ==>
              GetWebSocketFrame(data) == if fin && opcode <= 0xA then Some(opcode) else None
    ensures data[0] < 0x80 ==> GetWebSocketFrame(data) == None
  {
    FirstByteRead(fin, opcode);
  }
}
