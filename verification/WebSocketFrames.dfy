// WebSocket frames: the layout of section 5.2 of RFC 6455, the program's three encoders and
// its decoder.

module WebSocketFrames {
  import opened Bytes
  import opened Wrappers

  const CONTINUATION: byte := 0x0
  const TEXT: byte := 0x1
  const BINARY: byte := 0x2
  const CLOSE: byte := 0x8
  const PING: byte := 0x9
  const PONG: byte := 0xA

  type MaskingKey = k: seq<byte> | |k| == 4 witness [0, 0, 0, 0]

  // --- The layout ---

  // The three ways to write a payload length.
  datatype LengthForm = Bits7 | Bits16 | Bits64

  function FormFor(n: nat): LengthForm {
    if n <= 125 then Bits7 else if n <= 65535 then Bits16 else Bits64
  }

  predicate FitsForm(n: nat, form: LengthForm) {
    match form
    case Bits7 => n <= 125
    case Bits16 => n < 0x1_0000
    case Bits64 => n < TWO_64
  }

  function LengthCode(n: nat, form: LengthForm): byte
    requires FitsForm(n, form)
  {
    match form
    case Bits7 => ToByte(n)
    case Bits16 => 126
    case Bits64 => 127
  }

  function ExtendedLength(n: nat, form: LengthForm): seq<byte> {
    match form
    case Bits7 => []
    case Bits16 => BigEndian(n, 2)
    case Bits64 => BigEndian(n, 8)
  }

  function MaskBit(key: Option<MaskingKey>): byte {
    if key.Some? then 0x80 else 0
  }

  function KeyBytes(key: Option<MaskingKey>): seq<byte> {
    if key.Some? then key.value else []
  }

  function Masked(payload: seq<byte>, key: Option<MaskingKey>): seq<byte> {
    if key.None? then payload else seq(|payload|, i requires 0 <= i < |payload| => payload[i] ^ key.value[i % 4])
  }

  function Header(first: byte, n: nat, form: LengthForm, key: Option<MaskingKey>): seq<byte>
    requires FitsForm(n, form)
  {
    [first, MaskBit(key) | LengthCode(n, form)] + ExtendedLength(n, form) + KeyBytes(key)
  }

  function Framed(first: byte, form: LengthForm, key: Option<MaskingKey>, payload: seq<byte>): seq<byte>
    requires FitsForm(|payload|, form)
  {
    Header(first, |payload|, form, key) + Masked(payload, key)
  }

  lemma MaskedTwice(payload: seq<byte>, key: Option<MaskingKey>)
    ensures Masked(Masked(payload, key), key) == payload
  {
  }

  // --- Reading the layout ---

  predicate IsClose(data: seq<byte>)
    requires |data| >= 1
  {
    data[0] & 0x0F == CLOSE
  }

  function FormOf(data: seq<byte>): LengthForm
    requires |data| >= 2
  {
    var code := data[1] & 0x7F;
    if code == 126 then Bits16 else if code == 127 then Bits64 else Bits7
  }

  function FormSize(form: LengthForm): nat {
    match form
    case Bits7 => 0
    case Bits16 => 2
    case Bits64 => 8
  }

  predicate IsMasked(data: seq<byte>)
    requires |data| >= 2
  {
    data[1] & 0x80 != 0
  }

  function HeaderSize(data: seq<byte>): nat
    requires |data| >= 2
  {
    2 + FormSize(FormOf(data)) + if IsMasked(data) then 4 else 0
  }

  function LengthOf(data: seq<byte>): nat
    requires |data| >= 2 && |data| >= 2 + FormSize(FormOf(data))
  {
    match FormOf(data)
    case Bits7 => (data[1] & 0x7F) as nat
    case Bits16 => BigEndianValue(data[2..4])
    case Bits64 => BigEndianValue(data[2..10])
  }

  function KeyOf(data: seq<byte>): Option<MaskingKey>
    requires |data| >= 2 && |data| >= HeaderSize(data)
  {
    if IsMasked(data) then Some(data[HeaderSize(data) - 4..HeaderSize(data)]) else None
  }

  // All of a frame that is not a Close frame has arrived.
  predicate IsComplete(data: seq<byte>) {
    |data| >= 2 && !IsClose(data) && |data| >= HeaderSize(data) && |data| >= HeaderSize(data) + LengthOf(data)
  }

  // A whole header whose length does not fit behind it in 64 bits.
  predicate LengthWraps(data: seq<byte>) {
    |data| >= 2 && !IsClose(data) && |data| >= HeaderSize(data) && HeaderSize(data) + LengthOf(data) >= TWO_64
  }

  function PayloadOf(data: seq<byte>): seq<byte>
    requires IsComplete(data)
  {
    Masked(data[HeaderSize(data)..HeaderSize(data) + LengthOf(data)], KeyOf(data))
  }

  // --- Encoding and reading are inverse ---

  lemma HeaderRead(first: byte, n: nat, form: LengthForm, key: Option<MaskingKey>, rest: seq<byte>)
    requires FitsForm(n, form)
    ensures var data := Header(first, n, form, key) + rest;
            && data[0] == first
            && FormOf(data) == form && (IsMasked(data) <==> key.Some?)
            && HeaderSize(data) == |Header(first, n, form, key)|
            && LengthOf(data) == n && KeyOf(data) == key
  {
    var data := Header(first, n, form, key) + rest;
    CodeRead(n, form, key);
    FourParts([first, MaskBit(key) | LengthCode(n, form)], ExtendedLength(n, form), KeyBytes(key), rest);
    assert data[1] == MaskBit(key) | LengthCode(n, form);
    ExtendedRead(n, form);
  }

  lemma FourParts(start: seq<byte>, length: seq<byte>, key: seq<byte>, rest: seq<byte>)
    ensures var data, at := start + length + key + rest, |start| + |length|;
            data[|start|..at] == length && data[at..at + |key|] == key
  {
  }

  lemma ExtendedRead(n: nat, form: LengthForm)
    requires FitsForm(n, form)
    ensures |ExtendedLength(n, form)| == FormSize(form)
    ensures form != Bits7 ==> BigEndianValue(ExtendedLength(n, form)) == n
  {
    match form
    case Bits7 =>
    case Bits16 =>
      assert Pow256(2) == 0x1_0000;
      BigEndianRoundTrip(n, 2);
    case Bits64 =>
      Pow256Of8();
      BigEndianRoundTrip(n, 8);
  }

  lemma CodeRead(n: nat, form: LengthForm, key: Option<MaskingKey>)
    requires FitsForm(n, form)
    ensures var b := MaskBit(key) | LengthCode(n, form);
            && b & 0x7F == LengthCode(n, form)
            && (b & 0x80 != 0 <==> key.Some?)
            && (form == Bits7 ==> (b & 0x7F) as nat == n && b & 0x7F != 126 && b & 0x7F != 127)
  {
  }

  // A frame is read back, whatever follows it.
  lemma FrameRoundTrip(first: byte, form: LengthForm, key: Option<MaskingKey>, payload: seq<byte>, rest: seq<byte>)
    requires FitsForm(|payload|, form) && first & 0x0F != CLOSE
    ensures var data := Framed(first, form, key, payload) + rest;
            && IsComplete(data) && data[0] == first && KeyOf(data) == key
            && LengthOf(data) == |payload| && PayloadOf(data) == payload
  {
    var header, masked := Header(first, |payload|, form, key), Masked(payload, key);
    var data := Framed(first, form, key, payload) + rest;
    assert data == header + (masked + rest);
    HeaderRead(first, |payload|, form, key, masked + rest);
    assert data[|header|..|header| + |payload|] == masked;
    MaskedTwice(payload, key);
  }

  lemma WholeFrameRead(first: byte, form: LengthForm, key: Option<MaskingKey>, payload: seq<byte>)
    requires FitsForm(|payload|, form) && first & 0x0F != CLOSE
    ensures var data := Framed(first, form, key, payload);
            IsComplete(data) && data[0] == first && PayloadOf(data) == payload
  {
    FrameRoundTrip(first, form, key, payload, []);
    assert Framed(first, form, key, payload) + [] == Framed(first, form, key, payload);
  }

  // No strict prefix of a frame is complete.
  lemma FrameIsDelimited(first: byte, form: LengthForm, key: Option<MaskingKey>, payload: seq<byte>, k: nat)
    requires FitsForm(|payload|, form) && k < |Framed(first, form, key, payload)|
    ensures !IsComplete(Framed(first, form, key, payload)[..k])
  {
    var header, masked := Header(first, |payload|, form, key), Masked(payload, key);
    if k >= |header| {
      var part := masked[..k - |header|];
      assert Framed(first, form, key, payload)[..k] == header + part;
      HeaderRead(first, |payload|, form, key, part);
    } else {
      assert Framed(first, form, key, payload)[..k] == header[..k];
      CutHeader(first, |payload|, form, key, k);
    }
  }

  lemma CutHeader(first: byte, n: nat, form: LengthForm, key: Option<MaskingKey>, k: nat)
    requires FitsForm(n, form) && k < |Header(first, n, form, key)|
    ensures !IsComplete(Header(first, n, form, key)[..k])
  {
    var header := Header(first, n, form, key);
    HeaderRead(first, n, form, key, []);
    assert header + [] == header;
    if k >= 2 {
      assert header[..k][1] == header[1];
    }
  }

  // Whatever is complete begins with a frame in some form.
  lemma CompleteIsFrame(data: seq<byte>)
    requires IsComplete(data)
    ensures FitsForm(LengthOf(data), FormOf(data))
    ensures Framed(data[0], FormOf(data), KeyOf(data), PayloadOf(data)) == data[..HeaderSize(data) + LengthOf(data)]
  {
    LengthFits(data);
    var size, n := HeaderSize(data), LengthOf(data);
    var body := data[size..size + n];
    var payload := PayloadOf(data);
    assert |payload| == n && Masked(payload, KeyOf(data)) == body by { MaskedTwice(body, KeyOf(data)); }
    assert Header(data[0], n, FormOf(data), KeyOf(data)) == data[..size] by { HeaderIsPrefix(data); }
    TwoParts(data, size, size + n);
  }

  lemma TwoParts(data: seq<byte>, i: nat, j: nat)
    requires i <= j <= |data|
    ensures data[..j] == data[..i] + data[i..j]
  {
  }

  lemma HeaderIsPrefix(data: seq<byte>)
    requires |data| >= 2 && |data| >= HeaderSize(data)
    requires FitsForm(LengthOf(data), FormOf(data))
    ensures Header(data[0], LengthOf(data), FormOf(data), KeyOf(data)) == data[..HeaderSize(data)]
  {
    LengthFits(data);
    var k := 2 + FormSize(FormOf(data));
    assert data[..HeaderSize(data)] == data[..2] + data[2..k] + data[k..HeaderSize(data)];
    assert data[..2] == [data[0], data[1]];
  }

  lemma LengthFits(data: seq<byte>)
    requires |data| >= 2 && |data| >= 2 + FormSize(FormOf(data))
    ensures FitsForm(LengthOf(data), FormOf(data))
    ensures ExtendedLength(LengthOf(data), FormOf(data)) == data[2..2 + FormSize(FormOf(data))]
    ensures data[1] == (if IsMasked(data) then 0x80 else 0) | LengthCode(LengthOf(data), FormOf(data))
  {
    match FormOf(data)
    case Bits7 => SmallCode(data[1]);
    case Bits16 =>
      BigEndianInverse(data[2..4]);
      assert Pow256(2) == 0x1_0000;
    case Bits64 =>
      BigEndianInverse(data[2..10]);
      Pow256Of8();
  }

  lemma SmallCode(b: byte)
    requires b & 0x7F != 126 && b & 0x7F != 127
    ensures (b & 0x7F) as nat <= 125 && ToByte((b & 0x7F) as nat) == b & 0x7F
  {
    assert b & 0x7F <= 125;
  }

  // --- The layout byte by byte ---

  // Each byte of the payload is the byte of the data combined with the key byte of its place,
  // which are the four before the payload, or the byte itself without a mask.
  lemma PayloadBytes(data: seq<byte>, i: nat)
    requires IsComplete(data) && i < LengthOf(data)
    ensures |PayloadOf(data)| == LengthOf(data)
    ensures PayloadOf(data)[i] ==
            if data[1] & 0x80 != 0 then data[HeaderSize(data) + i] ^ data[HeaderSize(data) - 4 + i % 4]
            else data[HeaderSize(data) + i]
  {
    var size := HeaderSize(data);
    assert data[size..size + LengthOf(data)][i] == data[size + i];
    if IsMasked(data) {
      assert data[size - 4..size][i % 4] == data[size - 4 + i % 4];
    }
  }

  // The headers of the long messages in section 5.7 of RFC 6455.
  lemma HeaderOf256Bytes()
    ensures Header(0x82, 256, Bits16, None) == [0x82, 0x7E, 0x01, 0x00]
  {
    TwoBytesBig();
    PlainHeader(0x82, 256, Bits16, 0x7E);
  }

  lemma HeaderOf64Kib()
    ensures Header(0x82, 65536, Bits64, None) == [0x82, 0x7F, 0, 0, 0, 0, 0, 1, 0, 0]
  {
    EightBytesBig();
    PlainHeader(0x82, 65536, Bits64, 0x7F);
  }

  lemma PlainHeader(first: byte, n: nat, form: LengthForm, code: byte)
    requires FitsForm(n, form) && code == LengthCode(n, form)
    ensures Header(first, n, form, None) == [first, code] + ExtendedLength(n, form)
  {
    OrNothing(code);
  }

  lemma OrNothing(b: byte)
    ensures 0 | b == b
  {
  }

  lemma TwoBytesBig()
    ensures BigEndian(256, 2) == [1, 0]
  {
    OneMoreByte(256, 1, 1, 0);
    OneMoreByte(1, 0, 0, 1);
  }

  lemma EightBytesBig()
    ensures BigEndian(65536, 8) == [0, 0, 0, 0, 0, 1, 0, 0]
  {
    OneMoreByte(65536, 7, 256, 0);
    OneMoreByte(256, 6, 1, 0);
    OneMoreByte(1, 5, 0, 1);
    BigEndianZero(5);
    assert BigEndian(0, 5) == [0, 0, 0, 0, 0];
  }
}
