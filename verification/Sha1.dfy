// SHA-1 as RFC 3174 defines it, and the program's loops that compute it.

module Sha1 {
  import opened Bytes

  type word = bv32

  // The circular left shift S^n of section 3 (c).
  function LeftRotate(x: word, n: nat): word
    requires 0 < n < 32
  {
    (x << n) | (x >> (32 - n))
  }

  // --- Section 4: message padding ---

  function Zeros(k: nat): seq<byte> {
    seq(k, _ => 0)
  }

  // The zero bytes between the end marker and the length.
  function ZeroCount(n: nat): nat {
    (119 - n % 64) % 64
  }

  function Padded(message: seq<byte>): seq<byte> {
    message + [0x80] + Zeros(ZeroCount(|message|)) + BigEndian(Wrap64(|message| * 8), 8)
  }

  // --- Section 6.1: computing the digest, on lists ---

  function Choose(b: word, c: word, d: word): word { (b & c) | ((!b) & d) }

  function Parity(b: word, c: word, d: word): word { b ^ c ^ d }

  function Majority(b: word, c: word, d: word): word { (b & c) | (b & d) | (c & d) }

  function F(t: nat, b: word, c: word, d: word): word {
    if t < 20 then Choose(b, c, d)
    else if t < 40 then Parity(b, c, d)
    else if t < 60 then Majority(b, c, d)
    else Parity(b, c, d)
  }

  function K(t: nat): word {
    if t < 20 then 0x5A827999 else if t < 40 then 0x6ED9EBA1 else if t < 60 then 0x8F1BBCDC else 0xCA62C1D6
  }

  function WordAt(bytes: seq<byte>, i: nat): word
    requires i + 4 <= |bytes|
  {
    ((bytes[i] as word) << 24) | ((bytes[i + 1] as word) << 16) | ((bytes[i + 2] as word) << 8) | (bytes[i + 3] as word)
  }

  // The word W(t) of the block that starts at an offset.
  function W(bytes: seq<byte>, offset: nat, t: nat): word
    requires offset + 64 <= |bytes|
  {
    if t < 16 then WordAt(bytes, offset + 4 * t)
    else LeftRotate(W(bytes, offset, t - 3) ^ W(bytes, offset, t - 8)
                    ^ W(bytes, offset, t - 14) ^ W(bytes, offset, t - 16), 1)
  }

  datatype Registers = Registers(a: word, b: word, c: word, d: word, e: word)

  const INITIAL := Registers(0x67452301, 0xEFCDAB89, 0x98BADCFE, 0x10325476, 0xC3D2E1F0)

  function Sum(a: word, f: word, e: word, k: word, w: word): word {
    LeftRotate(a, 5) + f + e + k + w
  }

  function Round(t: nat, r: Registers, w: word): Registers {
    Registers(Sum(r.a, F(t, r.b, r.c, r.d), r.e, K(t), w), r.a, LeftRotate(r.b, 30), r.c, r.d)
  }

  // The registers after the first t rounds on a block.
  function Rounds(bytes: seq<byte>, offset: nat, h: Registers, t: nat): Registers
    requires offset + 64 <= |bytes|
  {
    if t == 0 then h else Round(t - 1, Rounds(bytes, offset, h, t - 1), W(bytes, offset, t - 1))
  }

  function Add(h: Registers, r: Registers): Registers {
    Registers(h.a + r.a, h.b + r.b, h.c + r.c, h.d + r.d, h.e + r.e)
  }

  function Block(bytes: seq<byte>, offset: nat, h: Registers): Registers
    requires offset + 64 <= |bytes|
  {
    Add(h, Rounds(bytes, offset, h, 80))
  }

  // The registers after the first n blocks.
  function Blocks(bytes: seq<byte>, n: nat): Registers
    requires 64 * n <= |bytes|
  {
    if n == 0 then INITIAL else Block(bytes, 64 * (n - 1), Blocks(bytes, n - 1))
  }

  function WordBytes(x: word): seq<byte> {
    [((x >> 24) & 0xFF) as byte, ((x >> 16) & 0xFF) as byte, ((x >> 8) & 0xFF) as byte, (x & 0xFF) as byte]
  }

  function RegisterBytes(h: Registers): (bytes: seq<byte>)
    ensures |bytes| == 20
  {
    WordBytes(h.a) + WordBytes(h.b) + WordBytes(h.c) + WordBytes(h.d) + WordBytes(h.e)
  }

  function Digest(message: seq<byte>): seq<byte> {
    var bytes := Padded(message);
    RegisterBytes(Blocks(bytes, |bytes| / 64))
  }

  // --- The program ---

  method Pad(input: seq<byte>) returns (msg: seq<byte>)
    ensures msg == Padded(input)
  {
    msg := input;
    var originalBitLength := Wrap64(|msg| * 8);
    msg := msg + [0x80];
    ghost var k := 0;
    ZeroCountIsLeast(|input|, 0);
    while |msg| % 64 != 56
      invariant k <= ZeroCount(|input|) && msg == input + [0x80] + Zeros(k)
      invariant |msg| % 64 == 56 <==> k == ZeroCount(|input|)
      decreases ZeroCount(|input|) - k
    {
      ZeroCountIsLeast(|input|, k);
      msg := msg + [0];
      k := k + 1;
      ZeroCountIsLeast(|input|, k);
    }
    msg := PushLength(msg, originalBitLength);
  }

  // Appends the length, most significant byte first.
  method PushLength(msg: seq<byte>, length: nat) returns (msg': seq<byte>)
    ensures msg' == msg + BigEndian(length, 8)
  {
    msg' := msg;
    var i := 8;
    while i > 0
      invariant 0 <= i <= 8
      invariant msg' + BigEndian(length, i) == msg + BigEndian(length, 8)
    {
      i := i - 1;
      msg' := msg' + [ByteAt(length, i)];
    }
  }

  method Schedule(msg: seq<byte>, offset: nat) returns (w: array<word>)
    requires offset + 64 <= |msg|
    ensures fresh(w) && w.Length == 80 && forall t :: 0 <= t < 80 ==> w[t] == W(msg, offset, t)
  {
    w := new word[80];
    LoadWords(msg, offset, w);
    for i := 16 to 80
      invariant forall t :: 0 <= t < i ==> w[t] == W(msg, offset, t)
    {
      LaterWord(msg, offset, i);
      w[i] := LeftRotate(w[i - 3] ^ w[i - 8] ^ w[i - 14] ^ w[i - 16], 1);
    }
  }

  // The first sixteen words are those of the block.
  method LoadWords(msg: seq<byte>, offset: nat, w: array<word>)
    requires offset + 64 <= |msg| && w.Length == 80
    modifies w
    ensures forall t :: 0 <= t < 16 ==> w[t] == W(msg, offset, t)
  {
    for i := 0 to 16
      invariant forall t :: 0 <= t < i ==> w[t] == W(msg, offset, t)
    {
      w[i] := ((msg[offset + i * 4] as word) << 24) | ((msg[offset + i * 4 + 1] as word) << 16)
              | ((msg[offset + i * 4 + 2] as word) << 8) | (msg[offset + i * 4 + 3] as word);
    }
  }

  lemma LaterWord(bytes: seq<byte>, offset: nat, t: nat)
    requires offset + 64 <= |bytes| && t >= 16
    ensures W(bytes, offset, t) ==
            LeftRotate(W(bytes, offset, t - 3) ^ W(bytes, offset, t - 8)
                       ^ W(bytes, offset, t - 14) ^ W(bytes, offset, t - 16), 1)
  {
  }

  method Mix(i: nat, b: word, c: word, d: word) returns (f: word, k: word)
    ensures f == F(i, b, c, d) && k == K(i)
  {
    if i < 20 {
      f := Choose(b, c, d);
      k := 0x5A827999;
    } else if i < 40 {
      f := Parity(b, c, d);
      k := 0x6ED9EBA1;
    } else if i < 60 {
      f := Majority(b, c, d);
      k := 0x8F1BBCDC;
    } else {
      f := Parity(b, c, d);
      k := 0xCA62C1D6;
    }
  }

  method Compress(msg: seq<byte>, offset: nat, h: Registers) returns (h': Registers)
    requires offset + 64 <= |msg|
    ensures h' == Block(msg, offset, h)
  {
    var w := Schedule(msg, offset);
    var a, b, c, d, e := h.a, h.b, h.c, h.d, h.e;
    for i := 0 to 80
      invariant forall t :: 0 <= t < 80 ==> w[t] == W(msg, offset, t)
      invariant Registers(a, b, c, d, e) == Rounds(msg, offset, h, i)
    {
      assert Rounds(msg, offset, h, i + 1) == Round(i, Registers(a, b, c, d, e), w[i]);
      var f, k := Mix(i, b, c, d);
      var temp := Sum(a, f, e, k, w[i]);
      e := d;
      d := c;
      c := LeftRotate(b, 30);
      b := a;
      a := temp;
    }
    h' := Add(h, Registers(a, b, c, d, e));
  }

  // The blocks of a padded message, one after the other.
  method HashBlocks(msg: seq<byte>) returns (h: Registers)
    requires |msg| % 64 == 0
    ensures h == Blocks(msg, |msg| / 64)
  {
    h := INITIAL;
    var offset := 0;
    while offset < |msg|
      invariant offset <= |msg| && offset % 64 == 0 && h == Blocks(msg, offset / 64)
    {
      h := Compress(msg, offset, h);
      offset := offset + 64;
    }
  }

  method Hash(input: seq<byte>) returns (hash: seq<byte>)
    ensures hash == Digest(input) && |hash| == 20
  {
    var msg := Pad(input);
    PaddedLength(input);
    var h := HashBlocks(msg);
    hash := RegisterBytes(h);
  }

  // --- The padding of section 4 ---

  lemma ZeroCountIsLeast(n: nat, k: nat)
    requires k <= ZeroCount(n)
    ensures (n + 1 + k) % 64 == 56 <==> k == ZeroCount(n)
  {
  }

  lemma RoomForLength(n: nat)
    ensures (n + 9 + ZeroCount(n)) % 64 == 0
  {
  }

  // The padded length is the least multiple of 64 that has room for the marker and the length.
  lemma PaddedLength(message: seq<byte>)
    ensures |Padded(message)| % 64 == 0
    ensures |message| + 9 <= |Padded(message)| < |message| + 9 + 64
  {
    assert |Padded(message)| == |message| + 9 + ZeroCount(|message|);
    RoomForLength(|message|);
  }

  // It ends with the length in bits, for any message that the standard allows.
  lemma PaddedEndsWithLength(message: seq<byte>)
    requires |message| * 8 < TWO_64
    ensures var p := Padded(message);
            |p| >= 8 && BigEndianValue(p[|p| - 8..]) == |message| * 8
  {
    Suffix(message + [0x80] + Zeros(ZeroCount(|message|)), BigEndian(Wrap64(|message| * 8), 8));
    LengthRead(|message| * 8);
  }

  lemma LengthRead(n: nat)
    requires n < TWO_64
    ensures BigEndianValue(BigEndian(Wrap64(n), 8)) == n
  {
    Pow256Of8();
    BigEndianRoundTrip(n, 8);
  }

  lemma Suffix(head: seq<byte>, tail: seq<byte>)
    ensures |head + tail| >= |tail| && (head + tail)[|head + tail| - |tail|..] == tail
  {
  }

  // Different messages have different paddings.
  lemma PaddingInjective(m: seq<byte>, m': seq<byte>)
    requires Padded(m) == Padded(m')
    ensures m == m'
  {
    if |m| < |m'| {
      PaddingDiffers(m, m');
    } else if |m'| < |m| {
      PaddingDiffers(m', m);
    } else {
      assert m == Padded(m)[..|m|];
      assert m' == Padded(m')[..|m'|];
    }
  }

  // The end marker of the longer message stands where the shorter one is filled with zeros.
  lemma PaddingDiffers(m: seq<byte>, m': seq<byte>)
    requires |m| < |m'| && |Padded(m)| == |Padded(m')|
    ensures |m'| < |Padded(m)| && Padded(m)[|m'|] != Padded(m')[|m'|]
  {
    assert Padded(m')[|m'|] == 0x80;
    assert Padded(m)[|m'|] == Zeros(ZeroCount(|m|))[|m'| - |m| - 1];
  }
}
