// Digests of known texts, followed through the words of their blocks.

module Sha1Vectors {
  import opened Bytes
  import opened Sha1
  import opened Sha1Laws

  // Some rounds of a kind, from these words and registers.
  lemma SomeRounds(
    w: nat -> word, r: nat -> Registers, t: nat, n: nat, choose: bool, majority: bool, k: word,
    w0: word, w1: word, w2: word, w3: word, w4: word, w5: word, w6: word, w7: word, w8: word, w9: word, w10: word,
    w11: word, w12: word, w13: word, w14: word, w15: word, a: word, b: word, c: word, d: word, e: word)
    requires forall i: nat :: Advances(w, r, i)
    requires forall i :: t <= i < t + n ==> IsKind(choose, majority, k, i)
    requires MachineAt(w, r, t) ==
             Machine(Window(w0, w1, w2, w3, w4, w5, w6, w7, w8, w9, w10, w11, w12, w13, w14, w15),
                     Registers(a, b, c, d, e))
    ensures MachineAt(w, r, t + n) ==
            Turns(n, choose, majority, k, w0, w1, w2, w3, w4, w5, w6, w7, w8, w9, w10, w11, w12, w13, w14, w15,
                  a, b, c, d, e)
  {
    TurnsKeep(w, r, t, n, choose, majority, k);
  }

  // --- From a message to its words ---

  lemma BlockAt(bytes: seq<byte>, offset: nat, h: Registers, q: Window)
    requires offset + 64 <= |bytes| && q == WordsFrom(bytes, offset)
    ensures var w, r := WordsOf(bytes, offset), RoundsOf(bytes, offset, h);
            && (forall i: nat :: Advances(w, r, i))
            && MachineAt(w, r, 0) == Machine(q, h)
            && Block(bytes, offset, h) == Add(h, r(80))
  {
    forall i: nat ensures Advances(WordsOf(bytes, offset), RoundsOf(bytes, offset, h), i) {
      BlockAdvances(bytes, offset, h, i);
    }
  }

  // The first sixteen words of a block.
  function WordsFrom(bytes: seq<byte>, offset: nat): Window
    requires offset + 64 <= |bytes|
  {
    var w := (t: nat) requires t < 16 => WordAt(bytes, offset + 4 * t);
    Window(w(0), w(1), w(2), w(3), w(4), w(5), w(6), w(7), w(8), w(9), w(10), w(11), w(12), w(13), w(14), w(15))
  }

  lemma WordOfBytes(bytes: seq<byte>, i: nat, b0: byte, b1: byte, b2: byte, b3: byte)
    requires i + 4 <= |bytes|
    requires bytes[i] == b0 && bytes[i + 1] == b1 && bytes[i + 2] == b2 && bytes[i + 3] == b3
    ensures WordAt(bytes, i) ==
            ((b0 as word) << 24) | ((b1 as word) << 16) | ((b2 as word) << 8) | (b3 as word)
  {
  }

  // The eight bytes of a short length.
  lemma ShortLength(n: nat, high: byte, low: byte)
    requires n == 256 * (high as nat) + low as nat
    ensures n < TWO_64 && BigEndian(n, 8) == Zeros(6) + [high, low]
  {
    OneMoreByte(n, 7, high as nat, low);
    OneMoreByte(high as nat, 6, 0, high);
    BigEndianZero(6);
  }

  lemma PaddedIs(message: seq<byte>, high: byte, low: byte)
    requires |message| * 8 == 256 * (high as nat) + low as nat
    ensures Padded(message) == message + [0x80] + Zeros(ZeroCount(|message|)) + (Zeros(6) + [high, low])
  {
    var n := |message| * 8;
    ShortLength(n, high, low);
    NoWrap(n);
  }

  lemma NoWrap(n: nat)
    requires n < TWO_64
    ensures Wrap64(n) == n
  {
  }

  // A short message in its padding.
  lemma ShortPadded(message: seq<byte>, high: byte, low: byte)
    requires |message| * 8 == 256 * (high as nat) + low as nat
    ensures var p, n := Padded(message), |message|;
            && |p| == n + 9 + ZeroCount(n) && p[..n] == message && p[n] == 0x80
            && (forall i :: n < i < |p| - 2 ==> p[i] == 0)
            && p[|p| - 2] == high && p[|p| - 1] == low
  {
    PaddedIs(message, high, low);
    PaddingParts(message, Zeros(ZeroCount(|message|)), Zeros(6), high, low);
  }

  lemma PaddingParts(message: seq<byte>, zeros: seq<byte>, six: seq<byte>, high: byte, low: byte)
    requires |six| == 6 && forall i :: 0 <= i < 6 ==> six[i] == 0
    requires forall i :: 0 <= i < |zeros| ==> zeros[i] == 0
    ensures var p, n := message + [0x80] + zeros + (six + [high, low]), |message|;
            && |p| == n + 9 + |zeros| && p[..n] == message && p[n] == 0x80
            && (forall i :: n < i < |p| - 2 ==> p[i] == 0)
            && p[|p| - 2] == high && p[|p| - 1] == low
  {
    var p, n := message + [0x80] + zeros + (six + [high, low]), |message|;
    forall i | n < i < |p| - 2 ensures p[i] == 0 {
      if i <= n + |zeros| {
        assert p[i] == zeros[i - n - 1];
      } else {
        assert p[i] == six[i - n - 1 - |zeros|];
      }
    }
  }

  lemma FirstBlock(bytes: seq<byte>)
    requires |bytes| >= 64
    ensures Blocks(bytes, 1) == Block(bytes, 0, INITIAL)
  {
    assert Blocks(bytes, 0) == INITIAL;
  }

  lemma ZeroWord(bytes: seq<byte>, i: nat)
    requires i + 4 <= |bytes| && forall j :: i <= j < i + 4 ==> bytes[j] == 0
    ensures WordAt(bytes, i) == 0
  {
  }

  // --- The text "abc" ---

  const ABC_0 := Machine(
    Window(0x61626380, 0, 0, 0, 0, 0, 0, 0, 0, 0, 0, 0, 0, 0, 0, 0x00000018),
    Registers(0x67452301, 0xEFCDAB89, 0x98BADCFE, 0x10325476, 0xC3D2E1F0))

  const ABC_10 := Machine(
    Window(0, 0, 0, 0, 0, 0x00000018, 0xC2C4C700, 0, 0x00000030, 0x85898E01, 0, 0x00000060, 0x0B131C03, 0x00000030,
      0x85898EC1, 0x16263806),
    Registers(0x8351F929, 0x4B6AE328, 0x27A301F5, 0x664F8C30, 0x0FF1F290))

  const ABC_20 := Machine(
    Window(0, 0x00000060, 0x0B131C03, 0x00000030, 0x85898EC1, 0x16263806, 0, 0x00000180, 0x2C4C700C, 0x000000F0,
      0x93AFB507, 0x5898E048, 0x8E9A9202, 0x00000600, 0xB131C0F0, 0x16263BC6),
    Registers(0xFD9E1D7D, 0xDC64901D, 0x20AA99CA, 0xD3A49608, 0xC82F758B))

  const ABC_30 := Machine(
    Window(0x93AFB507, 0x5898E048, 0x8E9A9202, 0x00000600, 0xB131C0F0, 0x16263BC6, 0x4EBED41E, 0x626380A1, 0x16263806,
      0x000018C0, 0xD2E138C4, 0x00000F00, 0x3AFB5079, 0x898E04E5, 0xE2BA3C2B, 0x000060C0),
    Registers(0xC5FBAF5D, 0x8370B52E, 0xD2AA1365, 0x6F8D7EF5, 0x12104EE9))

  const ABC_40 := Machine(
    Window(0xD2E138C4, 0x00000F00, 0x3AFB5079, 0x898E04E5, 0xE2BA3C2B, 0x000060C0, 0x053A37CD, 0x74458547, 0xDA9415ED,
      0x26380A16, 0x626383A1, 0x4EBF54DE, 0x3835B44B, 0x0000F600, 0x1E84C7A3, 0x98E04D98),
    Registers(0x32DE1CBA, 0x4C986405, 0xF718E5CF, 0x03D447F6, 0xF72EEC32))

  const ABC_50 := Machine(
    Window(0x626383A1, 0x4EBF54DE, 0x3835B44B, 0x0000F600, 0x1E84C7A3, 0x98E04D98, 0x651D16A0, 0x62658CA1, 0x458544D6,
      0x44584CB7, 0x7BA06619, 0x6380AEA2, 0x0AE55269, 0x627B49A1, 0x7CD45C9D, 0x000F0000),
    Registers(0x120731C5, 0xBAF39337, 0xAFAB40B2, 0x2806E11B, 0x8714787C))

  const ABC_60 := Machine(
    Window(0x7BA06619, 0x6380AEA2, 0x0AE55269, 0x627B49A1, 0x7CD45C9D, 0x000F0000, 0xFB50753A, 0xEC6765E8, 0xBA3C2BE2,
      0x0060C000, 0x3A37CD05, 0x458546F4, 0xB8599DD6, 0x380A1A26, 0x01E02203, 0xE7CC3456),
    Registers(0x3F52DE5A, 0x09D785FD, 0x3498BFD4, 0xF211824F, 0xD79915AB))

  const ABC_70 := Machine(
    Window(0x3A37CD05, 0x458546F4, 0xB8599DD6, 0x380A1A26, 0x01E02203, 0xE7CC3456, 0xE6E60B69, 0x00F60A00, 0x5795EF4F,
      0x822E0879, 0x7E577CE2, 0x07EF2103, 0x8544E945, 0xEB39DAB8, 0xC205991A, 0x80AECB63),
    Registers(0x3F2588C2, 0x497093C0, 0xDE37534A, 0x030F7CAD, 0x4405957E))

  const ABC_END := Registers(0x42541B35, 0x5738D5E1, 0x21834873, 0x681E6DF6, 0xD8FDF6AD)

  lemma AbcFrom0(w: nat -> word, r: nat -> Registers)
    requires (forall i: nat :: Advances(w, r, i)) && MachineAt(w, r, 0) == ABC_0
    ensures MachineAt(w, r, 10) == ABC_10
  {
    SomeRounds(w, r, 0, 10, true, false, 0x5A827999, 0x61626380, 0, 0, 0, 0, 0, 0, 0, 0, 0, 0, 0, 0, 0, 0, 0x00000018,
      0x67452301, 0xEFCDAB89, 0x98BADCFE, 0x10325476, 0xC3D2E1F0);
  }

  lemma AbcFrom10(w: nat -> word, r: nat -> Registers)
    requires (forall i: nat :: Advances(w, r, i)) && MachineAt(w, r, 10) == ABC_10
    ensures MachineAt(w, r, 20) == ABC_20
  {
    SomeRounds(w, r, 10, 10, true, false, 0x5A827999, 0, 0, 0, 0, 0, 0x00000018, 0xC2C4C700, 0, 0x00000030,
      0x85898E01, 0, 0x00000060, 0x0B131C03, 0x00000030, 0x85898EC1, 0x16263806, 0x8351F929, 0x4B6AE328, 0x27A301F5,
      0x664F8C30, 0x0FF1F290);
  }

  lemma AbcFrom20(w: nat -> word, r: nat -> Registers)
    requires (forall i: nat :: Advances(w, r, i)) && MachineAt(w, r, 20) == ABC_20
    ensures MachineAt(w, r, 30) == ABC_30
  {
    SomeRounds(w, r, 20, 10, false, false, 0x6ED9EBA1, 0, 0x00000060, 0x0B131C03, 0x00000030, 0x85898EC1, 0x16263806,
      0, 0x00000180, 0x2C4C700C, 0x000000F0, 0x93AFB507, 0x5898E048, 0x8E9A9202, 0x00000600, 0xB131C0F0, 0x16263BC6,
      0xFD9E1D7D, 0xDC64901D, 0x20AA99CA, 0xD3A49608, 0xC82F758B);
  }

  lemma AbcFrom30(w: nat -> word, r: nat -> Registers)
    requires (forall i: nat :: Advances(w, r, i)) && MachineAt(w, r, 30) == ABC_30
    ensures MachineAt(w, r, 40) == ABC_40
  {
    SomeRounds(w, r, 30, 10, false, false, 0x6ED9EBA1, 0x93AFB507, 0x5898E048, 0x8E9A9202, 0x00000600, 0xB131C0F0,
      0x16263BC6, 0x4EBED41E, 0x626380A1, 0x16263806, 0x000018C0, 0xD2E138C4, 0x00000F00, 0x3AFB5079, 0x898E04E5,
      0xE2BA3C2B, 0x000060C0, 0xC5FBAF5D, 0x8370B52E, 0xD2AA1365, 0x6F8D7EF5, 0x12104EE9);
  }

  lemma AbcFrom40(w: nat -> word, r: nat -> Registers)
    requires (forall i: nat :: Advances(w, r, i)) && MachineAt(w, r, 40) == ABC_40
    ensures MachineAt(w, r, 50) == ABC_50
  {
    SomeRounds(w, r, 40, 10, false, true, 0x8F1BBCDC, 0xD2E138C4, 0x00000F00, 0x3AFB5079, 0x898E04E5, 0xE2BA3C2B,
      0x000060C0, 0x053A37CD, 0x74458547, 0xDA9415ED, 0x26380A16, 0x626383A1, 0x4EBF54DE, 0x3835B44B, 0x0000F600,
      0x1E84C7A3, 0x98E04D98, 0x32DE1CBA, 0x4C986405, 0xF718E5CF, 0x03D447F6, 0xF72EEC32);
  }

  lemma AbcFrom50(w: nat -> word, r: nat -> Registers)
    requires (forall i: nat :: Advances(w, r, i)) && MachineAt(w, r, 50) == ABC_50
    ensures MachineAt(w, r, 60) == ABC_60
  {
    SomeRounds(w, r, 50, 10, false, true, 0x8F1BBCDC, 0x626383A1, 0x4EBF54DE, 0x3835B44B, 0x0000F600, 0x1E84C7A3,
      0x98E04D98, 0x651D16A0, 0x62658CA1, 0x458544D6, 0x44584CB7, 0x7BA06619, 0x6380AEA2, 0x0AE55269, 0x627B49A1,
      0x7CD45C9D, 0x000F0000, 0x120731C5, 0xBAF39337, 0xAFAB40B2, 0x2806E11B, 0x8714787C);
  }

  lemma AbcFrom60(w: nat -> word, r: nat -> Registers)
    requires (forall i: nat :: Advances(w, r, i)) && MachineAt(w, r, 60) == ABC_60
    ensures MachineAt(w, r, 70) == ABC_70
  {
    SomeRounds(w, r, 60, 10, false, false, 0xCA62C1D6, 0x7BA06619, 0x6380AEA2, 0x0AE55269, 0x627B49A1, 0x7CD45C9D,
      0x000F0000, 0xFB50753A, 0xEC6765E8, 0xBA3C2BE2, 0x0060C000, 0x3A37CD05, 0x458546F4, 0xB8599DD6, 0x380A1A26,
      0x01E02203, 0xE7CC3456, 0x3F52DE5A, 0x09D785FD, 0x3498BFD4, 0xF211824F, 0xD79915AB);
  }

  lemma AbcFrom70(w: nat -> word, r: nat -> Registers)
    requires (forall i: nat :: Advances(w, r, i)) && MachineAt(w, r, 70) == ABC_70
    ensures r(80) == ABC_END
  {
    SomeRounds(w, r, 70, 10, false, false, 0xCA62C1D6, 0x3A37CD05, 0x458546F4, 0xB8599DD6, 0x380A1A26, 0x01E02203,
      0xE7CC3456, 0xE6E60B69, 0x00F60A00, 0x5795EF4F, 0x822E0879, 0x7E577CE2, 0x07EF2103, 0x8544E945, 0xEB39DAB8,
      0xC205991A, 0x80AECB63, 0x3F2588C2, 0x497093C0, 0xDE37534A, 0x030F7CAD, 0x4405957E);
  }

  lemma AbcRounds(w: nat -> word, r: nat -> Registers)
    requires (forall i: nat :: Advances(w, r, i)) && MachineAt(w, r, 0) == ABC_0
    ensures r(80) == ABC_END
  {
    AbcFrom0(w, r);
    AbcFrom10(w, r);
    AbcFrom20(w, r);
    AbcFrom30(w, r);
    AbcFrom40(w, r);
    AbcFrom50(w, r);
    AbcFrom60(w, r);
    AbcFrom70(w, r);
  }

  const ABC: seq<byte> := [0x61, 0x62, 0x63]

  lemma AbcPadded()
    ensures |Padded(ABC)| == 64 && WordsFrom(Padded(ABC), 0) == ABC_0.q
  {
    var p := Padded(ABC);
    ShortPadded(ABC, 0, 24);
    assert p[0] == p[..3][0] && p[1] == p[..3][1] && p[2] == p[..3][2];
    AbcWords(p);
  }

  lemma AbcWords(p: seq<byte>)
    requires |p| == 64 && p[0] == 0x61 && p[1] == 0x62 && p[2] == 0x63 && p[3] == 0x80 && p[62] == 0 && p[63] == 24
    requires forall i :: 4 <= i < 62 ==> p[i] == 0
    ensures WordsFrom(p, 0) == ABC_0.q
  {
    WordOfBytes(p, 0, 0x61, 0x62, 0x63, 0x80);
    forall i | 4 <= i < 60 ensures WordAt(p, i) == 0 {
      ZeroWord(p, i);
    }
    WordOfBytes(p, 60, 0, 0, 0, 24);
  }

  // The digest of section 7.3 of RFC 3174.
  lemma AbcDigest()
    ensures Digest(ABC) == ABC_DIGEST
  {
    AbcPadded();
    AbcBlock(Padded(ABC));
  }

  lemma AbcBlock(p: seq<byte>)
    requires |p| == 64 && WordsFrom(p, 0) == ABC_0.q
    ensures RegisterBytes(Blocks(p, 1)) == ABC_DIGEST
  {
    BlockAt(p, 0, INITIAL, ABC_0.q);
    AbcRounds(WordsOf(p, 0), RoundsOf(p, 0, INITIAL));
    FirstBlock(p);
    AbcSum();
  }

  const ABC_DIGEST: seq<byte> := [
    0xA9, 0x99, 0x3E, 0x36, 0x47, 0x06, 0x81, 0x6A, 0xBA, 0x3E,
    0x25, 0x71, 0x78, 0x50, 0xC2, 0x6C, 0x9C, 0xD0, 0xD8, 0x9D]

  lemma AbcSum()
    ensures RegisterBytes(Add(INITIAL, ABC_END)) == ABC_DIGEST
  {
    assert Add(INITIAL, ABC_END) == Registers(0xA9993E36, 0x4706816A, 0xBA3E2571, 0x7850C26C, 0x9CD0D89D);
  }
}
