// Bytes, and unsigned numbers as big-endian bytes.

module Bytes {
  type byte = bv8

  // By counting, which the solver follows better than the conversion of an arbitrary number.
  function ToByte(x: nat): (b: byte)
    requires x < 256
    ensures b as nat == x
  {
    if x == 0 then 0 else ToByte(x - 1) + 1
  }

  const TWO_64 := 0x1_0000_0000_0000_0000

  // What a 64-bit unsigned variable keeps of a result.
  function Wrap64(n: nat): (r: nat)
    ensures n < TWO_64 ==> r == n
    ensures r < TWO_64
  {
    n % TWO_64
  }

  function Pow256(k: nat): (p: nat)
    ensures p > 0
  {
    if k == 0 then 1 else 256 * Pow256(k - 1)
  }

  // n >> 8 * k, for an unsigned n.
  function ShiftBytes(n: nat, k: nat): nat {
    if k == 0 then n else ShiftBytes(n / 256, k - 1)
  }

  // (n >> 8 * k) & 0xFF.
  function ByteAt(n: nat, k: nat): byte {
    ToByte(ShiftBytes(n, k) % 256)
  }

  function BigEndianValue(bytes: seq<byte>): nat {
    if |bytes| == 0 then 0 else BigEndianValue(bytes[..|bytes| - 1]) * 256 + bytes[|bytes| - 1] as nat
  }

  // The low k bytes of n, the most significant first.
  function BigEndian(n: nat, k: nat): (bytes: seq<byte>)
    ensures |bytes| == k
  {
    if k == 0 then [] else [ByteAt(n, k - 1)] + BigEndian(n, k - 1)
  }

  // The last byte of the big-endian form is the remainder by 256.
  lemma {:induction false} BigEndianLast(n: nat, k: nat)
    ensures BigEndian(n, k + 1) == BigEndian(n / 256, k) + [ToByte(n % 256)]
  {
    if k > 0 {
      BigEndianLast(n, k - 1);
    }
  }

  lemma {:induction false} BigEndianRoundTrip(n: nat, k: nat)
    requires n < Pow256(k)
    ensures BigEndianValue(BigEndian(n, k)) == n
  {
    if k > 0 {
      var bytes := BigEndian(n, k);
      assert bytes == BigEndian(n / 256, k - 1) + [ToByte(n % 256)] by { BigEndianLast(n, k - 1); }
      assert n / 256 < Pow256(k - 1);
      BigEndianRoundTrip(n / 256, k - 1);
      assert BigEndianValue(bytes) == n / 256 * 256 + n % 256 by {
        assert bytes[..|bytes| - 1] == BigEndian(n / 256, k - 1);
      }
    }
  }

  lemma {:induction false} BigEndianInverse(bytes: seq<byte>)
    ensures BigEndianValue(bytes) < Pow256(|bytes|)
    ensures BigEndian(BigEndianValue(bytes), |bytes|) == bytes
  {
    if |bytes| > 0 {
      var k := |bytes| - 1;
      var v := BigEndianValue(bytes[..k]);
      BigEndianInverse(bytes[..k]);
      OneMoreByte(v * 256 + bytes[k] as nat, k, v, bytes[k]);
      assert bytes == bytes[..k] + [bytes[k]];
    }
  }

  lemma {:induction false} BigEndianZero(k: nat)
    ensures BigEndian(0, k) == seq(k, _ => 0)
  {
    if k > 0 {
      BigEndianLast(0, k - 1);
      BigEndianZero(k - 1);
    }
  }

  lemma OneMoreByte(n: nat, k: nat, rest: nat, last: byte)
    requires n == 256 * rest + last as nat
    ensures BigEndian(n, k + 1) == BigEndian(rest, k) + [last]
  {
    BigEndianLast(n, k);
    DigitsOf(rest, last);
  }

  lemma DigitsOf(v: nat, last: byte)
    ensures (v * 256 + last as nat) / 256 == v
    ensures ToByte((v * 256 + last as nat) % 256) == last
  {
  }

  lemma Pow256Of8()
    ensures Pow256(8) == TWO_64
  {
    assert Pow256(4) == 0x1_0000_0000;
  }
}
