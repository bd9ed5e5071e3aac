// Base64 as section 4 of RFC 4648 defines it, and the program's loop with its 32-bit
// accumulator that is shifted and never masked.

module Base64 {
  import opened Bytes
  import opened Text
  import opened Wrappers

  type sextet = bv6

  // The lookup string: A-Z, a-z, 0-9, + and /.
  function Symbol(v: sextet): char {
    var n := v as int;
    if n < 26 then (n + 'A' as int) as char
    else if n < 52 then (n - 26 + 'a' as int) as char
    else if n < 62 then (n - 52 + '0' as int) as char
    else if n == 62 then '+' else '/'
  }

  // --- The standard: three bytes make four symbols, and a short end is padded ---

  // The four sextets of three bytes.
  function First(b0: byte): sextet { (b0 >> 2) as sextet }

  function Second(b0: byte, b1: byte): sextet { (((b0 & 3) << 4) | (b1 >> 4)) as sextet }

  function Third(b1: byte, b2: byte): sextet { (((b1 & 0xF) << 2) | (b2 >> 6)) as sextet }

  function Fourth(b2: byte): sextet { (b2 & 0x3F) as sextet }

  function Quad(b0: byte, b1: byte, b2: byte): string {
    [Symbol(First(b0)), Symbol(Second(b0, b1)), Symbol(Third(b1, b2)), Symbol(Fourth(b2))]
  }

  function Symbols(bytes: seq<byte>): string {
    if |bytes| == 0 then ""
    else if |bytes| == 1 then [Symbol(First(bytes[0])), Symbol(Second(bytes[0], 0))]
    else if |bytes| == 2 then [Symbol(First(bytes[0])), Symbol(Second(bytes[0], bytes[1])), Symbol(Third(bytes[1], 0))]
    else Quad(bytes[0], bytes[1], bytes[2]) + Symbols(bytes[3..])
  }

  function Equals(k: nat): string {
    seq(k, _ => '=')
  }

  // A text of n bytes gets as many = as it lacks bytes to a multiple of three.
  function PadCount(n: nat): nat {
    if n % 3 == 0 then 0 else 3 - n % 3
  }

  function Encoded(bytes: seq<byte>): string {
    Symbols(bytes) + Equals(PadCount(|bytes|))
  }

  lemma {:induction false} SymbolsLength(bytes: seq<byte>)
    ensures |Symbols(bytes)| + PadCount(|bytes|) == 4 * ((|bytes| + 2) / 3)
  {
    if |bytes| > 2 {
      SymbolsLength(bytes[3..]);
    }
  }

  lemma {:induction false} SymbolsConcat(a: seq<byte>, b: seq<byte>)
    requires |a| % 3 == 0
    ensures Symbols(a + b) == Symbols(a) + Symbols(b)
  {
    if |a| == 0 {
      assert a + b == b;
    } else {
      SymbolsConcat(a[3..], b);
      DropOfConcat(a, b, 3);
      assert (a + b)[0] == a[0] && (a + b)[1] == a[1] && (a + b)[2] == a[2];
      Concat(Quad(a[0], a[1], a[2]), Symbols(a[3..]), Symbols(b));
    }
  }

  // --- A reference decoder, and the round trip ---

  function Value(c: char): Option<sextet> {
    if 'A' <= c <= 'Z' then Some((c as int - 'A' as int) as sextet)
    else if 'a' <= c <= 'z' then Some((c as int - 'a' as int + 26) as sextet)
    else if '0' <= c <= '9' then Some((c as int - '0' as int + 52) as sextet)
    else if c == '+' then Some(62)
    else if c == '/' then Some(63)
    else None
  }

  lemma SymbolValue(v: sextet)
    ensures Value(Symbol(v)) == Some(v) && Symbol(v) != '='
  {
    if v < 26 {
      UpperValue(v);
    } else if v < 52 {
      LowerValue(v);
    } else {
      OtherValue(v);
    }
  }

  lemma UpperValue(v: sextet)
    requires v < 26
    ensures Value(Symbol(v)) == Some(v) && Symbol(v) != '='
  {
  }

  lemma LowerValue(v: sextet)
    requires 26 <= v < 52
    ensures Value(Symbol(v)) == Some(v) && Symbol(v) != '='
  {
  }

  lemma OtherValue(v: sextet)
    requires 52 <= v
    ensures Value(Symbol(v)) == Some(v) && Symbol(v) != '='
  {
  }

  // The alphabet of table 1 of RFC 4648: its letters and digits in order, then + and /.
  lemma Alphabet(v: sextet)
    ensures Symbol(0) == 'A' && Symbol(26) == 'a' && Symbol(52) == '0' && Symbol(62) == '+' && Symbol(63) == '/'
    ensures v < 61 && v != 25 && v != 51 ==> Symbol(v + 1) as int == Symbol(v) as int + 1
  {
  }

  function Triple(v0: sextet, v1: sextet, v2: sextet, v3: sextet): seq<byte> {
    [((v0 as byte) << 2) | ((v1 as byte) >> 4),
     ((v1 as byte) << 4) | ((v2 as byte) >> 2),
     ((v2 as byte) << 6) | (v3 as byte)]
  }

  lemma TripleOfQuad(b0: byte, b1: byte, b2: byte)
    ensures Triple(First(b0), Second(b0, b1), Third(b1, b2), Fourth(b2)) == [b0, b1, b2]
  {
  }

  function Decoded(s: string): Option<seq<byte>> {
    if |s| == 0 then Some([])
    else if |s| < 4 || Value(s[0]).None? || Value(s[1]).None? then None
    else
      var v0, v1 := Value(s[0]).value, Value(s[1]).value;
      if |s| == 4 && s[2] == '=' && s[3] == '=' then Some(Triple(v0, v1, 0, 0)[..1])
      else if Value(s[2]).None? then None
      else
        var v2 := Value(s[2]).value;
        if |s| == 4 && s[3] == '=' then Some(Triple(v0, v1, v2, 0)[..2])
        else if Value(s[3]).None? then None
        else
          var rest := Decoded(s[4..]);
          if rest.None? then None else Some(Triple(v0, v1, v2, Value(s[3]).value) + rest.value)
  }

  lemma DecodeOne(b0: byte)
    ensures Decoded([Symbol(First(b0)), Symbol(Second(b0, 0)), '=', '=']) == Some([b0])
  {
    SymbolValue(First(b0));
    SymbolValue(Second(b0, 0));
    TripleOfQuad(b0, 0, 0);
    assert Triple(First(b0), Second(b0, 0), 0, 0)[..1] == [b0];
  }

  lemma DecodeTwo(b0: byte, b1: byte)
    ensures Decoded([Symbol(First(b0)), Symbol(Second(b0, b1)), Symbol(Third(b1, 0)), '=']) == Some([b0, b1])
  {
    SymbolValue(First(b0));
    SymbolValue(Second(b0, b1));
    SymbolValue(Third(b1, 0));
    TripleOfQuad(b0, b1, 0);
    assert Triple(First(b0), Second(b0, b1), Third(b1, 0), 0)[..2] == [b0, b1];
  }

  lemma DecodeShort(bytes: seq<byte>)
    requires |bytes| < 3
    ensures Decoded(Encoded(bytes)) == Some(bytes)
  {
    if |bytes| == 1 {
      DecodeOne(bytes[0]);
      assert Encoded(bytes) == [Symbol(First(bytes[0])), Symbol(Second(bytes[0], 0)), '=', '='];
      assert bytes == [bytes[0]];
    } else if |bytes| == 2 {
      DecodeTwo(bytes[0], bytes[1]);
      assert Encoded(bytes) ==
             [Symbol(First(bytes[0])), Symbol(Second(bytes[0], bytes[1])), Symbol(Third(bytes[1], 0)), '='];
      assert bytes == [bytes[0], bytes[1]];
    }
  }

  lemma DecodeFull(b0: byte, b1: byte, b2: byte, rest: string)
    requires Decoded(rest).Some?
    ensures Decoded(Quad(b0, b1, b2) + rest) == Some([b0, b1, b2] + Decoded(rest).value)
  {
    SymbolValue(First(b0));
    SymbolValue(Second(b0, b1));
    SymbolValue(Third(b1, b2));
    SymbolValue(Fourth(b2));
    TripleOfQuad(b0, b1, b2);
    assert (Quad(b0, b1, b2) + rest)[4..] == rest;
  }

  lemma EncodedLong(bytes: seq<byte>)
    requires |bytes| >= 3
    ensures Encoded(bytes) == Quad(bytes[0], bytes[1], bytes[2]) + Encoded(bytes[3..])
  {
    assert PadCount(|bytes[3..]|) == PadCount(|bytes|);
  }

  lemma {:induction false} DecodeEncoded(bytes: seq<byte>)
    ensures Decoded(Encoded(bytes)) == Some(bytes)
  {
    if |bytes| < 3 {
      DecodeShort(bytes);
    } else {
      var rest := bytes[3..];
      DecodeEncoded(rest);
      DecodeFull(bytes[0], bytes[1], bytes[2], Encoded(rest));
      EncodedLong(bytes);
      assert bytes == [bytes[0], bytes[1], bytes[2]] + rest;
    }
  }

  // --- The program ---

  // x >> n for a signed 32-bit x: each place copies the sign bit in from the left.
  function ShiftRight(x: bv32, n: nat): bv32
    decreases n
  {
    if n == 0 then x else ShiftRight(Half(x), n - 1)
  }

  function Half(x: bv32): bv32 {
    (x >> 1) | (x & 0x8000_0000)
  }

  lemma BitsUnrolled(x: bv32)
    ensures Bits(x, 2) == (Half(Half(x)) & 0x3F) as sextet
    ensures Bits(x, 4) == (Half(Half(Half(Half(x)))) & 0x3F) as sextet
    ensures Bits(x, 6) == (Half(Half(Half(Half(Half(Half(x)))))) & 0x3F) as sextet
  {
    var y := Half(Half(x));
    var z := Half(Half(y));
    assert ShiftRight(y, 0) == y && ShiftRight(x, 2) == y;
    assert ShiftRight(z, 0) == z && ShiftRight(y, 2) == z && ShiftRight(x, 4) == ShiftRight(y, 2);
    assert ShiftRight(z, 2) == Half(Half(z)) && ShiftRight(y, 4) == ShiftRight(z, 2);
    assert ShiftRight(x, 6) == ShiftRight(y, 4);
  }

  // (val >> shift) & 0x3F
  function Bits(val: bv32, shift: nat): sextet {
    (ShiftRight(val, shift) & 0x3F) as sextet
  }

  // The symbols that the inner loop still has to emit when the shift is at valb.
  function Emit(val: bv32, valb: int): string
    decreases valb + 6
  {
    if valb < 0 then "" else [Symbol(Bits(val, valb))] + Emit(val, valb - 6)
  }

  // What goes out after a byte is shifted in is made of the last two bytes: the bits that the
  // accumulator holds above them never matter.
  lemma BitsSeeTwoBytes(val: bv32, prev: byte, c: byte)
    requires val & 0xFF == prev as bv32
    ensures ((val << 8) + c as bv32) & 0xFF == c as bv32
    ensures Bits((val << 8) + c as bv32, 2) == First(c)
    ensures Bits((val << 8) + c as bv32, 4) == Second(prev, c)
    ensures Bits((val << 8) + c as bv32, 6) == Third(prev, c)
    ensures Bits((val << 8) + c as bv32, 0) == Fourth(c)
  {
    BitsUnrolled((val << 8) + c as bv32);
  }

  lemma EmitOneOrTwo(val: bv32)
    ensures Emit(val, 2) == [Symbol(Bits(val, 2))] && Emit(val, 4) == [Symbol(Bits(val, 4))]
    ensures Emit(val, 6) == [Symbol(Bits(val, 6)), Symbol(Bits(val, 0))]
  {
    assert Emit(val, 0) == [Symbol(Bits(val, 0))];
  }

  // What the final shift emits for an incomplete block.
  lemma LastBits(val: bv32, prev: byte)
    requires val & 0xFF == prev as bv32
    ensures Bits(val << 8, 4) == Second(prev, 0)
    ensures Bits(val << 8, 6) == Third(prev, 0)
  {
    BitsUnrolled(val << 8);
  }

  // The symbols already out for a block that is not complete.
  function Pending(block: seq<byte>): string
    requires |block| < 3
  {
    if |block| == 0 then ""
    else if |block| == 1 then [Symbol(First(block[0]))]
    else [Symbol(First(block[0])), Symbol(Second(block[0], block[1]))]
  }

  // The bytes read so far, as complete blocks and a rest; and all that the loop has to keep.
  ghost predicate Read(done: seq<byte>, block: seq<byte>, val: bv32, valb: int, out: string) {
    && |done| % 3 == 0 && |block| < 3
    && valb == -6 + 2 * |block|
    && (block != [] ==> val & 0xFF == block[|block| - 1] as bv32)
    && out == Symbols(done) + Pending(block)
  }

  // The symbols that one more byte brings.
  function NextSymbols(block: seq<byte>, c: byte): string
    requires |block| < 3
  {
    if |block| == 0 then [Symbol(First(c))]
    else if |block| == 1 then [Symbol(Second(block[0], c))]
    else [Symbol(Third(block[1], c)), Symbol(Fourth(c))]
  }

  lemma EmitsNext(block: seq<byte>, val: bv32, c: byte)
    requires |block| < 3 && (|block| > 0 ==> val & 0xFF == block[|block| - 1] as bv32)
    ensures ((val << 8) + c as bv32) & 0xFF == c as bv32
    ensures Emit((val << 8) + c as bv32, 2 + 2 * |block|) == NextSymbols(block, c)
  {
    BitsSeeTwoBytes(val, (val & 0xFF) as byte, c);
    EmitOneOrTwo((val << 8) + c as bv32);
  }

  lemma ReadOne(done: seq<byte>, block: seq<byte>, val: bv32, valb: int, out: string, c: byte)
    returns (done': seq<byte>, block': seq<byte>)
    requires Read(done, block, val, valb, out)
    ensures done' + block' == done + block + [c]
    ensures Read(done', block', (val << 8) + c as bv32, -6 + 2 * |block'|, out + Emit((val << 8) + c as bv32, valb + 8))
    ensures |block'| == (|block| + 1) % 3
  {
    EmitsNext(block, val, c);
    if |block| < 2 {
      done', block' := done, block + [c];
      PendingNext(block, c);
      Concat(Symbols(done), Pending(block), NextSymbols(block, c));
    } else {
      FullBlock(done, block[0], block[1], c);
      assert block + [c] == [block[0], block[1], c];
      Concat(Symbols(done), Pending(block), NextSymbols(block, c));
      done', block' := done + (block + [c]), [];
    }
  }

  lemma PendingNext(block: seq<byte>, c: byte)
    requires |block| < 2
    ensures Pending(block + [c]) == Pending(block) + NextSymbols(block, c)
  {
  }

  lemma FullBlock(done: seq<byte>, b0: byte, b1: byte, b2: byte)
    requires |done| % 3 == 0
    ensures Symbols(done + [b0, b1, b2]) == Symbols(done) + Quad(b0, b1, b2)
  {
    SymbolsConcat(done, [b0, b1, b2]);
    OneQuad([b0, b1, b2]);
  }

  lemma OneQuad(block: seq<byte>)
    requires |block| == 3
    ensures Symbols(block) == Quad(block[0], block[1], block[2])
  {
    assert Symbols(block[3..]) == "";
  }

  // The inner loop.
  method Drain(val: bv32, valb: int, out: string) returns (valb': int, out': string)
    requires -6 <= valb
    ensures out' == out + Emit(val, valb) && -6 <= valb' < 0 && (valb - valb') % 6 == 0
  {
    valb', out' := valb, out;
    while valb' >= 0
      invariant -6 <= valb' <= valb && (valb - valb') % 6 == 0
      invariant out' + Emit(val, valb') == out + Emit(val, valb)
    {
      out' := out' + [Symbol(Bits(val, valb'))];
      valb' := valb' - 6;
    }
  }

  // The last symbol of an incomplete block.
  method Flush(val: bv32, valb: int, out: string, ghost done: seq<byte>, ghost block: seq<byte>)
    returns (out': string)
    requires Read(done, block, val, valb, out)
    ensures out' == Symbols(done + block)
  {
    out' := out;
    SymbolsConcat(done, block);
    if valb > -6 {
      LastBits(val, block[|block| - 1]);
      out' := out' + [Symbol(Bits(val << 8, valb + 8))];
    }
  }

  method PadOut(out: string, ghost k: nat) returns (out': string)
    requires (|out| + k) % 4 == 0 && k < 4
    ensures out' == out + Equals(k)
  {
    out' := out;
    while |out'| % 4 != 0
      invariant |out| <= |out'| <= |out| + k && out' == out + Equals(|out'| - |out|)
      decreases |out| + k - |out'|
    {
      out' := out' + "=";
    }
  }

  // The body of the loop over the input.
  method Absorb(val: bv32, valb: int, out: string, c: byte, ghost done: seq<byte>, ghost block: seq<byte>)
    returns (val': bv32, valb': int, out': string, ghost done': seq<byte>, ghost block': seq<byte>)
    requires Read(done, block, val, valb, out)
    ensures Read(done', block', val', valb', out') && done' + block' == done + block + [c]
  {
    done', block' := ReadOne(done, block, val, valb, out, c);
    val' := (val << 8) + c as bv32;
    valb', out' := Drain(val', valb + 8, out);
  }

  method EncodeUnpadded(input: seq<byte>) returns (out: string)
    ensures out == Symbols(input)
  {
    out := "";
    var val: bv32 := 0;
    var valb := -6;
    ghost var done, block: seq<byte> := [], [];
    for i := 0 to |input|
      invariant input[..i] == done + block && Read(done, block, val, valb, out)
    {
      val, valb, out, done, block := Absorb(val, valb, out, input[i], done, block);
      assert input[..i + 1] == input[..i] + [input[i]];
    }
    out := Flush(val, valb, out, done, block);
    assert input == done + block by { assert input[..|input|] == input; }
  }

  method Encode(input: seq<byte>) returns (out: string)
    ensures out == Encoded(input)
  {
    out := EncodeUnpadded(input);
    SymbolsLength(input);
    out := PadOut(out, PadCount(|input|));
  }

  lemma EncodedLength(bytes: seq<byte>)
    ensures |Encoded(bytes)| == 4 * ((|bytes| + 2) / 3)
  {
    SymbolsLength(bytes);
  }

  // The padding is the only place where = stands.
  lemma {:induction false} SymbolsArePlain(bytes: seq<byte>)
    ensures '=' !in Symbols(bytes)
  {
    forall v: sextet ensures Symbol(v) != '=' {
      SymbolValue(v);
    }
    if |bytes| > 2 {
      SymbolsArePlain(bytes[3..]);
    }
  }

  lemma {:induction false} SymbolsAreInAlphabet(bytes: seq<byte>)
    ensures forall c :: c in Symbols(bytes) ==> Value(c).Some?
  {
    forall v: sextet ensures Value(Symbol(v)).Some? {
      SymbolValue(v);
    }
    if |bytes| > 2 {
      SymbolsAreInAlphabet(bytes[3..]);
    }
  }

  // An encoding has one line.
  lemma EncodedHasNoLineEnd(bytes: seq<byte>)
    ensures '\r' !in Encoded(bytes)
  {
    SymbolsAreInAlphabet(bytes);
    assert Value('\r').None?;
  }
}
