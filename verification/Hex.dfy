// Hexadecimal numbers and the entity tags made of them.

module Hex {
  import opened Bytes
  import opened Text
  import opened Wrappers

  type digit = x: int | 0 <= x < 16

  function Digit(d: digit): char {
    if d < 10 then (d + '0' as int) as char else (d - 10 + 'a' as int) as char
  }

  // Either case is read; only lower case is printed.
  function DigitValue(c: char): Option<digit> {
    if '0' <= c <= '9' then Some(c as int - '0' as int)
    else if 'a' <= c <= 'f' then Some(c as int - 'a' as int + 10)
    else if 'A' <= c <= 'F' then Some(c as int - 'A' as int + 10)
    else None
  }

  // --- Positional notation ---

  function HexText(n: nat): string {
    if n < 16 then [Digit(n)] else HexText(n / 16) + [Digit(n % 16)]
  }

  predicate IsHex(s: string) {
    forall i :: 0 <= i < |s| ==> DigitValue(s[i]).Some?
  }

  function HexValue(s: string): nat
    requires IsHex(s)
  {
    if |s| == 0 then 0 else HexValue(s[..|s| - 1]) * 16 + DigitValue(s[|s| - 1]).value
  }

  // The digits read after a number that has been read so far, in 64 bits.
  function ReadHexFrom(s: string, out: nat): Option<nat> {
    if |s| == 0 then Some(out)
    else
      match DigitValue(s[0])
      case None => None
      case Some(d) => ReadHexFrom(s[1..], Wrap64(out * 16 + d))
  }

  function ReadHex(s: string): Option<nat> {
    ReadHexFrom(s, 0)
  }

  // What is read: the value modulo 2^64, if every character is a digit.
  lemma ReadHexIsValue(s: string)
    ensures ReadHex(s) == if IsHex(s) then Some(Wrap64(HexValue(s))) else None
  {
    assert s + "" == s;
    if IsHex(s) {
      DigitsRead(s, "");
    } else {
      var i :| 0 <= i < |s| && DigitValue(s[i]).None?;
      NotHex(s, i, 0);
    }
  }

  lemma {:induction false} DigitsRead(s: string, rest: string)
    requires IsHex(s)
    ensures ReadHex(s + rest) == ReadHexFrom(rest, Wrap64(HexValue(s)))
  {
    if |s| == 0 {
      assert s + rest == rest;
    } else {
      var init, last := s[..|s| - 1], s[|s| - 1];
      DigitsRead(init, [last] + rest);
      assert s + rest == init + ([last] + rest);
      ShiftIn(HexValue(init), DigitValue(last).value);
    }
  }

  lemma {:induction false} NotHex(s: string, i: nat, out: nat)
    requires i < |s| && DigitValue(s[i]).None?
    ensures ReadHexFrom(s, out).None?
  {
    if i > 0 && DigitValue(s[0]).Some? {
      NotHex(s[1..], i - 1, Wrap64(out * 16 + DigitValue(s[0]).value));
    }
  }

  lemma DigitRoundTrip(d: digit)
    ensures DigitValue(Digit(d)) == Some(d)
  {
  }

  lemma {:induction false} HexTextIsHex(n: nat)
    ensures IsHex(HexText(n)) && HexValue(HexText(n)) == n && |HexText(n)| > 0
  {
    DigitRoundTrip(n % 16);
    if n >= 16 {
      HexTextIsHex(n / 16);
      assert HexText(n)[..|HexText(n)| - 1] == HexText(n / 16);
    } else {
      assert HexText(n)[..0] == "";
    }
  }

  lemma HexRoundTrip(n: nat)
    requires n < TWO_64
    ensures ReadHex(HexText(n)) == Some(n)
  {
    HexTextIsHex(n);
    ReadHexIsValue(HexText(n));
  }

  lemma {:induction false} NoLeadingZero(n: nat)
    ensures HexText(n)[0] == '0' <==> n == 0
  {
    if n >= 16 {
      NoLeadingZero(n / 16);
      HexTextIsHex(n / 16);
    }
  }

  // Capitals are read as the small letters, which have the values ten to fifteen.
  lemma DigitTable(c: char)
    ensures 'A' <= c <= 'F' ==> DigitValue(c) == DigitValue((c as int + 32) as char)
    ensures DigitValue('0') == Some(0) && DigitValue('9') == Some(9)
    ensures DigitValue('a') == Some(10) && DigitValue('b') == Some(11) && DigitValue('c') == Some(12)
    ensures DigitValue('d') == Some(13) && DigitValue('e') == Some(14) && DigitValue('f') == Some(15)
    ensures '0' < c <= '9' ==> DigitValue(c) == Some(c as int - 48)
    ensures DigitValue(c).Some? <==> '0' <= c <= '9' || 'a' <= c <= 'f' || 'A' <= c <= 'F'
  {
  }

  function Small(c: char): char {
    if 'A' <= c <= 'F' then (c as int + 32) as char else c
  }

  function SmallText(s: string): string {
    seq(|s|, i requires 0 <= i < |s| => Small(s[i]))
  }

  // A number in capitals, or in both, is read as it is in small letters.
  lemma {:induction false} CapitalsRead(s: string, out: nat)
    ensures ReadHexFrom(SmallText(s), out) == ReadHexFrom(s, out)
    decreases |s|
  {
    if |s| > 0 {
      DigitTable(s[0]);
      assert SmallText(s)[1..] == SmallText(s[1..]);
      if DigitValue(s[0]).Some? {
        CapitalsRead(s[1..], Wrap64(out * 16 + DigitValue(s[0]).value));
      }
    }
  }

  lemma DigitsPrinted(d: digit)
    ensures Digit(d) == if d < 10 then (48 + d) as char else (97 + d - 10) as char
    ensures Digit(0) == '0' && Digit(9) == '9' && Digit(10) == 'a' && Digit(15) == 'f'
  {
  }

  function Pow16(n: nat): (p: nat)
    ensures p > 0
  {
    if n == 0 then 1 else 16 * Pow16(n - 1)
  }

  function Fs(n: nat): string {
    seq(n, _ => 'f')
  }

  // The largest numbers of some digits.
  lemma {:induction false} FsRead(n: nat, rest: string)
    requires n <= 16
    ensures ReadHex(Fs(n) + rest) == ReadHexFrom(rest, Pow16(n) - 1) && Pow16(n) <= TWO_64
  {
    if n == 0 {
      assert Fs(n) + rest == rest;
    } else {
      FsRead(n - 1, "f" + rest);
      assert Fs(n) + rest == Fs(n - 1) + ("f" + rest);
      assert ("f" + rest)[1..] == rest;
      PowBound(n);
    }
  }

  lemma {:induction false} PowBound(n: nat)
    requires n <= 16
    ensures Pow16(n) <= TWO_64 && (n == 16 ==> Pow16(n) == TWO_64)
  {
    assert Pow16(4) == 0x1_0000;
    assert Pow16(8) == 0x1_0000_0000;
    assert Pow16(12) == 0x1_0000_0000_0000;
    assert Pow16(16) == TWO_64;
    PowGrows(n, 16);
  }

  lemma {:induction false} PowGrows(n: nat, m: nat)
    requires n <= m
    ensures Pow16(n) <= Pow16(m)
    decreases m
  {
    if n < m {
      PowGrows(n, m - 1);
    } else if n > 0 {
      PowGrows(n - 1, m - 1);
    }
  }

  // --- The program ---

  method FromIntToHex(n: nat) returns (ret: string)
    requires n < TWO_64
    ensures ret == HexText(n)
  {
    var rest := n / 16;
    ret := [Digit(n % 16)];
    while rest > 0
      invariant rest >= 0 && HexText(n) == (if rest == 0 then "" else HexText(rest)) + ret
    {
      ret := [Digit(rest % 16)] + ret;
      rest := rest / 16;
    }
  }

  method ParseHexSize(s: string) returns (r: Option<nat>)
    ensures r == ReadHex(s)
  {
    var out := 0;
    for i := 0 to |s|
      invariant out >= 0 && ReadHex(s) == ReadHexFrom(s[i..], out)
    {
      var shifted := Wrap64(out * 16);
      var d := DigitValue(s[i]);
      if d.None? {
        return None;
      }
      WrapTwice(out * 16, d.value);
      out := Wrap64(shifted + d.value);
    }
    r := Some(out);
  }

  lemma WrapTwice(n: nat, d: nat)
    ensures Wrap64(Wrap64(n) + d) == Wrap64(n + d)
  {
    var q := n / TWO_64;
    assert n + d == TWO_64 * q + (n % TWO_64 + d);
  }

  lemma ShiftIn(v: nat, d: digit)
    ensures Wrap64(Wrap64(v) * 16 + d) == Wrap64(v * 16 + d)
  {
    var q, r := v / TWO_64, v % TWO_64;
    assert v * 16 + d == TWO_64 * (16 * q) + (r * 16 + d);
  }

  // --- Entity tags ---

  function Etag(mtime: int, size: nat): string {
    if mtime < 0 then "" else "W/\"" + HexText(mtime) + "-" + HexText(size) + "\""
  }

  method ComputeEtag(mtime: int, size: nat) returns (tag: string)
    requires -0x8000_0000 <= mtime < 0x8000_0000 && size < TWO_64
    ensures tag == Etag(mtime, size)
  {
    if mtime < 0 {
      return "";
    }
    var left := FromIntToHex(mtime);
    var right := FromIntToHex(size);
    tag := "W/\"" + left + "-" + right + "\"";
  }

  lemma EtagSample()
    ensures Etag(10, 31) == "W/\"a-1f\"" && Etag(-1, 31) == ""
  {
    assert HexText(10) == "a";
    assert HexText(31) == HexText(1) + "f" == "1f";
  }

  // Two files have the same tag only if they have the same times and sizes, or no time at all.
  lemma EtagInjective(mtime: int, size: nat, mtime': int, size': nat)
    ensures Etag(mtime, size) == Etag(mtime', size') <==>
            (mtime < 0 && mtime' < 0) || (mtime >= 0 && mtime == mtime' && size == size')
  {
    if mtime >= 0 && mtime' >= 0 && Etag(mtime, size) == Etag(mtime', size') {
      EtagParts(mtime, size);
      EtagParts(mtime', size');
      HexTextIsHex(mtime);
      HexTextIsHex(mtime');
      HexTextIsHex(size);
      HexTextIsHex(size');
    }
  }

  // The first dash separates the two numbers.
  lemma EtagParts(mtime: nat, size: nat)
    ensures var tag := Etag(mtime, size);
            var dash := Find(tag, "-", 0);
            && dash.Some? && 3 <= dash.value < |tag| - 1
            && tag[3..dash.value] == HexText(mtime)
            && tag[dash.value + 1..|tag| - 1] == HexText(size)
  {
    var left, right := HexText(mtime), HexText(size);
    NoDashInHex(mtime);
    EtagText(left, right);
    FindAfter(Etag(mtime, size), 0, "W/\"" + left, "-", right + "\"");
  }

  lemma EtagText(left: string, right: string)
    ensures var tag := "W/\"" + left + "-" + right + "\"";
            && tag[0..] == ("W/\"" + left) + "-" + (right + "\"")
            && |tag| == |left| + |right| + 5
            && tag[3..|left| + 3] == left
            && tag[|left| + 4..|tag| - 1] == right
  {
  }

  lemma NoDashInHex(n: nat)
    ensures '-' !in HexText(n)
  {
    HexTextIsHex(n);
    var t := HexText(n);
    assert forall i :: 0 <= i < |t| ==> DigitValue(t[i]).Some?;
  }
}
