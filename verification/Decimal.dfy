// Decimal numbers, as std::to_string prints them and std::stoi reads them.

module Decimal {
  import opened Wrappers

  const MAX_INT := 0x7FFF_FFFF

  function DigitChar(d: nat): char
    requires d < 10
  {
    ('0' as int + d) as char
  }

  predicate IsDigit(c: char) {
    '0' <= c <= '9'
  }

  function DigitOf(c: char): nat
    requires IsDigit(c)
  {
    c as int - '0' as int
  }

  function DecimalText(n: nat): string {
    if n < 10 then [DigitChar(n)] else DecimalText(n / 10) + [DigitChar(n % 10)]
  }

  function SkipSpaces(s: string): string {
    if |s| > 0 && (s[0] == ' ' || 9 <= s[0] as int <= 13) then SkipSpaces(s[1..]) else s
  }

  function ReadDigits(s: string, out: nat): nat {
    if |s| == 0 || !IsDigit(s[0]) then out else ReadDigits(s[1..], out * 10 + DigitOf(s[0]))
  }

  function Signed(negative: bool, digits: string): Option<int> {
    if |digits| == 0 || !IsDigit(digits[0]) then None
    else
      var n: int := ReadDigits(digits, 0);
      if n <= MAX_INT then Some(if negative then -n else n)
      else if negative && n == MAX_INT + 1 then Some(-n)
      else None
  }

  // None stands for the exceptions: no number, or one too large for an int.
  function Stoi(s: string): Option<int> {
    var t := SkipSpaces(s);
    if |t| > 0 && (t[0] == '-' || t[0] == '+') then Signed(t[0] == '-', t[1..]) else Signed(false, t)
  }

  lemma {:induction false} DigitsRead(n: nat, rest: string)
    ensures |DecimalText(n)| > 0 && IsDigit(DecimalText(n)[0])
    ensures ReadDigits(DecimalText(n) + rest, 0) == ReadDigits(rest, n)
  {
    if n < 10 {
      assert (DecimalText(n) + rest)[1..] == rest;
    } else {
      var last := [DigitChar(n % 10)] + rest;
      DigitsRead(n / 10, last);
      assert DecimalText(n) + rest == DecimalText(n / 10) + last;
      assert last[1..] == rest;
    }
  }

  // Every number that fits is read back.
  lemma StoiReadsDecimal(n: nat)
    requires n <= MAX_INT
    ensures Stoi(DecimalText(n)) == Some(n)
  {
    DigitsRead(n, "");
    assert DecimalText(n) + "" == DecimalText(n);
  }

  function Spaces(n: nat): string {
    if n == 0 then "" else " " + Spaces(n - 1)
  }

  lemma {:induction false} SpacesSkipped(n: nat, s: string)
    ensures SkipSpaces(Spaces(n) + s) == SkipSpaces(s)
  {
    if n == 0 {
      assert "" + s == s;
    } else {
      SpacesSkipped(n - 1, s);
      assert (Spaces(n) + s)[1..] == Spaces(n - 1) + s;
    }
  }

  // Blanks and a sign may come first, and what follows the digits does not matter.
  lemma StoiReadsFirst(blanks: nat, sign: string, n: nat, rest: string)
    requires n <= MAX_INT && (sign == "" || sign == "+" || sign == "-")
    requires |rest| > 0 ==> !IsDigit(rest[0])
    ensures var value: int := if sign == "-" then 0 - n else n;
            Stoi(Spaces(blanks) + (sign + (DecimalText(n) + rest))) == Some(value)
  {
    var digits := DecimalText(n) + rest;
    DigitsRead(n, rest);
    SpacesSkipped(blanks, sign + digits);
    assert digits[0] == DecimalText(n)[0];
    SignedRead(n, rest, false);
    SignedRead(n, rest, true);
    if sign == "" {
      assert sign + digits == digits;
    } else {
      assert (sign + digits)[1..] == digits;
    }
  }

  lemma SignedRead(n: nat, rest: string, negative: bool)
    requires n <= MAX_INT && (|rest| > 0 ==> !IsDigit(rest[0]))
    ensures var value: int := if negative then 0 - n else n;
            Signed(negative, DecimalText(n) + rest) == Some(value)
  {
    DigitsRead(n, rest);
    assert (DecimalText(n) + rest)[0] == DecimalText(n)[0];
  }

  // Different numbers have different texts.
  lemma DecimalInjective(n: nat, m: nat)
    requires DecimalText(n) == DecimalText(m)
    ensures n == m
  {
    DigitsRead(n, "");
    DigitsRead(m, "");
  }

  // A decimal text has digits only.
  lemma {:induction false} DecimalIsDigits(n: nat)
    ensures forall i :: 0 <= i < |DecimalText(n)| ==> IsDigit(DecimalText(n)[i])
  {
    if n >= 10 {
      DecimalIsDigits(n / 10);
    }
  }
}
