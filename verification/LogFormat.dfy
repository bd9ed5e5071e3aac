// The placeholders of log messages.

module LogFormat {
  import opened Text
  import opened Wrappers

  const BRACES := "{}"

  // Each argument replaces the first placeholder of the text as it is by then.
  method Format(fmt: string, args: seq<string>) returns (result: string)
    ensures result == Replaced(fmt, args)
  {
    result := fmt;
    for i := 0 to |args|
      invariant Replaced(fmt, args) == Replaced(result, args[i..])
    {
      var pos := Find(result, BRACES, 0);
      if pos.Some? {
        result := result[..pos.value] + args[i] + result[pos.value + 2..];
      }
    }
  }

  function Replaced(text: string, args: seq<string>): string
    decreases |args|
  {
    if |args| == 0 then text
    else
      match Find(text, BRACES, 0)
      case None => Replaced(text, args[1..])
      case Some(i) => Replaced(text[..i] + args[0] + text[i + 2..], args[1..])
  }

  // What is meant: the placeholders of the format, from left to right, by the arguments in turn.
  function Substituted(fmt: string, args: seq<string>): string
    decreases |args|
  {
    if |args| == 0 then fmt
    else
      match Find(fmt, BRACES, 0)
      case None => fmt
      case Some(i) => fmt[..i] + args[0] + Substituted(fmt[i + 2..], args[1..])
  }

  // --- Where placeholders stand ---

  predicate IsPlaceholder(s: string, i: nat) {
    i + 1 < |s| && s[i] == '{' && s[i + 1] == '}'
  }

  ghost predicate HasNone(s: string) {
    forall i: nat :: !IsPlaceholder(s, i)
  }

  lemma AtBraces(s: string, i: nat)
    ensures At(s, BRACES, i) <==> IsPlaceholder(s, i)
  {
    AtIsSlice(s, BRACES, i);
    if i + 2 <= |s| {
      assert s[i..i + 2] == [s[i], s[i + 1]];
    }
  }

  lemma FoundIsFirst(s: string)
    ensures var r := Find(s, BRACES, 0);
            && (r.Some? ==> IsPlaceholder(s, r.value) && forall j :: 0 <= j < r.value ==> !IsPlaceholder(s, j))
            && (r.None? ==> HasNone(s))
  {
    FindIsFirst(s, BRACES, 0);
    forall i: nat ensures At(s, BRACES, i) <==> IsPlaceholder(s, i) {
      AtBraces(s, i);
    }
  }

  lemma FirstPlaceholder(s: string, i: nat)
    requires IsPlaceholder(s, i) && forall j :: 0 <= j < i ==> !IsPlaceholder(s, j)
    ensures Find(s, BRACES, 0) == Some(i)
  {
    AtBraces(s, i);
    FoundIsFirst(s);
  }

  lemma {:induction false} NothingToReplace(s: string, args: seq<string>)
    requires HasNone(s)
    ensures Replaced(s, args) == s
    decreases |args|
  {
    if |args| > 0 {
      FoundIsFirst(s);
      NothingToReplace(s, args[1..]);
    }
  }

  // --- When replacing is substituting ---

  // No placeholder comes from the argument, alone or together with the text around it.
  ghost predicate IsSafe(arg: string) {
    |arg| > 0 && arg[0] != '}' && arg[|arg| - 1] != '{' && HasNone(arg)
  }

  // A text that is done with: no placeholder in it, and none that a later text could complete.
  ghost predicate IsDone(s: string) {
    HasNone(s) && (|s| > 0 ==> s[|s| - 1] != '{')
  }

  lemma DoneBefore(done: string, rest: string, i: nat)
    requires IsDone(done)
    ensures IsPlaceholder(done + rest, i) <==> i >= |done| && IsPlaceholder(rest, i - |done|)
  {
    if i + 1 < |done| {
      assert !IsPlaceholder(done, i);
    }
  }

  lemma FoundAfterDone(done: string, rest: string)
    requires IsDone(done)
    ensures Find(done + rest, BRACES, 0) ==
            match Find(rest, BRACES, 0) case None => None case Some(i) => Some(|done| + i)
  {
    FoundIsFirst(rest);
    FoundIsFirst(done + rest);
    forall i: nat ensures IsPlaceholder(done + rest, i) <==> i >= |done| && IsPlaceholder(rest, i - |done|) {
      DoneBefore(done, rest, i);
    }
    if Find(rest, BRACES, 0).Some? {
      var i := Find(rest, BRACES, 0).value;
      assert IsPlaceholder(done + rest, |done| + i);
      FirstPlaceholder(done + rest, |done| + i);
    }
  }

  // A safe argument at a first placeholder extends what is done.
  lemma DoneWithArgument(done: string, before: string, arg: string)
    requires IsDone(done) && IsSafe(arg) && HasNone(before)
    ensures IsDone(done + before + arg)
  {
    var s := done + before + arg;
    forall i: nat ensures !IsPlaceholder(s, i) {
      if i + 1 < |done + before| {
        DoneBefore(done, before, i);
        assert !IsPlaceholder(done + before, i);
      } else if i >= |done + before| {
        assert !IsPlaceholder(arg, i - |done + before|);
      }
    }
  }

  // Replacing in turn is substituting at once if all arguments but the last are safe.
  lemma FormatSubstitutes(fmt: string, args: seq<string>)
    requires forall i :: 0 <= i < |args| - 1 ==> IsSafe(args[i])
    ensures Replaced(fmt, args) == Substituted(fmt, args)
  {
    ReplacedAfterDone("", fmt, args);
    assert "" + fmt == fmt && "" + Substituted(fmt, args) == Substituted(fmt, args);
  }

  lemma {:induction false} ReplacedAfterDone(done: string, rest: string, args: seq<string>)
    requires IsDone(done) && forall i :: 0 <= i < |args| - 1 ==> IsSafe(args[i])
    ensures Replaced(done + rest, args) == done + Substituted(rest, args)
    decreases |args|
  {
    if |args| > 0 {
      FoundAfterDone(done, rest);
      match Find(rest, BRACES, 0)
      case None =>
        FoundIsFirst(done + rest);
        NothingToReplace(done + rest, args);
      case Some(i) =>
        var before, after, arg := rest[..i], rest[i + 2..], args[0];
        var head := done + before + arg;
        Rearranged(done, rest, i, arg);
        assert Replaced(done + rest, args) == Replaced(head + after, args[1..]);
        if |args| > 1 {
          NoneBeforeFirst(rest, i);
          DoneWithArgument(done, before, arg);
          ReplacedAfterDone(head, after, args[1..]);
        }
        assert Replaced(head + after, args[1..]) == head + Substituted(after, args[1..]);
        Rejoined(done, before, arg, Substituted(after, args[1..]));
    }
  }

  lemma NoneBeforeFirst(rest: string, i: nat)
    requires Find(rest, BRACES, 0) == Some(i)
    ensures HasNone(rest[..i])
  {
    FoundIsFirst(rest);
    forall j: nat ensures !IsPlaceholder(rest[..i], j) {
      if j < i {
        assert !IsPlaceholder(rest, j);
      }
    }
  }

  lemma Rearranged(done: string, rest: string, i: nat, arg: string)
    requires i + 2 <= |rest|
    ensures var text, j := done + rest, |done| + i;
            text[..j] + arg + text[j + 2..] == done + rest[..i] + arg + rest[i + 2..]
  {
  }

  lemma Rejoined(done: string, before: string, arg: string, after: string)
    ensures done + before + arg + after == done + (before + arg + after)
  {
  }

  // --- Counting placeholders ---

  function Placeholders(s: string): nat {
    if |s| < 2 then 0 else (if IsPlaceholder(s, 0) then 1 else 0) + Placeholders(s[1..])
  }

  lemma TailPlaceholder(s: string, i: nat)
    requires |s| > 0
    ensures IsPlaceholder(s[1..], i) <==> IsPlaceholder(s, i + 1)
  {
  }

  lemma {:induction false} NoneIsZero(s: string)
    ensures HasNone(s) <==> Placeholders(s) == 0
  {
    if |s| >= 2 {
      NoneIsZero(s[1..]);
      forall i: nat ensures IsPlaceholder(s[1..], i) <==> IsPlaceholder(s, i + 1) {
        TailPlaceholder(s, i);
      }
      if HasNone(s[1..]) && !IsPlaceholder(s, 0) {
        forall i: nat ensures !IsPlaceholder(s, i) {
          if i > 0 {
            assert !IsPlaceholder(s[1..], i - 1);
          }
        }
      }
    }
  }

  // What is done with is not counted again.
  lemma {:induction false} DoneIsNotCounted(done: string, rest: string)
    requires IsDone(done)
    ensures Placeholders(done + rest) == Placeholders(rest)
  {
    if |done| == 0 {
      assert done + rest == rest;
    } else {
      var tail := done[1..];
      forall i: nat ensures !IsPlaceholder(tail, i) {
        TailPlaceholder(done, i);
      }
      DoneIsNotCounted(tail, rest);
      TailOfConcat(done, rest);
      DoneBefore(done, rest, 0);
    }
  }

  // The first placeholder is one of them, and the others stand behind it.
  lemma {:induction false} CountFromFirst(s: string, i: nat)
    requires Find(s, BRACES, 0) == Some(i)
    ensures Placeholders(s) == 1 + Placeholders(s[i + 2..])
  {
    FoundIsFirst(s);
    if i == 0 {
      assert !IsPlaceholder(s[1..], 0);
      assert s[1..][1..] == s[2..];
      assert |s[1..]| >= 2 ==> Placeholders(s[1..]) == Placeholders(s[2..]);
    } else {
      forall j | 0 <= j < i ensures IsPlaceholder(s[1..], j) <==> j == i - 1 {
        TailPlaceholder(s, j);
      }
      FirstPlaceholder(s[1..], i - 1);
      CountFromFirst(s[1..], i - 1);
      assert s[1..][i + 1..] == s[i + 2..];
    }
  }

  // Two texts side by side have the placeholders of both, and perhaps one more between them.
  lemma {:induction false} CountSideBySide(a: string, b: string)
    ensures Placeholders(a + b) >= Placeholders(a) + Placeholders(b)
  {
    if |a| == 0 {
      assert a + b == b;
    } else {
      TailOfConcat(a, b);
      CountSideBySide(a[1..], b);
      assert IsPlaceholder(a, 0) ==> IsPlaceholder(a + b, 0);
    }
  }

  // --- What one replacement after the other does to the count ---

  lemma {:induction false} ReplacedInTurn(fmt: string, args: seq<string>, more: seq<string>)
    ensures Replaced(fmt, args + more) == Replaced(Replaced(fmt, args), more)
    decreases |args|
  {
    if |args| == 0 {
      assert args + more == more;
    } else {
      TailOfConcat(args, more);
      match Find(fmt, BRACES, 0)
      case None => ReplacedInTurn(fmt, args[1..], more);
      case Some(i) => ReplacedInTurn(fmt[..i] + args[0] + fmt[i + 2..], args[1..], more);
    }
  }

  // Each argument takes away at most one placeholder.
  lemma {:induction false} CountAfterReplacing(text: string, args: seq<string>)
    ensures Placeholders(Replaced(text, args)) >= Placeholders(text) - |args|
    decreases |args|
  {
    if |args| > 0 {
      match Find(text, BRACES, 0)
      case None =>
        FoundIsFirst(text);
        CountAfterReplacing(text, args[1..]);
      case Some(i) =>
        CountFromFirst(text, i);
        CountSideBySide(text[..i] + args[0], text[i + 2..]);
        CountAfterReplacing(text[..i] + args[0] + text[i + 2..], args[1..]);
    }
  }

  // A text that has a placeholder is changed by one more argument.
  lemma OneMoreChanges(text: string)
    requires Placeholders(text) > 0
    ensures Replaced(text, ["x"]) != text
  {
    NoneIsZero(text);
    FoundIsFirst(text);
    var i := Find(text, BRACES, 0).value;
    assert Replaced(text, ["x"]) == Replaced(text[..i] + "x" + text[i + 2..], []);
  }

  // --- More arguments than placeholders ---

  ghost predicate AreSafe(args: seq<string>) {
    forall i :: 0 <= i < |args| ==> IsSafe(args[i])
  }

  // The format behind its first n placeholders.
  function Behind(fmt: string, n: nat): string
    decreases n
  {
    if n == 0 then fmt
    else match Find(fmt, BRACES, 0) case None => "" case Some(i) => Behind(fmt[i + 2..], n - 1)
  }

  // With safe arguments for its first placeholders a format is done with up to there, and the
  // rest of it, with the other placeholders, stays letter by letter.
  lemma SurplusPlaceholdersStay(fmt: string, args: seq<string>) returns (done: string)
    requires |args| <= Placeholders(fmt) && AreSafe(args)
    ensures IsDone(done) && Replaced(fmt, args) == done + Behind(fmt, |args|)
    ensures Placeholders(Replaced(fmt, args)) == Placeholders(Behind(fmt, |args|)) == Placeholders(fmt) - |args|
  {
    assert "" + fmt == fmt;
    done := StayBehind("", fmt, args);
    CountBehind(fmt, |args|);
    DoneIsNotCounted(done, Behind(fmt, |args|));
  }

  lemma {:induction false} CountBehind(fmt: string, n: nat)
    requires n <= Placeholders(fmt)
    ensures Placeholders(Behind(fmt, n)) == Placeholders(fmt) - n
    decreases n
  {
    if n > 0 {
      NoneIsZero(fmt);
      FoundIsFirst(fmt);
      CountFromFirst(fmt, Find(fmt, BRACES, 0).value);
      CountBehind(fmt[Find(fmt, BRACES, 0).value + 2..], n - 1);
    }
  }

  lemma {:induction false} StayBehind(done: string, rest: string, args: seq<string>) returns (done': string)
    requires IsDone(done) && |args| <= Placeholders(rest) && AreSafe(args)
    ensures IsDone(done') && Replaced(done + rest, args) == done' + Behind(rest, |args|)
    decreases |args|
  {
    if |args| == 0 {
      done' := done;
    } else {
      NoneIsZero(rest);
      FoundIsFirst(rest);
      var i := Find(rest, BRACES, 0).value;
      CountFromFirst(rest, i);
      ReplacedBehindDone(done, rest, i, args);
      done' := StayBehind(done + rest[..i] + args[0], rest[i + 2..], args[1..]);
    }
  }

  lemma ReplacedBehindDone(done: string, rest: string, i: nat, args: seq<string>)
    requires IsDone(done) && |args| > 0 && IsSafe(args[0]) && Find(rest, BRACES, 0) == Some(i)
    ensures var head := done + rest[..i] + args[0];
            IsDone(head) && Replaced(done + rest, args) == Replaced(head + rest[i + 2..], args[1..])
  {
    FoundAfterDone(done, rest);
    NoneBeforeFirst(rest, i);
    DoneWithArgument(done, rest[..i], args[0]);
    Rearranged(done, rest, i, args[0]);
  }

  // Arguments beyond the placeholders have no effect if those that are used are safe, the last
  // one included.
  lemma SurplusIsDropped(fmt: string, args: seq<string>, more: seq<string>)
    requires Placeholders(fmt) <= |args| && AreSafe(args[..Placeholders(fmt)])
    ensures Replaced(fmt, args + more) == Replaced(fmt, args)
  {
    var n := Placeholders(fmt);
    var used, rest := args[..n], args[n..];
    assert used + rest == args && used + (rest + more) == args + more;
    var done := SurplusPlaceholdersStay(fmt, used);
    var text := Replaced(fmt, used);
    NoneIsZero(text);
    ReplacedInTurn(fmt, used, rest);
    ReplacedInTurn(fmt, used, rest + more);
    NothingToReplace(text, rest);
    NothingToReplace(text, rest + more);
  }

  // An argument with a placeholder in it gives one to the next argument.
  lemma SurplusIsUsed()
    ensures Replaced("{}", ["{}"]) == "{}" && Replaced("{}", ["{}"] + ["x"]) == "x"
  {
    FirstPlaceholder("{}", 0);
    assert Replaced("{}", ["{}"]) == Replaced("" + "{}" + "", []);
    assert Replaced("{}", ["x"]) == Replaced("" + "x" + "", []);
    ReplacedInTurn("{}", ["{}"], ["x"]);
  }

  // Safety of all arguments is exactly what it takes for surplus to be dropped from all formats.
  lemma SurplusDroppedExactly(args: seq<string>)
    ensures AreSafe(args) <==>
            forall fmt, more :: Placeholders(fmt) <= |args| ==> Replaced(fmt, args + more) == Replaced(fmt, args)
  {
    if AreSafe(args) {
      forall fmt, more | Placeholders(fmt) <= |args| ensures Replaced(fmt, args + more) == Replaced(fmt, args) {
        SurplusIsDropped(fmt, args, more);
      }
    } else {
      var k :| 0 <= k < |args| && !IsSafe(args[k]);
      var n := FirstUnsafe(args, k);
      var fmt := UnsafeTakesSurplus(args, n);
      assert Replaced(fmt, args + ["x"]) != Replaced(fmt, args);
    }
  }

  // Safety of all arguments but the last is exactly what it takes for replacing in turn to be
  // substituting at once, in all formats and with every last argument.
  lemma SafeExactly(args: seq<string>)
    ensures AreSafe(args) <==>
            forall fmt, last :: Replaced(fmt, args + [last]) == Substituted(fmt, args + [last])
  {
    if AreSafe(args) {
      forall fmt, last ensures Replaced(fmt, args + [last]) == Substituted(fmt, args + [last]) {
        FormatSubstitutes(fmt, args + [last]);
      }
    } else {
      var k :| 0 <= k < |args| && !IsSafe(args[k]);
      var n := FirstUnsafe(args, k);
      var fmt := UnsafeTakesSurplus(args, n);
      SubstitutedDropsSurplus(fmt, args, ["x"]);
      SubstitutedDropsSurplus(fmt, args, ["xx"]);
      LastIsSeen(fmt, args);
    }
  }

  lemma LastIsSeen(fmt: string, args: seq<string>)
    requires Placeholders(Replaced(fmt, args)) > 0
    ensures Replaced(fmt, args + ["x"]) != Replaced(fmt, args + ["xx"])
  {
    var text := Replaced(fmt, args);
    NoneIsZero(text);
    FoundIsFirst(text);
    var i := Find(text, BRACES, 0).value;
    ReplacedInTurn(fmt, args, ["x"]);
    ReplacedInTurn(fmt, args, ["xx"]);
    assert Replaced(text, ["x"]) == Replaced(text[..i] + "x" + text[i + 2..], []);
    assert Replaced(text, ["xx"]) == Replaced(text[..i] + "xx" + text[i + 2..], []);
  }

  lemma {:induction false} SubstitutedDropsSurplus(fmt: string, args: seq<string>, more: seq<string>)
    requires Placeholders(fmt) <= |args|
    ensures Substituted(fmt, args + more) == Substituted(fmt, args)
    decreases |args|
  {
    NoneIsZero(fmt);
    FoundIsFirst(fmt);
    if |args| > 0 {
      TailOfConcat(args, more);
      match Find(fmt, BRACES, 0)
      case None =>
      case Some(i) =>
        CountFromFirst(fmt, i);
        SubstitutedDropsSurplus(fmt[i + 2..], args[1..], more);
    }
  }

  lemma {:induction false} FirstUnsafe(args: seq<string>, k: nat) returns (n: nat)
    requires k < |args| && !IsSafe(args[k])
    ensures n < |args| && !IsSafe(args[n]) && AreSafe(args[..n])
    decreases k
  {
    if AreSafe(args[..k]) {
      n := k;
    } else {
      var j :| 0 <= j < k && !IsSafe(args[..k][j]);
      n := FirstUnsafe(args, j);
    }
  }

  function Repeated(n: nat): string {
    if n == 0 then "" else BRACES + Repeated(n - 1)
  }

  lemma {:induction false} RepeatedCount(n: nat, s: string)
    ensures Placeholders(Repeated(n) + s) == n + Placeholders(s)
    ensures Behind(Repeated(n) + s, n) == s
  {
    if n == 0 {
      assert "" + s == s;
    } else {
      RepeatedCount(n - 1, s);
      var rest := Repeated(n - 1) + s;
      assert Repeated(n) + s == BRACES + rest;
      FirstPlaceholder(BRACES + rest, 0);
      CountFromFirst(BRACES + rest, 0);
      assert (BRACES + rest)[2..] == rest;
    }
  }

  // A text with one placeholder where an unsafe argument leaves one behind.
  function Trap(arg: string): string {
    if |arg| == 0 then "{{}}" else if arg[0] == '}' then "{{}" else if arg[|arg| - 1] == '{' then "{}}" else "{}"
  }

  function TrapAt(arg: string): nat {
    if |arg| == 0 || arg[0] == '}' then 1 else 0
  }

  lemma TrapStart(arg: string, rest: string)
    ensures |Trap(arg)| >= TrapAt(arg) + 2
    ensures Find(Trap(arg) + rest, BRACES, 0) == Some(TrapAt(arg))
  {
    FirstPlaceholder(Trap(arg) + rest, TrapAt(arg));
  }

  lemma TrapHasOne(arg: string, rest: string)
    ensures Find(Trap(arg) + rest, BRACES, 0) == Some(TrapAt(arg))
    ensures Placeholders(Trap(arg) + rest) == 1 + Placeholders(Trap(arg)[TrapAt(arg) + 2..] + rest)
  {
    TrapStart(arg, rest);
    CountFromFirst(Trap(arg) + rest, TrapAt(arg));
    DropOfConcat(Trap(arg), rest, TrapAt(arg) + 2);
  }

  lemma TrapSprings(arg: string)
    requires !IsSafe(arg)
    ensures Placeholders(Trap(arg)[..TrapAt(arg)] + arg + Trap(arg)[TrapAt(arg) + 2..]) > 0
  {
    var text := Trap(arg)[..TrapAt(arg)] + arg + Trap(arg)[TrapAt(arg) + 2..];
    NoneIsZero(text);
    if |arg| == 0 || arg[0] == '}' {
      assert IsPlaceholder(text, 0);
    } else if arg[|arg| - 1] == '{' {
      assert IsPlaceholder(text, |arg| - 1);
    } else {
      var i: nat :| IsPlaceholder(arg, i);
      assert IsPlaceholder(text, i);
    }
  }

  // Behind a closing brace a text has the placeholders it has alone.
  lemma BehindBrace(arg: string, rest: string)
    ensures Placeholders(Trap(arg)[TrapAt(arg) + 2..] + rest) == Placeholders(rest)
  {
    DoneIsNotCounted(Trap(arg)[TrapAt(arg) + 2..], rest);
  }

  // The argument in its trap leaves one placeholder more than there are behind the trap.
  lemma TrapInPlace(done: string, arg: string, rest: string)
    requires IsDone(done) && !IsSafe(arg)
    ensures var text, i := done + (Trap(arg) + rest), |done| + TrapAt(arg);
            && Find(text, BRACES, 0) == Some(i)
            && Placeholders(text[..i] + arg + text[i + 2..]) >= 1 + Placeholders(rest)
  {
    var at := TrapAt(arg);
    var trap := Trap(arg) + rest;
    var sprung := Trap(arg)[..at] + arg + Trap(arg)[at + 2..];
    TrapHasOne(arg, rest);
    FoundAfterDone(done, trap);
    SpringText(done, Trap(arg), at, arg, rest);
    TrapSprings(arg);
    CountSideBySide(sprung, rest);
    CountSideBySide(done, sprung + rest);
  }

  lemma SpringText(done: string, trap: string, at: nat, arg: string, rest: string)
    requires at + 2 <= |trap|
    ensures var text, i := done + (trap + rest), |done| + at;
            text[..i] + arg + text[i + 2..] == done + ((trap[..at] + arg + trap[at + 2..]) + rest)
  {
  }

  lemma TrapCount(n: nat, arg: string, m: nat)
    ensures var fmt := Repeated(n) + (Trap(arg) + Repeated(m));
            Placeholders(fmt) == n + 1 + m && Behind(fmt, n) == Trap(arg) + Repeated(m)
    ensures Placeholders(Repeated(m)) == m
  {
    assert Repeated(m) + "" == Repeated(m);
    RepeatedCount(m, "");
    RepeatedCount(n, Trap(arg) + Repeated(m));
    TrapHasOne(arg, Repeated(m));
    BehindBrace(arg, Repeated(m));
  }

  lemma UnsafeTakesSurplus(args: seq<string>, n: nat) returns (fmt: string)
    requires n < |args| && !IsSafe(args[n]) && AreSafe(args[..n])
    ensures Placeholders(fmt) <= |args| && Placeholders(Replaced(fmt, args)) > 0
    ensures Replaced(fmt, args + ["x"]) != Replaced(fmt, args)
  {
    var arg, used, later := args[n], args[..n], args[n + 1..];
    var behind := Repeated(|later|);
    fmt := Repeated(n) + (Trap(arg) + behind);
    TrapCount(n, arg, |later|);
    var done := SurplusPlaceholdersStay(fmt, used);
    assert Replaced(fmt, used) == done + (Trap(arg) + behind);
    TrapInPlace(done, arg, behind);
    CountAfterTrap(Replaced(fmt, used), |done| + TrapAt(arg), arg, later);
    assert args == used + ([arg] + later);
    ReplacedInTurn(fmt, used, [arg] + later);
    ReplacedInTurn(fmt, args, ["x"]);
    OneMoreChanges(Replaced(fmt, args));
  }

  lemma CountAfterTrap(text: string, i: nat, arg: string, later: seq<string>)
    requires Find(text, BRACES, 0) == Some(i)
    requires Placeholders(text[..i] + arg + text[i + 2..]) > |later|
    ensures Placeholders(Replaced(text, [arg] + later)) > 0
  {
    assert ([arg] + later)[1..] == later;
    CountAfterReplacing(text[..i] + arg + text[i + 2..], later);
  }
}
