// What SHA-1 computes, apart from how Sha1 puts it: its functions bit by bit, its constants as
// roots, and its rounds with a window of sixteen words.

module Sha1Laws {
  import opened Bytes
  import opened Sha1

  // --- Section 5: functions and constants ---

  predicate IsBit(m: word) {
    m != 0 && m & (m - 1) == 0
  }

  lemma AllOrNothing(x: word, m: word)
    requires IsBit(m)
    ensures x & m == 0 || x & m == m
  {
  }

  lemma ChooseMasked(b: word, c: word, d: word, m: word)
    ensures b & m == m ==> Choose(b, c, d) & m == c & m
    ensures b & m == 0 ==> Choose(b, c, d) & m == d & m
  {
  }

  // Each bit of Choose is that of c or d, as b says.
  lemma ChooseSelects(b: word, c: word, d: word, m: word)
    requires IsBit(m)
    ensures Choose(b, c, d) & m == if b & m != 0 then c & m else d & m
  {
    AllOrNothing(b, m);
    ChooseMasked(b, c, d, m);
  }

  lemma MajoritySet(b: word, c: word, d: word, m: word)
    requires b & m == m && c & m == m
    ensures Majority(b, c, d) & m == m
  {
  }

  lemma MajorityClear(b: word, c: word, d: word, m: word)
    requires b & m == 0 && c & m == 0
    ensures Majority(b, c, d) & m == 0
  {
  }

  lemma InAnyOrder(b: word, c: word, d: word)
    ensures Majority(b, c, d) == Majority(b, d, c) == Majority(c, d, b)
  {
  }

  lemma Parity000(b: word, c: word, d: word, m: word)
    requires b & m == 0 && c & m == 0 && d & m == 0
    ensures Parity(b, c, d) & m == 0
  {
  }

  lemma Parity001(b: word, c: word, d: word, m: word)
    requires b & m == 0 && c & m == 0 && d & m == m
    ensures Parity(b, c, d) & m == m
  {
  }

  lemma Parity010(b: word, c: word, d: word, m: word)
    requires b & m == 0 && c & m == m && d & m == 0
    ensures Parity(b, c, d) & m == m
  {
  }

  lemma Parity011(b: word, c: word, d: word, m: word)
    requires b & m == 0 && c & m == m && d & m == m
    ensures Parity(b, c, d) & m == 0
  {
  }

  lemma Parity100(b: word, c: word, d: word, m: word)
    requires b & m == m && c & m == 0 && d & m == 0
    ensures Parity(b, c, d) & m == m
  {
  }

  lemma Parity101(b: word, c: word, d: word, m: word)
    requires b & m == m && c & m == 0 && d & m == m
    ensures Parity(b, c, d) & m == 0
  {
  }

  lemma Parity110(b: word, c: word, d: word, m: word)
    requires b & m == m && c & m == m && d & m == 0
    ensures Parity(b, c, d) & m == 0
  {
  }

  lemma Parity111(b: word, c: word, d: word, m: word)
    requires b & m == m && c & m == m && d & m == m
    ensures Parity(b, c, d) & m == m
  {
  }

  function Ones(x: word, m: word): nat {
    if x & m != 0 then 1 else 0
  }

  // A bit is in Majority exactly if two of the words have it.
  lemma MajorityCounts(b: word, c: word, d: word, m: word)
    requires IsBit(m)
    ensures Majority(b, c, d) & m != 0 <==> Ones(b, m) + Ones(c, m) + Ones(d, m) >= 2
  {
    AllOrNothing(b, m);
    AllOrNothing(c, m);
    AllOrNothing(d, m);
    if b & m == c & m {
      MajorityOfPair(b, c, d, m);
    } else if b & m == d & m {
      MajorityOfOuter(b, c, d, m);
    } else {
      MajorityOfLast(b, c, d, m);
    }
  }

  lemma MajorityOfOuter(b: word, c: word, d: word, m: word)
    requires b & m == d & m && (b & m == 0 || b & m == m)
    ensures Majority(b, c, d) & m == b & m
  {
    MajorityOfPair(b, d, c, m);
    InAnyOrder(b, c, d);
  }

  lemma MajorityOfLast(b: word, c: word, d: word, m: word)
    requires c & m == d & m && (c & m == 0 || c & m == m)
    ensures Majority(b, c, d) & m == c & m
  {
    MajorityOfPair(c, d, b, m);
    InAnyOrder(b, c, d);
  }

  lemma MajorityOfPair(b: word, c: word, d: word, m: word)
    requires b & m == c & m && (b & m == 0 || b & m == m)
    ensures Majority(b, c, d) & m == b & m
  {
    if b & m == 0 {
      MajorityClear(b, c, d, m);
    } else {
      MajoritySet(b, c, d, m);
    }
  }

  // A bit is in Parity exactly if one or three of the words have it.
  lemma ParityCounts(b: word, c: word, d: word, m: word)
    requires IsBit(m)
    ensures Parity(b, c, d) & m != 0 <==> (Ones(b, m) + Ones(c, m) + Ones(d, m)) % 2 == 1
  {
    AllOrNothing(b, m);
    AllOrNothing(c, m);
    AllOrNothing(d, m);
    if b & m == 0 && c & m == 0 && d & m == 0 {
      Parity000(b, c, d, m);
    } else if b & m == 0 && c & m == 0 && d & m != 0 {
      Parity001(b, c, d, m);
    } else if b & m == 0 && c & m != 0 && d & m == 0 {
      Parity010(b, c, d, m);
    } else if b & m == 0 && c & m != 0 && d & m != 0 {
      Parity011(b, c, d, m);
    } else if b & m != 0 && c & m == 0 && d & m == 0 {
      Parity100(b, c, d, m);
    } else if b & m != 0 && c & m == 0 && d & m != 0 {
      Parity101(b, c, d, m);
    } else if b & m != 0 && c & m != 0 && d & m == 0 {
      Parity110(b, c, d, m);
    } else {
      Parity111(b, c, d, m);
    }
  }

  // The constants are the integer parts of the roots of 2, 3, 5 and 10, times 2^30.
  lemma ConstantsAreRoots(t: nat)
    ensures var k, n := K(t) as nat, if t < 20 then 2 else if t < 40 then 3 else if t < 60 then 5 else 10;
            k * k <= n * 0x1000_0000_0000_0000 < (k + 1) * (k + 1)
  {
  }

  // --- Section 6.2: the same digest with a window of sixteen words ---

  datatype Window = Window(
    w0: word, w1: word, w2: word, w3: word, w4: word, w5: word, w6: word, w7: word,
    w8: word, w9: word, w10: word, w11: word, w12: word, w13: word, w14: word, w15: word)

  datatype Machine = Machine(q: Window, r: Registers)

  // The rotations of one, five and thirty places.
  function By1(x: word): word { (x << 1) | (x >> 31) }

  function By5(x: word): word { (x << 5) | (x >> 27) }

  function By30(x: word): word { (x << 30) | (x >> 2) }

  lemma Rotations(x: word)
    ensures LeftRotate(x, 1) == By1(x) && LeftRotate(x, 5) == By5(x) && LeftRotate(x, 30) == By30(x)
  {
  }

  function Next(x3: word, x8: word, x14: word, x16: word): word {
    By1(x3 ^ x8 ^ x14 ^ x16)
  }

  function Slide(q: Window): Window {
    Window(q.w1, q.w2, q.w3, q.w4, q.w5, q.w6, q.w7, q.w8, q.w9, q.w10, q.w11, q.w12, q.w13, q.w14, q.w15,
           Next(q.w13, q.w8, q.w2, q.w0))
  }

  // The function of a round.
  function Mixed(choose: bool, majority: bool, b: word, c: word, d: word): word {
    if choose then (b & c) | ((!b) & d) else if majority then (b & c) | (b & d) | (c & d) else b ^ c ^ d
  }

  function Five(a: word, f: word, e: word, k: word, w: word): word {
    a + f + e + k + w
  }

  // One round, with its function and its constant.
  function Turn(choose: bool, majority: bool, k: word, m: Machine): Machine {
    var Registers(a, b, c, d, e) := m.r;
    Machine(Slide(m.q), Registers(Five(By5(a), Mixed(choose, majority, b, c, d), e, k, m.q.w0), a, By30(b), c, d))
  }

  // The words of a block from some point on.
  function WindowOf(w: nat -> word, t: nat): Window {
    Window(w(t), w(t + 1), w(t + 2), w(t + 3), w(t + 4), w(t + 5), w(t + 6), w(t + 7),
           w(t + 8), w(t + 9), w(t + 10), w(t + 11), w(t + 12), w(t + 13), w(t + 14), w(t + 15))
  }

  function WordsOf(bytes: seq<byte>, offset: nat): nat -> word
    requires offset + 64 <= |bytes|
  {
    (t: nat) => W(bytes, offset, t)
  }

  function RoundsOf(bytes: seq<byte>, offset: nat, h: Registers): nat -> Registers
    requires offset + 64 <= |bytes|
  {
    (t: nat) => Rounds(bytes, offset, h, t)
  }

  // What words and registers are after t rounds.
  function MachineAt(w: nat -> word, r: nat -> Registers, t: nat): Machine {
    Machine(WindowOf(w, t), r(t))
  }

  // How words and registers go on.
  ghost predicate Advances(w: nat -> word, r: nat -> Registers, t: nat) {
    w(t + 16) == Derived(w(t + 13), w(t + 8), w(t + 2), w(t)) && r(t + 1) == Round(t, r(t), w(t))
  }

  // A word from those 3, 8, 14 and 16 before it.
  function Derived(x3: word, x8: word, x14: word, x16: word): word {
    LeftRotate(x3 ^ x8 ^ x14 ^ x16, 1)
  }

  lemma NextIsDerived(x3: word, x8: word, x14: word, x16: word)
    ensures Next(x3, x8, x14, x16) == Derived(x3, x8, x14, x16)
  {
    Rotations(x3 ^ x8 ^ x14 ^ x16);
  }

  lemma SlideIsNext(w: nat -> word, t: nat)
    requires w(t + 16) == Derived(w(t + 13), w(t + 8), w(t + 2), w(t))
    ensures Slide(WindowOf(w, t)) == WindowOf(w, t + 1)
  {
    NextIsDerived(w(t + 13), w(t + 8), w(t + 2), w(t));
  }

  lemma DerivedWord(bytes: seq<byte>, offset: nat, t: nat)
    requires offset + 64 <= |bytes| && t >= 16
    ensures W(bytes, offset, t) ==
            Derived(W(bytes, offset, t - 3), W(bytes, offset, t - 8),
                    W(bytes, offset, t - 14), W(bytes, offset, t - 16))
  {
  }

  lemma FunctionsAre(b: word, c: word, d: word)
    ensures Mixed(true, false, b, c, d) == Choose(b, c, d)
    ensures Mixed(false, true, b, c, d) == Majority(b, c, d)
    ensures Mixed(false, false, b, c, d) == Parity(b, c, d)
  {
  }

  lemma MixedIsF(t: nat, b: word, c: word, d: word)
    ensures Mixed(t < 20, 40 <= t < 60, b, c, d) == F(t, b, c, d)
  {
    FunctionsAre(b, c, d);
  }

  lemma SumIsFive(a: word, f: word, e: word, k: word, w: word)
    ensures Sum(a, f, e, k, w) == Five(LeftRotate(a, 5), f, e, k, w)
  {
  }

  lemma TurnIsRound(t: nat, m: Machine)
    ensures Turn(t < 20, 40 <= t < 60, K(t), m).r == Round(t, m.r, m.q.w0)
  {
    MixedIsF(t, m.r.b, m.r.c, m.r.d);
    SumIsFive(m.r.a, F(t, m.r.b, m.r.c, m.r.d), m.r.e, K(t), m.q.w0);
    Rotations(m.r.a);
    Rotations(m.r.b);
  }

  lemma TurnAdvances(w: nat -> word, r: nat -> Registers, t: nat)
    requires Advances(w, r, t)
    ensures Turn(t < 20, 40 <= t < 60, K(t), MachineAt(w, r, t)) == MachineAt(w, r, t + 1)
  {
    SlideIsNext(w, t);
    TurnIsRound(t, MachineAt(w, r, t));
  }

  lemma BlockAdvances(bytes: seq<byte>, offset: nat, h: Registers, t: nat)
    requires offset + 64 <= |bytes|
    ensures Advances(WordsOf(bytes, offset), RoundsOf(bytes, offset, h), t)
  {
    DerivedWord(bytes, offset, t + 16);
  }

  // --- The window on literals ---

  // Some rounds of one kind, with a parameter for each word, so that they can be followed on literals.
  function Turns(
    n: nat, choose: bool, majority: bool, k: word, w0: word, w1: word, w2: word, w3: word, w4: word, w5: word,
    w6: word, w7: word, w8: word, w9: word, w10: word, w11: word, w12: word, w13: word, w14: word, w15: word,
    a: word, b: word, c: word, d: word, e: word): Machine
    decreases n
  {
    if n == 0 then
      Machine(Window(w0, w1, w2, w3, w4, w5, w6, w7, w8, w9, w10, w11, w12, w13, w14, w15), Registers(a, b, c, d, e))
    else
      var f := if choose then (b & c) | ((!b) & d) else if majority then (b & c) | (b & d) | (c & d) else b ^ c ^ d;
      Turns(n - 1, choose, majority, k, w1, w2, w3, w4, w5, w6, w7, w8, w9, w10, w11, w12, w13, w14, w15,
            ((w13 ^ w8 ^ w2 ^ w0) << 1) | ((w13 ^ w8 ^ w2 ^ w0) >> 31),
            ((a << 5) | (a >> 27)) + f + e + k + w0, a, (b << 30) | (b >> 2), c, d)
  }

  function TurnsOf(n: nat, choose: bool, majority: bool, k: word, m: Machine): Machine {
    var Window(w0, w1, w2, w3, w4, w5, w6, w7, w8, w9, w10, w11, w12, w13, w14, w15) := m.q;
    Turns(n, choose, majority, k, w0, w1, w2, w3, w4, w5, w6, w7, w8, w9, w10, w11, w12, w13, w14, w15,
          m.r.a, m.r.b, m.r.c, m.r.d, m.r.e)
  }

  lemma OneTurn(
    n: nat, choose: bool, majority: bool, k: word, w0: word, w1: word, w2: word, w3: word, w4: word, w5: word,
    w6: word, w7: word, w8: word, w9: word, w10: word, w11: word, w12: word, w13: word, w14: word, w15: word,
    a: word, b: word, c: word, d: word, e: word, f: word, a': word, b': word, w16: word)
    requires f == if choose then (b & c) | ((!b) & d) else if majority then (b & c) | (b & d) | (c & d) else b ^ c ^ d
    requires a' == ((a << 5) | (a >> 27)) + f + e + k + w0 && b' == (b << 30) | (b >> 2)
    requires w16 == ((w13 ^ w8 ^ w2 ^ w0) << 1) | ((w13 ^ w8 ^ w2 ^ w0) >> 31)
    ensures Turns(n + 1, choose, majority, k, w0, w1, w2, w3, w4, w5, w6, w7, w8, w9, w10, w11, w12, w13, w14, w15,
                  a, b, c, d, e) ==
            Turns(n, choose, majority, k, w1, w2, w3, w4, w5, w6, w7, w8, w9, w10, w11, w12, w13, w14, w15, w16,
                  a', a, b', c, d)
  {
  }

  lemma FiveUnfolded(a: word, f: word, e: word, k: word, w: word, sum: word)
    requires sum == ((a << 5) | (a >> 27)) + f + e + k + w
    ensures Five((a << 5) | (a >> 27), f, e, k, w) == sum
  {
  }

  lemma SameFive(x: word, y: word, f: word, e: word, k: word, w: word)
    requires x == y
    ensures Five(x, f, e, k, w) == Five(y, f, e, k, w)
  {
  }

  lemma NextIs(x3: word, x8: word, x14: word, x16: word)
    ensures Next(x3, x8, x14, x16) == ((x3 ^ x8 ^ x14 ^ x16) << 1) | ((x3 ^ x8 ^ x14 ^ x16) >> 31)
  {
  }

  lemma NamedTurn(
    n: nat, choose: bool, majority: bool, k: word, w0: word, w1: word, w2: word, w3: word, w4: word, w5: word,
    w6: word, w7: word, w8: word, w9: word, w10: word, w11: word, w12: word, w13: word, w14: word, w15: word,
    a: word, b: word, c: word, d: word, e: word)
    ensures Turns(n + 1, choose, majority, k, w0, w1, w2, w3, w4, w5, w6, w7, w8, w9, w10, w11, w12, w13, w14, w15,
                  a, b, c, d, e) ==
            Turns(n, choose, majority, k, w1, w2, w3, w4, w5, w6, w7, w8, w9, w10, w11, w12, w13, w14, w15,
                  Next(w13, w8, w2, w0),
                  Five(By5(a), Mixed(choose, majority, b, c, d), e, k, w0), a, By30(b), c, d)
  {
    var f := Mixed(choose, majority, b, c, d);
    var sum := ((a << 5) | (a >> 27)) + f + e + k + w0;
    FiveUnfolded(a, f, e, k, w0, sum);
    SameFive(By5(a), (a << 5) | (a >> 27), f, e, k, w0);
    NextIs(w13, w8, w2, w0);
    OneTurn(n, choose, majority, k, w0, w1, w2, w3, w4, w5, w6, w7, w8, w9, w10, w11, w12, w13, w14, w15,
            a, b, c, d, e, f, sum, By30(b), Next(w13, w8, w2, w0));
  }

  lemma TurnFirst(n: nat, choose: bool, majority: bool, k: word, m: Machine)
    ensures TurnsOf(n + 1, choose, majority, k, m) == TurnsOf(n, choose, majority, k, Turn(choose, majority, k, m))
  {
    var q, r := m.q, m.r;
    NamedTurn(n, choose, majority, k, q.w0, q.w1, q.w2, q.w3, q.w4, q.w5, q.w6, q.w7, q.w8, q.w9, q.w10, q.w11, q.w12,
              q.w13, q.w14, q.w15, r.a, r.b, r.c, r.d, r.e);
  }

  function Iterated(f: Machine -> Machine, n: nat, m: Machine): Machine
    decreases n
  {
    if n == 0 then m else Iterated(f, n - 1, f(m))
  }

  lemma {:induction false} IteratedIs(f: Machine -> Machine, p: nat -> Machine, t: nat, n: nat)
    requires forall i: nat :: t <= i < t + n ==> f(p(i)) == p(i + 1)
    ensures Iterated(f, n, p(t)) == p(t + n)
    decreases n
  {
    if n > 0 {
      IteratedIs(f, p, t + 1, n - 1);
    }
  }

  function Turning(choose: bool, majority: bool, k: word): Machine -> Machine {
    m => Turn(choose, majority, k, m)
  }

  lemma {:induction false} IteratedIsTurns(n: nat, choose: bool, majority: bool, k: word, m: Machine)
    ensures Iterated(Turning(choose, majority, k), n, m) == TurnsOf(n, choose, majority, k, m)
    decreases n
  {
    if n > 0 {
      var next, turns := Turn(choose, majority, k, m), TurnsOf(n, choose, majority, k, m);
      TurnFirst(n - 1, choose, majority, k, m);
      IteratedIsTurns(n - 1, choose, majority, k, next);
      OneIteration(Turning(choose, majority, k), n, m, next, turns);
    } else {
      NoTurns(choose, majority, k, m);
    }
  }

  lemma OneIteration(f: Machine -> Machine, n: nat, m: Machine, next: Machine, end: Machine)
    requires n > 0 && f(m) == next && Iterated(f, n - 1, next) == end
    ensures Iterated(f, n, m) == end
  {
  }

  lemma NoTurns(choose: bool, majority: bool, k: word, m: Machine)
    ensures TurnsOf(0, choose, majority, k, m) == m
  {
  }

  predicate IsKind(choose: bool, majority: bool, k: word, t: nat) {
    choose == (t < 20) && majority == (40 <= t < 60) && k == K(t)
  }

  lemma KindAdvances(choose: bool, majority: bool, k: word, w: nat -> word, r: nat -> Registers, t: nat)
    requires IsKind(choose, majority, k, t) && Advances(w, r, t)
    ensures Turning(choose, majority, k)(MachineAt(w, r, t)) == MachineAt(w, r, t + 1)
  {
    TurnAdvances(w, r, t);
  }

  function MachinesOf(w: nat -> word, r: nat -> Registers): nat -> Machine {
    (t: nat) => MachineAt(w, r, t)
  }

  lemma TurnsAdvance(w: nat -> word, r: nat -> Registers, t: nat, n: nat, choose: bool, majority: bool, k: word)
    requires forall i :: t <= i < t + n ==> IsKind(choose, majority, k, i)
    requires forall i :: t <= i < t + n ==> Advances(w, r, i)
    ensures Iterated(Turning(choose, majority, k), n, MachinesOf(w, r)(t)) == MachinesOf(w, r)(t + n)
  {
    forall i: nat | t <= i < t + n
      ensures Turning(choose, majority, k)(MachinesOf(w, r)(i)) == MachinesOf(w, r)(i + 1)
    {
      assert IsKind(choose, majority, k, i) && Advances(w, r, i);
      KindAdvances(choose, majority, k, w, r, i);
    }
    IteratedIs(Turning(choose, majority, k), MachinesOf(w, r), t, n);
  }

  // What the window has after some rounds of one kind is what the first method has.
  lemma TurnsKeep(w: nat -> word, r: nat -> Registers, t: nat, n: nat, choose: bool, majority: bool, k: word)
    requires forall i :: t <= i < t + n ==> IsKind(choose, majority, k, i)
    requires forall i :: t <= i < t + n ==> Advances(w, r, i)
    ensures TurnsOf(n, choose, majority, k, MachineAt(w, r, t)) == MachineAt(w, r, t + n)
  {
    TurnsAdvance(w, r, t, n, choose, majority, k);
    IteratedIsTurns(n, choose, majority, k, MachineAt(w, r, t));
  }
}
