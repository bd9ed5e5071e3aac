// Searching and splitting text, as std::string::find and std::views::split do.

module Text {
  import opened Wrappers

  const CRLF := "\r\n"

  predicate At(s: string, pat: string, i: nat)
    ensures At(s, pat, i) ==> i + |pat| <= |s|
  {
    if |pat| == 0 then i <= |s| else i < |s| && s[i] == pat[0] && At(s, pat[1..], i + 1)
  }

  lemma {:induction false} AtIsSlice(s: string, pat: string, i: nat)
    ensures At(s, pat, i) <==> i + |pat| <= |s| && s[i..i + |pat|] == pat
  {
    if |pat| > 0 {
      AtIsSlice(s, pat[1..], i + 1);
      if i + |pat| <= |s| {
        assert s[i..i + |pat|] == [s[i]] + s[i + 1..i + |pat|];
        assert pat == [pat[0]] + pat[1..];
      }
    }
  }

  // The place of the first occurrence of pat from a position on; None stands for npos.
  function Find(s: string, pat: string, from: nat): (r: Option<nat>)
    ensures r.Some? ==> from <= r.value && r.value + |pat| <= |s|
    decreases |s| - from
  {
    if from + |pat| > |s| then None
    else if At(s, pat, from) then Some(from)
    else Find(s, pat, from + 1)
  }

  // The same for the end of a line.
  function LineEnd(s: string, from: nat): (r: Option<nat>)
    ensures r.Some? ==> from <= r.value && r.value + 2 <= |s|
    decreases |s| - from
  {
    if from + 2 > |s| then None
    else if s[from] == '\r' && s[from + 1] == '\n' then Some(from)
    else LineEnd(s, from + 1)
  }

  lemma {:induction false} LineEndIsFind(s: string, from: nat)
    ensures LineEnd(s, from) == Find(s, CRLF, from)
    decreases |s| - from
  {
    if from + 2 <= |s| {
      AtIsSlice(s, CRLF, from);
      assert s[from..from + 2] == [s[from], s[from + 1]];
      LineEndIsFind(s, from + 1);
    }
  }

  lemma {:induction false} FindIsFirst(s: string, pat: string, from: nat)
    ensures var r := Find(s, pat, from);
            && (r.Some? ==> At(s, pat, r.value) && forall j :: from <= j < r.value ==> !At(s, pat, j))
            && (r.None? ==> forall j :: from <= j ==> !At(s, pat, j))
    decreases |s| - from
  {
    if from + |pat| <= |s| && !At(s, pat, from) {
      FindIsFirst(s, pat, from + 1);
    }
  }

  lemma {:induction false} FirstIsFound(s: string, pat: string, from: nat, i: nat)
    requires from <= i && At(s, pat, i) && forall j :: from <= j < i ==> !At(s, pat, j)
    ensures Find(s, pat, from) == Some(i)
    decreases i - from
  {
    if from < i {
      FirstIsFound(s, pat, from + 1, i);
    }
  }

  lemma AtOne(s: string, c: char, i: nat)
    ensures At(s, [c], i) <==> i < |s| && s[i] == c
  {
    assert [c][1..] == "";
    assert i < |s| ==> At(s, "", i + 1);
  }

  // A character is found in a slice where it is found in the whole text, if that is before the end.
  lemma FindInSlice(s: string, pat: string, from: nat, end: nat)
    requires |pat| == 1 && from <= end <= |s|
    ensures var r := Find(s, pat, from);
            Find(s[from..end], pat, 0) == if r.Some? && r.value < end then Some(r.value - from) else None
  {
    var slice := s[from..end];
    assert pat == [pat[0]];
    FindIsFirst(s, pat, from);
    FindIsFirst(slice, pat, 0);
    forall i | 0 <= i < end - from ensures At(s, pat, from + i) <==> At(slice, pat, i) {
      AtOne(s, pat[0], from + i);
      AtOne(slice, pat[0], i);
    }
    var r, r' := Find(s, pat, from), Find(slice, pat, 0);
    if r.Some? && r.value < end {
      assert At(slice, pat, r.value - from);
    }
    if r'.Some? {
      assert At(s, pat, from + r'.value);
    }
  }

  // A pattern is found after a text that does not have its first character.
  lemma FindAfter(s: string, from: nat, b: string, pat: string, c: string)
    requires from <= |s| && s[from..] == b + pat + c
    requires pat != "" && pat[0] !in b
    ensures Find(s, pat, from) == Some(from + |b|)
  {
    Pieces(s, from, b, pat, c);
    AtIsSlice(s, pat, from + |b|);
    forall j | from <= j < from + |b| ensures !At(s, pat, j) {
      assert s[j] == s[from..][j - from] == b[j - from];
    }
    FirstIsFound(s, pat, from, from + |b|);
  }

  lemma FindAbsent(s: string, from: nat, pat: string)
    requires from <= |s| && pat != "" && pat[0] !in s[from..]
    ensures Find(s, pat, from) == None
  {
    FindIsFirst(s, pat, from);
    forall j | from <= j < |s| ensures !At(s, pat, j) {
      assert s[j] == s[from..][j - from];
    }
  }

  lemma AtShift(a: string, b: string, pat: string, i: nat)
    ensures At(a + b, pat, |a| + i) <==> At(b, pat, i)
  {
    AtIsSlice(a + b, pat, |a| + i);
    AtIsSlice(b, pat, i);
    if i + |pat| <= |b| {
      assert (a + b)[|a| + i..|a| + i + |pat|] == b[i..i + |pat|];
    }
  }

  function Shifted(n: nat, r: Option<nat>): Option<nat> {
    if r.None? then None else Some(n + r.value)
  }

  // Searching behind a prefix is searching in the rest.
  lemma {:induction false} FindShift(a: string, b: string, pat: string, from: nat)
    ensures Find(a + b, pat, |a| + from) == Shifted(|a|, Find(b, pat, from))
    decreases |b| - from
  {
    if from + |pat| <= |b| {
      AtShift(a, b, pat, from);
      FindShift(a, b, pat, from + 1);
    }
  }

  lemma {:induction false} FindSkips(s: string, pat: string, from: nat, to: nat)
    requires from <= to <= |s|
    requires forall j :: from <= j < to ==> !At(s, pat, j)
    ensures Find(s, pat, from) == Find(s, pat, to)
    decreases |s| - from
  {
    if from < to {
      FindSkips(s, pat, from + 1, to);
    }
  }

  // The parts of a text from a position on, by their positions.
  lemma Pieces(s: string, from: nat, a: string, b: string, c: string)
    requires from <= |s| && s[from..] == a + b + c
    ensures |s| == from + |a| + |b| + |c|
    ensures s[from..from + |a|] == a
    ensures s[from + |a|..from + |a| + |b|] == b
    ensures s[from + |a| + |b|..] == c
  {
    var rest := s[from..];
    assert s[from..from + |a|] == rest[..|a|];
    assert s[from + |a|..from + |a| + |b|] == rest[|a|..|a| + |b|];
    assert s[from + |a| + |b|..] == rest[|a| + |b|..];
  }

  lemma Concat<T>(a: seq<T>, b: seq<T>, c: seq<T>)
    ensures a + b + c == a + (b + c)
  {
  }

  lemma TailOfConcat<T>(a: seq<T>, b: seq<T>)
    requires |a| > 0
    ensures (a + b)[0] == a[0] && (a + b)[1..] == a[1..] + b
  {
  }

  lemma DropOfConcat<T>(a: seq<T>, b: seq<T>, k: nat)
    requires k <= |a|
    ensures (a + b)[k..] == a[k..] + b
  {
  }

  lemma HeadAndTail<T>(a: seq<T>)
    requires |a| > 0
    ensures [a[0]] + a[1..] == a
  {
  }

  lemma CutConcat(a: string, b: string, k: nat)
    requires k <= |a| + |b|
    ensures (a + b)[..k] == if k < |a| then a[..k] else a + b[..k - |a|]
  {
  }

  // The pieces between separators; one piece when there is no separator.
  function Split(s: string, sep: char): (r: seq<string>)
    ensures |r| >= 1
  {
    if |s| == 0 then [""]
    else if s[0] == sep then [""] + Split(s[1..], sep)
    else Prepend(s[0], Split(s[1..], sep))
  }

  function Prepend(c: char, pieces: seq<string>): (r: seq<string>)
    requires |pieces| >= 1
    ensures |r| == |pieces|
  {
    [[c] + pieces[0]] + pieces[1..]
  }

  lemma PrependConcat(c: char, a: seq<string>, b: seq<string>)
    requires |a| >= 1
    ensures Prepend(c, a + b) == Prepend(c, a) + b
  {
    TailOfConcat(a, b);
    Concat([[c] + a[0]], a[1..], b);
  }

  function Join(pieces: seq<string>, sep: char): string
    requires |pieces| >= 1
  {
    if |pieces| == 1 then pieces[0] else pieces[0] + [sep] + Join(pieces[1..], sep)
  }

  lemma {:induction false} JoinSplit(s: string, sep: char)
    ensures Join(Split(s, sep), sep) == s
    ensures forall piece :: piece in Split(s, sep) ==> sep !in piece
  {
    if |s| > 0 {
      JoinSplit(s[1..], sep);
      var rest := Split(s[1..], sep);
      assert s == [s[0]] + s[1..];
      if s[0] == sep {
        assert Split(s, sep)[1..] == rest;
        assert Join(Split(s, sep), sep) == "" + [sep] + Join(rest, sep);
      } else {
        assert Split(s, sep)[1..] == rest[1..];
      }
    }
  }

  lemma {:induction false} SplitPlain(s: string, sep: char)
    requires sep !in s
    ensures Split(s, sep) == [s]
  {
    if |s| > 0 {
      SplitPlain(s[1..], sep);
      assert [s[0]] + s[1..] == s;
    }
  }

  lemma {:induction false} SplitConcat(a: string, b: string, sep: char)
    ensures Split(a + [sep] + b, sep) == Split(a, sep) + Split(b, sep)
  {
    Concat(a, [sep], b);
    if |a| == 0 {
      assert "" + ([sep] + b) == [sep] + b;
      TailOfConcat([sep], b);
    } else {
      SplitConcat(a[1..], b, sep);
      TailOfConcat(a, [sep] + b);
      Concat(a[1..], [sep], b);
      PrependConcat(a[0], Split(a[1..], sep), Split(b, sep));
      Concat([""], Split(a[1..], sep), Split(b, sep));
    }
  }

  lemma {:induction false} SplitJoin(pieces: seq<string>, sep: char)
    requires |pieces| >= 1 && forall piece :: piece in pieces ==> sep !in piece
    ensures Split(Join(pieces, sep), sep) == pieces
  {
    SplitPlain(pieces[0], sep);
    if |pieces| > 1 {
      SplitJoin(pieces[1..], sep);
      SplitConcat(pieces[0], Join(pieces[1..], sep), sep);
    }
  }

  function NonEmpty(pieces: seq<string>): seq<string> {
    if |pieces| == 0 then [] else Kept(pieces[0]) + NonEmpty(pieces[1..])
  }

  function Kept(piece: string): seq<string> {
    if |piece| == 0 then [] else [piece]
  }

  lemma {:induction false} NonEmptyConcat(a: seq<string>, b: seq<string>)
    ensures NonEmpty(a + b) == NonEmpty(a) + NonEmpty(b)
  {
    if |a| == 0 {
      assert a + b == b;
    } else {
      NonEmptyConcat(a[1..], b);
      TailOfConcat(a, b);
      Concat(Kept(a[0]), NonEmpty(a[1..]), NonEmpty(b));
    }
  }
}
