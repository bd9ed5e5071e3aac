// The keys of a std::map<std::string, ...> in their order.

module SortedMap {
  import opened Pairs

  // Lexicographic order on strings.
  predicate Leq(a: string, b: string) {
    if |a| == 0 then true
    else if |b| == 0 then false
    else a[0] < b[0] || (a[0] == b[0] && Leq(a[1..], b[1..]))
  }

  lemma {:induction false} LeqTotal(a: string, b: string)
    ensures Leq(a, b) || Leq(b, a)
  {
    if |a| > 0 && |b| > 0 {
      LeqTotal(a[1..], b[1..]);
    }
  }

  lemma {:induction false} LeqAntisymmetric(a: string, b: string)
    requires Leq(a, b) && Leq(b, a)
    ensures a == b
  {
    if |a| > 0 && |b| > 0 {
      LeqAntisymmetric(a[1..], b[1..]);
      assert a == [a[0]] + a[1..] && b == [b[0]] + b[1..];
    }
  }

  lemma {:induction false} LeqTransitive(a: string, b: string, c: string)
    requires Leq(a, b) && Leq(b, c)
    ensures Leq(a, c)
  {
    if |a| > 0 && a[0] == b[0] && b[0] == c[0] {
      LeqTransitive(a[1..], b[1..], c[1..]);
    }
  }

  ghost predicate IsLeast(k: string, keys: set<string>) {
    k in keys && forall other :: other in keys ==> Leq(k, other)
  }

  lemma {:induction false} LeastExists(keys: set<string>) returns (k: string)
    requires |keys| > 0
    ensures IsLeast(k, keys)
  {
    var some :| some in keys;
    k := some;
    LeqTotal(k, k);
    var rest := keys - {some};
    if |rest| > 0 {
      var least := LeastExists(rest);
      LeqTotal(least, some);
      if Leq(least, some) {
        k := least;
      } else {
        forall other | other in rest ensures Leq(some, other) {
          LeqTransitive(some, least, other);
        }
      }
    }
  }

  lemma LeastIsUnique(k: string, other: string, keys: set<string>)
    requires IsLeast(k, keys) && IsLeast(other, keys)
    ensures k == other
  {
    LeqAntisymmetric(k, other);
  }

  ghost function Least(keys: set<string>): (k: string)
    requires |keys| > 0
    ensures IsLeast(k, keys)
  {
    LeastExistsAtAll(keys);
    var k :| IsLeast(k, keys);
    k
  }

  lemma LeastExistsAtAll(keys: set<string>)
    requires |keys| > 0
    ensures exists k :: IsLeast(k, keys)
  {
    var k := LeastExists(keys);
  }

  // The entries in the order of an iteration over the map.
  ghost function Sorted(m: map<string, string>, keys: set<string>): seq<Pair>
    requires keys <= m.Keys
  {
    if |keys| == 0 then []
    else
      var k := Least(keys);
      [Pair(k, m[k])] + Sorted(m, keys - {k})
  }

  ghost function Entries(m: map<string, string>): seq<Pair> {
    Sorted(m, m.Keys)
  }

  predicate IsEntry(m: map<string, string>, keys: set<string>, p: Pair) {
    p.name in keys && p.name in m && p.value == m[p.name]
  }

  predicate InOrder(a: Pair, b: Pair) {
    a.name != b.name && Leq(a.name, b.name)
  }

  // Only entries with these keys, in strictly ascending order.
  lemma {:induction false} SortedAscends(m: map<string, string>, keys: set<string>)
    requires keys <= m.Keys
    ensures forall i :: 0 <= i < |Sorted(m, keys)| ==> IsEntry(m, keys, Sorted(m, keys)[i])
    ensures forall i, j :: 0 <= i < j < |Sorted(m, keys)| ==> InOrder(Sorted(m, keys)[i], Sorted(m, keys)[j])
    decreases |keys|
  {
    if |keys| > 0 {
      var k := Least(keys);
      var rest := Sorted(m, keys - {k});
      SortedAscends(m, keys - {k});
      assert forall i :: 0 <= i < |rest| ==> IsEntry(m, keys - {k}, rest[i]);
      assert forall i :: 0 <= i < |rest| ==> InOrder(Pair(k, m[k]), rest[i]);
    }
  }

  // And every key is there.
  lemma {:induction false} SortedHasAll(m: map<string, string>, keys: set<string>, k: string)
    requires k in keys && keys <= m.Keys
    ensures Names(Sorted(m, keys), k)
    decreases |keys|
  {
    var s, least := Sorted(m, keys), Least(keys);
    if k == least {
      assert s[0].name == k;
    } else {
      SortedHasAll(m, keys - {least}, k);
      var i :| 0 <= i < |s[1..]| && s[1..][i].name == k;
      assert s[i + 1].name == k;
    }
  }

  // Storing the entries of a map over another gives both, and over some of its names the map.
  lemma StoreOver(m: map<string, string>, start: map<string, string>)
    ensures Store(start, Entries(m)) == start + m
  {
    forall k
      ensures k in Store(start, Entries(m)) <==> k in start + m
      ensures k in start + m ==> Store(start, Entries(m))[k] == (start + m)[k]
    {
      EntryStored(m, start, k);
    }
  }

  lemma StoreEntries(m: map<string, string>, start: map<string, string>)
    requires start.Keys <= m.Keys
    ensures Store(start, Entries(m)) == m
  {
    StoreOver(m, start);
    assert start + m == m;
  }

  lemma EntryStored(m: map<string, string>, start: map<string, string>, k: string)
    ensures k in Store(start, Entries(m)) <==> k in start || k in m
    ensures k in m ==> Store(start, Entries(m))[k] == m[k]
    ensures k !in m && k in start ==> Store(start, Entries(m))[k] == start[k]
  {
    var s := Entries(m);
    StoreKeepsLast(start, s, k);
    SortedAscends(m, m.Keys);
    assert forall i :: 0 <= i < |s| ==> IsEntry(m, m.Keys, s[i]);
    if k in m {
      SortedHasAll(m, m.Keys, k);
      var i :| 0 <= i < |s| && s[i].name == k;
      assert forall j :: i < j < |s| ==> InOrder(s[i], s[j]);
      assert IsLast(s, k, i);
    }
  }
}
