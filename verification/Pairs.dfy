// Named values stored one after the other in a map, as operator[] of an unordered_map does.

module Pairs {
  datatype Pair = Pair(name: string, value: string)

  function Store(m: map<string, string>, pairs: seq<Pair>): map<string, string>
    decreases |pairs|
  {
    if |pairs| == 0 then m else Store(m[pairs[0].name := pairs[0].value], pairs[1..])
  }

  predicate Names(pairs: seq<Pair>, name: string) {
    exists i :: 0 <= i < |pairs| && pairs[i].name == name
  }

  predicate IsLast(pairs: seq<Pair>, name: string, i: nat) {
    i < |pairs| && pairs[i].name == name && forall j :: i < j < |pairs| ==> pairs[j].name != name
  }

  // Each name keeps the value of its last pair, or the value it had before.
  lemma {:induction false} StoreKeepsLast(m: map<string, string>, pairs: seq<Pair>, name: string)
    ensures name in Store(m, pairs) <==> name in m || Names(pairs, name)
    ensures !Names(pairs, name) && name in m ==> Store(m, pairs)[name] == m[name]
    ensures forall i: nat :: IsLast(pairs, name, i) ==>
              name in Store(m, pairs) && Store(m, pairs)[name] == pairs[i].value
    decreases |pairs|
  {
    if |pairs| > 0 {
      var m' := m[pairs[0].name := pairs[0].value];
      var rest := pairs[1..];
      StoreKeepsLast(m', rest, name);
      assert Names(pairs, name) <==> pairs[0].name == name || Names(rest, name);
      forall i: nat | IsLast(pairs, name, i)
        ensures name in Store(m, pairs) && Store(m, pairs)[name] == pairs[i].value
      {
        if i > 0 {
          assert IsLast(rest, name, i - 1);
        } else {
          assert !Names(rest, name);
        }
      }
    }
  }
}
