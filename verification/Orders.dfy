// Sets of descriptors written in some order.

module Orders {
  function Elements(s: seq<nat>): set<nat> {
    set x | x in s
  }

  predicate AreDistinct(s: seq<nat>) {
    forall i, j :: 0 <= i < j < |s| ==> s[i] != s[j]
  }

  predicate IsOrderOf(order: seq<nat>, fds: set<nat>) {
    AreDistinct(order) && Elements(order) == fds
  }

  lemma AddElement(s: seq<nat>, x: nat)
    ensures Elements(s + [x]) == Elements(s) + {x}
    ensures AreDistinct(s + [x]) <==> AreDistinct(s) && x !in Elements(s)
  {
    var t := s + [x];
    assert forall i :: 0 <= i < |s| ==> t[i] == s[i];
    assert t[|s|] == x;
    if AreDistinct(t) {
      assert forall i :: 0 <= i < |s| ==> t[i] != t[|s|];
    }
  }

  // The program's containers are visited in some order.
  method InSomeOrder(fds: set<nat>) returns (order: seq<nat>)
    ensures IsOrderOf(order, fds)
  {
    var todo := fds;
    order := [];
    while todo != {}
      invariant AreDistinct(order) && Elements(order) !! todo && Elements(order) + todo == fds
      decreases |todo|
    {
      var fd :| fd in todo;
      AddElement(order, fd);
      todo, order := todo - {fd}, order + [fd];
    }
  }
}
