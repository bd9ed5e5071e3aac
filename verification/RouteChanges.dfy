// What failing matches and rejected registrations change, exactly.

module RouteChanges {
  import opened RouteLaws
  import opened RouteSpec
  import opened Text
  import opened Wrappers

  type Walks = seq<seq<string>>

  type Params = map<string, string>

  // --- How far a walk gets ---

  ghost function Reach(walks: Walks, p: Shape, segments: seq<string>): (n: nat)
    ensures n <= |segments|
    decreases |segments|
  {
    if |segments| == 0 then 0
    else
      match Next(walks, p, segments[0])
      case None => 0
      case Some(q) => 1 + Reach(walks, q, segments[1..])
  }

  // The place where a walk stops, at its end or before.
  ghost function Reached(walks: Walks, p: Shape, segments: seq<string>): Shape
    decreases |segments|
  {
    if |segments| == 0 then p
    else
      match Next(walks, p, segments[0])
      case None => p
      case Some(q) => Reached(walks, q, segments[1..])
  }

  // The walk over the segments up to there succeeds, no longer one does, and the parameters of
  // the whole walk are those of that part.
  lemma {:induction false} WalkStops(walks: Walks, p: Shape, segments: seq<string>, params: Params)
    ensures var n, whole := Reach(walks, p, segments), Walk(walks, p, segments, params);
            && Walk(walks, p, segments[..n], params) == Walked(Some(Reached(walks, p, segments)), whole.params)
            && (whole.place.None? <==> n < |segments|)
            && (n < |segments| ==> Next(walks, Reached(walks, p, segments), segments[n]) == None)
    decreases |segments|
  {
    if |segments| > 0 && Next(walks, p, segments[0]).Some? {
      var q := Next(walks, p, segments[0]).value;
      var n := Reach(walks, q, segments[1..]);
      WalkStops(walks, q, segments[1..], Bind(walks, q, segments[0], params));
      assert segments[..n + 1][0] == segments[0] && segments[..n + 1][1..] == segments[1..][..n];
    }
  }

  lemma {:induction false} LongestWalk(walks: Walks, p: Shape, segments: seq<string>, params: Params, m: nat)
    requires m <= |segments|
    ensures Walk(walks, p, segments[..m], params).place.Some? <==> m <= Reach(walks, p, segments)
    decreases |segments|
  {
    if m > 0 {
      assert segments[..m][0] == segments[0] && segments[..m][1..] == segments[1..][..m - 1];
      match Next(walks, p, segments[0])
      case None =>
      case Some(q) => LongestWalk(walks, q, segments[1..], Bind(walks, q, segments[0], params), m - 1);
    }
  }

  // --- What a walk from the root leaves under a name, whether or not it fails ---

  // The segment j is bound to the name k, and no later one that is reached is.
  ghost predicate BindsLast(walks: Walks, segments: seq<string>, j: nat, k: string) {
    var n, q := Reach(walks, Root, segments), Reached(walks, Root, segments);
    j < n && Binds(walks, q, j, k) && forall i :: j < i < n ==> !Binds(walks, q, i, k)
  }

  lemma ParamAfterWalk(walks: Walks, segments: seq<string>, params: Params, k: string)
    ensures var after := LookUp(Walk(walks, Root, segments, params).params, k);
            && (forall j: nat :: BindsLast(walks, segments, j, k) ==> after == Some(segments[j]))
            && ((forall j: nat :: !BindsLast(walks, segments, j, k)) ==> after == LookUp(params, k))
  {
    var n, q := Reach(walks, Root, segments), Reached(walks, Root, segments);
    var part := segments[..n];
    WalkStops(walks, Root, segments, params);
    forall j: nat | BindsLast(walks, segments, j, k)
      ensures LookUp(Walk(walks, Root, segments, params).params, k) == Some(segments[j])
    {
      LastBindingWins(walks, Root, part, params, k, j);
    }
    if forall j: nat :: !BindsLast(walks, segments, j, k) {
      forall j | 0 <= j < n ensures !Binds(walks, q, j, k) {
        NoLastNone(walks, segments, j, k);
      }
      UnboundUnchanged(walks, Root, part, params, k);
    }
  }

  // A name that is bound somewhere is bound last somewhere.
  lemma {:induction false} NoLastNone(walks: Walks, segments: seq<string>, j: nat, k: string)
    requires forall i: nat :: !BindsLast(walks, segments, i, k)
    requires j < Reach(walks, Root, segments)
    ensures !Binds(walks, Reached(walks, Root, segments), j, k)
    decreases Reach(walks, Root, segments) - j
  {
    var n := Reach(walks, Root, segments);
    forall i | j < i < n ensures !Binds(walks, Reached(walks, Root, segments), i, k) {
      NoLastNone(walks, segments, i, k);
    }
    assert !BindsLast(walks, segments, j, k);
  }

  // A name changes exactly when the last position reached that binds it binds another value.
  lemma ParamChangesExactly(walks: Walks, segments: seq<string>, params: Params, k: string)
    ensures LookUp(Walk(walks, Root, segments, params).params, k) != LookUp(params, k) <==>
            exists j: nat :: BindsLast(walks, segments, j, k) && LookUp(params, k) != Some(segments[j])
  {
    ParamAfterWalk(walks, segments, params, k);
  }

  // A failing match stops where there is no next place, leaves the parameters of the walk up to
  // there, and changes those names that this part binds to another value.
  lemma FailingMatchLeaves(walks: Walks, segments: seq<string>, params: Params)
    requires Walk(walks, Root, segments, params).place.None?
    ensures var n := Reach(walks, Root, segments);
            var part := Walk(walks, Root, segments[..n], params);
            && n < |segments| && part.place.Some? && Next(walks, part.place.value, segments[n]) == None
            && Walk(walks, Root, segments, params).params == part.params
            && forall k :: LookUp(part.params, k) != LookUp(params, k) <==>
                           exists j: nat :: BindsLast(walks, segments, j, k) && LookUp(params, k) != Some(segments[j])
  {
    WalkStops(walks, Root, segments, params);
    forall k ensures LookUp(Walk(walks, Root, segments, params).params, k) != LookUp(params, k) <==>
                     exists j: nat :: BindsLast(walks, segments, j, k) && LookUp(params, k) != Some(segments[j])
    {
      ParamChangesExactly(walks, segments, params, k);
    }
  }

  // So a request is left alone exactly when every value bound up to there is there already.
  lemma LeftAloneExactly(walks: Walks, segments: seq<string>, params: Params)
    ensures Walk(walks, Root, segments, params).params == params <==>
            forall j: nat, k :: BindsLast(walks, segments, j, k) ==> LookUp(params, k) == Some(segments[j])
  {
    var after := Walk(walks, Root, segments, params).params;
    forall k ensures LookUp(after, k) != LookUp(params, k) <==>
                     exists j: nat :: BindsLast(walks, segments, j, k) && LookUp(params, k) != Some(segments[j])
    {
      ParamChangesExactly(walks, segments, params, k);
    }
    if forall j: nat, k :: BindsLast(walks, segments, j, k) ==> LookUp(params, k) == Some(segments[j]) {
      SameLookUps(after, params);
    }
  }

  lemma SameLookUps(a: Params, b: Params)
    requires forall k :: LookUp(a, k) == LookUp(b, k)
    ensures a == b
  {
    assert forall k :: k in a <==> LookUp(a, k).Some?;
    assert forall k :: k in b <==> LookUp(b, k).Some?;
    assert forall k :: k in a ==> LookUp(a, k) == Some(a[k]);
    assert forall k :: k in b ==> LookUp(b, k) == Some(b[k]);
  }

  // --- Tables that a request cannot tell apart ---

  ghost predicate SameTable(walks: Walks, walks': Walks) {
    && (forall q :: HasNode(walks, q) <==> HasNode(walks', q))
    && (forall q :: NameAt(walks, q) == NameAt(walks', q))
  }

  lemma {:induction false} SameTableWalks(walks: Walks, walks': Walks, p: Shape, segments: seq<string>, params: Params)
    requires SameTable(walks, walks')
    ensures Walk(walks, p, segments, params) == Walk(walks', p, segments, params)
    decreases |segments|
  {
    if |segments| > 0 && Next(walks, p, segments[0]).Some? {
      var q := Next(walks, p, segments[0]).value;
      SameTableWalks(walks, walks', q, segments[1..], Bind(walks, q, segments[0], params));
    }
  }

  lemma SameTableAppend(walks: Walks, walks': Walks, w: seq<string>)
    requires SameTable(walks, walks')
    ensures SameTable(walks + [w], walks' + [w])
  {
    forall q
      ensures HasNode(walks + [w], q) <==> HasNode(walks' + [w], q)
      ensures NameAt(walks + [w], q) == NameAt(walks' + [w], q)
    {
      HasNodeAppend(walks, w, q);
      HasNodeAppend(walks', w, q);
      NameAtAppend(walks, w, q);
      NameAtAppend(walks', w, q);
    }
  }

  ghost predicate SameHandlers(regs: seq<Registration>, regs': seq<Registration>) {
    forall verb, p :: FirstHandler(regs, verb, p) == FirstHandler(regs', verb, p)
  }

  lemma SameHandlersAppend(regs: seq<Registration>, regs': seq<Registration>, r: Registration)
    requires SameHandlers(regs, regs')
    ensures SameHandlers(regs + [r], regs' + [r])
  {
    forall verb, p ensures FirstHandler(regs + [r], verb, p) == FirstHandler(regs' + [r], verb, p) {
      FirstHandlerAppend(regs, r, verb, p);
      FirstHandlerAppend(regs', r, verb, p);
    }
  }

  ghost predicate SameMatch(regs: seq<Registration>, regs': seq<Registration>, verb: string, segments: seq<string>,
                            params: Params)
  {
    && Walk(WalksOf(regs), Root, segments, params) == Walk(WalksOf(regs'), Root, segments, params)
    && Matched(regs, verb, segments, params) == Matched(regs', verb, segments, params)
  }

  // The same goes for any registrations that follow.
  lemma {:induction false} SameAfterMore(regs: seq<Registration>, regs': seq<Registration>, more: seq<Registration>)
    requires SameTable(WalksOf(regs), WalksOf(regs')) && SameHandlers(regs, regs')
    ensures SameTable(WalksOf(regs + more), WalksOf(regs' + more)) && SameHandlers(regs + more, regs' + more)
  {
    if |more| == 0 {
      assert regs + more == regs && regs' + more == regs';
    } else {
      var init, last := more[..|more| - 1], more[|more| - 1];
      SameAfterMore(regs, regs', init);
      WalksOfAppend(regs + init, last);
      WalksOfAppend(regs' + init, last);
      SameTableAppend(WalksOf(regs + init), WalksOf(regs' + init), last.parts);
      SameHandlersAppend(regs + init, regs' + init, last);
      assert regs + more == regs + init + [last] && regs' + more == regs' + init + [last];
    }
  }

  // --- Rejected registrations ---

  ghost predicate IsRejected(regs: seq<Registration>, r: Registration) {
    FirstHandler(regs, r.verb, ShapeOf(r.parts)).Some?
  }

  // Each parameter place on the pattern's way has the name that the pattern gives it.
  ghost predicate GivesSameNames(walks: Walks, parts: seq<string>) {
    forall i :: 0 <= i < |parts| && IsParameter(parts[i]) ==> NameAt(walks, ShapeOf(parts[..i + 1])) == parts[i][1..]
  }

  // All places on a rejected pattern's way exist.
  lemma RejectedHasNodes(regs: seq<Registration>, r: Registration, d: nat)
    requires IsRejected(regs, r) && d <= |r.parts|
    ensures HasNode(WalksOf(regs), ShapeOf(r.parts[..d]))
  {
    var walks, parts := WalksOf(regs), r.parts;
    FirstHandlerHasNode(regs, r.verb, ShapeOf(parts));
    DepthOfShape(parts);
    DepthOfShape(parts[..d]);
    if d > 0 {
      var w :| w in walks && Passes(w, ShapeOf(parts));
      UpOfShape(parts, d);
      UpOfShape(w[..|parts|], d);
      assert w[..|parts|][..d] == w[..d];
      assert Passes(w, ShapeOf(parts[..d]));
    }
  }

  lemma RejectedAddsNoNode(regs: seq<Registration>, r: Registration, q: Shape)
    requires IsRejected(regs, r)
    ensures HasNode(WalksOf(regs + [r]), q) <==> HasNode(WalksOf(regs), q)
  {
    WalksOfAppend(regs, r);
    HasNodeAppend(WalksOf(regs), r.parts, q);
    if Passes(r.parts, q) {
      RejectedHasNodes(regs, r, Depth(q));
    }
  }

  lemma SameNamesKept(walks: Walks, parts: seq<string>, q: Shape)
    requires GivesSameNames(walks, parts)
    ensures NameAt(walks + [parts], q) == NameAt(walks, q)
  {
    NameAtAppend(walks, parts, q);
    if q.Step? && q.segment == Parameter && Passes(parts, q) && |parts[Depth(q) - 1]| > 0 {
      ShapeOfStep(parts, Depth(q) - 1);
      assert IsParameter(parts[Depth(q) - 1]);
    }
  }

  lemma SameNamesChangeNothing(regs: seq<Registration>, r: Registration)
    requires IsRejected(regs, r) && GivesSameNames(WalksOf(regs), r.parts)
    ensures SameTable(WalksOf(regs), WalksOf(regs + [r])) && SameHandlers(regs, regs + [r])
  {
    WalksOfAppend(regs, r);
    forall q
      ensures HasNode(WalksOf(regs), q) <==> HasNode(WalksOf(regs + [r]), q)
      ensures NameAt(WalksOf(regs), q) == NameAt(WalksOf(regs + [r]), q)
    {
      RejectedAddsNoNode(regs, r, q);
      SameNamesKept(WalksOf(regs), r.parts, q);
    }
    forall verb, p ensures FirstHandler(regs, verb, p) == FirstHandler(regs + [r], verb, p) {
      FirstHandlerAppend(regs, r, verb, p);
    }
  }

  // --- A request that tells two names apart ---

  lemma {:induction false} LongerThanParts(parts: seq<string>) returns (n: nat)
    ensures forall i :: 0 <= i < |parts| ==> |parts[i]| < n
  {
    n := 1;
    if |parts| > 0 {
      var m := LongerThanParts(parts[..|parts| - 1]);
      n := m + |parts[|parts| - 1]| + 1;
      forall i | 0 <= i < |parts| ensures |parts[i]| < n {
        if i < |parts| - 1 {
          assert parts[..|parts| - 1][i] == parts[i];
        }
      }
    }
  }

  ghost predicate IsLongerThanAll(n: nat, walks: Walks) {
    forall i, j :: 0 <= i < |walks| && 0 <= j < |walks[i]| ==> |walks[i][j]| < n
  }

  lemma {:induction false} LongerThanAll(walks: Walks) returns (n: nat)
    ensures n > 0 && IsLongerThanAll(n, walks)
  {
    n := 1;
    if |walks| > 0 {
      var m := LongerThanAll(walks[..|walks| - 1]);
      var k := LongerThanParts(walks[|walks| - 1]);
      n := m + k;
      forall i, j | 0 <= i < |walks| && 0 <= j < |walks[i]| ensures |walks[i][j]| < n {
        if i < |walks| - 1 {
          assert walks[..|walks| - 1][i] == walks[i];
        }
      }
    }
  }

  function Long(n: nat): string {
    seq(n, _ => 'a')
  }

  // A text longer than all parts has no literal child anywhere.
  lemma LongIsNoChild(walks: Walks, n: nat, p: Shape, text: string)
    requires IsLongerThanAll(n, walks) && |text| >= n
    ensures !HasNode(walks, Step(p, Literal(text)))
  {
    var q := Step(p, Literal(text));
    forall w | w in walks ensures !Passes(w, q) {
      if Depth(q) <= |w| {
        var i :| 0 <= i < |walks| && walks[i] == w;
        assert |walks[i][Depth(q) - 1]| < n;
        ShapeOfStep(w, Depth(q) - 1);
      }
    }
  }

  // A request along a pattern up to its parameter d: that one gets a text of its own.
  function Along(parts: seq<string>, d: nat, n: nat): (segments: seq<string>)
    requires d < |parts|
    ensures |segments| == d + 1
  {
    seq(d + 1, i requires 0 <= i <= d =>
      if i == d then Long(n + 1) else if IsParameter(parts[i]) then Long(n) else parts[i])
  }

  lemma {:induction false} WalkOneMore(walks: Walks, p: Shape, segments: seq<string>, s: string, params: Params)
    ensures var w := Walk(walks, p, segments, params);
            Walk(walks, p, segments + [s], params) ==
            if w.place.None? then w
            else
              match Next(walks, w.place.value, s)
              case None => Walked(None, w.params)
              case Some(q) => Walked(Some(q), Bind(walks, q, s, w.params))
    decreases |segments|
  {
    if |segments| == 0 {
      assert segments + [s] == [s] && [s][1..] == [];
    } else {
      TailOfConcat(segments, [s]);
      match Next(walks, p, segments[0])
      case None =>
      case Some(q) => WalkOneMore(walks, q, segments[1..], s, Bind(walks, q, segments[0], params));
    }
  }

  // A table with all the places of a pattern, and with texts shorter than n.
  ghost predicate HasAlong(walks: Walks, parts: seq<string>, n: nat) {
    && n > 0 && IsLongerThanAll(n, walks)
    && forall i :: 0 <= i <= |parts| ==> HasNode(walks, ShapeOf(parts[..i]))
  }

  // The request stays on the pattern's way, and binds its last text to nothing before the end.
  lemma {:induction false} WalkAlong(walks: Walks, parts: seq<string>, d: nat, n: nat, k: nat)
    requires HasAlong(walks, parts, n) && d < |parts| && k <= d
    requires forall i :: 0 <= i < |parts| ==> |parts[i]| < n
    ensures var w := Walk(walks, Root, Along(parts, d, n)[..k], map[]);
            w.place == Some(ShapeOf(parts[..k])) && Long(n + 1) !in w.params.Values
  {
    var segments := Along(parts, d, n);
    if k == 0 {
      assert segments[..0] == [] && parts[..0] == [];
    } else {
      var i := k - 1;
      WalkAlong(walks, parts, d, n, i);
      assert segments[..k] == segments[..i] + [segments[i]];
      WalkOneMore(walks, Root, segments[..i], segments[i], map[]);
      NextAlong(walks, parts, i, n, segments[i]);
      assert |segments[i]| != n + 1;
    }
  }

  lemma NextAlong(walks: Walks, parts: seq<string>, i: nat, n: nat, segment: string)
    requires HasAlong(walks, parts, n) && i < |parts|
    requires if IsParameter(parts[i]) then |segment| >= n else segment == parts[i]
    ensures Next(walks, ShapeOf(parts[..i]), segment) == Some(ShapeOf(parts[..i + 1]))
  {
    ShapeOfStep(parts, i);
    assert HasNode(walks, ShapeOf(parts[..i + 1]));
    if IsParameter(parts[i]) {
      LongIsNoChild(walks, n, ShapeOf(parts[..i]), segment);
    }
  }

  // At the parameter d the request binds its last text to that name and to no other.
  lemma BoundAlong(walks: Walks, parts: seq<string>, d: nat, n: nat, name: string)
    requires HasAlong(walks, parts, n) && d < |parts| && IsParameter(parts[d])
    requires forall i :: 0 <= i < |parts| ==> |parts[i]| < n
    ensures LookUp(Walk(walks, Root, Along(parts, d, n), map[]).params, name) == Some(Long(n + 1)) <==>
            name == NameAt(walks, ShapeOf(parts[..d + 1]))
  {
    var segments := Along(parts, d, n);
    WalkAlong(walks, parts, d, n, d);
    assert segments == segments[..d] + [segments[d]];
    WalkOneMore(walks, Root, segments[..d], segments[d], map[]);
    NextAlong(walks, parts, d, n, segments[d]);
    ShapeOfStep(parts, d);
    var before := Walk(walks, Root, segments[..d], map[]).params;
    assert name in before ==> before[name] in before.Values;
  }

  // It is the request for some path if the pattern is a path.
  lemma AlongPath(parts: seq<string>, pattern: string, d: nat, n: nat) returns (path: string)
    requires parts == SplitPath(pattern) && d < |parts| && n > 0
    ensures SplitPath(path) == Along(parts, d, n)
  {
    SplitPathParts(pattern);
    forall i | 0 <= i <= d ensures IsPart(Along(parts, d, n)[i]) {
      assert parts[i] in parts;
      LongIsPart(n);
      LongIsPart(n + 1);
    }
    path := JoinPath(Along(parts, d, n));
    SplitPathJoin(Along(parts, d, n));
  }

  lemma LongIsPart(n: nat)
    requires n > 0
    ensures IsPart(Long(n))
  {
    assert forall i :: 0 <= i < n ==> Long(n)[i] == 'a';
  }

  lemma OtherNameIsSeen(regs: seq<Registration>, r: Registration, d: nat) returns (n: nat)
    requires IsRejected(regs, r) && d < |r.parts| && IsParameter(r.parts[d])
    requires NameAt(WalksOf(regs), ShapeOf(r.parts[..d + 1])) != r.parts[d][1..]
    ensures n > 0 && !SameMatch(regs, regs + [r], r.verb, Along(r.parts, d, n), map[])
  {
    var walks, parts, name := WalksOf(regs), r.parts, r.parts[d][1..];
    var walks' := WalksOf(regs + [r]);
    var q := ShapeOf(parts[..d + 1]);
    WalksOfAppend(regs, r);
    n := LongerThanAll(walks');
    assert walks'[|walks|] == parts;
    assert forall i :: 0 <= i < |walks| ==> walks'[i] == walks[i];
    forall i | 0 <= i <= |parts| ensures HasNode(walks, ShapeOf(parts[..i])) && HasNode(walks', ShapeOf(parts[..i])) {
      RejectedHasNodes(regs, r, i);
      RejectedAddsNoNode(regs, r, ShapeOf(parts[..i]));
    }
    BoundAlong(walks, parts, d, n, name);
    BoundAlong(walks', parts, d, n, name);
    DepthOfShape(parts[..d + 1]);
    ShapeOfStep(parts, d);
    NameAtAppend(walks, parts, q);
  }

  // If a pattern gives another name, some request tells.
  lemma OtherNameTells(regs: seq<Registration>, r: Registration) returns (d: nat, n: nat)
    requires IsRejected(regs, r) && !GivesSameNames(WalksOf(regs), r.parts)
    ensures d < |r.parts| && n > 0
    ensures !SameMatch(regs + [], regs + [r] + [], r.verb, Along(r.parts, d, n), map[])
  {
    d :| 0 <= d < |r.parts| && IsParameter(r.parts[d])
         && NameAt(WalksOf(regs), ShapeOf(r.parts[..d + 1])) != r.parts[d][1..];
    n := OtherNameIsSeen(regs, r, d);
    assert regs + [] == regs && regs + [r] + [] == regs + [r];
  }

  // A registration that is answered with -1 changes no later match, whatever else is registered
  // after it, exactly if it gives every parameter on its way the name that it has.
  lemma RejectedChangesNothingExactly(regs: seq<Registration>, r: Registration)
    requires IsRejected(regs, r)
    ensures GivesSameNames(WalksOf(regs), r.parts) <==>
            forall more, verb, segments, params :: SameMatch(regs + more, regs + [r] + more, verb, segments, params)
  {
    if GivesSameNames(WalksOf(regs), r.parts) {
      SameNamesLast(regs, r);
    } else {
      var d, n := OtherNameTells(regs, r);
    }
  }

  lemma SameNamesLast(regs: seq<Registration>, r: Registration)
    requires IsRejected(regs, r) && GivesSameNames(WalksOf(regs), r.parts)
    ensures forall more, verb, segments, params ::
              SameMatch(regs + more, regs + [r] + more, verb, segments, params)
  {
    SameNamesChangeNothing(regs, r);
    forall more, verb, segments, params
      ensures SameMatch(regs + more, regs + [r] + more, verb, segments, params)
    {
      SameAfterMore(regs, regs + [r], more);
      SameTableWalks(WalksOf(regs + more), WalksOf(regs + [r] + more), Root, segments, params);
    }
  }

  // The same with all that is ever looked up and registered, which are paths split at slashes:
  // if a name changes, there is a path that tells.
  lemma RejectedPathChangesNothingExactly(regs: seq<Registration>, r: Registration, pattern: string)
    requires IsRejected(regs, r) && r.parts == SplitPath(pattern)
    ensures GivesSameNames(WalksOf(regs), r.parts) <==>
            forall more, verb, path, params ::
              SameMatch(regs + more, regs + [r] + more, verb, SplitPath(path), params)
  {
    if GivesSameNames(WalksOf(regs), r.parts) {
      SameNamesLast(regs, r);
    } else {
      var d, n := OtherNameTells(regs, r);
      var path := AlongPath(r.parts, pattern, d, n);
      assert !SameMatch(regs + [], regs + [r] + [], r.verb, SplitPath(path), map[]);
    }
  }
}
