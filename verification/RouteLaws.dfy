// What matching promises, proved of the walk that the trie was shown to make.

module RouteLaws {
  import opened Text
  import opened Wrappers
  import opened RouteSpec

  // --- The two lookups, in terms of the list ---

  predicate Serves(r: Registration, verb: string, p: Shape) {
    r.verb == verb && ShapeOf(r.parts) == p
  }

  // The handler at a place is that of the first registration for it, and of no other.
  lemma {:induction false} FirstHandlerIsFirst(regs: seq<Registration>, verb: string, p: Shape)
    ensures FirstHandler(regs, verb, p).None? <==> forall k :: 0 <= k < |regs| ==> !Serves(regs[k], verb, p)
    ensures forall k :: 0 <= k < |regs| && Serves(regs[k], verb, p)
                        && (forall j :: 0 <= j < k ==> !Serves(regs[j], verb, p)) ==>
              FirstHandler(regs, verb, p) == Some(regs[k].handler)
  {
    if |regs| > 0 {
      var earlier, last := regs[..|regs| - 1], regs[|regs| - 1];
      FirstHandlerIsFirst(earlier, verb, p);
      assert forall k :: 0 <= k < |earlier| ==> earlier[k] == regs[k];
      assert Serves(last, verb, p) <==> last.verb == verb && ShapeOf(last.parts) == p;
    }
  }

  // The name of a parameter is the one written in the last walk that went through it.
  lemma {:induction false} NameAtIsLast(walks: seq<seq<string>>, p: Shape, k: nat)
    requires p.Step? && p.segment == Parameter
    requires k < |walks| && Passes(walks[k], p) && forall j :: k < j < |walks| ==> !Passes(walks[j], p)
    ensures NameAt(walks, p) == walks[k][Depth(p) - 1][1..]
  {
    ShapeOfStep(walks[k], Depth(p) - 1);
    if k < |walks| - 1 {
      NameAtIsLast(walks[..|walks| - 1], p, k);
    }
  }

  // --- Which routes a request can reach ---

  // A pattern fits a request segment by segment.
  predicate Fits(parts: seq<string>, segments: seq<string>) {
    |parts| == |segments| && forall i :: 0 <= i < |parts| ==> IsParameter(parts[i]) || parts[i] == segments[i]
  }

  // Some route has this request's literal text where the pattern has a parameter.
  ghost predicate Shadowed(walks: seq<seq<string>>, parts: seq<string>, segments: seq<string>, i: nat)
    requires i < |parts| && i < |segments|
  {
    IsParameter(parts[i]) && HasNode(walks, Step(ShapeOf(parts[..i]), Literal(segments[i])))
  }

  ghost predicate ClearFrom(walks: seq<seq<string>>, parts: seq<string>, segments: seq<string>, from: nat)
    requires |parts| == |segments|
  {
    forall i :: from <= i < |parts| ==> !Shadowed(walks, parts, segments, i)
  }

  // The place on the way to p at a given depth.
  function Up(p: Shape, d: nat): Shape {
    if p.Root? || Depth(p) <= d then p else Up(p.parent, d)
  }

  lemma {:induction false} UpOfShape(parts: seq<string>, d: nat)
    requires d <= |parts|
    ensures Up(ShapeOf(parts), d) == ShapeOf(parts[..d])
  {
    DepthOfShape(parts);
    if d == |parts| {
      assert parts[..d] == parts;
    } else {
      UpOfShape(parts[..|parts| - 1], d);
      assert parts[..|parts| - 1][..d] == parts[..d];
    }
  }

  lemma {:induction false} UpDeeper(q: Shape, d: nat)
    requires d < Depth(q)
    ensures Up(q, d + 1).Step? && Up(q, d + 1).parent == Up(q, d) && Depth(Up(q, d)) == d
  {
    if d + 1 < Depth(q) {
      UpDeeper(q.parent, d);
    }
  }

  lemma {:induction false} WalkGoesDown(walks: seq<seq<string>>, p: Shape, segments: seq<string>,
                                        params: map<string, string>)
    ensures var place := Walk(walks, p, segments, params).place;
            place.Some? ==> Depth(place.value) == Depth(p) + |segments| && Up(place.value, Depth(p)) == p
    decreases |segments|
  {
    if |segments| > 0 && Next(walks, p, segments[0]).Some? {
      var q := Next(walks, p, segments[0]).value;
      var params' := Bind(walks, q, segments[0], params);
      WalkGoesDown(walks, q, segments[1..], params');
      var place := Walk(walks, q, segments[1..], params').place;
      if place.Some? {
        UpDeeper(place.value, Depth(p));
      }
    }
  }

  // A registered pattern that fits is where the walk ends exactly if nothing shadows it.
  lemma {:induction false} WalkReaches(walks: seq<seq<string>>, parts: seq<string>, segments: seq<string>,
                                       i: nat, params: map<string, string>)
    requires parts in walks && Fits(parts, segments) && i <= |parts|
    ensures Walk(walks, ShapeOf(parts[..i]), segments[i..], params).place == Some(ShapeOf(parts)) <==>
            ClearFrom(walks, parts, segments, i)
    decreases |parts| - i
  {
    var p := ShapeOf(parts[..i]);
    if i == |parts| {
      assert parts[..i] == parts;
    } else {
      DepthOfShape(parts[..i]);
      DepthOfShape(parts[..i + 1]);
      ShapeOfStep(parts, i);
      assert segments[i..][1..] == segments[i + 1..];
      assert HasNode(walks, ShapeOf(parts[..i + 1]));
      var q := Next(walks, p, segments[i]).value;
      var params' := Bind(walks, q, segments[i], params);
      if Shadowed(walks, parts, segments, i) {
        WalkGoesDown(walks, q, segments[i + 1..], params');
        UpOfShape(parts, i + 1);
      } else {
        assert q == ShapeOf(parts[..i + 1]);
        WalkReaches(walks, parts, segments, i + 1, params');
      }
    }
  }

  // A walk that ends at a pattern's shape fits the pattern from where it began.
  lemma {:induction false} WalkFits(walks: seq<seq<string>>, parts: seq<string>, segments: seq<string>,
                                    i: nat, params: map<string, string>)
    requires i <= |parts| && i <= |segments|
    requires Walk(walks, ShapeOf(parts[..i]), segments[i..], params).place == Some(ShapeOf(parts))
    ensures |parts| == |segments| && forall j :: i <= j < |parts| ==> IsParameter(parts[j]) || parts[j] == segments[j]
    decreases |segments| - i
  {
    var p := ShapeOf(parts[..i]);
    DepthOfShape(parts[..i]);
    DepthOfShape(parts);
    WalkGoesDown(walks, p, segments[i..], params);
    if i < |segments| {
      assert segments[i..][1..] == segments[i + 1..];
      var q := Next(walks, p, segments[i]).value;
      var params' := Bind(walks, q, segments[i], params);
      WalkGoesDown(walks, q, segments[i + 1..], params');
      UpOfShape(parts, i + 1);
      ShapeOfStep(parts, i);
      WalkFits(walks, parts, segments, i + 1, params');
    }
  }

  // --- Main results on matching ---

  ghost predicate Reachable(regs: seq<Registration>, k: nat, verb: string, segments: seq<string>)
    requires k < |regs|
  {
    && regs[k].verb == verb
    && Fits(regs[k].parts, segments)
    && ClearFrom(WalksOf(regs), regs[k].parts, segments, 0)
  }

  ghost function Matched(regs: seq<Registration>, verb: string, segments: seq<string>,
                         params: map<string, string>): Option<Handler>
  {
    HandlerAt(regs, verb, Walk(WalksOf(regs), Root, segments, params).place)
  }

  lemma ReachableIsServed(regs: seq<Registration>, k: nat, verb: string, segments: seq<string>,
                          params: map<string, string>)
    requires k < |regs|
    ensures var place := Walk(WalksOf(regs), Root, segments, params).place;
            Reachable(regs, k, verb, segments) <==> place.Some? && Serves(regs[k], verb, place.value)
  {
    var walks, parts := WalksOf(regs), regs[k].parts;
    assert walks[k] == parts;
    assert parts[..0] == [] && segments[0..] == segments;
    var place := Walk(walks, Root, segments, params).place;
    if Fits(parts, segments) {
      WalkReaches(walks, parts, segments, 0, params);
    }
    if place == Some(ShapeOf(parts)) {
      WalkFits(walks, parts, segments, 0, params);
    }
  }

  // Exactly the requests with a fitting, unshadowed route of their method are matched, and the
  // handler is that of the first such route.
  lemma MatchExactly(regs: seq<Registration>, verb: string, segments: seq<string>, params: map<string, string>)
    ensures Matched(regs, verb, segments, params).Some? <==>
            exists k :: 0 <= k < |regs| && Reachable(regs, k, verb, segments)
    ensures forall k :: 0 <= k < |regs| && Reachable(regs, k, verb, segments)
                        && (forall j :: 0 <= j < k ==> !Reachable(regs, j, verb, segments)) ==>
              Matched(regs, verb, segments, params) == Some(regs[k].handler)
  {
    var place := Walk(WalksOf(regs), Root, segments, params).place;
    forall k | 0 <= k < |regs|
      ensures Reachable(regs, k, verb, segments) <==> place.Some? && Serves(regs[k], verb, place.value)
    {
      ReachableIsServed(regs, k, verb, segments, params);
    }
    if place.Some? {
      FirstHandlerIsFirst(regs, verb, place.value);
    }
  }

  // --- When greedy matching is as good as trying every route ---

  ghost predicate Exhaustive(regs: seq<Registration>, verb: string, segments: seq<string>) {
    exists k :: 0 <= k < |regs| && regs[k].verb == verb && Fits(regs[k].parts, segments)
  }

  // No node on the walk has both a child for the segment and a parameter child.
  ghost predicate Unforked(walks: seq<seq<string>>, p: Shape, segments: seq<string>)
    decreases |segments|
  {
    |segments| == 0 ||
    (&& !(HasNode(walks, Step(p, Literal(segments[0]))) && HasNode(walks, Step(p, Parameter)))
     && (Next(walks, p, segments[0]).Some? ==> Unforked(walks, Next(walks, p, segments[0]).value, segments[1..])))
  }

  lemma {:induction false} UnforkedIsClear(walks: seq<seq<string>>, parts: seq<string>, segments: seq<string>, i: nat)
    requires parts in walks && Fits(parts, segments) && i <= |parts|
    requires Unforked(walks, ShapeOf(parts[..i]), segments[i..])
    ensures ClearFrom(walks, parts, segments, i)
    decreases |parts| - i
  {
    if i < |parts| {
      ShapeOfStep(parts, i);
      DepthOfShape(parts[..i + 1]);
      assert HasNode(walks, ShapeOf(parts[..i + 1]));
      assert segments[i..][1..] == segments[i + 1..];
      UnforkedIsClear(walks, parts, segments, i + 1);
    }
  }

  lemma GreedyIsExhaustive(regs: seq<Registration>, verb: string, segments: seq<string>, params: map<string, string>)
    requires Unforked(WalksOf(regs), Root, segments)
    ensures Matched(regs, verb, segments, params).Some? <==> Exhaustive(regs, verb, segments)
  {
    MatchExactly(regs, verb, segments, params);
    forall k | 0 <= k < |regs| && Fits(regs[k].parts, segments)
      ensures ClearFrom(WalksOf(regs), regs[k].parts, segments, 0)
    {
      assert WalksOf(regs)[k] == regs[k].parts;
      assert regs[k].parts[..0] == [] && segments[0..] == segments;
      UnforkedIsClear(WalksOf(regs), regs[k].parts, segments, 0);
    }
  }

  // --- Parameters ---

  // The j-th segment is bound to the name k on the way to the place q.
  ghost predicate Binds(walks: seq<seq<string>>, q: Shape, j: nat, k: string) {
    var at := Up(q, j + 1);
    at.Step? && at.segment == Parameter && NameAt(walks, at) == k
  }

  // A name without a position on the way is as it was.
  lemma {:induction false} UnboundUnchanged(walks: seq<seq<string>>, p: Shape, segments: seq<string>,
                                            params: map<string, string>, k: string)
    requires Walk(walks, p, segments, params).place.Some?
    requires forall j :: Depth(p) <= j < Depth(p) + |segments| ==>
               !Binds(walks, Walk(walks, p, segments, params).place.value, j, k)
    ensures LookUp(Walk(walks, p, segments, params).params, k) == LookUp(params, k)
    decreases |segments|
  {
    if |segments| > 0 {
      var next := Next(walks, p, segments[0]).value;
      var params' := Bind(walks, next, segments[0], params);
      WalkGoesDown(walks, next, segments[1..], params');
      assert !Binds(walks, Walk(walks, p, segments, params).place.value, Depth(p), k);
      UnboundUnchanged(walks, next, segments[1..], params', k);
    }
  }

  // Any other name has the segment of its last position on the way.
  lemma {:induction false} LastBindingWins(walks: seq<seq<string>>, p: Shape, segments: seq<string>,
                                           params: map<string, string>, k: string, j: nat)
    requires Walk(walks, p, segments, params).place.Some?
    requires Depth(p) <= j < Depth(p) + |segments|
    requires Binds(walks, Walk(walks, p, segments, params).place.value, j, k)
    requires forall i :: j < i < Depth(p) + |segments| ==>
               !Binds(walks, Walk(walks, p, segments, params).place.value, i, k)
    ensures LookUp(Walk(walks, p, segments, params).params, k) == Some(segments[j - Depth(p)])
    decreases |segments|
  {
    var next := Next(walks, p, segments[0]).value;
    var params' := Bind(walks, next, segments[0], params);
    WalkGoesDown(walks, next, segments[1..], params');
    if j == Depth(p) {
      UnboundUnchanged(walks, next, segments[1..], params', k);
    } else {
      LastBindingWins(walks, next, segments[1..], params', k, j);
    }
  }

  // --- Where the router does less than its users may expect ---

  const LITERAL_ROUTE := Registration("GET", ["a", "b"], Handler(1))
  const PARAMETER_ROUTE := Registration("GET", [":x", "c"], Handler(2))

  // A literal child that leads nowhere hides a parameter route that fits.
  lemma GreedyMisses()
    ensures Exhaustive([LITERAL_ROUTE, PARAMETER_ROUTE], "GET", ["a", "c"])
    ensures forall params :: Matched([LITERAL_ROUTE, PARAMETER_ROUTE], "GET", ["a", "c"], params) == None
  {
    var regs, segments := [LITERAL_ROUTE, PARAMETER_ROUTE], ["a", "c"];
    assert Fits(regs[1].parts, segments);
    forall params ensures Matched(regs, "GET", segments, params) == None {
      MatchExactly(regs, "GET", segments, params);
      assert !Fits(regs[0].parts, segments) by { assert regs[0].parts[1] != segments[1]; }
      assert Shadowed(WalksOf(regs), regs[1].parts, segments, 0) by {
        assert WalksOf(regs)[0] == ["a", "b"];
        assert ["a", "b"][..1] == ["a"];
        ShapeOfStep(["a", "b"], 0);
        assert Passes(WalksOf(regs)[0], Step(Root, Literal("a")));
      }
    }
  }

  // A rejected registration still renames the parameters of the route that it repeats.
  lemma RejectedRegistrationRenames(verb: string, h: Handler, h': Handler, id: string, name: string)
    ensures var first := Registration(verb, [":" + id], h);
            var second := Registration(verb, [":" + name], h');
            && FirstHandler([first], verb, ShapeOf(second.parts)).Some?
            && NameAt(WalksOf([first]), Step(Root, Parameter)) == id
            && NameAt(WalksOf([first, second]), Step(Root, Parameter)) == name
            && FirstHandler([first, second], verb, Step(Root, Parameter)) == Some(h)
  {
    var first, second := Registration(verb, [":" + id], h), Registration(verb, [":" + name], h');
    ShapeOfStep([":" + id], 0);
    ShapeOfStep([":" + name], 0);
    assert [":" + id][..1] == [":" + id] && [":" + name][..1] == [":" + name];
    NameAtIsLast(WalksOf([first]), Step(Root, Parameter), 0);
    NameAtIsLast(WalksOf([first, second]), Step(Root, Parameter), 1);
    FirstHandlerIsFirst([first], verb, Step(Root, Parameter));
    FirstHandlerIsFirst([first, second], verb, Step(Root, Parameter));
    assert Serves(first, verb, Step(Root, Parameter));
  }

  // A match that fails can leave parameters of the part it walked in the request.
  lemma FailedMatchBinds(h: Handler, params: map<string, string>)
    ensures var regs := [Registration("GET", [":id", "x"], h)];
            && Matched(regs, "GET", ["7", "y"], params) == None
            && Walk(WalksOf(regs), Root, ["7", "y"], params).params == params["id" := "7"]
  {
    var regs := [Registration("GET", [":id", "x"], h)];
    var walks, w := WalksOf(regs), [":id", "x"];
    assert walks == [w];
    assert w[..0] == [] && w[..1] == [":id"] && w[..2] == w;
    ShapeOfStep(w, 0);
    ShapeOfStep(w, 1);
    assert Passes(w, Step(Root, Parameter));
    assert !Passes(w, Step(Root, Literal("7")));
    var here := Step(Root, Parameter);
    assert !Passes(w, Step(here, Literal("y"))) && !Passes(w, Step(here, Parameter));
    assert Next(walks, Root, "7") == Some(here) && Next(walks, here, "y") == None;
    NameAtIsLast(walks, here, 0);
    assert ["7", "y"][1..] == ["y"];
    assert Walk(walks, here, ["y"], Bind(walks, here, "7", params)) == Walked(None, params["id" := "7"]);
  }

  // --- Splitting a path ---

  function JoinPath(parts: seq<string>): string {
    if |parts| == 0 then "" else "/" + parts[0] + JoinPath(parts[1..])
  }

  lemma SplitPathConcat(a: string, b: string)
    ensures SplitPath(a + "/" + b) == SplitPath(a) + SplitPath(b)
  {
    SplitConcat(a, b, '/');
    NonEmptyConcat(Split(a, '/'), Split(b, '/'));
  }

  lemma LeadingSlash(path: string)
    ensures SplitPath("/" + path) == SplitPath(path)
  {
    assert "/" + path == "" + "/" + path;
    SplitPathConcat("", path);
  }

  predicate IsPart(part: string) {
    |part| > 0 && '/' !in part
  }

  // Parts without slashes come back from the path they make; every path splits into such parts.
  lemma SplitPathJoin(parts: seq<string>)
    requires forall i :: 0 <= i < |parts| ==> IsPart(parts[i])
    ensures SplitPath(JoinPath(parts)) == parts
  {
    if |parts| > 0 {
      var part, rest := parts[0], parts[1..];
      assert forall i :: 0 <= i < |rest| ==> IsPart(rest[i]);
      PathHead(part, rest);
      HeadAndTail(parts);
    } else {
      EmptyPath();
    }
  }

  lemma PathHead(part: string, rest: seq<string>)
    requires IsPart(part) && forall i :: 0 <= i < |rest| ==> IsPart(rest[i])
    ensures SplitPath("/" + part + JoinPath(rest)) == [part] + rest
  {
    Concat("/", part, JoinPath(rest));
    LeadingSlash(part + JoinPath(rest));
    SplitPathTail(part, rest);
  }

  lemma EmptyPath()
    ensures SplitPath("") == []
  {
    assert Split("", '/') == [""] && [""][1..] == [];
    assert NonEmpty([""]) == Kept("") + NonEmpty([]);
  }

  lemma {:induction false} SplitPathTail(part: string, rest: seq<string>)
    requires IsPart(part) && forall i :: 0 <= i < |rest| ==> IsPart(rest[i])
    ensures SplitPath(part + JoinPath(rest)) == [part] + rest
    decreases |rest|
  {
    SplitPlain(part, '/');
    if |rest| == 0 {
      assert part + JoinPath(rest) == part;
      assert NonEmpty([part]) == [part] + NonEmpty([part][1..]);
    } else {
      SplitPathTail(rest[0], rest[1..]);
      assert part + JoinPath(rest) == part + "/" + (rest[0] + JoinPath(rest[1..]));
      SplitPathConcat(part, rest[0] + JoinPath(rest[1..]));
      assert NonEmpty([part]) == [part] + NonEmpty([part][1..]);
    }
  }

  lemma SplitPathParts(path: string)
    ensures forall part :: part in SplitPath(path) ==> IsPart(part)
  {
    JoinSplit(path, '/');
    NonEmptyParts(Split(path, '/'));
  }

  lemma {:induction false} NonEmptyParts(pieces: seq<string>)
    ensures forall part :: part in NonEmpty(pieces) ==> part != "" && part in pieces
  {
    if |pieces| > 0 {
      NonEmptyParts(pieces[1..]);
    }
  }
}
