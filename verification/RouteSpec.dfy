// What a route table means, stated over the plain list of registrations that were made.
// The trie in Router.dfy is proved to agree with these definitions.

module RouteSpec {
  import opened Text
  import opened Wrappers

  // A handler is a std::function; only its identity matters to the router.
  datatype Handler = Handler(id: nat)

  // One step of a registered pattern: a fixed text, or `:name` with the name forgotten.
  datatype Segment = Literal(text: string) | Parameter

  // A place in the route table: the steps that lead to it, the last one outermost.
  datatype Shape = Root | Step(parent: Shape, segment: Segment)

  datatype Registration = Registration(verb: string, parts: seq<string>, handler: Handler)

  predicate IsParameter(part: string) {
    |part| > 0 && part[0] == ':'
  }

  function SegmentOf(part: string): Segment {
    if IsParameter(part) then Parameter else Literal(part)
  }

  function ShapeOf(parts: seq<string>): Shape {
    if |parts| == 0 then Root
    else Step(ShapeOf(parts[..|parts| - 1]), SegmentOf(parts[|parts| - 1]))
  }

  function Depth(p: Shape): nat {
    if p.Root? then 0 else Depth(p.parent) + 1
  }

  // The walk made by registering `parts` goes through the place p.
  predicate Passes(parts: seq<string>, p: Shape) {
    Depth(p) <= |parts| && ShapeOf(parts[..Depth(p)]) == p
  }

  // --- Which nodes exist, and under which name a parameter is bound ---

  // A walk is the list of parts of one registration (or of the part of it made so far).
  ghost predicate HasNode(walks: seq<seq<string>>, p: Shape) {
    p.Root? || exists w :: w in walks && Passes(w, p)
  }

  // The name given to the parameter node p by the last walk that went through it.
  function NameAt(walks: seq<seq<string>>, p: Shape): string {
    if |walks| == 0 || p.Root? || p.segment != Parameter then ""
    else
      var last := walks[|walks| - 1];
      if Passes(last, p) && |last[Depth(p) - 1]| > 0 then last[Depth(p) - 1][1..]
      else NameAt(walks[..|walks| - 1], p)
  }

  function WalksOf(regs: seq<Registration>): seq<seq<string>> {
    seq(|regs|, i requires 0 <= i < |regs| => regs[i].parts)
  }

  // The handler of the earliest registration for this method and shape.
  function FirstHandler(regs: seq<Registration>, verb: string, p: Shape): Option<Handler> {
    if |regs| == 0 then None
    else
      var earlier := FirstHandler(regs[..|regs| - 1], verb, p);
      var last := regs[|regs| - 1];
      if earlier.Some? then earlier
      else if last.verb == verb && ShapeOf(last.parts) == p then Some(last.handler)
      else None
  }

  // --- Matching a request path against the list ---

  // The non-empty segments of a path.
  function SplitPath(path: string): seq<string> {
    NonEmpty(Split(path, '/'))
  }

  // Where a walk ended, if it did not fail, and the parameters bound by then.
  datatype Walked = Walked(place: Option<Shape>, params: map<string, string>)

  // The literal step whenever some walk made it, else the parameter step, else none.
  ghost function Next(walks: seq<seq<string>>, p: Shape, segment: string): Option<Shape> {
    if HasNode(walks, Step(p, Literal(segment))) then Some(Step(p, Literal(segment)))
    else if HasNode(walks, Step(p, Parameter)) then Some(Step(p, Parameter))
    else None
  }

  function Bind(walks: seq<seq<string>>, q: Shape, segment: string, params: map<string, string>): map<string, string> {
    if q.Step? && q.segment == Parameter then params[NameAt(walks, q) := segment] else params
  }

  ghost function Walk(walks: seq<seq<string>>, p: Shape, segments: seq<string>, params: map<string, string>): Walked
    decreases |segments|
  {
    if |segments| == 0 then Walked(Some(p), params)
    else
      match Next(walks, p, segments[0])
      case Some(q) => Walk(walks, q, segments[1..], Bind(walks, q, segments[0], params))
      case None => Walked(None, params)
  }

  function HandlerAt(regs: seq<Registration>, verb: string, place: Option<Shape>): Option<Handler> {
    if place.Some? then FirstHandler(regs, verb, place.value) else None
  }

  // --- Lemmas about one more step of one more walk ---

  lemma {:induction false} DepthOfShape(parts: seq<string>)
    ensures Depth(ShapeOf(parts)) == |parts|
  {
    if |parts| > 0 {
      DepthOfShape(parts[..|parts| - 1]);
    }
  }

  lemma ShapeOfStep(parts: seq<string>, i: nat)
    requires i < |parts|
    ensures ShapeOf(parts[..i + 1]) == Step(ShapeOf(parts[..i]), SegmentOf(parts[i]))
  {
    assert parts[..i + 1][..i] == parts[..i];
  }

  lemma PassesStep(parts: seq<string>, i: nat, q: Shape)
    requires i < |parts|
    ensures Passes(parts[..i + 1], q) <==> Passes(parts[..i], q) || q == ShapeOf(parts[..i + 1])
  {
    DepthOfShape(parts[..i + 1]);
    if Depth(q) <= i {
      assert parts[..i + 1][..Depth(q)] == parts[..i][..Depth(q)];
    } else if Depth(q) == i + 1 {
      assert parts[..i + 1][..i + 1] == parts[..i + 1];
    }
  }

  lemma HasNodeAppend(walks: seq<seq<string>>, w: seq<string>, q: Shape)
    ensures HasNode(walks + [w], q) <==> HasNode(walks, q) || Passes(w, q)
  {
    assert w in walks + [w];
    assert forall v :: v in walks ==> v in walks + [w];
  }

  lemma NameAtAppend(walks: seq<seq<string>>, w: seq<string>, q: Shape)
    ensures NameAt(walks + [w], q) ==
            if q.Step? && q.segment == Parameter && Passes(w, q) && |w[Depth(q) - 1]| > 0 then w[Depth(q) - 1][1..]
            else NameAt(walks, q)
  {
    assert (walks + [w])[..|walks|] == walks;
  }

  // Extending the walk being made by one part adds one node and renames that node only.
  lemma WalkStep(walks: seq<seq<string>>, parts: seq<string>, i: nat, q: Shape)
    requires i < |parts|
    ensures var here := ShapeOf(parts[..i + 1]);
            && (HasNode(walks + [parts[..i + 1]], q) <==> HasNode(walks + [parts[..i]], q) || q == here)
            && NameAt(walks + [parts[..i + 1]], q) ==
               if q == here && IsParameter(parts[i]) then parts[i][1..] else NameAt(walks + [parts[..i]], q)
  {
    ShapeOfStep(parts, i);
    DepthOfShape(parts[..i + 1]);
    PassesStep(parts, i, q);
    HasNodeAppend(walks, parts[..i], q);
    HasNodeAppend(walks, parts[..i + 1], q);
    NameAtAppend(walks, parts[..i], q);
    NameAtAppend(walks, parts[..i + 1], q);
    if Passes(parts[..i], q) && q.Step? {
      assert parts[..i + 1][Depth(q) - 1] == parts[..i][Depth(q) - 1];
    }
  }

  lemma FirstHandlerAppend(regs: seq<Registration>, r: Registration, verb: string, p: Shape)
    ensures FirstHandler(regs + [r], verb, p) ==
            if FirstHandler(regs, verb, p).None? && r.verb == verb && ShapeOf(r.parts) == p
            then Some(r.handler) else FirstHandler(regs, verb, p)
  {
    assert (regs + [r])[..|regs|] == regs;
  }

  lemma WalksOfAppend(regs: seq<Registration>, r: Registration)
    ensures WalksOf(regs + [r]) == WalksOf(regs) + [r.parts]
  {
  }

  // A shape with a handler was registered, so it has a node.
  lemma {:induction false} FirstHandlerHasNode(regs: seq<Registration>, verb: string, p: Shape)
    requires FirstHandler(regs, verb, p).Some?
    ensures HasNode(WalksOf(regs), p)
  {
    var earlier, last := regs[..|regs| - 1], regs[|regs| - 1];
    assert regs == earlier + [last];
    WalksOfAppend(earlier, last);
    HasNodeAppend(WalksOf(earlier), last.parts, p);
    if FirstHandler(earlier, verb, p).Some? {
      FirstHandlerHasNode(earlier, verb, p);
    } else {
      DepthOfShape(last.parts);
      assert last.parts[..|last.parts|] == last.parts;
    }
  }

  // A place that no walk went through has no name.
  lemma {:induction false} NameAtUnvisited(walks: seq<seq<string>>, p: Shape)
    ensures !HasNode(walks, p) ==> NameAt(walks, p) == ""
  {
    if |walks| > 0 {
      var earlier, last := walks[..|walks| - 1], walks[|walks| - 1];
      assert walks == earlier + [last];
      HasNodeAppend(earlier, last, p);
      NameAtUnvisited(earlier, p);
    }
  }
}
