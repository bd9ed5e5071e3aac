// The routing trie: a heap of nodes built by registerHandler and walked by match.

module Routing {
  import opened Wrappers
  import opened HttpRequest
  import RequestText
  import opened RouteSpec

  class Node {
    var staticChildren: map<string, Node>
    var paramChild: Node?
    var paramName: string
    var handlers: map<string, Handler>

    ghost const place: Shape  // the shape that leads to this node

    constructor (ghost place: Shape)
      ensures this.place == place
      ensures staticChildren == map[] && paramChild == null && Content() == BLANK
    {
      this.place := place;
      staticChildren := map[];
      paramChild := null;
      paramName := "";
      handlers := map[];
    }

    ghost function Content(): Label
      reads this
    {
      Label(paramName, handlers)
    }
  }

  // What a node says about its own place: the parameter's name and the handlers by method.
  datatype Label = Label(paramName: string, handlers: map<string, Handler>)

  const BLANK := Label("", map[])

  type Labels = map<Shape, Label>

  // The places are those of the walks, each with the name its last walk gave it and the
  // handlers that were registered there first.
  ghost predicate Records(labels: Labels, walks: seq<seq<string>>, regs: seq<Registration>) {
    && (forall p :: p in labels <==> HasNode(walks, p))
    && (forall p :: p in labels ==> labels[p].paramName == NameAt(walks, p))
    && (forall p, verb :: p in labels ==> LookUp(labels[p].handlers, verb) == FirstHandler(regs, verb, p))
  }

  // The children of a node are exactly the one-step extensions of its place.
  ghost predicate WellLinked(place: Shape, children: map<string, Node>, param: Node?, repr: set<Node>, labels: Labels) {
    && LinkedParameter(place, param, repr, labels)
    && forall s :: LinkedStatic(place, children, s, repr, labels)
  }

  ghost predicate LinkedParameter(place: Shape, param: Node?, repr: set<Node>, labels: Labels) {
    if Step(place, Parameter) in labels
    then param != null && param in repr && param.place == Step(place, Parameter)
    else param == null
  }

  ghost predicate LinkedStatic(place: Shape, children: map<string, Node>, s: string, repr: set<Node>, labels: Labels) {
    if Step(place, Literal(s)) in labels
    then s in children && children[s] in repr && children[s].place == Step(place, Literal(s))
    else s !in children
  }

  ghost predicate Closed(labels: Labels) {
    forall p, s :: Step(p, s) in labels ==> p in labels
  }

  // A new place leaves the links of all nodes but its parent as they are, and has none itself.
  lemma OthersStayLinked(repr: set<Node>, labels: Labels, created: Node)
    requires Closed(labels) && created.place.Step? && created.place !in labels
    ensures forall p, children, param {:trigger WellLinked(p, children, param, repr, labels)} ::
              WellLinked(p, children, param, repr, labels) && p != created.place.parent ==>
              WellLinked(p, children, param, repr + {created}, labels[created.place := BLANK])
    ensures WellLinked(created.place, map[], null, repr + {created}, labels[created.place := BLANK])
  {
    var repr', labels' := repr + {created}, labels[created.place := BLANK];
    forall p, children, param | WellLinked(p, children, param, repr, labels) && p != created.place.parent
      ensures WellLinked(p, children, param, repr', labels')
    {
      forall s ensures LinkedStatic(p, children, s, repr', labels') {
        assert LinkedStatic(p, children, s, repr, labels);
      }
    }
    forall s ensures Step(created.place, s) !in labels' {
      assert Depth(Step(created.place, s)) == Depth(created.place) + 1;
    }
    assert WellLinked(created.place, map[], null, repr', labels');
  }

  lemma ParameterLinked(p: Shape, children: map<string, Node>, repr: set<Node>, labels: Labels, created: Node)
    requires WellLinked(p, children, null, repr, labels) && created.place == Step(p, Parameter)
    ensures WellLinked(p, children, created, repr + {created}, labels[created.place := BLANK])
  {
    var repr', labels' := repr + {created}, labels[created.place := BLANK];
    forall s ensures LinkedStatic(p, children, s, repr', labels') {
      assert LinkedStatic(p, children, s, repr, labels);
    }
  }

  lemma StaticLinked(p: Shape, children: map<string, Node>, param: Node?, text: string,
                     repr: set<Node>, labels: Labels, created: Node)
    requires WellLinked(p, children, param, repr, labels) && created.place == Step(p, Literal(text))
    ensures WellLinked(p, children[text := created], param, repr + {created}, labels[created.place := BLANK])
  {
    var repr', labels', children' := repr + {created}, labels[created.place := BLANK], children[text := created];
    forall s ensures LinkedStatic(p, children', s, repr', labels') {
      assert LinkedStatic(p, children, s, repr, labels);
    }
  }

  class Router {
    const root: Node

    ghost var registrations: seq<Registration>
    ghost var labels: Labels
    ghost var repr: set<Node>

    // The heap is a tree that holds the labels: a node's children are exactly the one-step
    // extensions of its place, and no two nodes have the same place.
    ghost predicate IsTree()
      reads this, repr
    {
      && root in repr && root.place == Root
      && (forall n, m :: n in repr && m in repr && n.place == m.place ==> n == m)
      && Closed(labels)
      && (forall n :: n in repr ==> n.place in labels && n.Content() == labels[n.place])
      && (forall n :: n in repr ==> WellLinked(n.place, n.staticChildren, n.paramChild, repr, labels))
    }

    ghost predicate Valid()
      reads this, repr
    {
      IsTree() && Records(labels, WalksOf(registrations), registrations)
    }

    constructor ()
      ensures Valid() && registrations == [] && fresh(repr)
    {
      root := new Node(Root);
      registrations := [];
      labels := map[Root := BLANK];
      new;
      repr := {root};
    }

    method EnsureParameterChild(node: Node)
      requires IsTree() && node in repr
      modifies `labels, `repr, node
      ensures IsTree() && node.paramChild != null
      ensures repr == old(repr) + {node.paramChild} && node.paramChild.place == Step(node.place, Parameter)
      ensures node.paramChild == old(node.paramChild) || fresh(node.paramChild)
      ensures labels == Grown(old(labels), Step(node.place, Parameter))
    {
      assert WellLinked(node.place, node.staticChildren, node.paramChild, repr, labels);
      if node.paramChild == null {
        var created := new Node(Step(node.place, Parameter));
        OthersStayLinked(repr, labels, created);
        ParameterLinked(node.place, node.staticChildren, repr, labels, created);
        node.paramChild := created;
        labels := labels[created.place := BLANK];
        repr := repr + {created};
      }
    }

    method EnsureStaticChild(node: Node, text: string) returns (child: Node)
      requires IsTree() && node in repr
      modifies `labels, `repr, node
      ensures IsTree()
      ensures repr == old(repr) + {child} && child.place == Step(node.place, Literal(text))
      ensures child in old(repr) || fresh(child)
      ensures labels == Grown(old(labels), Step(node.place, Literal(text)))
    {
      assert WellLinked(node.place, node.staticChildren, node.paramChild, repr, labels);
      assert LinkedStatic(node.place, node.staticChildren, text, repr, labels);
      if text !in node.staticChildren {
        child := new Node(Step(node.place, Literal(text)));
        OthersStayLinked(repr, labels, child);
        StaticLinked(node.place, node.staticChildren, node.paramChild, text, repr, labels, child);
        node.staticChildren := node.staticChildren[text := child];
        labels := labels[child.place := BLANK];
        repr := repr + {child};
      } else {
        child := node.staticChildren[text];
      }
    }
  
    method Rename(node: Node, name: string)
      requires IsTree() && node in repr
      modifies `labels, node
      ensures IsTree()
      ensures labels == old(labels)[node.place := old(labels)[node.place].(paramName := name)]
    {
      node.paramName := name;
      ghost var before := labels;
      labels := labels[node.place := labels[node.place].(paramName := name)];
      SamePlacesLinked(repr, before, labels);
    }

    // One step of the fold in registerHandler: the child for a part, made if it is missing.
    method Descend(node: Node, part: string) returns (child: Node)
      requires IsTree() && node in repr
      modifies `labels, `repr, repr
      ensures IsTree() && fresh(repr - old(repr)) && old(repr) <= repr
      ensures child in repr && child.place == Step(node.place, SegmentOf(part))
      ensures labels == Visited(old(labels), child.place, part)
    {
      if IsParameter(part) {
        EnsureParameterChild(node);
        child := node.paramChild;
        Rename(child, part[1..]);
      } else {
        child := EnsureStaticChild(node, part);
      }
    }

    // The fold in registerHandler. The parameters on the way take this pattern's names.
    method MakePath(parts: seq<string>) returns (node: Node)
      requires Valid()
      modifies `labels, `repr, repr
      ensures IsTree() && fresh(repr - old(repr))
      ensures node in repr && node.place == ShapeOf(parts)
      ensures Records(labels, WalksOf(registrations) + [parts], registrations)
    {
      node := root;
      ghost var walks := WalksOf(registrations);
      NoWalkYet(labels, walks, registrations);
      assert parts[..0] == [];
      for i := 0 to |parts|
        invariant IsTree() && fresh(repr - old(repr))
        invariant node in repr && node.place == ShapeOf(parts[..i])
        invariant Records(labels, walks + [parts[..i]], registrations)
      {
        VisitRecords(labels, registrations, parts, i);
        node := Descend(node, parts[i]);
      }
      assert parts[..|parts|] == parts;
    }

    // Answers 0 and records the handler when the method is new at the pattern's shape; answers
    // -1 otherwise, though the names on the way have changed.
    method RegisterHandler(verb: string, path: string, handler: Handler) returns (code: int)
      requires Valid()
      modifies `registrations, `labels, `repr, repr
      ensures Valid() && fresh(repr - old(repr))
      ensures registrations == old(registrations) + [Registration(verb, SplitPath(path), handler)]
      ensures code == if FirstHandler(old(registrations), verb, ShapeOf(SplitPath(path))).None? then 0 else -1
    {
      var parts := SplitPath(path);
      var node := MakePath(parts);
      ghost var registration := Registration(verb, parts, handler);
      HandlerRecorded(labels, registrations, registration);
      code := TryEmplace(node, verb, handler);
      registrations := registrations + [registration];
    }

    // The handler of a node for a method, set only if there is none.
    method TryEmplace(node: Node, verb: string, handler: Handler) returns (code: int)
      requires IsTree() && node in repr
      modifies `labels, node
      ensures IsTree() && code == if verb in old(labels)[node.place].handlers then -1 else 0
      ensures labels == WithHandler(old(labels), node.place, verb, handler)
    {
      if verb in node.handlers {
        code := -1;
      } else {
        node.handlers := node.handlers[verb := handler];
        ghost var before := labels;
        labels := WithHandler(labels, node.place, verb, handler);
        SamePlacesLinked(repr, before, labels);
        code := 0;
      }
    }

    // One step of the fold in match: the child for a segment, binding the parameter if it is one.
    method Advance(node: Node, part: string, req: Request) returns (child: Node?)
      requires Valid() && node in repr
      modifies req`params
      ensures child != null ==> child in repr
      ensures forall rest :: Walk(WalksOf(registrations), node.place, [part] + rest, old(req.params)) ==
                             WalkFrom(WalksOf(registrations), child, rest, req.params)
    {
      ghost var walks := WalksOf(registrations);
      assert WellLinked(node.place, node.staticChildren, node.paramChild, repr, labels);
      assert LinkedStatic(node.place, node.staticChildren, part, repr, labels);
      assert forall rest: seq<string> :: ([part] + rest)[1..] == rest;
      if part in node.staticChildren {
        child := node.staticChildren[part];
      } else if node.paramChild != null {
        req.SetParam(node.paramChild.paramName, part);
        child := node.paramChild;
      } else {
        child := null;
      }
    }

    // The fold in match. The parameters met on the way are written to the request even when the
    // walk fails later.
    method FollowParts(parts: seq<string>, req: Request) returns (node: Node?)
      requires Valid()
      modifies req`params
      ensures node != null ==> node in repr
      ensures Walk(WalksOf(registrations), Root, parts, old(req.params)) ==
              Walked(if node == null then None else Some(node.place), req.params)
    {
      node := root;
      for i := 0 to |parts|
        invariant node != null ==> node in repr
        invariant Walk(WalksOf(registrations), Root, parts, old(req.params)) ==
                  WalkFrom(WalksOf(registrations), node, parts[i..], req.params)
      {
        if node != null {
          assert parts[i..] == [parts[i]] + parts[i + 1..];
          node := Advance(node, parts[i], req);
        }
      }
    }

    // The handler of the place the path leads to; the query is left as it was.
    method Match(req: Request) returns (handler: Option<Handler>)
      requires Valid()
      modifies req`params, req`query
      ensures var segments := SplitPath(RequestText.PathOf(req.path));
              var walked := Walk(WalksOf(registrations), Root, segments, old(req.params));
              && req.params == walked.params
              && handler == HandlerAt(registrations, req.verb, walked.place)
      ensures req.query == old(req.query)
    {
      var current := FollowParts(SplitPath(RequestText.PathOf(req.path)), req);
      if current == null {
        return None;
      }
      assert LookUp(labels[current.place].handlers, req.verb) ==
             FirstHandler(registrations, req.verb, current.place);
      if req.verb !in current.handlers {
        return None;
      }
      RewriteQuery(req);
      handler := Some(current.handlers[req.verb]);
    }

    ghost predicate IsChildOf(child: Node, parent: Node)
      reads parent
    {
      child == parent.paramChild || child in parent.staticChildren.Values
    }

    // The nodes are a tree under the root: each other node has exactly one parent, one level up.
    lemma OneParent(child: Node)
      requires IsTree() && child in repr
      ensures child == root ==> forall n :: n in repr ==> !IsChildOf(child, n)
      ensures child != root ==> exists n :: n in repr && IsChildOf(child, n)
      ensures forall n, m :: n in repr && m in repr && IsChildOf(child, n) && IsChildOf(child, m) ==> n == m
      ensures forall n :: n in repr && IsChildOf(child, n) ==> Depth(child.place) == Depth(n.place) + 1
    {
      forall n | n in repr && IsChildOf(child, n) ensures child.place.Step? && child.place.parent == n.place {
        assert WellLinked(n.place, n.staticChildren, n.paramChild, repr, labels);
        if child != n.paramChild {
          var s :| s in n.staticChildren && n.staticChildren[s] == child;
          assert LinkedStatic(n.place, n.staticChildren, s, repr, labels);
        }
      }
      if child.place.Step? {
        var parent := NodeOf(child.place.parent);
        assert WellLinked(parent.place, parent.staticChildren, parent.paramChild, repr, labels);
        if child.place.segment.Literal? {
          assert LinkedStatic(parent.place, parent.staticChildren, child.place.segment.text, repr, labels);
        }
      }
    }

    // Every place on record has its node, reached from the root.
    lemma {:induction false} NodeOf(p: Shape) returns (n: Node)
      requires IsTree() && p in labels
      ensures n in repr && n.place == p
    {
      if p.Root? {
        n := root;
      } else {
        assert p.parent in labels by { assert p == Step(p.parent, p.segment); }
        var parent := NodeOf(p.parent);
        assert WellLinked(parent.place, parent.staticChildren, parent.paramChild, repr, labels);
        if p.segment.Parameter? {
          n := parent.paramChild;
        } else {
          assert LinkedStatic(parent.place, parent.staticChildren, p.segment.text, repr, labels);
          n := parent.staticChildren[p.segment.text];
        }
      }
    }

    // Writes every query item back under its own key.
    static method RewriteQuery(req: Request)
      modifies req`query
      ensures req.query == old(req.query)
    {
      var todo := req.query.Keys;
      while todo != {}
        invariant req.query == old(req.query) && todo <= req.query.Keys
        decreases todo
      {
        var key :| key in todo;
        req.SetQuery(key, req.query[key]);
        assert req.query == old(req.query);
        todo := todo - {key};
      }
    }
  }

  lemma SamePlacesLinked(repr: set<Node>, labels: Labels, labels': Labels)
    requires labels'.Keys == labels.Keys
    ensures Closed(labels) ==> Closed(labels')
    ensures forall p, children, param {:trigger WellLinked(p, children, param, repr, labels)} ::
              WellLinked(p, children, param, repr, labels) ==> WellLinked(p, children, param, repr, labels')
  {
    forall p, children, param | WellLinked(p, children, param, repr, labels)
      ensures WellLinked(p, children, param, repr, labels')
    {
      forall s ensures LinkedStatic(p, children, s, repr, labels') {
        assert LinkedStatic(p, children, s, repr, labels);
      }
    }
  }

  function Grown(labels: Labels, p: Shape): Labels {
    if p in labels then labels else labels[p := BLANK]
  }

  // The labels after one step of the fold to the place p, taken for a part.
  function Visited(labels: Labels, p: Shape, part: string): Labels {
    var grown := Grown(labels, p);
    if IsParameter(part) then grown[p := grown[p].(paramName := part[1..])] else grown
  }

  // The rest of a walk that has reached a node, or has failed.
  ghost function WalkFrom(walks: seq<seq<string>>, node: Node?, segments: seq<string>,
                          params: map<string, string>): Walked
  {
    if node == null then Walked(None, params) else Walk(walks, node.place, segments, params)
  }

  function WithHandler(labels: Labels, p: Shape, verb: string, handler: Handler): Labels
    requires p in labels
  {
    if verb in labels[p].handlers then labels
    else labels[p := labels[p].(handlers := labels[p].handlers[verb := handler])]
  }

  // A walk that has not left the root changes nothing.
  lemma NoWalkYet(labels: Labels, walks: seq<seq<string>>, regs: seq<Registration>)
    requires Records(labels, walks, regs)
    ensures Records(labels, walks + [[]], regs)
  {
    forall p
      ensures HasNode(walks + [[]], p) <==> HasNode(walks, p)
      ensures NameAt(walks + [[]], p) == NameAt(walks, p)
    {
      HasNodeAppend(walks, [], p);
      NameAtAppend(walks, [], p);
    }
  }

  // One more step of a walk keeps the record.
  lemma VisitRecords(labels: Labels, regs: seq<Registration>, parts: seq<string>, i: nat)
    requires i < |parts|
    requires Records(labels, WalksOf(regs) + [parts[..i]], regs)
    ensures Step(ShapeOf(parts[..i]), SegmentOf(parts[i])) == ShapeOf(parts[..i + 1])
    ensures Records(Visited(labels, ShapeOf(parts[..i + 1]), parts[i]), WalksOf(regs) + [parts[..i + 1]], regs)
  {
    var walks, there := WalksOf(regs), ShapeOf(parts[..i + 1]);
    ShapeOfStep(parts, i);
    var labels' := Visited(labels, there, parts[i]);
    forall p ensures p in labels' <==> HasNode(walks + [parts[..i + 1]], p) {
      WalkStep(walks, parts, i, p);
    }
    forall p | p in labels' ensures labels'[p].paramName == NameAt(walks + [parts[..i + 1]], p) {
      WalkStep(walks, parts, i, p);
      NameAtUnvisited(walks + [parts[..i]], p);
    }
    forall p, verb | p in labels' ensures LookUp(labels'[p].handlers, verb) == FirstHandler(regs, verb, p) {
      if FirstHandler(regs, verb, p).Some? {
        FirstHandlerHasNode(regs, verb, p);
        HasNodeAppend(walks, parts[..i], p);
      }
    }
  }

  // Recording a handler at the end of the walk, unless there was one.
  lemma HandlerRecorded(labels: Labels, regs: seq<Registration>, r: Registration)
    requires Records(labels, WalksOf(regs) + [r.parts], regs)
    ensures var p := ShapeOf(r.parts);
            && p in labels
            && LookUp(labels[p].handlers, r.verb) == FirstHandler(regs, r.verb, p)
            && Records(WithHandler(labels, p, r.verb, r.handler), WalksOf(regs + [r]), regs + [r])
  {
    var p := ShapeOf(r.parts);
    WalksOfAppend(regs, r);
    DepthOfShape(r.parts);
    assert r.parts[..|r.parts|] == r.parts;
    HasNodeAppend(WalksOf(regs), r.parts, p);
    forall q, verb ensures FirstHandler(regs + [r], verb, q) ==
                           if FirstHandler(regs, verb, q).None? && r.verb == verb && p == q
                           then Some(r.handler) else FirstHandler(regs, verb, q) {
      FirstHandlerAppend(regs, r, verb, q);
    }
  }

}
