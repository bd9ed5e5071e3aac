// The WebSocket routes of a server: which handler belongs to a connection.

module WsRoutes {
  import opened Wrappers
  import SortedMap

  datatype WsRoute = WsRoute(path: string, sockfd: int, handler: nat, query: map<string, string>)

  // operator< of the routes.
  predicate Less(a: WsRoute, b: WsRoute) {
    if a.path != b.path then SortedMap.Leq(a.path, b.path) else a.sockfd < b.sockfd
  }

  predicate IsSorted(routes: seq<WsRoute>) {
    forall i :: 0 <= i < |routes| - 1 ==> Less(routes[i], routes[i + 1])
  }

  predicate IsFirstWithPath(routes: seq<WsRoute>, path: string, i: nat) {
    i < |routes| && routes[i].path == path && forall j :: 0 <= j < i ==> routes[j].path != path
  }

  predicate IsFirstWithSocket(routes: seq<WsRoute>, sockfd: int, i: nat) {
    i < |routes| && routes[i].sockfd == sockfd && forall j :: 0 <= j < i ==> routes[j].sockfd != sockfd
  }

  function Updated(routes: seq<WsRoute>, i: nat, query: map<string, string>, sockfd: int): seq<WsRoute>
    requires i < |routes|
  {
    routes[i := routes[i].(sockfd := sockfd, query := query)]
  }

  // The elements of a std::set in their order, which the updates change in place.
  class Routes {
    var routes: seq<WsRoute>

    constructor (routes: seq<WsRoute>)
      ensures this.routes == routes
    {
      this.routes := routes;
    }

    method UpdateWsRoute(path: string, query: map<string, string>, sockfd: int) returns (found: bool)
      modifies this
      ensures found <==> exists i: nat :: IsFirstWithPath(old(routes), path, i)
      ensures !found ==> routes == old(routes)
      ensures forall i: nat :: IsFirstWithPath(old(routes), path, i) ==>
                routes == Updated(old(routes), i, query, sockfd)
    {
      for i := 0 to |routes|
        invariant routes == old(routes)
        invariant forall j :: 0 <= j < i ==> routes[j].path != path
      {
        if routes[i].path == path {
          assert IsFirstWithPath(routes, path, i);
          routes := routes[i := routes[i].(sockfd := sockfd, query := query)];
          return true;
        }
      }
      found := false;
    }

    method GetWsRouteBySocketId(sockfd: int) returns (route: Option<WsRoute>)
      ensures route.Some? <==> exists i: nat :: IsFirstWithSocket(routes, sockfd, i)
      ensures forall i: nat :: IsFirstWithSocket(routes, sockfd, i) ==> route == Some(routes[i])
    {
      for i := 0 to |routes|
        invariant forall j :: 0 <= j < i ==> routes[j].sockfd != sockfd
      {
        if routes[i].sockfd == sockfd {
          assert IsFirstWithSocket(routes, sockfd, i);
          return Some(routes[i]);
        }
      }
      route := None;
    }
  }

  // After a handshake on a path its connection is dispatched to the route of that path exactly
  // when no route before it still has the same descriptor number.
  lemma DispatchedToItsRoute(routes: seq<WsRoute>, path: string, i: nat, query: map<string, string>, sockfd: int)
    requires IsFirstWithPath(routes, path, i)
    ensures IsFirstWithSocket(Updated(routes, i, query, sockfd), sockfd, i) <==>
            forall j :: 0 <= j < i ==> routes[j].sockfd != sockfd
  {
    var updated := Updated(routes, i, query, sockfd);
    assert forall j :: 0 <= j < i ==> updated[j] == routes[j];
  }

  // A number left by an earlier connection sends the new one to the wrong route.
  lemma StaleNumberMisdirects(first: nat, second: nat)
    ensures var routes := [WsRoute("/a", 5, first, map[]), WsRoute("/b", -1, second, map[])];
            && IsSorted(routes) && IsFirstWithPath(routes, "/b", 1)
            && IsFirstWithSocket(Updated(routes, 1, map[], 5), 5, 0)
  {
    assert "/a"[1..] == "a" && "/b"[1..] == "b";
    assert "/a"[0] == '/' && "/b"[0] == '/';
    assert SortedMap.Leq("a", "b");
  }

  // Changing the number in place keeps the set in order exactly when the next route is not one of
  // the same path with a smaller or equal number.
  lemma UpdateKeepsOrderExactly(routes: seq<WsRoute>, path: string, i: nat, query: map<string, string>, sockfd: int)
    requires IsSorted(routes) && IsFirstWithPath(routes, path, i)
    ensures IsSorted(Updated(routes, i, query, sockfd)) <==>
            (i + 1 < |routes| && routes[i + 1].path == path ==> sockfd < routes[i + 1].sockfd)
  {
    var updated := Updated(routes, i, query, sockfd);
    forall j | 0 <= j < |routes| - 1 && j != i ensures Less(updated[j], updated[j + 1]) {
      assert Less(routes[j], routes[j + 1]);
    }
    if i + 1 < |routes| {
      assert Less(routes[i], routes[i + 1]);
      assert IsSorted(updated) ==> Less(updated[i], updated[i + 1]);
    }
  }
}
