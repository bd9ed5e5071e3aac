// The poll loop of the server: what one round and whole runs do to the client list and to the
// open descriptors.

module PollLoop {
  import opened Bytes
  import opened Descriptors
  import opened Orders
  import opened Text
  import opened WebSocketFrames
  import opened WebSockets
  import opened Wrappers

  // --- The environment of a round ---

  datatype Received = Data(bytes: seq<byte>) | Eof | Again | Broken

  // What poll reports of a client, with the result of recv if it is readable.
  datatype ClientEvent = Quiet | Hangup | Readable(received: Received)

  // What poll returns: an interruption, another error, or events with the numbers that accept
  // returns until it fails.
  datatype Poll = Interrupted | Failed | Ready(accepts: seq<nat>, events: map<nat, ClientEvent>)

  function EventOf(events: map<nat, ClientEvent>, fd: nat): ClientEvent {
    if fd in events then events[fd] else Quiet
  }

  // The client is closed and recorded as closed.
  predicate IsRecorded(e: ClientEvent) {
    e.Hangup? || (e.Readable? && (e.received.Eof? || e.received.Broken?))
  }

  // The client is closed for its Close frame, and not recorded.
  predicate IsCloseFrame(e: ClientEvent, wsRoutes: bool) {
    wsRoutes && e.Readable? && e.received.Data? && GetWebSocketFrame(e.received.bytes) == Some(CLOSE)
  }

  function Recorded(fds: set<nat>, events: map<nat, ClientEvent>): set<nat> {
    set fd | fd in fds && IsRecorded(EventOf(events, fd))
  }

  function Shut(fds: set<nat>, events: map<nat, ClientEvent>, wsRoutes: bool): set<nat> {
    set fd | fd in fds && (IsRecorded(EventOf(events, fd)) || IsCloseFrame(EventOf(events, fd), wsRoutes))
  }

  // --- Rounds and runs, on values ---

  datatype World = World(clients: set<nat>, open: set<nat>)

  function After(w: World, poll: Poll, wsRoutes: bool): World {
    if poll.Ready? then
      World((w.clients + Elements(poll.accepts)) - Recorded(w.clients, poll.events),
            (w.open + Elements(poll.accepts)) - Shut(w.clients, poll.events, wsRoutes))
    else w
  }

  predicate AreFresh(accepts: seq<nat>, open: set<nat>) {
    AreDistinct(accepts) && forall fd :: fd in Elements(accepts) ==> fd !in open
  }

  // Any behaviour of poll, accept and recv in which accept returns numbers that are not open.
  predicate IsLegal(w: World, poll: Poll) {
    poll.Ready? ==> AreFresh(poll.accepts, w.open)
  }

  // A run up to a failing poll.
  function Run(w: World, polls: seq<Poll>, wsRoutes: bool): World
    decreases |polls|
  {
    if |polls| == 0 || polls[0].Failed? then w else Run(After(w, polls[0], wsRoutes), polls[1..], wsRoutes)
  }

  predicate IsLegalRun(w: World, polls: seq<Poll>, wsRoutes: bool)
    decreases |polls|
  {
    |polls| == 0 || polls[0].Failed? ||
    (IsLegal(w, polls[0]) && IsLegalRun(After(w, polls[0], wsRoutes), polls[1..], wsRoutes))
  }

  function CloseCalls(order: seq<nat>): seq<Event> {
    seq(|order|, i requires 0 <= i < |order| => Closed(order[i]))
  }

  function AcceptCalls(order: seq<nat>): seq<Event> {
    seq(|order|, i requires 0 <= i < |order| => Accepted(order[i]))
  }

  predicate IsClosed(e: ClientEvent, wsRoutes: bool) {
    IsRecorded(e) || IsCloseFrame(e, wsRoutes)
  }

  // The closed ones among clients that come in some order.
  function ClosedAmong(fds: seq<nat>, events: map<nat, ClientEvent>, wsRoutes: bool): seq<nat> {
    if |fds| == 0 then []
    else
      var fd, earlier := fds[|fds| - 1], ClosedAmong(fds[..|fds| - 1], events, wsRoutes);
      if IsClosed(EventOf(events, fd), wsRoutes) then earlier + [fd] else earlier
  }

  // Those of them that are recorded as closed.
  function RecordedAmong(fds: seq<nat>, events: map<nat, ClientEvent>): seq<nat> {
    ClosedAmong(fds, events, false)
  }

  // Data that is handed on to be answered.
  datatype Request = Request(fd: nat, bytes: seq<byte>)

  function WithRequest(requests: seq<Request>, fd: nat, e: ClientEvent): seq<Request> {
    if e.Readable? && e.received.Data? then requests + [Request(fd, e.received.bytes)] else requests
  }

  // With the data of these clients, one after the other.
  function WithRequests(requests: seq<Request>, fds: seq<nat>, events: map<nat, ClientEvent>): seq<Request> {
    if |fds| == 0 then requests
    else
      var fd := fds[|fds| - 1];
      WithRequest(WithRequests(requests, fds[..|fds| - 1], events), fd, EventOf(events, fd))
  }

  function AfterClient(k: Seen, fd: nat, e: ClientEvent, wsRoutes: bool): Seen {
    if IsClosed(e, wsRoutes) then Seen(k.open - {fd}, k.log + [Closed(fd)]) else k
  }

  function AfterClients(k: Seen, fds: seq<nat>, events: map<nat, ClientEvent>, wsRoutes: bool): Seen {
    if |fds| == 0 then k
    else
      var fd := fds[|fds| - 1];
      AfterClient(AfterClients(k, fds[..|fds| - 1], events, wsRoutes), fd, EventOf(events, fd), wsRoutes)
  }

  // --- The server ---

  class Server {
    const kernel: Kernel
    const wsRoutes: bool
    var clientList: set<nat>
    var requests: seq<Request>

    constructor (kernel: Kernel, wsRoutes: bool)
      ensures this.kernel == kernel && this.wsRoutes == wsRoutes && clientList == {} && requests == []
    {
      this.kernel := kernel;
      this.wsRoutes := wsRoutes;
      clientList, requests := {}, [];
    }

    ghost function View(): World
      reads this, kernel
    {
      World(clientList, kernel.open)
    }

    // Accepts until there is nothing to accept.
    method HandleListenSocket(accepts: seq<nat>)
      requires kernel.Valid() && AreFresh(accepts, kernel.open)
      modifies `clientList, kernel
      ensures kernel.Valid()
      ensures clientList == old(clientList) + Elements(accepts)
      ensures kernel.open == old(kernel.open) + Elements(accepts)
      ensures kernel.log == old(kernel.log) + AcceptCalls(accepts)
    {
      for i := 0 to |accepts|
        invariant kernel.Valid()
        invariant clientList == old(clientList) + Elements(accepts[..i])
        invariant kernel.open == old(kernel.open) + Elements(accepts[..i])
        invariant kernel.log == old(kernel.log) + AcceptCalls(accepts[..i])
      {
        NextAccept(accepts, i);
        kernel.Accept(accepts[i]);
        clientList := clientList + {accepts[i]};
      }
      assert accepts[..|accepts|] == accepts;
    }

    method HandleClientSocket(fd: nat, event: ClientEvent, closedSockets: seq<nat>) returns (closedSockets': seq<nat>)
      requires kernel.Valid()
      modifies `requests, kernel
      ensures kernel.Valid()
      ensures closedSockets' == if IsRecorded(event) then closedSockets + [fd] else closedSockets
      ensures kernel.View() == AfterClient(old(kernel.View()), fd, event, wsRoutes)
      ensures requests == WithRequest(old(requests), fd, event)
    {
      closedSockets' := closedSockets;
      match event
      case Quiet =>
      case Hangup =>
        kernel.Close(fd);
        closedSockets' := closedSockets + [fd];
      case Readable(received) =>
        match received
        case Data(bytes) =>
          PerformRequest(fd, bytes);
        case Eof =>
          kernel.Close(fd);
          closedSockets' := closedSockets + [fd];
        case Again =>
        case Broken =>
          kernel.Close(fd);
          closedSockets' := closedSockets + [fd];
    }

    // Only the effect on descriptors: handlers are assumed to close nothing.
    method PerformRequest(fd: nat, bytes: seq<byte>)
      requires kernel.Valid()
      modifies `requests, kernel
      ensures kernel.Valid()
      ensures requests == old(requests) + [Request(fd, bytes)]
      ensures kernel.View() == AfterClient(old(kernel.View()), fd, Readable(Data(bytes)), wsRoutes)
    {
      requests := requests + [Request(fd, bytes)];
      if wsRoutes {
        var opcode := GetWebSocketFrame(bytes);
        if opcode.Some? && opcode.value == CLOSE {
          kernel.Close(fd);
          return;
        }
      }
    }

    // One round: the listening socket is the first entry, so every accept comes before every
    // close. The clients come in any order, with one close for each that has to go and one
    // request for each that has sent data.
    method HandleEvents(poll: Poll) returns (ghost order: seq<nat>, ghost visited: seq<nat>)
      requires poll.Ready? && kernel.Valid() && IsLegal(View(), poll)
      modifies this, kernel
      ensures kernel.Valid() && View() == After(old(View()), poll, wsRoutes)
      ensures IsOrderOf(order, Shut(old(clientList), poll.events, wsRoutes))
      ensures kernel.log == old(kernel.log) + AcceptCalls(poll.accepts) + CloseCalls(order)
      ensures IsOrderOf(visited, old(clientList)) && requests == WithRequests(old(requests), visited, poll.events)
    {
      var descriptors := InSomeOrder(clientList);
      visited := descriptors;
      HandleListenSocket(poll.accepts);
      ClientsOutcome(kernel.View(), descriptors, poll.events, wsRoutes);
      var closedSockets := HandleClients(descriptors, poll.events);
      order := ClosedAmong(descriptors, poll.events, wsRoutes);
      ClosedInOrder(descriptors, poll.events, wsRoutes);
      ClosedInOrder(descriptors, poll.events, false);
      clientList := set fd | fd in clientList && fd !in closedSockets;
    }

    // The entries of poll behind the first one.
    method HandleClients(descriptors: seq<nat>, events: map<nat, ClientEvent>) returns (closedSockets: seq<nat>)
      requires kernel.Valid()
      modifies `requests, kernel
      ensures kernel.Valid() && kernel.View() == AfterClients(old(kernel.View()), descriptors, events, wsRoutes)
      ensures closedSockets == RecordedAmong(descriptors, events)
      ensures requests == WithRequests(old(requests), descriptors, events)
    {
      closedSockets := [];
      for i := 0 to |descriptors|
        invariant kernel.Valid()
        invariant kernel.View() == AfterClients(old(kernel.View()), descriptors[..i], events, wsRoutes)
        invariant closedSockets == RecordedAmong(descriptors[..i], events)
        invariant requests == WithRequests(old(requests), descriptors[..i], events)
      {
        OneMoreClient(old(kernel.View()), old(requests), descriptors, i, events, wsRoutes);
        closedSockets := HandleClientSocket(descriptors[i], EventOf(events, descriptors[i]), closedSockets);
      }
      assert descriptors[..|descriptors|] == descriptors;
    }

    // The loop over the results of poll, up to their end or to a failure.
    method HandleRequests(polls: seq<Poll>)
      requires kernel.Valid() && IsLegalRun(View(), polls, wsRoutes)
      modifies this, kernel
      ensures kernel.Valid() && View() == Run(old(View()), polls, wsRoutes)
      ensures !wsRoutes && old(clientList == kernel.open && Alternates(kernel.log)) ==> Alternates(kernel.log)
    {
      for i := 0 to |polls|
        invariant kernel.Valid() && IsLegalRun(View(), polls[i..], wsRoutes)
        invariant Run(old(View()), polls, wsRoutes) == Run(View(), polls[i..], wsRoutes)
        invariant !wsRoutes && old(clientList == kernel.open && Alternates(kernel.log)) ==>
                    clientList == kernel.open && Alternates(kernel.log)
      {
        match polls[i]
        case Interrupted =>
        case Failed =>
          return;
        case Ready(accepts, events) =>
          ghost var before, log := View(), kernel.log;
          ghost var order, _ := HandleEvents(polls[i]);
          if !wsRoutes && before.clients == before.open && Alternates(log) {
            StrongKept(before, polls[i]);
            RoundAlternates(log, accepts, order);
          }
      }
    }
  }

  // --- Lemmas for the methods ---

  lemma OneMoreClient(k: Seen, requests: seq<Request>, fds: seq<nat>, i: nat, events: map<nat, ClientEvent>,
                      wsRoutes: bool)
    requires i < |fds|
    ensures var e := EventOf(events, fds[i]);
            && AfterClients(k, fds[..i + 1], events, wsRoutes) ==
               AfterClient(AfterClients(k, fds[..i], events, wsRoutes), fds[i], e, wsRoutes)
            && RecordedAmong(fds[..i + 1], events) ==
               RecordedAmong(fds[..i], events) + (if IsRecorded(e) then [fds[i]] else [])
            && WithRequests(requests, fds[..i + 1], events) ==
               WithRequest(WithRequests(requests, fds[..i], events), fds[i], e)
  {
    assert fds[..i + 1][..i] == fds[..i];
  }

  lemma NextAccept(accepts: seq<nat>, i: nat)
    requires i < |accepts| && AreDistinct(accepts)
    ensures accepts[i] in Elements(accepts) && accepts[i] !in Elements(accepts[..i])
    ensures Elements(accepts[..i + 1]) == Elements(accepts[..i]) + {accepts[i]}
    ensures AcceptCalls(accepts[..i + 1]) == AcceptCalls(accepts[..i]) + [Accepted(accepts[i])]
  {
    assert accepts[..i + 1] == accepts[..i] + [accepts[i]];
    AddElement(accepts[..i], accepts[i]);
    AddCall(accepts[..i], accepts[i]);
  }

  lemma AddCall(s: seq<nat>, x: nat)
    ensures CloseCalls(s + [x]) == CloseCalls(s) + [Closed(x)]
    ensures AcceptCalls(s + [x]) == AcceptCalls(s) + [Accepted(x)]
  {
  }

  lemma {:induction false} ClosedInOrder(fds: seq<nat>, events: map<nat, ClientEvent>, wsRoutes: bool)
    requires AreDistinct(fds)
    ensures IsOrderOf(ClosedAmong(fds, events, wsRoutes), Shut(Elements(fds), events, wsRoutes))
    ensures Shut(Elements(fds), events, false) == Recorded(Elements(fds), events)
  {
    if |fds| > 0 {
      var init, fd := fds[..|fds| - 1], fds[|fds| - 1];
      assert fds == init + [fd];
      AddElement(init, fd);
      ClosedInOrder(init, events, wsRoutes);
      AddElement(ClosedAmong(init, events, wsRoutes), fd);
    }
  }

  lemma {:induction false} ClientsOutcome(k: Seen, fds: seq<nat>, events: map<nat, ClientEvent>, wsRoutes: bool)
    ensures var k', closed := AfterClients(k, fds, events, wsRoutes), ClosedAmong(fds, events, wsRoutes);
            k'.open == k.open - Elements(closed) && k'.log == k.log + CloseCalls(closed)
  {
    if |fds| > 0 {
      var init := fds[..|fds| - 1];
      ClientsOutcome(k, init, events, wsRoutes);
      AddElement(ClosedAmong(init, events, wsRoutes), fds[|fds| - 1]);
      AddCall(ClosedAmong(init, events, wsRoutes), fds[|fds| - 1]);
    }
  }

  lemma {:induction false} AcceptsAlternate(log: seq<Event>, accepts: seq<nat>)
    requires Alternates(log) && AreFresh(accepts, OpenOf(log))
    ensures Alternates(log + AcceptCalls(accepts))
    ensures OpenOf(log + AcceptCalls(accepts)) == OpenOf(log) + Elements(accepts)
    decreases |accepts|
  {
    if |accepts| == 0 {
      assert log + AcceptCalls(accepts) == log;
    } else {
      var init, last := accepts[..|accepts| - 1], accepts[|accepts| - 1];
      assert accepts == init + [last];
      FreshInit(init, last, OpenOf(log));
      AcceptsAlternate(log, init);
      OneMoreAccept(log, init, last);
    }
  }

  lemma FreshInit(init: seq<nat>, last: nat, open: set<nat>)
    requires AreFresh(init + [last], open)
    ensures AreFresh(init, open) && last !in open + Elements(init)
    ensures open + Elements(init + [last]) == open + Elements(init) + {last}
  {
    AddElement(init, last);
    assert last in Elements(init + [last]);
  }

  lemma OneMoreAccept(log: seq<Event>, init: seq<nat>, last: nat)
    requires Alternates(log + AcceptCalls(init)) && last !in OpenOf(log + AcceptCalls(init))
    ensures Alternates(log + AcceptCalls(init + [last]))
    ensures OpenOf(log + AcceptCalls(init + [last])) == OpenOf(log + AcceptCalls(init)) + {last}
  {
    AddCall(init, last);
    OneMore(log + AcceptCalls(init), Accepted(last));
    Concat(log, AcceptCalls(init), [Accepted(last)]);
  }

  lemma {:induction false} ClosesAlternate(log: seq<Event>, order: seq<nat>)
    requires Alternates(log) && AreDistinct(order) && Elements(order) <= OpenOf(log)
    ensures Alternates(log + CloseCalls(order))
    ensures OpenOf(log + CloseCalls(order)) == OpenOf(log) - Elements(order)
    decreases |order|
  {
    if |order| == 0 {
      assert log + CloseCalls(order) == log;
    } else {
      var init, last := order[..|order| - 1], order[|order| - 1];
      assert order == init + [last];
      AddElement(init, last);
      AddCall(init, last);
      ClosesAlternate(log, init);
      OneMore(log + CloseCalls(init), Closed(last));
      assert log + CloseCalls(order) == log + CloseCalls(init) + [Closed(last)];
    }
  }

  lemma RoundAlternates(log: seq<Event>, accepts: seq<nat>, order: seq<nat>)
    requires Alternates(log) && AreFresh(accepts, OpenOf(log))
    requires AreDistinct(order) && Elements(order) <= OpenOf(log) + Elements(accepts)
    ensures Alternates(log + AcceptCalls(accepts) + CloseCalls(order))
  {
    AcceptsAlternate(log, accepts);
    ClosesAlternate(log + AcceptCalls(accepts), order);
  }

  // --- What every round and every run keeps ---

  // No open descriptor is ever missing from the list, with or without WebSocket routes.
  lemma OpenIsListed(w: World, poll: Poll, wsRoutes: bool)
    requires w.open <= w.clients
    ensures After(w, poll, wsRoutes).open <= After(w, poll, wsRoutes).clients
  {
  }

  lemma {:induction false} OpenIsListedInRuns(w: World, polls: seq<Poll>, wsRoutes: bool)
    requires w.open <= w.clients
    ensures Run(w, polls, wsRoutes).open <= Run(w, polls, wsRoutes).clients
    decreases |polls|
  {
    if |polls| > 0 && !polls[0].Failed? {
      OpenIsListed(w, polls[0], wsRoutes);
      OpenIsListedInRuns(After(w, polls[0], wsRoutes), polls[1..], wsRoutes);
    }
  }

  predicate HandlesCloseFrame(w: World, poll: Poll, wsRoutes: bool) {
    poll.Ready? && exists fd :: fd in w.clients && IsCloseFrame(EventOf(poll.events, fd), wsRoutes)
  }

  // The list stays exactly the open descriptors, unless the round handles a Close frame.
  lemma StrongExactly(w: World, poll: Poll, wsRoutes: bool)
    requires w.clients == w.open && IsLegal(w, poll)
    ensures var next := After(w, poll, wsRoutes);
            next.clients == next.open <==> !HandlesCloseFrame(w, poll, wsRoutes)
  {
    var next := After(w, poll, wsRoutes);
    if HandlesCloseFrame(w, poll, wsRoutes) {
      var fd :| fd in w.clients && IsCloseFrame(EventOf(poll.events, fd), wsRoutes);
      assert fd in next.clients && fd !in next.open;
    } else if poll.Ready? {
      assert forall fd :: fd in w.clients ==> !IsCloseFrame(EventOf(poll.events, fd), wsRoutes);
      assert Shut(w.clients, poll.events, wsRoutes) == Recorded(w.clients, poll.events);
    }
  }

  lemma StrongKept(w: World, poll: Poll)
    requires w.clients == w.open && IsLegal(w, poll)
    ensures After(w, poll, false).clients == After(w, poll, false).open
  {
    StrongExactly(w, poll, false);
  }

  // Without WebSocket routes that holds at the end of every round of every run.
  lemma {:induction false} StrongInRuns(w: World, polls: seq<Poll>, n: nat)
    requires w.clients == w.open && IsLegalRun(w, polls, false) && n <= |polls|
    ensures Run(w, polls[..n], false).clients == Run(w, polls[..n], false).open
    decreases |polls|
  {
    if n > 0 && !polls[0].Failed? {
      StrongKept(w, polls[0]);
      StrongInRuns(After(w, polls[0], false), polls[1..], n - 1);
      assert polls[..n][1..] == polls[1..][..n - 1];
    }
  }

  // --- What each event does ---

  // Any number is open after a round exactly if it was open or is accepted, and, for a client,
  // its event is nothing, a read to be tried again, or data that is not a handled Close frame.
  lemma OpenAfterExactly(w: World, poll: Poll, wsRoutes: bool, fd: nat)
    requires poll.Ready?
    ensures var e := EventOf(poll.events, fd);
            fd in After(w, poll, wsRoutes).open <==>
            && (fd in w.open || fd in poll.accepts)
            && (fd in w.clients ==>
                  || e == Quiet
                  || e == Readable(Again)
                  || exists b :: e == Readable(Data(b)) && !(wsRoutes && GetWebSocketFrame(b) == Some(8)))
  {
    var e := EventOf(poll.events, fd);
    assert e.Readable? && e.received.Data? ==> e == Readable(Data(e.received.bytes));
  }

  // It is listed exactly if it was listed or is accepted, and, for a client, its event is
  // nothing, a read to be tried again, or data.
  lemma ListedAfterExactly(w: World, poll: Poll, wsRoutes: bool, fd: nat)
    requires poll.Ready?
    ensures var e := EventOf(poll.events, fd);
            fd in After(w, poll, wsRoutes).clients <==>
            && (fd in w.clients || fd in poll.accepts)
            && (fd in w.clients ==> e == Quiet || e == Readable(Again) || exists b :: e == Readable(Data(b)))
  {
    var e := EventOf(poll.events, fd);
    assert e.Readable? && e.received.Data? ==> e == Readable(Data(e.received.bytes));
  }

  // Each client's data is handed on in a round once, and nothing else is.
  lemma {:induction false} RequestsExactly(requests: seq<Request>, fds: seq<nat>, events: map<nat, ClientEvent>,
                                           r: Request)
    requires AreDistinct(fds)
    ensures requests <= WithRequests(requests, fds, events)
    ensures multiset(WithRequests(requests, fds, events))[r] ==
            multiset(requests)[r] + if r.fd in fds && EventOf(events, r.fd) == Readable(Data(r.bytes)) then 1 else 0
  {
    if |fds| > 0 {
      var init, last := fds[..|fds| - 1], fds[|fds| - 1];
      assert fds == init + [last];
      AddElement(init, last);
      RequestsExactly(requests, init, events, r);
    }
  }

  // An interrupted poll changes nothing, and a failing one ends the run.
  lemma {:induction false} RunsGoOn(w: World, before: seq<Poll>, after: seq<Poll>, wsRoutes: bool)
    ensures Run(w, before + [Interrupted] + after, wsRoutes) == Run(w, before + after, wsRoutes)
    ensures Run(w, before + [Failed] + after, wsRoutes) == Run(w, before, wsRoutes)
    decreases |before|
  {
    Concat(before, [Interrupted], after);
    Concat(before, [Failed], after);
    if |before| == 0 {
      assert ([Interrupted] + after)[1..] == after && before + after == after;
      assert before + ([Interrupted] + after) == [Interrupted] + after;
      assert before + ([Failed] + after) == [Failed] + after;
    } else {
      TailOfConcat(before, [Interrupted] + after);
      TailOfConcat(before, [Failed] + after);
      TailOfConcat(before, after);
      var rest := before[1..];
      Concat(rest, [Interrupted], after);
      Concat(rest, [Failed], after);
      if !before[0].Failed? {
        RunsGoOn(After(w, before[0], wsRoutes), rest, after, wsRoutes);
      }
    }
  }

  // A connection accepted in a round outlives it, exactly if its number is not one of a client
  // that was polled and has to go.
  lemma AcceptedSurvivesExactly(w: World, poll: Poll, wsRoutes: bool, fd: nat)
    requires poll.Ready? && fd in Elements(poll.accepts)
    ensures fd in After(w, poll, wsRoutes).open <==>
            !(fd in w.clients && IsClosed(EventOf(poll.events, fd), wsRoutes))
  {
  }

  // Every connection outlives the round that accepts it, whatever the kernel does, exactly if no
  // closed number is left in the list.
  lemma AllAcceptedSurviveExactly(w: World, wsRoutes: bool)
    ensures w.clients <= w.open <==>
            forall poll: Poll :: poll.Ready? && IsLegal(w, poll) ==>
              Elements(poll.accepts) <= After(w, poll, wsRoutes).open
  {
    if w.clients <= w.open {
      forall poll: Poll | poll.Ready? && IsLegal(w, poll)
        ensures Elements(poll.accepts) <= After(w, poll, wsRoutes).open
      {
        assert forall fd :: fd in Elements(poll.accepts) ==> fd !in w.clients;
      }
    } else {
      var fd :| fd in w.clients && fd !in w.open;
      var reused := Ready([fd], map[fd := Hangup]);
      assert fd in Elements(reused.accepts);
      AcceptedSurvivesExactly(w, reused, wsRoutes, fd);
      assert IsLegal(w, reused) && !(Elements(reused.accepts) <= After(w, reused, wsRoutes).open);
    }
  }

  // While the list is exact they are also listed at the end.
  lemma AcceptedSurvive(w: World, poll: Poll, wsRoutes: bool)
    requires w.clients == w.open && IsLegal(w, poll) && poll.Ready?
    ensures Elements(poll.accepts) <= After(w, poll, wsRoutes).open
    ensures Elements(poll.accepts) <= After(w, poll, wsRoutes).clients
  {
    AllAcceptedSurviveExactly(w, wsRoutes);
    OpenIsListed(w, poll, wsRoutes);
  }

  // So without WebSocket routes that holds in every round of every run.
  lemma AcceptedSurviveInRuns(w: World, polls: seq<Poll>, n: nat, poll: Poll)
    requires w.clients == w.open && IsLegalRun(w, polls, false) && n <= |polls|
    requires poll.Ready? && IsLegal(Run(w, polls[..n], false), poll)
    ensures Elements(poll.accepts) <= After(Run(w, polls[..n], false), poll, false).open
    ensures Elements(poll.accepts) <= After(Run(w, polls[..n], false), poll, false).clients
  {
    StrongInRuns(w, polls, n);
    AcceptedSurvive(Run(w, polls[..n], false), poll, false);
  }

  // A run in which one does not: a number left in the list by a Close frame is reported as invalid by
  // poll, accept hands the same number to a new connection, and that connection is closed.
  lemma StaleEntryClosesNewConnection(fd: nat, close: seq<byte>)
    requires GetWebSocketFrame(close) == Some(CLOSE)
    ensures var closes, stale := map[fd := Readable(Data(close))], map[fd := Hangup];
            var polls := [Ready([fd], map[]), Ready([], closes), Ready([fd], stale)];
            && IsLegalRun(World({}, {}), polls, true)
            && Run(World({}, {}), polls[..2], true) == World({fd}, {})
            && Run(World({}, {}), polls, true) == World({}, {})
  {
    var first, second := Ready([fd], map[]), Ready([], map[fd := Readable(Data(close))]);
    var third := Ready([fd], map[fd := Hangup]);
    var polls := [first, second, third];
    var w0, w1, w2 := World({}, {}), World({fd}, {fd}), World({fd}, {});
    assert After(w0, first, true) == w1;
    assert After(w1, second, true) == w2;
    assert After(w2, third, true) == w0;
    assert polls[1..] == [second, third] && polls[1..][1..] == [third] && polls[1..][1..][1..] == [];
    assert IsLegalRun(w2, [third], true) && Run(w2, [third], true) == w0;
    assert IsLegalRun(w1, polls[1..], true) && Run(w1, polls[1..], true) == w0;
    assert polls[..2][1..] == [second] && [second][1..] == [];
    assert Run(w1, [second], true) == w2;
  }
}
