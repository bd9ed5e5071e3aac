// The poll loop of the TLS server: handshakes, requests and the table of connections.

module TlsLoop {
  import opened TlsTrace
  import opened WebSocketFrames
  import opened WebSockets
  import opened Bytes
  import opened Wrappers
  import opened Orders

  // --- The environment ---

  // What accept returns, and whether a TLS object can be made. A number that is open is never
  // handed out: it stands for a failure here.
  datatype Accept = NothingAccepted | Accept(fd: nat, hasTls: bool)

  datatype Handshake = Complete | WantMore | HandshakeError

  datatype TlsRead = Data(bytes: seq<byte>) | NoData | ReadError

  // Whether a client is readable, with the results of SSL_accept and SSL_read.
  datatype ClientEvent = Idle | Active(handshake: Handshake, read: TlsRead)

  datatype Poll = Failed | Ready(accept: Accept, events: map<nat, ClientEvent>)

  function EventOf(events: map<nat, ClientEvent>, fd: nat): ClientEvent {
    if fd in events then events[fd] else Idle
  }

  // --- One step at a time, on values ---

  datatype Connection = Connection(fd: nat, established: bool)

  datatype State = State(clients: map<nat, Connection>, trace: seq<Event>)

  function AfterAccept(s: State, a: Accept): State {
    if a.NothingAccepted? || a.fd in Phases(s.trace) then s
    else if a.hasTls then State(s.clients[a.fd := Connection(a.fd, false)], s.trace + [Accepted(a.fd)])
    else State(s.clients, s.trace + [Accepted(a.fd)] + [Closed(a.fd)])
  }

  predicate IsCloseFrame(bytes: seq<byte>, wsRoutes: bool) {
    wsRoutes && GetWebSocketFrame(bytes) == Some(CLOSE)
  }

  function AfterRead(s: State, fd: nat, read: TlsRead, wsRoutes: bool): State {
    if !read.Data? then s
    else if IsCloseFrame(read.bytes, wsRoutes) then State(s.clients, s.trace + [Dispatched(fd)] + [Closed(fd)])
    else State(s.clients, s.trace + [Dispatched(fd)])
  }

  function AfterHandshake(s: State, fd: nat): State
    requires fd in s.clients
  {
    State(s.clients[fd := s.clients[fd].(established := true)], s.trace + [Established(fd)])
  }

  function AfterClient(s: State, fd: nat, e: ClientEvent, wsRoutes: bool): State {
    if fd !in s.clients || e.Idle? then s
    else if s.clients[fd].established then AfterRead(s, fd, e.read, wsRoutes)
    else if e.handshake.Complete? then AfterRead(AfterHandshake(s, fd), fd, e.read, wsRoutes)
    else s
  }

  // The client is to be closed at the end of the round.
  predicate Dies(s: State, fd: nat, e: ClientEvent) {
    fd in s.clients && e.Active? &&
    if s.clients[fd].established || e.handshake.Complete? then e.read.ReadError? else e.handshake.HandshakeError?
  }

  function AfterClose(s: State, fd: nat): State {
    if fd in s.clients then State(s.clients - {fd}, s.trace + [Closed(s.clients[fd].fd)]) else s
  }

  // --- Rounds ---

  function AfterClients(s: State, fds: seq<nat>, events: map<nat, ClientEvent>, wsRoutes: bool): State {
    if |fds| == 0 then s
    else
      var fd := fds[|fds| - 1];
      AfterClient(AfterClients(s, fds[..|fds| - 1], events, wsRoutes), fd, EventOf(events, fd), wsRoutes)
  }

  // Those of the clients that die, each seen at its own turn.
  function DeadAmong(s: State, fds: seq<nat>, events: map<nat, ClientEvent>, wsRoutes: bool): seq<nat> {
    if |fds| == 0 then []
    else
      var fd, init := fds[|fds| - 1], fds[..|fds| - 1];
      var earlier := DeadAmong(s, init, events, wsRoutes);
      if Dies(AfterClients(s, init, events, wsRoutes), fd, EventOf(events, fd)) then earlier + [fd] else earlier
  }

  function AfterCloses(s: State, dead: seq<nat>): State {
    if |dead| == 0 then s else AfterClose(AfterCloses(s, dead[..|dead| - 1]), dead[|dead| - 1])
  }

  // A round over clients in some order: first the accept, and last the closes.
  function AfterRound(s: State, poll: Poll, fds: seq<nat>, wsRoutes: bool): State
    requires poll.Ready?
  {
    var accepted := AfterAccept(s, poll.accept);
    AfterCloses(AfterClients(accepted, fds, poll.events, wsRoutes), DeadAmong(accepted, fds, poll.events, wsRoutes))
  }

  // A round of a run, with the order in which it visits the clients.
  datatype Round = Round(poll: Poll, order: seq<nat>)

  function AfterRun(s: State, rounds: seq<Round>, wsRoutes: bool): State {
    if |rounds| == 0 then s
    else
      var before, last := AfterRun(s, rounds[..|rounds| - 1], wsRoutes), rounds[|rounds| - 1];
      if last.poll.Ready? then AfterRound(before, last.poll, last.order, wsRoutes) else before
  }

  // Each round visits the clients of its beginning.
  predicate VisitsAll(s: State, rounds: seq<Round>, wsRoutes: bool) {
    |rounds| == 0 ||
    var earlier, last := rounds[..|rounds| - 1], rounds[|rounds| - 1];
    && VisitsAll(s, earlier, wsRoutes)
    && (last.poll.Ready? ==> IsOrderOf(last.order, AfterRun(s, earlier, wsRoutes).clients.Keys))
  }

  // --- The server ---

  class TlsServer {
    const wsRoutes: bool
    var clients: map<nat, Connection>
    var trace: seq<Event>

    constructor (wsRoutes: bool)
      ensures this.wsRoutes == wsRoutes && View() == State(map[], [])
    {
      this.wsRoutes := wsRoutes;
      clients, trace := map[], [];
    }

    ghost function View(): State
      reads this
    {
      State(clients, trace)
    }

    method HandleListenSocket(a: Accept)
      modifies this
      ensures View() == AfterAccept(old(View()), a)
    {
      if a.NothingAccepted? || a.fd in Phases(trace) {
        return;
      }
      trace := trace + [Accepted(a.fd)];
      if a.hasTls {
        clients := clients[a.fd := Connection(a.fd, false)];
      } else {
        trace := trace + [Closed(a.fd)];
      }
    }

    method HandleClientSocket(fd: nat, e: ClientEvent, dead: seq<nat>) returns (dead': seq<nat>)
      modifies this
      ensures View() == AfterClient(old(View()), fd, e, wsRoutes)
      ensures dead' == if Dies(old(View()), fd, e) then dead + [fd] else dead
    {
      dead' := dead;
      if e.Idle? || fd !in clients {
        return;
      }
      if !clients[fd].established {
        match e.handshake
        case Complete =>
          clients := clients[fd := clients[fd].(established := true)];
          trace := trace + [Established(fd)];
        case WantMore =>
          return;
        case HandshakeError =>
          dead' := dead + [fd];
          return;
      }
      match e.read
      case Data(bytes) => PerformRequest(fd, bytes);
      case NoData =>
      case ReadError => dead' := dead + [fd];
    }

    // Only the effect on connections: handlers are assumed to close nothing.
    method PerformRequest(fd: nat, bytes: seq<byte>)
      modifies `trace
      ensures View() == AfterRead(old(View()), fd, Data(bytes), wsRoutes)
    {
      trace := trace + [Dispatched(fd)];
      if wsRoutes {
        var opcode := GetWebSocketFrame(bytes);
        if opcode.Some? && opcode.value == CLOSE {
          trace := trace + [Closed(fd)];
        }
      }
    }

    method CloseClient(fd: nat)
      modifies this
      ensures View() == AfterClose(old(View()), fd)
    {
      if fd !in clients {
        return;
      }
      trace := trace + [Closed(clients[fd].fd)];
      clients := clients - {fd};
    }

    method HandleEvents(poll: Poll) returns (ghost order: seq<nat>)
      requires poll.Ready?
      modifies this
      ensures IsOrderOf(order, old(clients).Keys)
      ensures View() == AfterRound(old(View()), poll, order, wsRoutes)
    {
      var fds := InSomeOrder(clients.Keys);
      order := fds;
      HandleListenSocket(poll.accept);
      ghost var accepted := View();
      var dead := [];
      for i := 0 to |fds|
        invariant View() == AfterClients(accepted, fds[..i], poll.events, wsRoutes)
        invariant dead == DeadAmong(accepted, fds[..i], poll.events, wsRoutes)
      {
        assert fds[..i + 1][..i] == fds[..i];
        dead := HandleClientSocket(fds[i], EventOf(poll.events, fds[i]), dead);
      }
      assert fds[..|fds|] == fds;
      ghost var handled := View();
      for i := 0 to |dead|
        invariant View() == AfterCloses(handled, dead[..i])
      {
        assert dead[..i + 1][..i] == dead[..i];
        CloseClient(dead[i]);
      }
      assert dead[..|dead|] == dead;
    }

    // The loop; a failing poll is tried again.
    method HandleRequests(polls: seq<Poll>) returns (ghost rounds: seq<Round>)
      modifies this
      ensures |rounds| == |polls| && forall i :: 0 <= i < |polls| ==> rounds[i].poll == polls[i]
      ensures View() == AfterRun(old(View()), rounds, wsRoutes) && VisitsAll(old(View()), rounds, wsRoutes)
    {
      rounds := [];
      for i := 0 to |polls|
        invariant |rounds| == i && forall j :: 0 <= j < i ==> rounds[j].poll == polls[j]
        invariant View() == AfterRun(old(View()), rounds, wsRoutes) && VisitsAll(old(View()), rounds, wsRoutes)
      {
        ghost var order := [];
        if polls[i].Ready? {
          order := HandleEvents(polls[i]);
        }
        OneMoreRound(old(View()), rounds, Round(polls[i], order), wsRoutes);
        rounds := rounds + [Round(polls[i], order)];
      }
    }
  }

  lemma OneMoreRound(s: State, rounds: seq<Round>, last: Round, wsRoutes: bool)
    ensures var before := AfterRun(s, rounds, wsRoutes);
            && AfterRun(s, rounds + [last], wsRoutes) ==
               (if last.poll.Ready? then AfterRound(before, last.poll, last.order, wsRoutes) else before)
            && (VisitsAll(s, rounds + [last], wsRoutes) <==>
                VisitsAll(s, rounds, wsRoutes) && (last.poll.Ready? ==> IsOrderOf(last.order, before.clients.Keys)))
  {
    assert (rounds + [last])[..|rounds|] == rounds;
  }

  // --- What every step keeps ---

  // The table has exactly the open connections, in the phase they are in, each under its own
  // number, and everything so far happened in order.
  ghost predicate IsExact(s: State) {
    && IsOrderly(s.trace)
    && s.clients.Keys == Phases(s.trace).Keys
    && forall fd :: fd in s.clients ==> s.clients[fd] == Connection(fd, Phases(s.trace)[fd])
  }

  lemma AcceptKeeps(s: State, a: Accept)
    requires IsExact(s)
    ensures IsExact(AfterAccept(s, a))
  {
    if a.Accept? && a.fd !in Phases(s.trace) {
      if a.hasTls {
        OneMore(s.trace, Accepted(a.fd));
      } else {
        OpenedAndClosed(s.trace, a.fd);
      }
    }
  }

  lemma OpenedAndClosed(trace: seq<Event>, fd: nat)
    requires IsOrderly(trace) && fd !in Phases(trace)
    ensures IsOrderly(trace + [Accepted(fd)] + [Closed(fd)])
    ensures Phases(trace + [Accepted(fd)] + [Closed(fd)]) == Phases(trace)
  {
    OneMore(trace, Accepted(fd));
    OneMore(trace + [Accepted(fd)], Closed(fd));
    PutAndTaken(Phases(trace), fd);
  }

  lemma PutAndTaken(phases: map<nat, bool>, fd: nat)
    requires fd !in phases
    ensures phases[fd := false] - {fd} == phases
  {
  }

  lemma HandshakeKeeps(s: State, fd: nat)
    requires IsExact(s) && fd in s.clients && !s.clients[fd].established
    ensures IsExact(AfterHandshake(s, fd))
  {
    OneMore(s.trace, Established(fd));
  }

  // A Close frame is the one thing that breaks the table.
  lemma ReadKeepsExactly(s: State, fd: nat, read: TlsRead, wsRoutes: bool)
    requires IsExact(s) && fd in s.clients && s.clients[fd].established
    ensures IsExact(AfterRead(s, fd, read, wsRoutes)) <==> !(read.Data? && IsCloseFrame(read.bytes, wsRoutes))
  {
    OneMore(s.trace, Dispatched(fd));
    OneMore(s.trace + [Dispatched(fd)], Closed(fd));
  }

  lemma CloseKeeps(s: State, fd: nat)
    requires IsExact(s)
    ensures IsExact(AfterClose(s, fd))
  {
    if fd in s.clients {
      OneMore(s.trace, Closed(fd));
    }
  }

  // A client's event has the server handle a Close frame.
  predicate ClosesFrame(s: State, fd: nat, e: ClientEvent, wsRoutes: bool) {
    && fd in s.clients && e.Active? && (s.clients[fd].established || e.handshake.Complete?)
    && e.read.Data? && IsCloseFrame(e.read.bytes, wsRoutes)
  }

  lemma ClientKeepsExactly(s: State, fd: nat, e: ClientEvent, wsRoutes: bool)
    requires IsExact(s)
    ensures IsExact(AfterClient(s, fd, e, wsRoutes)) <==> !ClosesFrame(s, fd, e, wsRoutes)
  {
    if fd in s.clients && e.Active? {
      if s.clients[fd].established {
        ReadKeepsExactly(s, fd, e.read, wsRoutes);
      } else if e.handshake.Complete? {
        HandshakeKeeps(s, fd);
        ReadKeepsExactly(AfterHandshake(s, fd), fd, e.read, wsRoutes);
      }
    }
  }

  lemma ClientKeeps(s: State, fd: nat, e: ClientEvent)
    requires IsExact(s)
    ensures IsExact(AfterClient(s, fd, e, false))
  {
    ClientKeepsExactly(s, fd, e, false);
  }

  lemma {:induction false} ClientsKeep(s: State, fds: seq<nat>, events: map<nat, ClientEvent>)
    requires IsExact(s)
    ensures IsExact(AfterClients(s, fds, events, false))
  {
    if |fds| > 0 {
      var fd, init := fds[|fds| - 1], fds[..|fds| - 1];
      ClientsKeep(s, init, events);
      ClientKeeps(AfterClients(s, init, events, false), fd, EventOf(events, fd));
    }
  }

  lemma {:induction false} ClosesKeep(s: State, dead: seq<nat>)
    requires IsExact(s)
    ensures IsExact(AfterCloses(s, dead))
  {
    if |dead| > 0 {
      ClosesKeep(s, dead[..|dead| - 1]);
      CloseKeeps(AfterCloses(s, dead[..|dead| - 1]), dead[|dead| - 1]);
    }
  }

  // Without WebSocket routes every round keeps the table exact.
  lemma RoundKeeps(s: State, poll: Poll, fds: seq<nat>)
    requires IsExact(s) && poll.Ready?
    ensures IsExact(AfterRound(s, poll, fds, false))
  {
    var accepted := AfterAccept(s, poll.accept);
    AcceptKeeps(s, poll.accept);
    ClientsKeep(accepted, fds, poll.events);
    ClosesKeep(AfterClients(accepted, fds, poll.events, false), DeadAmong(accepted, fds, poll.events, false));
  }

  // So it is exact at the end of every round of every run.
  lemma {:induction false} RunKeeps(s: State, rounds: seq<Round>, k: nat)
    requires IsExact(s) && k <= |rounds|
    ensures IsExact(AfterRun(s, rounds[..k], false))
  {
    if k > 0 {
      RunKeeps(s, rounds, k - 1);
      assert rounds[..k][..k - 1] == rounds[..k - 1];
      if rounds[k - 1].poll.Ready? {
        RoundKeeps(AfterRun(s, rounds[..k - 1], false), rounds[k - 1].poll, rounds[k - 1].order);
      }
    }
  }

  lemma EmptyTableIsExact()
    ensures IsExact(State(map[], []))
  {
  }

  // A dispatch belongs to a connection whose own handshake has completed before it.
  ghost predicate IsEarned(trace: seq<Event>, i: nat)
    requires i < |trace|
  {
    trace[i].Dispatched? ==>
      exists accepted, established :: IsEstablishedBy(trace[..i], trace[i].fd, accepted, established)
  }

  // From an empty table, at the end of every round of every run: the table has exactly the open
  // connections in their phases, every dispatch so far was for a completed handshake, and every
  // accept has been matched by one close, or by none while the connection is in the table.
  lemma RunsFromStart(rounds: seq<Round>, k: nat)
    requires k <= |rounds|
    ensures var s := AfterRun(State(map[], []), rounds[..k], false);
            && IsExact(s)
            && (forall i :: 0 <= i < |s.trace| ==> IsEarned(s.trace, i))
            && (forall fd :: Count(s.trace, Accepted(fd)) ==
                             Count(s.trace, Closed(fd)) + if fd in s.clients then 1 else 0)
  {
    EmptyTableIsExact();
    RunKeeps(State(map[], []), rounds, k);
    var s := AfterRun(State(map[], []), rounds[..k], false);
    forall i | 0 <= i < |s.trace| ensures IsEarned(s.trace, i) {
      if s.trace[i].Dispatched? {
        var accepted, established := DispatchedAfterHandshake(s.trace, i);
      }
    }
    forall fd ensures Count(s.trace, Accepted(fd)) ==
                      Count(s.trace, Closed(fd)) + if fd in s.clients then 1 else 0 {
      AcceptsMatchCloses(s.trace, fd);
    }
  }

  // --- What a round does to each connection ---

  function Progress(c: Connection, e: ClientEvent): Connection {
    if e.Active? && e.handshake.Complete? then c.(established := true) else c
  }

  // Each client only depends on its own event, whatever the order.
  lemma {:induction false} ClientsOutcome(s: State, fds: seq<nat>, events: map<nat, ClientEvent>, wsRoutes: bool,
                                          fd: nat)
    requires AreDistinct(fds)
    ensures var s' := AfterClients(s, fds, events, wsRoutes);
            && s'.clients.Keys == s.clients.Keys
            && (fd in s.clients ==>
                  s'.clients[fd] ==
                  if fd in Elements(fds) then Progress(s.clients[fd], EventOf(events, fd)) else s.clients[fd])
    ensures fd in DeadAmong(s, fds, events, wsRoutes) <==> fd in Elements(fds) && Dies(s, fd, EventOf(events, fd))
  {
    if |fds| > 0 {
      var last, init := fds[|fds| - 1], fds[..|fds| - 1];
      assert fds == init + [last];
      AddElement(init, last);
      ClientsOutcome(s, init, events, wsRoutes, fd);
      ClientOutcome(AfterClients(s, init, events, wsRoutes), last, EventOf(events, last), wsRoutes);
    }
  }

  lemma ClientOutcome(s: State, fd: nat, e: ClientEvent, wsRoutes: bool)
    ensures AfterClient(s, fd, e, wsRoutes).clients ==
            if fd in s.clients then s.clients[fd := Progress(s.clients[fd], e)] else s.clients
  {
    if fd in s.clients {
      assert s.clients[fd := s.clients[fd]] == s.clients;
      assert s.clients[fd].established ==> s.clients[fd].(established := true) == s.clients[fd];
    }
  }

  lemma {:induction false} ClosesOutcome(s: State, dead: seq<nat>)
    ensures AfterCloses(s, dead).clients == s.clients - Elements(dead)
  {
    if |dead| > 0 {
      var last, init := dead[|dead| - 1], dead[..|dead| - 1];
      assert dead == init + [last];
      AddElement(init, last);
      ClosesOutcome(s, init);
    }
  }

  // A client polled in a round stays exactly if it does not die, with its handshake completed if
  // that was its event; a new connection is there at the end with its handshake to come.
  lemma RoundOutcome(s: State, poll: Poll, fds: seq<nat>, wsRoutes: bool, fd: nat)
    requires poll.Ready? && IsExact(s) && IsOrderOf(fds, s.clients.Keys)
    ensures var s', e := AfterRound(s, poll, fds, wsRoutes), EventOf(poll.events, fd);
            && (fd in s.clients ==> (fd in s'.clients <==> !Dies(s, fd, e)))
            && (fd in s.clients && fd in s'.clients ==> s'.clients[fd] == Progress(s.clients[fd], e))
            && (fd !in s.clients ==> (fd in s'.clients <==> poll.accept == Accept(fd, true)))
            && (fd !in s.clients && fd in s'.clients ==> s'.clients[fd] == Connection(fd, false))
  {
    var accepted := AfterAccept(s, poll.accept);
    ClientsOutcome(accepted, fds, poll.events, wsRoutes, fd);
    ClosesOutcome(AfterClients(accepted, fds, poll.events, wsRoutes), DeadAmong(accepted, fds, poll.events, wsRoutes));
  }

  // --- Rounds that break the table ---

  // An entry for a connection that is closed.
  predicate IsStale(s: State, fd: nat) {
    fd in s.clients && fd !in Phases(s.trace)
  }

  // Whatever the table is like, the step that handles a Close frame leaves such an entry, and no
  // other client's step removes it.
  lemma ClientLeavesStale(s: State, fd: nat, e: ClientEvent, wsRoutes: bool, other: nat)
    ensures ClosesFrame(s, fd, e, wsRoutes) ==> IsStale(AfterClient(s, fd, e, wsRoutes), fd)
    ensures IsStale(s, other) && other != fd ==> IsStale(AfterClient(s, fd, e, wsRoutes), other)
  {
    if fd in s.clients && e.Active? {
      if s.clients[fd].established {
        ReadTrace(s, fd, e.read, wsRoutes);
      } else if e.handshake.Complete? {
        OneMore(s.trace, Established(fd));
        ReadTrace(AfterHandshake(s, fd), fd, e.read, wsRoutes);
      }
    }
  }

  lemma ReadTrace(s: State, fd: nat, read: TlsRead, wsRoutes: bool)
    ensures Phases(AfterRead(s, fd, read, wsRoutes).trace) ==
            if read.Data? && IsCloseFrame(read.bytes, wsRoutes) then Phases(s.trace) - {fd} else Phases(s.trace)
  {
    OneMore(s.trace, Dispatched(fd));
    OneMore(s.trace + [Dispatched(fd)], Closed(fd));
  }

  // What a client's event does is settled before its turn.
  lemma SameAtTurn(s: State, init: seq<nat>, fd: nat, events: map<nat, ClientEvent>, wsRoutes: bool)
    requires AreDistinct(init + [fd])
    ensures ClosesFrame(AfterClients(s, init, events, wsRoutes), fd, EventOf(events, fd), wsRoutes) <==>
            ClosesFrame(s, fd, EventOf(events, fd), wsRoutes)
  {
    AddElement(init, fd);
    ClientsOutcome(s, init, events, wsRoutes, fd);
  }

  lemma {:induction false} ClientsLeaveStale(s: State, fds: seq<nat>, events: map<nat, ClientEvent>, wsRoutes: bool,
                                             fd: nat)
    requires AreDistinct(fds) && fd in Elements(fds) && ClosesFrame(s, fd, EventOf(events, fd), wsRoutes)
    ensures IsStale(AfterClients(s, fds, events, wsRoutes), fd)
  {
    var last, init := fds[|fds| - 1], fds[..|fds| - 1];
    assert fds == init + [last];
    AddElement(init, last);
    SameAtTurn(s, init, last, events, wsRoutes);
    ClientLeavesStale(AfterClients(s, init, events, wsRoutes), last, EventOf(events, last), wsRoutes, fd);
    if fd != last {
      ClientsLeaveStale(s, init, events, wsRoutes, fd);
    }
  }

  lemma {:induction false} ClosesLeaveStale(s: State, dead: seq<nat>, fd: nat)
    requires IsStale(s, fd) && fd !in Elements(dead)
    ensures IsStale(AfterCloses(s, dead), fd)
  {
    if |dead| > 0 {
      var last, init := dead[|dead| - 1], dead[..|dead| - 1];
      assert dead == init + [last];
      AddElement(init, last);
      ClosesLeaveStale(s, init, fd);
      var before := AfterCloses(s, init);
      if last in before.clients {
        OneMore(before.trace, Closed(before.clients[last].fd));
      }
    }
  }

  lemma {:induction false} ClientsKeepWithout(s: State, fds: seq<nat>, events: map<nat, ClientEvent>, wsRoutes: bool)
    requires IsExact(s) && AreDistinct(fds)
    requires forall fd :: fd in Elements(fds) ==> !ClosesFrame(s, fd, EventOf(events, fd), wsRoutes)
    ensures IsExact(AfterClients(s, fds, events, wsRoutes))
  {
    if |fds| > 0 {
      var last, init := fds[|fds| - 1], fds[..|fds| - 1];
      assert fds == init + [last];
      AddElement(init, last);
      ClientsKeepWithout(s, init, events, wsRoutes);
      SameAtTurn(s, init, last, events, wsRoutes);
      ClientKeepsExactly(AfterClients(s, init, events, wsRoutes), last, EventOf(events, last), wsRoutes);
    }
  }

  ghost predicate HandlesCloseFrame(s: State, events: map<nat, ClientEvent>, wsRoutes: bool) {
    exists fd :: fd in s.clients && ClosesFrame(s, fd, EventOf(events, fd), wsRoutes)
  }

  // A round keeps the table exact, with or without WebSocket routes, exactly if it handles no
  // Close frame.
  lemma RoundKeepsExactly(s: State, poll: Poll, fds: seq<nat>, wsRoutes: bool)
    requires IsExact(s) && poll.Ready? && IsOrderOf(fds, s.clients.Keys)
    ensures IsExact(AfterRound(s, poll, fds, wsRoutes)) <==> !HandlesCloseFrame(s, poll.events, wsRoutes)
  {
    var accepted := AfterAccept(s, poll.accept);
    var handled, dead :=
      AfterClients(accepted, fds, poll.events, wsRoutes), DeadAmong(accepted, fds, poll.events, wsRoutes);
    AcceptKeeps(s, poll.accept);
    if HandlesCloseFrame(s, poll.events, wsRoutes) {
      var fd :| fd in s.clients && ClosesFrame(s, fd, EventOf(poll.events, fd), wsRoutes);
      ClientsLeaveStale(accepted, fds, poll.events, wsRoutes, fd);
      ClientsOutcome(accepted, fds, poll.events, wsRoutes, fd);
      ClosesLeaveStale(handled, dead, fd);
    } else {
      forall fd | fd in Elements(fds) ensures !ClosesFrame(accepted, fd, EventOf(poll.events, fd), wsRoutes) {
        assert fd in s.clients && accepted.clients[fd] == s.clients[fd];
      }
      ClientsKeepWithout(accepted, fds, poll.events, wsRoutes);
      ClosesKeep(handled, dead);
    }
  }

  // --- What happens in a round, event by event ---

  // A client that is past its handshake, or completes it in this round, is read.
  predicate IsRead(s: State, fd: nat, e: ClientEvent) {
    fd in s.clients && e.Active? && (s.clients[fd].established || e.handshake == Complete)
  }

  // What is recorded of a client at its turn.
  predicate Happens(s: State, fd: nat, e: ClientEvent, wsRoutes: bool, event: Event) {
    match event
    case Accepted(_) => false
    case Established(_) => fd in s.clients && !s.clients[fd].established && e.Active? && e.handshake == Complete
    case Dispatched(_) => IsRead(s, fd, e) && e.read.Data?
    case Closed(_) => IsRead(s, fd, e) && e.read.Data? && wsRoutes && GetWebSocketFrame(e.read.bytes) == Some(8)
  }

  function One(b: bool): nat {
    if b then 1 else 0
  }

  // How often a read records an event.
  function ReadGain(fd: nat, read: TlsRead, wsRoutes: bool, event: Event): nat {
    if !read.Data? then 0
    else One(event == Dispatched(fd)) + One(event == Closed(fd) && wsRoutes && GetWebSocketFrame(read.bytes) == Some(8))
  }

  lemma ReadCounts(s: State, fd: nat, read: TlsRead, wsRoutes: bool, event: Event)
    ensures Count(AfterRead(s, fd, read, wsRoutes).trace, event) ==
            Count(s.trace, event) + ReadGain(fd, read, wsRoutes, event)
  {
    CountMore(s.trace, Dispatched(fd), event);
    CountMore(s.trace + [Dispatched(fd)], Closed(fd), event);
  }

  lemma HandshakeCounts(s: State, fd: nat, event: Event)
    requires fd in s.clients
    ensures Count(AfterHandshake(s, fd).trace, event) == Count(s.trace, event) + One(event == Established(fd))
  {
    CountMore(s.trace, Established(fd), event);
  }

  lemma ClientCounts(s: State, fd: nat, e: ClientEvent, wsRoutes: bool, event: Event)
    requires IsRead(s, fd, e)
    ensures Count(AfterClient(s, fd, e, wsRoutes).trace, event) ==
            Count(s.trace, event) + (if s.clients[fd].established then 0 else One(event == Established(fd)))
            + ReadGain(fd, e.read, wsRoutes, event)
  {
    if s.clients[fd].established {
      ReadCounts(s, fd, e.read, wsRoutes, event);
    } else {
      HandshakeCounts(s, fd, event);
      ReadCounts(AfterHandshake(s, fd), fd, e.read, wsRoutes, event);
    }
  }

  lemma HappensExactly(s: State, fd: nat, e: ClientEvent, wsRoutes: bool, event: Event)
    requires IsRead(s, fd, e)
    ensures One(event.fd == fd && Happens(s, fd, e, wsRoutes, event)) ==
            (if s.clients[fd].established then 0 else One(event == Established(fd)))
            + ReadGain(fd, e.read, wsRoutes, event)
  {
  }

  lemma OneClientCounts(s: State, fd: nat, e: ClientEvent, wsRoutes: bool, event: Event)
    ensures Count(AfterClient(s, fd, e, wsRoutes).trace, event) ==
            Count(s.trace, event) + One(event.fd == fd && Happens(s, fd, e, wsRoutes, event))
  {
    if IsRead(s, fd, e) {
      ClientCounts(s, fd, e, wsRoutes, event);
      HappensExactly(s, fd, e, wsRoutes, event);
    } else {
      assert AfterClient(s, fd, e, wsRoutes) == s;
    }
  }

  lemma {:induction false} ClientsCounts(s: State, fds: seq<nat>, events: map<nat, ClientEvent>, wsRoutes: bool,
                                         event: Event)
    requires AreDistinct(fds)
    ensures Count(AfterClients(s, fds, events, wsRoutes).trace, event) ==
            Count(s.trace, event)
            + One(event.fd in Elements(fds) && Happens(s, event.fd, EventOf(events, event.fd), wsRoutes, event))
  {
    if |fds| > 0 {
      var last, init := fds[|fds| - 1], fds[..|fds| - 1];
      assert fds == init + [last];
      AddElement(init, last);
      ClientsCounts(s, init, events, wsRoutes, event);
      var before := AfterClients(s, init, events, wsRoutes);
      OneClientCounts(before, last, EventOf(events, last), wsRoutes, event);
      ClientsOutcome(s, init, events, wsRoutes, last);
    }
  }

  lemma {:induction false} ClosesCounts(s: State, dead: seq<nat>, event: Event)
    requires forall fd :: fd in s.clients ==> s.clients[fd].fd == fd
    ensures Count(AfterCloses(s, dead).trace, event) ==
            Count(s.trace, event) + One(event.Closed? && event.fd in s.clients && event.fd in Elements(dead))
  {
    if |dead| > 0 {
      var last, init := dead[|dead| - 1], dead[..|dead| - 1];
      assert dead == init + [last];
      AddElement(init, last);
      ClosesCounts(s, init, event);
      ClosesOutcome(s, init);
      CloseCounts(AfterCloses(s, init), last, event);
    }
  }

  lemma CloseCounts(s: State, fd: nat, event: Event)
    requires forall k :: k in s.clients ==> s.clients[k].fd == k
    ensures Count(AfterClose(s, fd).trace, event) == Count(s.trace, event) + One(fd in s.clients && event == Closed(fd))
  {
    CountMore(s.trace, Closed(fd), event);
  }

  lemma AcceptCounts(s: State, a: Accept, event: Event)
    ensures Count(AfterAccept(s, a).trace, event) ==
            Count(s.trace, event)
            + One(a.Accept? && a.fd !in Phases(s.trace) && event == Accepted(a.fd))
            + One(a.Accept? && a.fd !in Phases(s.trace) && !a.hasTls && event == Closed(a.fd))
  {
    if a.Accept? {
      CountMore(s.trace, Accepted(a.fd), event);
      CountMore(s.trace + [Accepted(a.fd)], Closed(a.fd), event);
    }
  }

  // A client of an exact table is dispatched to once in a round exactly if data is read from it,
  // which takes a handshake that is or gets completed; it is established exactly if its handshake
  // is completed in the round; and a number is accepted exactly if accept returns it.
  lemma RoundDispatches(s: State, poll: Poll, fds: seq<nat>, wsRoutes: bool, fd: nat)
    requires poll.Ready? && IsExact(s) && IsOrderOf(fds, s.clients.Keys)
    ensures var trace, e := AfterRound(s, poll, fds, wsRoutes).trace, EventOf(poll.events, fd);
            && Count(trace, Dispatched(fd)) == Count(s.trace, Dispatched(fd)) + One(IsRead(s, fd, e) && e.read.Data?)
            && Count(trace, Established(fd)) ==
               Count(s.trace, Established(fd))
               + One(fd in s.clients && !s.clients[fd].established && e.Active? && e.handshake == Complete)
            && Count(trace, Accepted(fd)) ==
               Count(s.trace, Accepted(fd)) + One(poll.accept.Accept? && poll.accept.fd == fd && fd !in s.clients)
  {
    RoundCounts(s, poll, fds, wsRoutes, Dispatched(fd));
    RoundCounts(s, poll, fds, wsRoutes, Established(fd));
    RoundCounts(s, poll, fds, wsRoutes, Accepted(fd));
  }

  // A client is closed in a round exactly if its handshake fails, its read fails, or it sends a
  // Close frame to a server with WebSocket routes, and only after the last is it left in the
  // table; a new connection is closed exactly if there is no TLS object for it.
  lemma RoundCloses(s: State, poll: Poll, fds: seq<nat>, wsRoutes: bool, fd: nat)
    requires poll.Ready? && IsExact(s) && IsOrderOf(fds, s.clients.Keys)
    ensures var s', e := AfterRound(s, poll, fds, wsRoutes), EventOf(poll.events, fd);
            var failed := fd in s.clients && e.Active? &&
                          ((!s.clients[fd].established && e.handshake == HandshakeError)
                           || (IsRead(s, fd, e) && e.read == ReadError));
            && Count(s'.trace, Closed(fd)) ==
               Count(s.trace, Closed(fd)) + One(failed)
               + One(IsRead(s, fd, e) && e.read.Data? && wsRoutes && GetWebSocketFrame(e.read.bytes) == Some(8))
               + One(poll.accept == Accept(fd, false) && fd !in s.clients)
            && (fd in s.clients ==> (fd in s'.clients <==> !failed))
  {
    RoundCounts(s, poll, fds, wsRoutes, Closed(fd));
    RoundOutcome(s, poll, fds, wsRoutes, fd);
  }

  lemma RoundCounts(s: State, poll: Poll, fds: seq<nat>, wsRoutes: bool, event: Event)
    requires poll.Ready? && IsExact(s) && IsOrderOf(fds, s.clients.Keys)
    ensures var e := EventOf(poll.events, event.fd);
            Count(AfterRound(s, poll, fds, wsRoutes).trace, event) ==
            Count(s.trace, event)
            + One(poll.accept.Accept? && poll.accept.fd !in s.clients && event == Accepted(poll.accept.fd))
            + One(poll.accept.Accept? && poll.accept.fd !in s.clients && !poll.accept.hasTls
                  && event == Closed(poll.accept.fd))
            + One(event.fd in s.clients && Happens(s, event.fd, e, wsRoutes, event))
            + One(event.Closed? && event.fd in s.clients && Dies(s, event.fd, e))
  {
    var accepted := AfterAccept(s, poll.accept);
    AcceptKeeps(s, poll.accept);
    AcceptCounts(s, poll.accept, event);
    RestCounts(accepted, fds, poll.events, wsRoutes, event);
    if event.fd in s.clients {
      SameAfterAccept(s, poll.accept, event.fd, EventOf(poll.events, event.fd), wsRoutes, event);
    }
  }

  lemma SameAfterAccept(s: State, a: Accept, fd: nat, e: ClientEvent, wsRoutes: bool, event: Event)
    requires IsExact(s) && fd in s.clients
    ensures var accepted := AfterAccept(s, a);
            && fd in accepted.clients
            && (Happens(accepted, fd, e, wsRoutes, event) <==> Happens(s, fd, e, wsRoutes, event))
            && (Dies(accepted, fd, e) <==> Dies(s, fd, e))
  {
    assert AfterAccept(s, a).clients[fd] == s.clients[fd];
  }

  // What a round does behind its accept.
  lemma RestCounts(s: State, fds: seq<nat>, events: map<nat, ClientEvent>, wsRoutes: bool, event: Event)
    requires IsExact(s) && AreDistinct(fds)
    ensures var handled, dead := AfterClients(s, fds, events, wsRoutes), DeadAmong(s, fds, events, wsRoutes);
            var e, polled := EventOf(events, event.fd), event.fd in Elements(fds);
            Count(AfterCloses(handled, dead).trace, event) ==
            Count(s.trace, event) + One(polled && Happens(s, event.fd, e, wsRoutes, event))
            + One(event.Closed? && polled && Dies(s, event.fd, e))
  {
    var handled, dead := AfterClients(s, fds, events, wsRoutes), DeadAmong(s, fds, events, wsRoutes);
    ClientsCounts(s, fds, events, wsRoutes, event);
    forall fd | fd in handled.clients ensures handled.clients[fd].fd == fd {
      ClientsOutcome(s, fds, events, wsRoutes, fd);
    }
    ClosesCounts(handled, dead, event);
    ClientsOutcome(s, fds, events, wsRoutes, event.fd);
  }

  // The rounds of a run in which data is read from a client.
  function ReadsIn(s: State, rounds: seq<Round>, wsRoutes: bool, fd: nat): nat {
    if |rounds| == 0 then 0
    else
      var earlier, last := rounds[..|rounds| - 1], rounds[|rounds| - 1];
      ReadsIn(s, earlier, wsRoutes, fd) + One(
        last.poll.Ready? &&
        var e := EventOf(last.poll.events, fd);
        IsRead(AfterRun(s, earlier, wsRoutes), fd, e) && e.read.Data?)
  }

  // Over any run without WebSocket routes a client is dispatched to as often as that.
  lemma {:induction false} RunDispatches(s: State, rounds: seq<Round>, fd: nat)
    requires IsExact(s) && VisitsAll(s, rounds, false)
    ensures Count(AfterRun(s, rounds, false).trace, Dispatched(fd)) ==
            Count(s.trace, Dispatched(fd)) + ReadsIn(s, rounds, false, fd)
  {
    if |rounds| > 0 {
      var earlier, last := rounds[..|rounds| - 1], rounds[|rounds| - 1];
      RunDispatches(s, earlier, fd);
      RunKeeps(s, earlier, |earlier|);
      assert earlier[..|earlier|] == earlier;
      if last.poll.Ready? {
        RoundDispatches(AfterRun(s, earlier, false), last.poll, last.order, false, fd);
      }
    }
  }

  // A failing poll changes nothing, and the loop goes on.
  lemma {:induction false} FailedPollsAreSkipped(s: State, before: seq<Round>, order: seq<nat>, after: seq<Round>,
                                                 wsRoutes: bool)
    ensures AfterRun(s, before + [Round(Failed, order)] + after, wsRoutes) == AfterRun(s, before + after, wsRoutes)
    decreases |after|
  {
    var failed := Round(Failed, order);
    if |after| == 0 {
      OneMoreRound(s, before, failed, wsRoutes);
      assert before + [failed] + after == before + [failed] && before + after == before;
    } else {
      var init, last := after[..|after| - 1], after[|after| - 1];
      FailedPollsAreSkipped(s, before, order, init, wsRoutes);
      OneMoreRound(s, before + [failed] + init, last, wsRoutes);
      OneMoreRound(s, before + init, last, wsRoutes);
      assert before + [failed] + after == before + [failed] + init + [last];
      assert before + after == before + init + [last];
    }
  }
}
