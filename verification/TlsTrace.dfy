// What the TLS server does to its connections, as a trace of events.

module TlsTrace {
  datatype Event =
    | Accepted(fd: nat)
    | Established(fd: nat)
    | Dispatched(fd: nat)
    | Closed(fd: nat)

  function Next(phases: map<nat, bool>, e: Event): map<nat, bool> {
    if e.Accepted? then phases[e.fd := false]
    else if e.Established? then phases[e.fd := true]
    else if e.Closed? then phases - {e.fd}
    else phases
  }

  // The open connections, and whether their handshake has completed.
  function Phases(trace: seq<Event>): map<nat, bool> {
    if |trace| == 0 then map[] else Next(Phases(trace[..|trace| - 1]), trace[|trace| - 1])
  }

  // What may happen next: no open number is accepted again, only an open connection is closed,
  // and only one with a completed handshake gets its requests dispatched.
  predicate IsAllowed(phases: map<nat, bool>, e: Event) {
    match e
    case Accepted(fd) => fd !in phases
    case Established(fd) => fd in phases && !phases[fd]
    case Dispatched(fd) => fd in phases && phases[fd]
    case Closed(fd) => fd in phases
  }

  predicate IsOrderly(trace: seq<Event>) {
    |trace| == 0 ||
    (IsOrderly(trace[..|trace| - 1]) && IsAllowed(Phases(trace[..|trace| - 1]), trace[|trace| - 1]))
  }

  lemma OneMore(trace: seq<Event>, e: Event)
    ensures IsOrderly(trace + [e]) <==> IsOrderly(trace) && IsAllowed(Phases(trace), e)
    ensures Phases(trace + [e]) == Next(Phases(trace), e)
  {
    assert (trace + [e])[..|trace|] == trace;
  }

  function Count(trace: seq<Event>, e: Event): nat {
    if |trace| == 0 then 0 else Count(trace[..|trace| - 1], e) + if trace[|trace| - 1] == e then 1 else 0
  }

  lemma CountMore(trace: seq<Event>, last: Event, e: Event)
    ensures Count(trace + [last], e) == Count(trace, e) + if last == e then 1 else 0
  {
    assert (trace + [last])[..|trace|] == trace;
  }

  // Each accept is matched by at most one close.
  lemma {:induction false} AcceptsMatchCloses(trace: seq<Event>, fd: nat)
    requires IsOrderly(trace)
    ensures Count(trace, Accepted(fd)) == Count(trace, Closed(fd)) + if fd in Phases(trace) then 1 else 0
  {
    if |trace| > 0 {
      AcceptsMatchCloses(trace[..|trace| - 1], fd);
    }
  }

  // From position j on the connection fd is neither accepted nor closed.
  predicate IsLasting(trace: seq<Event>, fd: nat, j: nat) {
    forall i :: j <= i < |trace| ==> trace[i] != Accepted(fd) && trace[i] != Closed(fd)
  }

  predicate IsEstablishedBy(trace: seq<Event>, fd: nat, accepted: nat, established: nat) {
    && accepted < established < |trace|
    && trace[accepted] == Accepted(fd) && trace[established] == Established(fd)
    && IsLasting(trace, fd, accepted + 1)
  }

  // A connection in its second phase was accepted, then completed its handshake, and has not
  // been closed or accepted again since.
  lemma {:induction false} EstablishedHow(trace: seq<Event>, fd: nat) returns (accepted: nat, established: nat)
    requires IsOrderly(trace) && fd in Phases(trace) && Phases(trace)[fd]
    ensures IsEstablishedBy(trace, fd, accepted, established)
  {
    var n := |trace| - 1;
    if trace[n] == Established(fd) {
      accepted := AcceptedHow(trace[..n], fd);
      established := n;
    } else {
      accepted, established := EstablishedHow(trace[..n], fd);
    }
  }

  lemma {:induction false} AcceptedHow(trace: seq<Event>, fd: nat) returns (accepted: nat)
    requires IsOrderly(trace) && fd in Phases(trace)
    ensures accepted < |trace| && trace[accepted] == Accepted(fd) && IsLasting(trace, fd, accepted + 1)
  {
    var n := |trace| - 1;
    if trace[n] == Accepted(fd) {
      accepted := n;
    } else {
      accepted := AcceptedHow(trace[..n], fd);
    }
  }

  // So every dispatched request belongs to a connection whose own handshake has completed.
  lemma DispatchedAfterHandshake(trace: seq<Event>, i: nat) returns (accepted: nat, established: nat)
    requires IsOrderly(trace) && i < |trace| && trace[i].Dispatched?
    ensures IsEstablishedBy(trace[..i], trace[i].fd, accepted, established)
  {
    OrderlyPrefix(trace, i + 1);
    assert trace[..i + 1][..i] == trace[..i];
    accepted, established := EstablishedHow(trace[..i], trace[i].fd);
  }

  lemma {:induction false} OrderlyPrefix(trace: seq<Event>, n: nat)
    requires IsOrderly(trace) && n <= |trace|
    ensures IsOrderly(trace[..n])
  {
    if n < |trace| {
      OrderlyPrefix(trace[..|trace| - 1], n);
      assert trace[..|trace| - 1][..n] == trace[..n];
    } else {
      assert trace[..n] == trace;
    }
  }
}
