// The kernel's side of the server: which accepted descriptors are open, and the calls made on them.

module Descriptors {
  // A number returned by accept, or a call of close.
  datatype Event = Accepted(fd: nat) | Closed(fd: nat)

  // What is open after these calls. Closing a number that is not open fails and changes nothing.
  function OpenOf(log: seq<Event>): set<nat> {
    if |log| == 0 then {}
    else
      var open := OpenOf(log[..|log| - 1]);
      match log[|log| - 1]
      case Accepted(fd) => open + {fd}
      case Closed(fd) => open - {fd}
  }

  // Each call of close hits an open descriptor, and no open number is handed out again.
  predicate Alternates(log: seq<Event>) {
    |log| == 0 ||
    var earlier, last := log[..|log| - 1], log[|log| - 1];
    && Alternates(earlier)
    && (last.Accepted? <==> last.fd !in OpenOf(earlier))
  }

  function Accepts(log: seq<Event>, fd: nat): nat {
    if |log| == 0 then 0
    else Accepts(log[..|log| - 1], fd) + if log[|log| - 1] == Accepted(fd) then 1 else 0
  }

  function Closes(log: seq<Event>, fd: nat): nat {
    if |log| == 0 then 0
    else Closes(log[..|log| - 1], fd) + if log[|log| - 1] == Closed(fd) then 1 else 0
  }

  // So each accept of a number is matched by at most one close, and by exactly one if the
  // number is not open now.
  lemma {:induction false} AlternatesMatches(log: seq<Event>, fd: nat)
    requires Alternates(log)
    ensures Accepts(log, fd) == Closes(log, fd) + if fd in OpenOf(log) then 1 else 0
  {
    if |log| > 0 {
      AlternatesMatches(log[..|log| - 1], fd);
    }
  }

  lemma OneMore(log: seq<Event>, e: Event)
    ensures (log + [e])[..|log|] == log && (log + [e])[|log|] == e
    ensures OpenOf(log + [e]) == if e.Accepted? then OpenOf(log) + {e.fd} else OpenOf(log) - {e.fd}
    ensures Alternates(log + [e]) <==> Alternates(log) && (e.Accepted? <==> e.fd !in OpenOf(log))
  {
  }

  datatype Seen = Seen(open: set<nat>, log: seq<Event>)

  // The kernel, as far as the server can see it.
  class Kernel {
    var open: set<nat>
    var log: seq<Event>

    ghost predicate Valid()
      reads this
    {
      open == OpenOf(log)
    }

    ghost function View(): Seen
      reads this
    {
      Seen(open, log)
    }

    // accept returns some number that is not open; which one is not the server's choice.
    method Accept(fd: nat)
      requires Valid() && fd !in open
      modifies this
      ensures Valid() && open == old(open) + {fd} && log == old(log) + [Accepted(fd)]
    {
      OneMore(log, Accepted(fd));
      open := open + {fd};
      log := log + [Accepted(fd)];
    }

    method Close(fd: nat)
      requires Valid()
      modifies this
      ensures Valid() && open == old(open) - {fd} && log == old(log) + [Closed(fd)]
    {
      OneMore(log, Closed(fd));
      open := open - {fd};
      log := log + [Closed(fd)];
    }
  }
}
