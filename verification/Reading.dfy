// How texts arrive: the server looks at each of its reads alone, and the client puts its reads
// together up to the first short one.

module Reading {
  import opened Wrappers

  // --- The server ---

  // The most that one read of the server takes: the whole buffer, and over TLS all but one byte.
  function ServerLimit(tls: bool): nat {
    if tls then 4095 else 1024
  }

  // What a read takes that could take so many.
  function Taken(count: nat, limit: nat, length: nat): nat {
    if count <= limit && count <= length then count else if limit <= length then limit else length
  }

  // --- The client ---

  const CLIENT_LIMIT := 4096

  // The result of recv or SSL_read: some bytes, a call to repeat, the end of the connection, or
  // an error.
  datatype Recv = Bytes(count: nat) | Again | Closed | Broken

  // Waiting stands for a schedule that has ended before the loop has.
  datatype Ending = Finished | Failed | Waiting

  datatype Progress = Progress(count: nat, ending: Ending)

  function More(n: nat, p: Progress): Progress {
    Progress(n + p.count, p.ending)
  }

  // How many of so many bytes are read under a schedule, and how the loop ends. A read of none
  // is no read. Over TLS the end of the connection is an error like any other.
  function ReadUnder(length: nat, schedule: seq<Recv>, tls: bool): Progress
    decreases |schedule|
  {
    if |schedule| == 0 then Progress(0, Waiting)
    else
      match schedule[0]
      case Again => ReadUnder(length, schedule[1..], tls)
      case Closed => Progress(0, if tls then Failed else Finished)
      case Broken => Progress(0, Failed)
      case Bytes(count) =>
        var taken := Taken(count, CLIENT_LIMIT, length);
        if 0 < taken < CLIENT_LIMIT then Progress(taken, Finished)
        else More(taken, ReadUnder(length - taken, schedule[1..], tls))
  }

  // The loop of readResponse over the bytes that were sent.
  method ReadResponse(sent: string, schedule: seq<Recv>, tls: bool) returns (response: string, ending: Ending)
    ensures var p := ReadUnder(|sent|, schedule, tls);
            p.count <= |sent| && response == sent[..p.count] && ending == p.ending
  {
    response := "";
    ending := Waiting;
    for i := 0 to |schedule|
      invariant |response| <= |sent| && response == sent[..|response|]
      invariant ReadUnder(|sent|, schedule, tls) ==
                More(|response|, ReadUnder(|sent| - |response|, schedule[i..], tls))
    {
      ghost var rest := |sent| - |response|;
      match schedule[i]
      case Again =>
      case Closed =>
        return response, if tls then Failed else Finished;
      case Broken =>
        return response, Failed;
      case Bytes(count) =>
        var taken := Taken(count, CLIENT_LIMIT, |sent| - |response|);
        response := response + sent[|response|..|response| + taken];
        if 0 < taken < CLIENT_LIMIT {
          return response, Finished;
        }
    }
  }

  // Every read takes as much as it can, and a full last read is followed by the end.
  predicate TakesAll(length: nat, schedule: seq<Recv>, tls: bool)
    decreases |schedule|
  {
    |schedule| > 0 &&
    match schedule[0]
    case Again => TakesAll(length, schedule[1..], tls)
    case Closed => length == 0 && !tls
    case Broken => false
    case Bytes(count) =>
      if Taken(count, CLIENT_LIMIT, length) == 0 then TakesAll(length, schedule[1..], tls)
      else if length < CLIENT_LIMIT then count >= length
      else count >= CLIENT_LIMIT && TakesAll(length - CLIENT_LIMIT, schedule[1..], tls)
  }

  // The loop never reads more than was sent, and ends with all of it exactly if no read that
  // stops it comes before the end.
  lemma {:induction false} ReadAllExactly(length: nat, schedule: seq<Recv>, tls: bool)
    ensures ReadUnder(length, schedule, tls).count <= length
    ensures ReadUnder(length, schedule, tls) == Progress(length, Finished) <==> TakesAll(length, schedule, tls)
    decreases |schedule|
  {
    if |schedule| > 0 {
      match schedule[0]
      case Again => ReadAllExactly(length, schedule[1..], tls);
      case Closed =>
      case Broken =>
      case Bytes(count) =>
        var taken := Taken(count, CLIENT_LIMIT, length);
        if !(0 < taken < CLIENT_LIMIT) {
          ReadAllExactly(length - taken, schedule[1..], tls);
        }
    }
  }

  function FullReads(n: nat): seq<Recv> {
    seq(n, _ => Bytes(CLIENT_LIMIT))
  }

  // Full reads and one for the rest: the schedule that reads everything, if any does.
  lemma {:induction false} FullReadsTakeAll(length: nat, tls: bool)
    requires !tls || length % CLIENT_LIMIT != 0
    ensures TakesAll(length, FullReads(length / CLIENT_LIMIT) +
                             [if length % CLIENT_LIMIT == 0 then Closed else Bytes(CLIENT_LIMIT)], tls)
  {
    var last := if length % CLIENT_LIMIT == 0 then Closed else Bytes(CLIENT_LIMIT);
    var n := length / CLIENT_LIMIT;
    if n == 0 {
      assert FullReads(0) + [last] == [last];
    } else {
      FullReadsTakeAll(length - CLIENT_LIMIT, tls);
      assert (FullReads(n) + [last])[1..] == FullReads(n - 1) + [last];
    }
  }

  lemma {:induction false} TlsNeedsShortRead(length: nat, schedule: seq<Recv>)
    requires TakesAll(length, schedule, true)
    ensures length % CLIENT_LIMIT != 0
    decreases |schedule|
  {
    match schedule[0]
    case Again => TlsNeedsShortRead(length, schedule[1..]);
    case Bytes(count) =>
      if Taken(count, CLIENT_LIMIT, length) == 0 {
        TlsNeedsShortRead(length, schedule[1..]);
      } else if length >= CLIENT_LIMIT {
        TlsNeedsShortRead(length - CLIENT_LIMIT, schedule[1..]);
      }
  }

  // A response can be read whole exactly if it is plain, or does not end with a full read.
  lemma ReadableExactly(length: nat, tls: bool)
    ensures (exists schedule :: ReadUnder(length, schedule, tls) == Progress(length, Finished)) <==>
            !tls || length % 4096 != 0
  {
    if !tls || length % CLIENT_LIMIT != 0 {
      var last := if length % CLIENT_LIMIT == 0 then Closed else Bytes(CLIENT_LIMIT);
      var schedule := FullReads(length / CLIENT_LIMIT) + [last];
      FullReadsTakeAll(length, tls);
      ReadAllExactly(length, schedule, tls);
    }
    if schedule :| ReadUnder(length, schedule, tls) == Progress(length, Finished) {
      ReadAllExactly(length, schedule, tls);
      if tls {
        TlsNeedsShortRead(length, schedule);
      }
    }
  }
}
