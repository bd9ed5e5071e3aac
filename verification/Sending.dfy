// Sending a response through a transport that takes it piece by piece.

module Sending {
  // What send or SSL_write returns, and whether errno asks for another try.
  datatype Outcome = Outcome(ret: int, again: bool)

  // Unfinished stands for a schedule that has ended before the sender has.
  datatype Verdict = Sent | GaveUp | Unfinished

  // The transport takes at most what it is offered. SSLWrite turns all but a positive count into -1.
  function Written(o: Outcome, length: nat, tls: bool): int {
    if o.ret < 0 || (tls && (o.ret == 0 || length == 0)) then -1
    else if o.ret > length then length
    else o.ret
  }

  datatype Progress = Progress(count: nat, verdict: Verdict)

  // How many of so many bytes get accepted under a schedule, and how the sender ends.
  function ProgressOf(length: nat, schedule: seq<Outcome>, tls: bool): Progress
    decreases |schedule|
  {
    if |schedule| == 0 then Progress(0, Unfinished)
    else
      var written := Written(schedule[0], length, tls);
      if written == -1 then
        if schedule[0].again then ProgressOf(length, schedule[1..], tls) else Progress(0, GaveUp)
      else if written < length then
        var rest := ProgressOf(length - written, schedule[1..], tls);
        Progress(written + rest.count, rest.verdict)
      else Progress(length, Sent)
  }

  // --- The same by the schedule alone ---

  // A call that fails and is not tried again, whatever it is offered.
  predicate IsHardError(o: Outcome, tls: bool) {
    !o.again && (o.ret < 0 || (tls && o.ret == 0))
  }

  function BeforeError(schedule: seq<Outcome>, tls: bool): (calls: seq<Outcome>)
    ensures |calls| <= |schedule|
    decreases |schedule|
  {
    if |schedule| == 0 || IsHardError(schedule[0], tls) then [] else [schedule[0]] + BeforeError(schedule[1..], tls)
  }

  // What these calls take of a body without an end.
  function Total(calls: seq<Outcome>): nat
    decreases |calls|
  {
    if |calls| == 0 then 0 else (if calls[0].ret > 0 then calls[0].ret else 0) + Total(calls[1..])
  }

  function Least(n: nat, m: nat): nat {
    if n <= m then n else m
  }

  // The sender ends with everything sent exactly if the calls before the first hard error take
  // so much together, and gives up exactly if they do not and there is one; until then it goes
  // on after short writes and after failures that ask for another try.
  lemma {:induction false} VerdictExactly(length: nat, schedule: seq<Outcome>, tls: bool)
    requires length > 0
    ensures var p, calls := ProgressOf(length, schedule, tls), BeforeError(schedule, tls);
            && (p.verdict == Sent <==> Total(calls) >= length)
            && (p.verdict == GaveUp <==> Total(calls) < length && |calls| < |schedule|)
            && p.count == Least(Total(calls), length)
    decreases |schedule|
  {
    if |schedule| > 0 && !IsHardError(schedule[0], tls) {
      var written := Written(schedule[0], length, tls);
      var rest := BeforeError(schedule[1..], tls);
      assert ([schedule[0]] + rest)[1..] == rest;
      if written < length {
        VerdictExactly(if written == -1 then length else length - written, schedule[1..], tls);
      }
    }
  }

  // --- The program ---

  // The bytes that the transport has accepted, and the outcomes of the calls to come.
  class Transport {
    const tls: bool
    var accepted: string
    var schedule: seq<Outcome>

    constructor (tls: bool, schedule: seq<Outcome>)
      ensures this.tls == tls && accepted == "" && this.schedule == schedule
    {
      this.tls := tls;
      this.schedule := schedule;
      accepted := "";
    }

    method Send(data: string) returns (written: int, again: bool)
      requires |schedule| > 0
      modifies this
      ensures schedule == old(schedule)[1..]
      ensures -1 <= written <= |data| && (tls ==> written != 0)
      ensures written == Written(old(schedule)[0], |data|, tls) && again == old(schedule)[0].again
      ensures accepted == if written == -1 then old(accepted) else old(accepted) + data[..written]
    {
      written, again := Written(schedule[0], |data|, tls), schedule[0].again;
      if written != -1 {
        accepted := accepted + data[..written];
      }
      schedule := schedule[1..];
    }
  }

  // The recursive lambda, with the part of the body that is still to be sent.
  method SendAll(transport: Transport, data: string) returns (verdict: Verdict)
    modifies transport
    ensures var p := ProgressOf(|data|, old(transport.schedule), transport.tls);
            && verdict == p.verdict && p.count <= |data|
            && transport.accepted == old(transport.accepted) + data[..p.count]
    decreases |transport.schedule|
  {
    CountFits(|data|, transport.schedule, transport.tls);
    if |transport.schedule| == 0 {
      return Unfinished;
    }
    var written, again := transport.Send(data);
    if written == -1 {
      if again {
        verdict := SendAll(transport, data);
        return;
      }
      return GaveUp;
    }
    if written < |data| {
      verdict := SendAll(transport, data[written..]);
      return;
    }
    verdict := Sent;
  }

  lemma {:induction false} CountFits(length: nat, schedule: seq<Outcome>, tls: bool)
    ensures ProgressOf(length, schedule, tls).count <= length
    decreases |schedule|
  {
    if |schedule| > 0 {
      var written := Written(schedule[0], length, tls);
      if written == -1 {
        CountFits(length, schedule[1..], tls);
      } else if written < length {
        CountFits(length - written, schedule[1..], tls);
      }
    }
  }

  // Under every schedule the bytes accepted of a body are a prefix of it, and the sender reports
  // success for a body exactly when that prefix is all of it.
  method SendResponse(transport: Transport, body: string) returns (verdict: Verdict)
    modifies transport
    ensures var before := old(transport.accepted);
            && before <= transport.accepted && transport.accepted[|before|..] <= body
            && (verdict == Sent ==> transport.accepted == before + body)
            && (body != "" && transport.accepted == before + body ==> verdict == Sent)
    ensures var calls := BeforeError(old(transport.schedule), transport.tls);
            body != "" ==>
              && (verdict == Sent <==> Total(calls) >= |body|)
              && (verdict == GaveUp <==> Total(calls) < |body| && |calls| < |old(transport.schedule)|)
              && transport.accepted == old(transport.accepted) + body[..Least(Total(calls), |body|)]
    ensures verdict == ProgressOf(|body|, old(transport.schedule), transport.tls).verdict
  {
    if body != "" {
      VerdictExactly(|body|, transport.schedule, transport.tls);
    }
    SentIsAll(|body|, transport.schedule, transport.tls);
    verdict := SendAll(transport, body);
  }

  lemma {:induction false} SentIsAll(length: nat, schedule: seq<Outcome>, tls: bool)
    ensures var p := ProgressOf(length, schedule, tls);
            && (p.verdict == Sent ==> p.count == length)
            && (length > 0 && p.count == length ==> p.verdict == Sent)
    decreases |schedule|
  {
    if |schedule| > 0 {
      var written := Written(schedule[0], length, tls);
      if written == -1 {
        SentIsAll(length, schedule[1..], tls);
      } else if written < length {
        SentIsAll(length - written, schedule[1..], tls);
      }
    }
  }

  // A schedule that sends everything or gives up does so whatever would come later.
  lemma {:induction false} VerdictIsFinal(length: nat, schedule: seq<Outcome>, later: seq<Outcome>, tls: bool)
    requires ProgressOf(length, schedule, tls).verdict != Unfinished
    ensures ProgressOf(length, schedule + later, tls) == ProgressOf(length, schedule, tls)
    decreases |schedule|
  {
    if |schedule| > 0 {
      var written := Written(schedule[0], length, tls);
      assert (schedule + later)[1..] == schedule[1..] + later;
      if written == -1 {
        if schedule[0].again {
          VerdictIsFinal(length, schedule[1..], later, tls);
        }
      } else if written < length {
        VerdictIsFinal(length - written, schedule[1..], later, tls);
      }
    }
  }
}
