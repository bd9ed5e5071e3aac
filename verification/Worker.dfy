// The worker and the manager of repeated tasks, which run one task at a time for each id, as the
// interleavings of their callers and of the threads.

module Worker {
  import opened Wrappers

  // --- States ---

  // The worker knows its tasks by number, the manager of repeated tasks by name.
  datatype Key = Number(n: int) | Name(text: string)

  // Where a caller stands in enqueue or repeatEvery.
  datatype Pc =
    | Idle
    | Waiting(id: Key)
    | Locked(id: Key)
    | Joining(id: Key, thread: nat)
    | Ready(id: Key)
    | Spawned(id: Key, thread: nat)
    | Erased(id: Key, thread: nat)
    | Emplaced

  datatype Thread = Thread(id: Key, finished: bool, stopRequested: bool, joined: bool)

  // Task bodies that begin and end.
  datatype Event = Began(id: Key, thread: nat) | Ended(thread: nat)

  // A thread is known by its place in `tasks`. The manager of repeated tasks removes the old entry
  // before the new thread is made, the worker after that.
  datatype State = State(removesFirst: bool, pcs: map<nat, Pc>, mutex: Option<nat>, threads: map<Key, nat>,
                         tasks: seq<Thread>, log: seq<Event>)

  function Initial(removesFirst: bool): State {
    State(removesFirst, map[], None, map[], [], [])
  }

  function PcOf(s: State, caller: nat): Pc {
    if caller in s.pcs then s.pcs[caller] else Idle
  }

  // --- Steps ---

  datatype Action =
    | Call(caller: nat, id: Key)
    | Lock(caller: nat)
    | StopOld(caller: nat)
    | JoinOld(caller: nat)
    | Spawn(caller: nat)
    | Erase(caller: nat)
    | Emplace(caller: nat)
    | Unlock(caller: nat)
    | Finish(thread: nat)

  predicate IsEnabled(s: State, a: Action) {
    match a
    case Call(c, id) => PcOf(s, c).Idle?
    case Lock(c) => PcOf(s, c).Waiting? && s.mutex == None
    case StopOld(c) => PcOf(s, c).Locked?
    case JoinOld(c) => PcOf(s, c).Joining? && PcOf(s, c).thread < |s.tasks| && s.tasks[PcOf(s, c).thread].finished
    case Spawn(c) => PcOf(s, c).Ready?
    case Erase(c) => PcOf(s, c).Spawned?
    case Emplace(c) => PcOf(s, c).Erased?
    case Unlock(c) => PcOf(s, c).Emplaced?
    case Finish(t) => t < |s.tasks| && !s.tasks[t].finished
  }

  function At(s: State, caller: nat, pc: Pc): State {
    s.(pcs := s.pcs[caller := pc])
  }

  function OldIsGone(s: State, caller: nat, id: Key): State {
    At(if s.removesFirst then s.(threads := s.threads - {id}) else s, caller, Ready(id))
  }

  // Looking for the old thread: it is asked to stop, and joined unless that has been done.
  function StopStep(s: State, caller: nat, id: Key): State {
    if id in s.threads && s.threads[id] < |s.tasks| then
      var t := s.threads[id];
      var stopped := s.(tasks := s.tasks[t := s.tasks[t].(stopRequested := true)]);
      if s.tasks[t].joined then OldIsGone(stopped, caller, id) else At(stopped, caller, Joining(id, t))
    else OldIsGone(s, caller, id)
  }

  function JoinStep(s: State, caller: nat, id: Key, t: nat): State
    requires t < |s.tasks|
  {
    OldIsGone(s.(tasks := s.tasks[t := s.tasks[t].(joined := true)]), caller, id)
  }

  function SpawnStep(s: State, caller: nat, id: Key): State {
    At(s.(tasks := s.tasks + [Thread(id, false, false, false)], log := s.log + [Began(id, |s.tasks|)]),
       caller, Spawned(id, |s.tasks|))
  }

  // emplace leaves an entry that is there.
  function EmplaceStep(s: State, caller: nat, id: Key, t: nat): State {
    At(if id in s.threads then s else s.(threads := s.threads[id := t]), caller, Emplaced)
  }

  function Do(s: State, a: Action): State
    requires IsEnabled(s, a)
  {
    match a
    case Call(c, id) => At(s, c, Waiting(id))
    case Lock(c) => At(s.(mutex := Some(c)), c, Locked(PcOf(s, c).id))
    case StopOld(c) => StopStep(s, c, PcOf(s, c).id)
    case JoinOld(c) => JoinStep(s, c, PcOf(s, c).id, PcOf(s, c).thread)
    case Spawn(c) => SpawnStep(s, c, PcOf(s, c).id)
    case Erase(c) => At(s.(threads := s.threads - {PcOf(s, c).id}), c, Erased(PcOf(s, c).id, PcOf(s, c).thread))
    case Emplace(c) => EmplaceStep(s, c, PcOf(s, c).id, PcOf(s, c).thread)
    case Unlock(c) => At(s.(mutex := None), c, Idle)
    case Finish(t) => s.(tasks := s.tasks[t := s.tasks[t].(finished := true)], log := s.log + [Ended(t)])
  }

  predicate CanRun(s: State, run: seq<Action>)
    decreases |run|
  {
    |run| == 0 || (IsEnabled(s, run[0]) && CanRun(Do(s, run[0]), run[1..]))
  }

  function After(s: State, run: seq<Action>): State
    requires CanRun(s, run)
    decreases |run|
  {
    if |run| == 0 then s else After(Do(s, run[0]), run[1..])
  }

  // --- What the log says ---

  // The thread begun last for each id.
  function LastOf(log: seq<Event>): map<Key, nat> {
    if |log| == 0 then map[]
    else
      var before, e := LastOf(log[..|log| - 1]), log[|log| - 1];
      if e.Began? then before[e.id := e.thread] else before
  }

  // The bodies that have begun and not ended, with their ids.
  function Unfinished(log: seq<Event>): map<nat, Key> {
    if |log| == 0 then map[]
    else
      var before, e := Unfinished(log[..|log| - 1]), log[|log| - 1];
      if e.Began? then before[e.thread := e.id] else before - {e.thread}
  }

  // A body begins only when no body for its id is unfinished.
  predicate IsSerial(log: seq<Event>) {
    |log| == 0 ||
    var earlier, e := log[..|log| - 1], log[|log| - 1];
    && IsSerial(earlier)
    && (e.Began? ==> e.thread !in Unfinished(earlier) && e.id !in Unfinished(earlier).Values)
  }

  lemma OneMore(log: seq<Event>, e: Event)
    ensures LastOf(log + [e]) == if e.Began? then LastOf(log)[e.id := e.thread] else LastOf(log)
    ensures Unfinished(log + [e]) ==
            if e.Began? then Unfinished(log)[e.thread := e.id] else Unfinished(log) - {e.thread}
    ensures IsSerial(log + [e]) <==>
            IsSerial(log) && (e.Began? ==> e.thread !in Unfinished(log) && e.id !in Unfinished(log).Values)
  {
    assert (log + [e])[..|log|] == log;
  }

  // --- The invariant ---

  predicate HoldsMutex(pc: Pc) {
    !pc.Idle? && !pc.Waiting?
  }

  ghost predicate MutexExcludes(s: State) {
    && (forall c :: c in s.pcs ==> (HoldsMutex(s.pcs[c]) <==> s.mutex == Some(c)))
    && (s.mutex.Some? ==> s.mutex.value in s.pcs)
  }

  function HolderPc(s: State): Pc {
    if s.mutex.Some? then PcOf(s, s.mutex.value) else Idle
  }

  // The map holds the last thread of each id, but for the one that is being put in.
  ghost predicate MapIsLast(s: State) {
    var pc := HolderPc(s);
    if pc.Spawned? || pc.Erased? then
      && LastOf(s.log) == s.threads[pc.id := pc.thread]
      && (pc.Erased? ==> pc.id !in s.threads)
    else if pc.Ready? && s.removesFirst then s.threads == LastOf(s.log) - {pc.id}
    else LastOf(s.log) == s.threads
  }

  predicate IsUnfinished(s: State, t: nat) {
    t < |s.tasks| && !s.tasks[t].finished
  }

  // Threads have their ids, and an unfinished one is the last of its id.
  ghost predicate TasksMatch(s: State) {
    && (forall id :: id in LastOf(s.log) ==> LastOf(s.log)[id] < |s.tasks| && s.tasks[LastOf(s.log)[id]].id == id)
    && (forall t: nat :: IsUnfinished(s, t) ==> s.tasks[t].id in LastOf(s.log) && LastOf(s.log)[s.tasks[t].id] == t)
    && (forall t :: 0 <= t < |s.tasks| && s.tasks[t].joined ==> s.tasks[t].finished)
  }

  ghost predicate LogMatches(s: State) {
    && IsSerial(s.log)
    && (forall t: nat :: t in Unfinished(s.log) <==> IsUnfinished(s, t))
    && (forall t: nat :: t in Unfinished(s.log) ==> Unfinished(s.log)[t] == s.tasks[t].id)
  }

  // What the holder of the mutex has made sure of.
  ghost predicate HolderKnows(s: State) {
    var pc := HolderPc(s);
    && (pc.Joining? ==>
          pc.id in s.threads && s.threads[pc.id] == pc.thread < |s.tasks| && s.tasks[pc.thread].stopRequested)
    && (pc.Ready? && pc.id in LastOf(s.log) ==> !IsUnfinished(s, LastOf(s.log)[pc.id]))
  }

  ghost predicate Inv(s: State) {
    MutexExcludes(s) && MapIsLast(s) && TasksMatch(s) && LogMatches(s) && HolderKnows(s)
  }

  lemma InitialInv(removesFirst: bool)
    ensures Inv(Initial(removesFirst))
  {
  }

  lemma OutsideKeeps(s: State, a: Action)
    requires Inv(s) && IsEnabled(s, a) && (a.Call? || a.Lock? || a.Unlock?)
    ensures Inv(Do(s, a))
  {
  }

  // The holder may go on once there is no unfinished old thread.
  lemma OldIsGoneKeeps(s: State, caller: nat, id: Key)
    requires Inv(s) && s.mutex == Some(caller)
    requires PcOf(s, caller).Locked? || PcOf(s, caller).Joining?
    requires id in s.threads ==> !IsUnfinished(s, s.threads[id])
    ensures Inv(OldIsGone(s, caller, id))
  {
  }

  // Marks on a thread change nothing that matters while the caller is where it is.
  lemma MarkKeeps(s: State, t: nat, thread: Thread)
    requires Inv(s) && t < |s.tasks| && thread.id == s.tasks[t].id && thread.finished == s.tasks[t].finished
    requires s.tasks[t].stopRequested ==> thread.stopRequested
    requires thread.joined ==> thread.finished
    ensures Inv(s.(tasks := s.tasks[t := thread]))
  {
    var s' := s.(tasks := s.tasks[t := thread]);
    assert HolderPc(s') == HolderPc(s);
    assert forall u: nat :: u < |s.tasks| ==>
             s'.tasks[u].id == s.tasks[u].id && s'.tasks[u].finished == s.tasks[u].finished;
    assert forall u: nat :: IsUnfinished(s', u) <==> IsUnfinished(s, u);
  }

  lemma StopKeeps(s: State, a: Action)
    requires Inv(s) && IsEnabled(s, a) && a.StopOld?
    ensures Inv(Do(s, a))
  {
    var id := PcOf(s, a.caller).id;
    if id in s.threads {
      var t := s.threads[id];
      var stopped := s.(tasks := s.tasks[t := s.tasks[t].(stopRequested := true)]);
      MarkKeeps(s, t, stopped.tasks[t]);
      if s.tasks[t].joined {
        OldIsGoneKeeps(stopped, a.caller, id);
      } else {
        JoiningKeeps(stopped, a.caller, id);
      }
    } else {
      OldIsGoneKeeps(s, a.caller, id);
    }
  }

  lemma JoiningKeeps(s: State, caller: nat, id: Key)
    requires Inv(s) && PcOf(s, caller) == Locked(id) && id in s.threads
    requires s.threads[id] < |s.tasks| && s.tasks[s.threads[id]].stopRequested
    ensures Inv(At(s, caller, Joining(id, s.threads[id])))
  {
  }

  lemma JoinKeeps(s: State, a: Action)
    requires Inv(s) && IsEnabled(s, a) && a.JoinOld?
    ensures Inv(Do(s, a))
  {
    var t := PcOf(s, a.caller).thread;
    var joined := s.(tasks := s.tasks[t := s.tasks[t].(joined := true)]);
    MarkKeeps(s, t, joined.tasks[t]);
    OldIsGoneKeeps(joined, a.caller, PcOf(s, a.caller).id);
  }

  // The new thread is the last of its id and the only unfinished one.
  lemma SpawnKeepsMap(s: State, caller: nat, id: Key)
    requires Inv(s) && PcOf(s, caller) == Ready(id)
    ensures var s' := SpawnStep(s, caller, id);
            MutexExcludes(s') && MapIsLast(s') && HolderKnows(s')
  {
    OneMore(s.log, Began(id, |s.tasks|));
  }

  lemma SpawnKeepsTasks(s: State, caller: nat, id: Key)
    requires TasksMatch(s) && (id in LastOf(s.log) ==> !IsUnfinished(s, LastOf(s.log)[id]))
    ensures TasksMatch(SpawnStep(s, caller, id))
  {
    OneMore(s.log, Began(id, |s.tasks|));
    var s' := SpawnStep(s, caller, id);
    assert forall u: nat :: IsUnfinished(s', u) <==> IsUnfinished(s, u) || u == |s.tasks|;
  }

  lemma SpawnKeepsLog(s: State, caller: nat, id: Key)
    requires TasksMatch(s) && LogMatches(s) && (id in LastOf(s.log) ==> !IsUnfinished(s, LastOf(s.log)[id]))
    ensures LogMatches(SpawnStep(s, caller, id))
  {
    OneMore(s.log, Began(id, |s.tasks|));
    var s' := SpawnStep(s, caller, id);
    assert forall u: nat :: IsUnfinished(s', u) <==> IsUnfinished(s, u) || u == |s.tasks|;
    assert id !in Unfinished(s.log).Values;
  }

  lemma EraseKeeps(s: State, a: Action)
    requires Inv(s) && IsEnabled(s, a) && a.Erase?
    ensures Inv(Do(s, a))
  {
  }

  lemma EmplaceKeeps(s: State, a: Action)
    requires Inv(s) && IsEnabled(s, a) && a.Emplace?
    ensures Inv(Do(s, a))
  {
  }

  lemma FinishKeeps(s: State, a: Action)
    requires Inv(s) && IsEnabled(s, a) && a.Finish?
    ensures Inv(Do(s, a))
  {
    OneMore(s.log, Ended(a.thread));
    var s' := Do(s, a);
    assert HolderPc(s') == HolderPc(s);
    assert forall u: nat :: IsUnfinished(s', u) <==> IsUnfinished(s, u) && u != a.thread;
  }

  lemma StepKeeps(s: State, a: Action)
    requires Inv(s) && IsEnabled(s, a)
    ensures Inv(Do(s, a))
  {
    match a
    case Call(_, _) => OutsideKeeps(s, a);
    case Lock(_) => OutsideKeeps(s, a);
    case Unlock(_) => OutsideKeeps(s, a);
    case StopOld(_) => StopKeeps(s, a);
    case JoinOld(_) => JoinKeeps(s, a);
    case Spawn(caller) =>
      SpawnKeepsMap(s, caller, PcOf(s, caller).id);
      SpawnKeepsTasks(s, caller, PcOf(s, caller).id);
      SpawnKeepsLog(s, caller, PcOf(s, caller).id);
    case Erase(_) => EraseKeeps(s, a);
    case Emplace(_) => EmplaceKeeps(s, a);
    case Finish(_) => FinishKeeps(s, a);
  }

  lemma {:induction false} RunKeeps(s: State, run: seq<Action>)
    requires Inv(s) && CanRun(s, run)
    ensures Inv(After(s, run))
    decreases |run|
  {
    if |run| > 0 {
      StepKeeps(s, run[0]);
      RunKeeps(Do(s, run[0]), run[1..]);
    }
  }

  // --- What holds in every interleaving ---

  // At most one task of an id is unfinished.
  lemma OneUnfinished(removesFirst: bool, run: seq<Action>, t: nat, u: nat)
    requires CanRun(Initial(removesFirst), run)
    ensures var s := After(Initial(removesFirst), run);
            IsUnfinished(s, t) && IsUnfinished(s, u) && s.tasks[t].id == s.tasks[u].id ==> t == u
  {
    InitialInv(removesFirst);
    RunKeeps(Initial(removesFirst), run);
  }

  // A body begins only after every earlier body of its id has ended.
  lemma BodiesAreSerial(removesFirst: bool, run: seq<Action>)
    requires CanRun(Initial(removesFirst), run)
    ensures IsSerial(After(Initial(removesFirst), run).log)
  {
    InitialInv(removesFirst);
    RunKeeps(Initial(removesFirst), run);
  }

  // Whenever the mutex is free, the map holds exactly the last thread begun for each id.
  lemma MapHoldsLast(removesFirst: bool, run: seq<Action>)
    requires CanRun(Initial(removesFirst), run) && After(Initial(removesFirst), run).mutex == None
    ensures After(Initial(removesFirst), run).threads == LastOf(After(Initial(removesFirst), run).log)
  {
    InitialInv(removesFirst);
    RunKeeps(Initial(removesFirst), run);
  }

  predicate CallerMoves(a: Action) {
    !a.Call? && !a.Finish?
  }

  // No deadlock: while some caller is inside enqueue, some caller can go on, or the holder of the
  // mutex waits for a task that has been asked to stop.
  lemma NoDeadlock(removesFirst: bool, run: seq<Action>, caller: nat)
    requires CanRun(Initial(removesFirst), run) && !PcOf(After(Initial(removesFirst), run), caller).Idle?
    ensures var s := After(Initial(removesFirst), run);
            || (exists a :: CallerMoves(a) && IsEnabled(s, a))
            || (HolderPc(s).Joining? && var t := HolderPc(s).thread;
                IsUnfinished(s, t) && s.tasks[t].stopRequested)
  {
    InitialInv(removesFirst);
    RunKeeps(Initial(removesFirst), run);
    var s := After(Initial(removesFirst), run);
    if s.mutex == None {
      assert IsEnabled(s, Lock(caller));
    } else {
      var c := s.mutex.value;
      match PcOf(s, c)
      case Locked(_) => assert IsEnabled(s, StopOld(c));
      case Joining(_, t) =>
        if s.tasks[t].finished {
          assert IsEnabled(s, JoinOld(c));
        }
      case Ready(_) => assert IsEnabled(s, Spawn(c));
      case Spawned(_, _) => assert IsEnabled(s, Erase(c));
      case Erased(_, _) => assert IsEnabled(s, Emplace(c));
      case Emplaced => assert IsEnabled(s, Unlock(c));
    }
  }
}
