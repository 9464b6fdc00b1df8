/** The per-system lock of the prefetch as event-loop steps of any number of concurrent prefetches: a step is
    what runs between two awaits. */
module PrefetchLock {
  const METRICS: nat := 33  // entries of precachable

  /** Where a prefetch stands. Everything from FetchingVmws to Finishing runs with the lock taken. */
  datatype Phase =
    | CheckingStatus
    | FetchingVmws
    | MakingDirectory(metric: nat)
    | Loading(metric: nat)      // ranges, summary, variants, cached and new rows
    | Unlinking(metric: nat)    // about to remove the old blobs
    | Writing(metric: nat)      // blobs removed, about to write the new ones
    | Finishing
    | Done
    | Skipped
    | Crashed                   // an unguarded await threw

  datatype Prefetch = Prefetch(system: string, phase: Phase)

  type Pid = nat

  datatype State = State(prefetches: map<Pid, Prefetch>, locks: set<string>)

  datatype Action =
    | Start(system: string)
    | StatusUnavailable
    | StatusAvailable
    | VmwsLoaded
    | Throw            // in one of the unguarded awaits
    | DirectoryReady
    | Loaded
    | GiveUp           // continue, or an error caught for this metric
    | RemoveBlobs
    | WriteBlobs
    | Unlock

  datatype Event = Event(pid: Pid, action: Action)

  function NextMetric(metric: nat): Phase {
    if metric + 1 < METRICS then MakingDirectory(metric + 1) else Finishing
  }

  /** The phase an action leads to, when the phase allows the action; taken tells whether the lock is. */
  function Follow(phase: Phase, action: Action, taken: bool): Phase {
    match (phase, action)
    case (CheckingStatus, StatusUnavailable) => Skipped
    case (CheckingStatus, StatusAvailable) => if taken then Skipped else FetchingVmws
    case (FetchingVmws, VmwsLoaded) => MakingDirectory(0)
    case (FetchingVmws, Throw) => Crashed
    case (MakingDirectory(m), DirectoryReady) => Loading(m)
    case (MakingDirectory(m), Throw) => Crashed
    case (Loading(m), GiveUp) => NextMetric(m)
    case (Loading(m), Loaded) => Unlinking(m)
    case (Unlinking(m), RemoveBlobs) => Writing(m)
    case (Unlinking(m), GiveUp) => NextMetric(m)
    case (Writing(m), WriteBlobs) => NextMetric(m)
    case (Writing(m), GiveUp) => NextMetric(m)
    case (Finishing, Unlock) => Done
    case _ => phase
  }

  /** One event-loop step. */
  ghost predicate Step(s: State, e: Event, t: State) {
    if e.action.Start? then
      && e.pid !in s.prefetches
      && t == State(s.prefetches[e.pid := Prefetch(e.action.system, CheckingStatus)], s.locks)
    else
      && e.pid in s.prefetches
      && var p := s.prefetches[e.pid];
         var next := Follow(p.phase, e.action, p.system in s.locks);
         && next != p.phase
         && t == State(s.prefetches[e.pid := p.(phase := next)],
                       if next == FetchingVmws then s.locks + {p.system}
                       else if next == Done then s.locks - {p.system}
                       else s.locks)
  }

  predicate Critical(phase: Phase) {
    phase.FetchingVmws? || phase.MakingDirectory? || phase.Loading? || phase.Unlinking? || phase.Writing? || phase.Finishing?
  }

  /** A prefetch that has taken the lock and not given it back. */
  predicate Holds(phase: Phase) {
    Critical(phase) || phase.Crashed?
  }

  ghost predicate Holder(s: State, p: Pid, system: string) {
    p in s.prefetches && s.prefetches[p].system == system && Holds(s.prefetches[p].phase)
  }

  /** A system is locked exactly while one prefetch holds its lock, and never by two. */
  ghost predicate Inv(s: State) {
    && (forall system :: system in s.locks <==> exists p :: Holder(s, p, system))
    && (forall system, p, q | Holder(s, p, system) && Holder(s, q, system) :: p == q)
  }

  lemma StepKeepsInv(s: State, e: Event, t: State)
    requires Inv(s) && Step(s, e, t)
    ensures Inv(t)
  {
    forall p, system | p != e.pid ensures Holder(t, p, system) <==> Holder(s, p, system) {}
    if e.action.Start? {
      forall system ensures !Holder(t, e.pid, system) && !Holder(s, e.pid, system) {}
      LocksFollow(s, t, e.pid);
    } else {
      var p := s.prefetches[e.pid];
      assert forall system | system != p.system :: !Holder(t, e.pid, system) && !Holder(s, e.pid, system);
      LocksFollow(s, t, e.pid);
    }
  }

  /** When only one prefetch moved, the locks still match if they do for that prefetch's system. */
  lemma LocksFollow(s: State, t: State, pid: Pid)
    requires Inv(s)
    requires forall p, system | p != pid :: Holder(t, p, system) <==> Holder(s, p, system)
    requires forall system ::
             || (Holder(t, pid, system) == Holder(s, pid, system) && (system in t.locks) == (system in s.locks))
             || (Holder(t, pid, system) && system !in s.locks && system in t.locks)
             || (Holder(s, pid, system) && !Holder(t, pid, system) && system !in t.locks)
    ensures Inv(t)
  {
    forall system ensures system in t.locks <==> exists p :: Holder(t, p, system) {
      if p :| Holder(s, p, system) {
        assert system in s.locks;
        if Holder(t, p, system) { assert system in t.locks; }
      }
      if p :| Holder(t, p, system) {
        if p != pid { assert Holder(s, p, system); }
      }
    }
  }

  // ---------- runs ----------

  const Initial: State := State(map[], {})

  ghost predicate IsRun(states: seq<State>, events: seq<Event>) {
    && |states| == |events| + 1 && states[0] == Initial
    && forall i | 0 <= i < |events| :: Step(states[i], events[i], states[i + 1])
  }

  lemma {:induction false} RunKeepsInv(states: seq<State>, events: seq<Event>, k: nat)
    requires IsRun(states, events) && k < |states|
    ensures Inv(states[k])
  {
    if k > 0 {
      RunKeepsInv(states, events, k - 1);
      StepKeepsInv(states[k - 1], events[k - 1], states[k]);
    }
  }

  /** In every interleaving at most one prefetch of a system is between taking and giving back its lock. */
  lemma MutualExclusion(states: seq<State>, events: seq<Event>, k: nat, p: Pid, q: Pid)
    requires IsRun(states, events) && k < |states|
    requires p in states[k].prefetches && q in states[k].prefetches && states[k].prefetches[p].system == states[k].prefetches[q].system
    requires Critical(states[k].prefetches[p].phase) && Critical(states[k].prefetches[q].phase)
    ensures p == q
  {
    RunKeepsInv(states, events, k);
    var system := states[k].prefetches[p].system;
    assert Holder(states[k], p, system) && Holder(states[k], q, system);
  }

  /** A prefetch keeps its system and, once past its critical phases, stays past them. */
  lemma {:induction false} StaysPast(states: seq<State>, events: seq<Event>, p: Pid, i: nat, k: nat)
    requires IsRun(states, events) && i <= k < |states| && p in states[i].prefetches
    ensures p in states[k].prefetches && states[k].prefetches[p].system == states[i].prefetches[p].system
    ensures states[i].prefetches[p].phase in {Done, Skipped, Crashed} ==>
              states[k].prefetches[p].phase == states[i].prefetches[p].phase
    decreases k - i
  {
    if i < k {
      assert Step(states[i], events[i], states[i + 1]);
      StaysPast(states, events, p, i + 1, k);
    }
  }

  predicate TouchesFiles(action: Action) {
    action.RemoveBlobs? || action.WriteBlobs?
  }

  /** Between the removal of a system's blobs by one prefetch and its writing of the new ones, no other
      prefetch touches the files of that system. */
  lemma RewriteIsNotInterleaved(states: seq<State>, events: seq<Event>, i: nat, j: nat, k: nat)
    requires IsRun(states, events) && i < j < k < |events|
    requires events[i].action.RemoveBlobs? && events[k].action.WriteBlobs? && events[i].pid == events[k].pid
    requires TouchesFiles(events[j].action)
    requires events[j].pid in states[j].prefetches && events[i].pid in states[i].prefetches
             && states[j].prefetches[events[j].pid].system == states[i].prefetches[events[i].pid].system
    ensures events[j].pid == events[i].pid
  {
    var p, q := events[i].pid, events[j].pid;
    assert Step(states[i], events[i], states[i + 1]);
    assert Step(states[j], events[j], states[j + 1]);
    assert Step(states[k], events[k], states[k + 1]);
    StaysPast(states, events, p, i, j);
    StaysPast(states, events, p, j, k);
    InBetween(states, events, p, i + 1, j);
    assert Critical(states[k].prefetches[p].phase);
    MutualExclusion(states, events, j, p, q);
  }

  /** A started prefetch that was critical is critical or over. */
  lemma {:induction false} InBetween(states: seq<State>, events: seq<Event>, p: Pid, i: nat, j: nat)
    requires IsRun(states, events) && i <= j < |states| && p in states[i].prefetches
    requires states[i].prefetches[p].phase != CheckingStatus
    ensures p in states[j].prefetches
    ensures Critical(states[j].prefetches[p].phase) || states[j].prefetches[p].phase in {Done, Skipped, Crashed}
    decreases j - i
  {
    if i < j {
      assert Step(states[i], events[i], states[i + 1]);
      InBetween(states, events, p, i + 1, j);
    }
  }

  /** Once every prefetch of a system is over, its lock is free if and only if none of them was thrown out of
      an unguarded await. */
  lemma LockFreeIffNoCrash(states: seq<State>, events: seq<Event>, k: nat, system: string)
    requires IsRun(states, events) && k < |states|
    requires forall p | p in states[k].prefetches && states[k].prefetches[p].system == system ::
               !Critical(states[k].prefetches[p].phase)
    ensures system !in states[k].locks <==>
            forall p | p in states[k].prefetches && states[k].prefetches[p].system == system ::
              states[k].prefetches[p].phase != Crashed
  {
    RunKeepsInv(states, events, k);
    if p :| p in states[k].prefetches && states[k].prefetches[p].system == system && states[k].prefetches[p].phase == Crashed {
      assert Holder(states[k], p, system);
    }
  }

  /** After such a throw the lock is never given back and every later prefetch of the system is skipped. */
  lemma CrashLocksForGood(states: seq<State>, events: seq<Event>, p: Pid, i: nat, k: nat)
    requires IsRun(states, events) && i <= k < |states| && p in states[i].prefetches && states[i].prefetches[p].phase == Crashed
    ensures states[i].prefetches[p].system in states[k].locks
    ensures forall q | q in states[k].prefetches && states[k].prefetches[q].system == states[i].prefetches[p].system ::
              !Critical(states[k].prefetches[q].phase)
  {
    StaysPast(states, events, p, i, k);
    RunKeepsInv(states, events, k);
    var system := states[i].prefetches[p].system;
    assert Holder(states[k], p, system);
    forall q | q in states[k].prefetches && states[k].prefetches[q].system == system
      ensures !Critical(states[k].prefetches[q].phase)
    {
      if Critical(states[k].prefetches[q].phase) { assert Holder(states[k], q, system); }
    }
  }

  // ---------- what a prefetch gets through ----------

  /** How many metrics the prefetch has started loading. */
  function Started(phase: Phase): nat {
    match phase
    case MakingDirectory(m) => m
    case Loading(m) => m + 1
    case Unlinking(m) => m + 1
    case Writing(m) => m + 1
    case Finishing => 33
    case Done => 33
    case _ => 0
  }

  /** A prefetch that has come that far has been loading every metric before. */
  lemma {:induction false} LoadedEach(states: seq<State>, events: seq<Event>, p: Pid, k: nat, m: nat) returns (j: nat)
    requires IsRun(states, events) && k < |states| && p in states[k].prefetches && m < Started(states[k].prefetches[p].phase)
    ensures j <= k && p in states[j].prefetches && states[j].prefetches[p].phase == Loading(m)
  {
    if states[k].prefetches[p].phase == Loading(m) {
      j := k;
    } else {
      assert Step(states[k - 1], events[k - 1], states[k]);
      j := LoadedEach(states, events, p, k - 1, m);
    }
  }

  /** A prefetch that ends without being skipped or thrown out has gone through all 33 metrics, holding the lock. */
  lemma DoneLoadedAll(states: seq<State>, events: seq<Event>, p: Pid, k: nat, m: nat) returns (j: nat)
    requires IsRun(states, events) && k < |states| && p in states[k].prefetches
    requires states[k].prefetches[p].phase == Done && m < 33
    ensures j < k && p in states[j].prefetches && states[j].prefetches[p].phase == Loading(m)
    ensures states[j].prefetches[p].system in states[j].locks
  {
    j := LoadedEach(states, events, p, k, m);
    RunKeepsInv(states, events, j);
    assert Holder(states[j], p, states[j].prefetches[p].system);
  }

  /** How far a prefetch is from its end when every remaining metric fails. */
  function Left(phase: Phase): nat {
    match phase
    case FetchingVmws => 100
    case MakingDirectory(m) => if m < 33 then 2 * (33 - m) + 1 else 3
    case Loading(m) => if m < 33 then 2 * (33 - m) else 2
    case Unlinking(m) => if m < 33 then 2 * (33 - m) else 2
    case Writing(m) => if m < 33 then 2 * (33 - m) else 2
    case Finishing => 1
    case _ => 0
  }

  /** The action by which a prefetch goes on when its current metric fails. */
  function Failing(phase: Phase): Action {
    match phase
    case FetchingVmws => VmwsLoaded
    case MakingDirectory(_) => DirectoryReady
    case Finishing => Unlock
    case _ => GiveUp
  }

  /** However any run has gone, a prefetch that holds the lock without having been thrown out can still end and give the
      lock back, by its own steps alone, even if every remaining metric fails and no more file is touched. */
  lemma {:induction false} CanFinish(states: seq<State>, events: seq<Event>, p: Pid) returns (after: seq<State>, more: seq<Event>)
    requires IsRun(states, events) && p in states[|states| - 1].prefetches
    requires Critical(states[|states| - 1].prefetches[p].phase)
    ensures IsRun(after, more) && events <= more
    ensures forall i | |events| <= i < |more| :: more[i].pid == p && !TouchesFiles(more[i].action) && !more[i].action.Throw?
    ensures var now, system := states[|states| - 1], states[|states| - 1].prefetches[p].system;
            && after[|after| - 1].prefetches == now.prefetches[p := Prefetch(system, Done)]
            && after[|after| - 1].locks == now.locks - {system}
    decreases Left(states[|states| - 1].prefetches[p].phase)
  {
    var now := states[|states| - 1];
    var Prefetch(system, phase) := now.prefetches[p];
    var action := Failing(phase);
    var next := Follow(phase, action, system in now.locks);
    var t := State(now.prefetches[p := Prefetch(system, next)], if next == Done then now.locks - {system} else now.locks);
    Extended(states, events, Event(p, action), t);
    if next == Done {
      after, more := states + [t], events + [Event(p, action)];
    } else {
      after, more := CanFinish(states + [t], events + [Event(p, action)], p);
    }
  }

  /** The state when prefetch 0 is the only one there. */
  function Alone(system: string, phase: Phase): State {
    State(map[0 := Prefetch(system, phase)], if Critical(phase) then {system} else {})
  }

  lemma Extended(states: seq<State>, events: seq<Event>, e: Event, t: State)
    requires IsRun(states, events) && Step(states[|states| - 1], e, t)
    ensures IsRun(states + [t], events + [e])
  {
    var after, more := states + [t], events + [e];
    forall i | 0 <= i < |more| ensures Step(after[i], more[i], after[i + 1]) {
      if i < |events| {
        assert Step(states[i], events[i], states[i + 1]);
      }
    }
  }

  /** Prefetch 0 follows one more action; the status check is the only one that finds the lock free. */
  lemma AloneFollows(states: seq<State>, events: seq<Event>, system: string, phase: Phase, action: Action)
    returns (after: seq<State>, more: seq<Event>)
    requires IsRun(states, events) && states[|states| - 1] == Alone(system, phase) && !action.Start?
    requires Critical(phase) || phase == CheckingStatus
    requires var next := Follow(phase, action, Critical(phase)); next != phase && (Critical(next) || next == Done)
    ensures IsRun(after, more) && more == events + [Event(0, action)]
    ensures after[|after| - 1] == Alone(system, Follow(phase, action, Critical(phase)))
  {
    var t := Alone(system, Follow(phase, action, Critical(phase)));
    assert t.prefetches == Alone(system, phase).prefetches[0 := Prefetch(system, Follow(phase, action, Critical(phase)))];
    Extended(states, events, Event(0, action), t);
    after, more := states + [t], events + [Event(0, action)];
  }

  /** A lone prefetch gets through the first m metrics, rewriting the blobs of each, and holds the lock. */
  lemma {:induction false} AloneRewrites(system: string, m: nat) returns (states: seq<State>, events: seq<Event>)
    requires m <= 33
    ensures IsRun(states, events) && states[|states| - 1] == Alone(system, if m < 33 then MakingDirectory(m) else Finishing)
  {
    if m == 0 {
      var t := Alone(system, CheckingStatus);
      assert t.prefetches == Initial.prefetches[0 := Prefetch(system, CheckingStatus)];
      Extended([Initial], [], Event(0, Start(system)), t);
      states, events := [Initial] + [t], [] + [Event(0, Start(system))];
      states, events := AloneFollows(states, events, system, CheckingStatus, StatusAvailable);
      states, events := AloneFollows(states, events, system, FetchingVmws, VmwsLoaded);
    } else {
      states, events := AloneRewrites(system, m - 1);
      states, events := AloneFollows(states, events, system, MakingDirectory(m - 1), DirectoryReady);
      states, events := AloneFollows(states, events, system, Loading(m - 1), Loaded);
      states, events := AloneFollows(states, events, system, Unlinking(m - 1), RemoveBlobs);
      states, events := AloneFollows(states, events, system, Writing(m - 1), WriteBlobs);
    }
  }

  /** A lone prefetch can rewrite all 33 metrics and ends with the lock free. */
  lemma AloneCompletes(system: string) returns (states: seq<State>, events: seq<Event>)
    ensures IsRun(states, events) && states[|states| - 1] == Alone(system, Done)
    ensures states[|states| - 1].locks == {}
  {
    states, events := AloneRewrites(system, 33);
    states, events := AloneFollows(states, events, system, Finishing, Unlock);
  }
}
