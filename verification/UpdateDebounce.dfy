/** The per-system update debounce: which refreshes, failures and socket closes lead to an 'updated'
    emission, and when. */
module UpdateDebounce {
  import opened Wrappers

  const DELAY: int := 60000

  datatype Info = Info(typ: string, version: string, features: seq<string>)

  type TimerId = nat

  datatype Timer = Timer(system: string, due: int)

  /** What happened, in order; an emission records whether the info it reports was still there. */
  datatype Event =
    | Refreshed(system: string, at: int)
    | Failed(system: string, at: int)
    | Closed(system: string, at: int)
    | Emitted(system: string, at: int, found: bool)

  // ---------- the history ----------

  /** What the events so far mean for one system: when the refresh that still has an emission to come took
      place, and whether the socket has stayed open since the last refresh. */
  datatype Track = Track(refreshedAt: Option<int>, open: bool)

  function Tracked(log: seq<Event>, system: string): Track {
    if log == [] then Track(None, false)
    else
      Next(Tracked(log[..|log| - 1], system), log[|log| - 1], system)
  }

  function Next(track: Track, event: Event, system: string): Track {
    if event.system != system then track
    else
      match event
      case Refreshed(_, at) => Track(Some(at), true)
      case Failed(_, _) => track
      case Closed(_, _) => Track(track.refreshedAt, false)
      case Emitted(_, _, _) => Track(None, track.open)
  }

  /** Times never go back; every emission goes back to a refresh at least the delay ago that has not led to
      an emission before, and finds the info exactly when the socket stayed open since. */
  predicate WellTimed(log: seq<Event>) {
    log == [] ||
    var init, last := log[..|log| - 1], log[|log| - 1];
    && WellTimed(init)
    && (init != [] ==> init[|init| - 1].at <= last.at)
    && (last.Emitted? ==>
          var track := Tracked(init, last.system);
          track.refreshedAt.Some? && last.at >= track.refreshedAt.value + DELAY && last.found == track.open)
  }

  lemma {:induction false} PrefixWellTimed(log: seq<Event>, k: nat)
    requires WellTimed(log) && k <= |log|
    ensures WellTimed(log[..k])
    decreases |log|
  {
    if k < |log| {
      assert log[..k] == log[..|log| - 1][..k];
      PrefixWellTimed(log[..|log| - 1], k);
    } else {
      assert log[..k] == log;
    }
  }

  lemma {:induction false} TimesInOrder(log: seq<Event>, i: nat, j: nat)
    requires WellTimed(log) && i <= j < |log|
    ensures log[i].at <= log[j].at
    decreases |log|
  {
    var init := log[..|log| - 1];
    if j < |log| - 1 {
      TimesInOrder(init, i, j);
    } else if i < j {
      TimesInOrder(init, i, j - 1);
    }
  }

  /** The tracked refresh is the last one, and no emission followed it. */
  lemma {:induction false} TrackedRefresh(log: seq<Event>, system: string) returns (j: nat)
    requires Tracked(log, system).refreshedAt.Some?
    ensures j < |log| && log[j] == Refreshed(system, Tracked(log, system).refreshedAt.value)
    ensures forall m | j < m < |log| && log[m].system == system :: !log[m].Refreshed? && !log[m].Emitted?
    ensures Tracked(log, system).open <==> forall m | j < m < |log| && log[m].system == system :: !log[m].Closed?
  {
    var init, last := log[..|log| - 1], log[|log| - 1];
    if last.system == system && last.Refreshed? {
      j := |log| - 1;
    } else {
      j := TrackedRefresh(init, system);
      assert forall m | 0 <= m < |init| :: init[m] == log[m];
    }
  }

  /** The refresh behind an emission: the last one before it, at least the delay ago, with no emission in between. */
  lemma EmissionSource(log: seq<Event>, k: nat) returns (j: nat)
    requires WellTimed(log) && k < |log| && log[k].Emitted?
    ensures j < k && log[j].Refreshed? && log[j].system == log[k].system && log[k].at >= log[j].at + DELAY
    ensures forall m | j < m < k && log[m].system == log[k].system :: !log[m].Refreshed? && !log[m].Emitted?
    ensures log[k].found <==> forall m | j < m < k && log[m].system == log[k].system :: !log[m].Closed?
  {
    PrefixWellTimed(log, k + 1);
    assert log[..k + 1][..k] == log[..k];
    j := TrackedRefresh(log[..k], log[k].system);
  }

  /** An emission comes at least the delay after every earlier refresh of its system. */
  lemma EmissionAfterRefreshes(log: seq<Event>, i: nat, k: nat)
    requires WellTimed(log) && i < k < |log| && log[i].Refreshed? && log[k].Emitted? && log[i].system == log[k].system
    ensures log[k].at >= log[i].at + 60000
  {
    var j := EmissionSource(log, k);
    TimesInOrder(log, i, j);
  }

  /** Two emissions for one system are at least the delay apart. */
  lemma EmissionsApart(log: seq<Event>, i: nat, k: nat)
    requires WellTimed(log) && i < k < |log| && log[i].Emitted? && log[k].Emitted? && log[i].system == log[k].system
    ensures log[k].at >= log[i].at + 60000
  {
    var j := EmissionSource(log, k);
    TimesInOrder(log, i, j);
  }

  /** An emission finds the info record if and only if the socket has not closed since the last successful refresh. */
  lemma FoundIffOpenSinceRefresh(log: seq<Event>, j: nat, k: nat)
    requires WellTimed(log) && j < k < |log| && log[k].Emitted?
    requires log[j].Refreshed? && log[j].system == log[k].system
    requires forall m | j < m < k && log[m].system == log[k].system :: !log[m].Refreshed?
    ensures log[k].found <==> forall m | j < m < k && log[m].system == log[k].system :: !log[m].Closed?
  {
    var i := EmissionSource(log, k);
    assert i == j;
  }

  // ---------- the service ----------

  class MaintainerService {
    var maintainerInfo: map<string, Info>
    var queue: map<string, TimerId>
    var timers: map<TimerId, Timer>  // timers that have been set and neither cleared nor fired
    var lastTimer: TimerId
    var now: int
    ghost var log: seq<Event>

    /** Every live timer is the one queued for its system and is due the delay after the system's last refresh;
        the info is there exactly when the socket has stayed open since. */
    ghost predicate Valid()
      reads this
    {
      && WellTimed(log) && (log != [] ==> log[|log| - 1].at <= now)
      && (forall t | t in timers :: t <= lastTimer && timers[t].system in queue && queue[timers[t].system] == t)
      && (forall s | s in queue :: queue[s] <= lastTimer)
      && (forall t | t in timers :: Due(log, timers[t], maintainerInfo))
    }

    constructor (now: int)
      ensures Valid() && log == [] && timers == map[] && this.now == now
    {
      maintainerInfo, queue, timers, lastTimer, log := map[], map[], map[], 0, [];
      this.now := now;
    }

    /** At most one live timer per system. */
    lemma OneTimerPerSystem(t: TimerId, u: TimerId)
      requires Valid() && t in timers && u in timers && timers[t].system == timers[u].system
      ensures t == u
    {
    }

    method Wait(duration: nat)
      requires Valid()
      modifies this`now
      ensures Valid() && now == old(now) + duration
    {
      now := now + duration;
    }

    /** The queue entry stays, its timer no longer fires. */
    method ClearTimeout(system: string)
      modifies this`timers
      ensures timers == if system in queue then old(timers) - {queue[system]} else old(timers)
    {
      if system in queue {
        timers := timers - {queue[system]};
      }
    }

    method QueueSystemUpdate(system: string)
      modifies this`timers, this`queue, this`lastTimer
      ensures lastTimer == old(lastTimer) + 1
      ensures queue == old(queue)[system := lastTimer]
      ensures timers == (if system in old(queue) then old(timers) - {old(queue)[system]} else old(timers))
                        [lastTimer := Timer(system, now + DELAY)]
    {
      ClearTimeout(system);
      lastTimer := lastTimer + 1;
      timers := timers[lastTimer := Timer(system, now + DELAY)];
      queue := queue[system := lastTimer];
    }

    /** A refresh that got its answers. */
    method UpdateSucceeded(system: string, info: Info)
      requires Valid()
      modifies this
      ensures Valid() && now == old(now)
      ensures log == old(log) + [Refreshed(system, now)]
      ensures maintainerInfo == old(maintainerInfo)[system := info]
      ensures system in queue && queue[system] in timers && timers[queue[system]] == Timer(system, now + 60000)
    {
      maintainerInfo := maintainerInfo[system := info];
      QueueSystemUpdate(system);
      Append(Refreshed(system, now));
    }

    /** A refresh that failed: only a system with an info record loses it together with its timer. */
    method UpdateFailed(system: string)
      requires Valid()
      modifies this`maintainerInfo, this`timers, this`log
      ensures Valid()
      ensures log == old(log) + [Failed(system, now)]
      ensures maintainerInfo == old(maintainerInfo) - {system}
      ensures timers == if system in old(maintainerInfo) && system in queue then old(timers) - {queue[system]} else old(timers)
    {
      ghost var before := log;
      if system in maintainerInfo {
        maintainerInfo := maintainerInfo - {system};
        ClearTimeout(system);
      } else {
        NothingToDrop(maintainerInfo, system);
      }
      Append(Failed(system, now));
      forall t | t in timers ensures Due(log, timers[t], maintainerInfo) {
        assert Due(before, timers[t], old(maintainerInfo));
      }
    }

    /** The socket closed: the info goes, the timer stays. */
    method SocketClosed(system: string)
      requires Valid()
      modifies this`maintainerInfo, this`log
      ensures Valid()
      ensures log == old(log) + [Closed(system, now)]
      ensures maintainerInfo == old(maintainerInfo) - {system}
    {
      maintainerInfo := maintainerInfo - {system};
      Append(Closed(system, now));
    }

    /** A due timer fires: the emission reports the info, or fails when there is none. */
    method TimerFired(t: TimerId) returns (emitted: Option<Info>)
      requires Valid() && t in timers && timers[t].due <= now
      modifies this`queue, this`timers, this`log
      ensures Valid()
      ensures var system := old(timers)[t].system;
              && emitted == (if system in maintainerInfo then Some(maintainerInfo[system]) else None)
              && log == old(log) + [Emitted(system, now, emitted.Some?)]
              && timers == old(timers) - {t} && system !in queue
    {
      var system := timers[t].system;
      timers := timers - {t};
      queue := queue - {system};
      emitted := if system in maintainerInfo then Some(maintainerInfo[system]) else None;
      Append(Emitted(system, now, emitted.Some?));
    }

    ghost method Append(event: Event)
      modifies this`log
      ensures log == old(log) + [event] && log[..|log| - 1] == old(log) && log[|log| - 1] == event
      ensures forall s :: Tracked(log, s) == Next(Tracked(old(log), s), event, s)
    {
      log := log + [event];
    }
  }

  lemma NothingToDrop(info: map<string, Info>, system: string)
    requires system !in info
    ensures info - {system} == info
  {
  }

  /** The timer is due the delay after the tracked refresh of its system. */
  ghost predicate Due(log: seq<Event>, timer: Timer, info: map<string, Info>) {
    var track := Tracked(log, timer.system);
    track.refreshedAt == Some(timer.due - DELAY) && (timer.system in info <==> track.open)
  }

  /** A run that ends in an emission without info: the socket closes after a refresh, the update that follows fails
      and, finding no info record, leaves the timer alone. */
  method EmissionWithoutInfo(system: string, info: Info) returns (emitted: Option<Info>)
    ensures emitted == None
  {
    var service := new MaintainerService(0);
    service.UpdateSucceeded(system, info);
    service.SocketClosed(system);
    service.UpdateFailed(system);
    service.Wait(60000);
    emitted := service.TimerFired(service.queue[system]);
  }
}
