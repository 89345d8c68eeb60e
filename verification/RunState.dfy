/**
 The run state machine: a counter of active runs that never drops below zero, a heartbeat
 that republishes it, and a lifecycle that ends once.
 */
module RunStates {
  import opened Optional

  datatype Patch = Patch(activeRuns: nat, busy: bool, lastRunActivityAt: Option<int>)

  datatype State = State(active: bool, activeRuns: nat, heartbeat: bool, published: seq<Patch>)

  datatype Event = RunStart(now: int) | RunEnd(now: int) | HeartbeatTicks(now: int) | Deactivate

  function Init(aborted: bool): State {
    State(!aborted, 0, false, if aborted then [] else [Patch(0, false, None)])
  }

  function Publish(s: State, now: int): State {
    if s.active then s.(published := s.published + [Patch(s.activeRuns, s.activeRuns > 0, Some(now))]) else s
  }

  function EnsureHeartbeat(s: State): State {
    if s.heartbeat || s.activeRuns <= 0 || !s.active then s else s.(heartbeat := true)
  }

  function Next(s: State, e: Event): State {
    match e
    case RunStart(now) => EnsureHeartbeat(Publish(s.(activeRuns := s.activeRuns + 1), now))
    case RunEnd(now) =>
      var activeRuns := if s.activeRuns == 0 then 0 else s.activeRuns - 1;
      Publish(s.(activeRuns := activeRuns, heartbeat := s.heartbeat && activeRuns > 0), now)
    case HeartbeatTicks(now) =>
      if !s.heartbeat then s
      else if !s.active || s.activeRuns <= 0 then s.(heartbeat := false)
      else Publish(s, now)
    case Deactivate => s.(active := false, heartbeat := false)
  }

  function After(aborted: bool, events: seq<Event>): State {
    if events == [] then Init(aborted) else Next(After(aborted, events[..|events| - 1]), events[|events| - 1])
  }

  // ---------------------------------------------------------------- the reference count

  // Starts minus ends.
  function Net(events: seq<Event>): int {
    if events == [] then 0
    else
      var last := match events[|events| - 1] case RunStart(_) => 1 case RunEnd(_) => -1 case _ => 0;
      Net(events[..|events| - 1]) + last
  }

  // `low` is the least net count that any prefix of the events reaches.
  ghost predicate LowestNet(events: seq<Event>, low: int) {
    && (forall n :: 0 <= n <= |events| ==> low <= Net(events[..n]))
    && (exists n :: 0 <= n <= |events| && low == Net(events[..n]))
  }

  lemma {:induction false} CountAboveLowest(aborted: bool, events: seq<Event>)
    ensures LowestNet(events, Net(events) - After(aborted, events).activeRuns)
  {
    assert events[..|events|] == events;
    if events == [] {
      assert Net(events[..0]) == 0;
    } else {
      var front := events[..|events| - 1];
      CountAboveLowest(aborted, front);
      assert forall n :: 0 <= n <= |front| ==> front[..n] == events[..n];
      var low := Net(events) - After(aborted, events).activeRuns;
      var k :| 0 <= k <= |front| && Net(front) - After(aborted, front).activeRuns == Net(front[..k]);
      assert low == Net(events[..k]) || low == Net(events[..|events|]);
      forall n | 0 <= n <= |events| ensures low <= Net(events[..n]) {
        if n < |events| { assert events[..n] == front[..n]; }
      }
    }
  }

  /**
   The saturating counter forgets exactly the ends that found no run: it is the net count
   above the lowest net count of any prefix.
   */
  lemma ActiveRunsIsNetAboveLowest(aborted: bool, events: seq<Event>, low: int)
    requires LowestNet(events, low)
    ensures After(aborted, events).activeRuns == Net(events) - low
  {
    CountAboveLowest(aborted, events);
  }

  predicate Consistent(s: State) {
    && s.heartbeat == (s.active && s.activeRuns > 0)
    && (s.active ==> s.published != [])
    && (s.active ==>
          var last := s.published[|s.published| - 1];
          last.activeRuns == s.activeRuns && last.busy == (s.activeRuns > 0))
  }

  /**
   After any events the heartbeat is armed exactly while the lifecycle is active and a run is,
   and while the lifecycle is active the last published status is the current one.
   */
  lemma {:induction false} StatusIsCurrent(aborted: bool, events: seq<Event>)
    ensures Consistent(After(aborted, events))
  {
    if events != [] { StatusIsCurrent(aborted, events[..|events| - 1]); }
  }

  /** Once the lifecycle has ended nothing is published, whatever happens next. */
  lemma {:induction false} NothingAfterDeactivation(aborted: bool, events: seq<Event>, later: seq<Event>)
    requires !After(aborted, events).active
    ensures !After(aborted, events + later).active
    ensures After(aborted, events + later).published == After(aborted, events).published
  {
    if later == [] {
      assert events + later == events;
    } else {
      var front := later[..|later| - 1];
      assert (events + later)[..|events + later| - 1] == events + front;
      NothingAfterDeactivation(aborted, events, front);
      StatusIsCurrent(aborted, events + front);
    }
  }

  // The step tells the sink about the runs.
  predicate Tells(s: State, e: Event) {
    s.active && (e.RunStart? || e.RunEnd? || (e.HeartbeatTicks? && s.heartbeat && s.activeRuns > 0))
  }

  /**
   A start, an end and a tick of the armed heartbeat publish once each while the lifecycle is
   active: the count behind the step, whether it is busy, and the time. Nothing else publishes.
   */
  lemma StepPublishesIff(s: State, e: Event)
    ensures var s' := Next(s, e);
            s'.published
            == if Tells(s, e) then s.published + [Patch(s'.activeRuns, s'.activeRuns > 0, Some(e.now))] else s.published
    ensures Next(s, e).active == (s.active && !e.Deactivate?)
  {
    assert Tells(s, e) ==> !e.Deactivate?;
  }

  /** In every state that events lead to, a tick of the armed heartbeat publishes that runs are active. */
  lemma TickPublishes(aborted: bool, events: seq<Event>, now: int)
    ensures var s := After(aborted, events);
            s.heartbeat ==>
              && s.active && s.activeRuns > 0
              && Next(s, HeartbeatTicks(now)).published == s.published + [Patch(s.activeRuns, true, Some(now))]
              && Next(s, HeartbeatTicks(now)).heartbeat
  {
    StatusIsCurrent(aborted, events);
    StepPublishesIff(After(aborted, events), HeartbeatTicks(now));
  }

  // ---------------------------------------------------------------- the object

  class RunStateMachine {
    var activeRuns: nat
    var runActivityHeartbeat: bool
    var lifecycleActive: bool
    ghost var published: seq<Patch>
    ghost var aborted: bool
    ghost var history: seq<Event>

    ghost function View(): State
      reads this
    {
      State(lifecycleActive, activeRuns, runActivityHeartbeat, published)
    }

    // The object is where its history of events leads.
    ghost predicate Valid()
      reads this
    {
      View() == After(aborted, history)
    }

    constructor (aborted: bool)
      ensures Valid() && this.aborted == aborted && history == []
    {
      activeRuns, runActivityHeartbeat, lifecycleActive := 0, false, !aborted;
      published := if aborted then [] else [Patch(0, false, None)];
      this.aborted, history := aborted, [];
    }

    ghost method Record(e: Event)
      modifies this`history
      ensures history == old(history) + [e] && history[..|history| - 1] == old(history)
    {
      history := history + [e];
    }

    method PublishStatus(now: int)
      modifies this`published
      ensures View() == Publish(old(View()), now)
    {
      if !lifecycleActive {
        return;
      }
      published := published + [Patch(activeRuns, activeRuns > 0, Some(now))];
    }

    method OnRunStart(now: int)
      requires Valid()
      modifies this
      ensures Valid() && aborted == old(aborted) && history == old(history) + [RunStart(now)]
    {
      activeRuns := activeRuns + 1;
      PublishStatus(now);
      if !runActivityHeartbeat && activeRuns > 0 && lifecycleActive {
        runActivityHeartbeat := true;
      }
      Record(RunStart(now));
    }

    method OnRunEnd(now: int)
      requires Valid()
      modifies this
      ensures Valid() && aborted == old(aborted) && history == old(history) + [RunEnd(now)]
    {
      activeRuns := if activeRuns - 1 > 0 then activeRuns - 1 else 0;
      if activeRuns <= 0 {
        runActivityHeartbeat := false;
      }
      PublishStatus(now);
      Record(RunEnd(now));
    }

    method OnHeartbeat(now: int)
      requires Valid()
      modifies this
      ensures Valid() && aborted == old(aborted) && history == old(history) + [HeartbeatTicks(now)]
    {
      if runActivityHeartbeat {
        if !lifecycleActive || activeRuns <= 0 {
          runActivityHeartbeat := false;
        } else {
          PublishStatus(now);
        }
      }
      Record(HeartbeatTicks(now));
    }

    method OnDeactivate()
      requires Valid()
      modifies this
      ensures Valid() && aborted == old(aborted) && history == old(history) + [Deactivate]
    {
      lifecycleActive := false;
      runActivityHeartbeat := false;
      Record(Deactivate);
    }
  }
}
