module StatusReactionTheorems {
  import opened Optional
  import opened StatusReactionProtocol

  lemma {:induction false} RunsAppend(c: Config, s: State, events: seq<Event>, s': State, e: Event)
    requires Runs(c, s, events, s') && Enabled(s', e)
    ensures Runs(c, s, events + [e], Next(c, s', e))
    decreases |events|
  {
    hide Next;
    if events == [] {
      assert ([] + [e])[1..] == [] && Runs(c, Next(c, s, e), [], Next(c, s, e));
    } else {
      assert (events + [e])[1..] == events[1..] + [e];
      RunsAppend(c, Next(c, s, events[0]), events[1..], s', e);
    }
  }

  // ---------------------------------------------------------------- known emojis

  lemma {:induction false} DistinctKeepsAll(emojis: seq<Emoji>)
    ensures forall e :: e in Distinct(emojis) <==> e in emojis
  {
    if emojis != [] {
      DistinctKeepsAll(emojis[..|emojis| - 1]);
      assert emojis == emojis[..|emojis| - 1] + [emojis[|emojis| - 1]];
    }
  }

  function KnownSet(c: Config): set<Emoji> {
    set e | e in KnownList(c)
  }

  lemma EventEmojisAreKnown(c: Config)
    ensures forall i :: 0 <= i < |AllEmojis(c)| ==> AllEmojis(c)[i] in KnownSet(c)
  {
    DistinctKeepsAll(AllEmojis(c));
  }

  ghost predicate QueueKnown(known: set<Emoji>, queue: seq<Task>) {
    forall i :: 0 <= i < |queue| && queue[i].Apply? ==> queue[i].emoji in known
  }

  // Only known emojis are scheduled, queued, being set, or on the message.
  ghost predicate OnlyKnown(known: set<Emoji>, s: State) {
    && s.present <= known
    && QueueKnown(known, s.queue)
    && (s.debounce.Some? ==> s.debounce.value in known)
    && (s.worker.Setting? || s.worker.Removing? ==> s.worker.emoji in known)
  }

  lemma ScheduleStaysKnown(c: Config, known: set<Emoji>, s: State, e: Emoji, immediate: bool, skipStallReset: bool)
    requires OnlyKnown(known, s) && e in known
    ensures OnlyKnown(known, ScheduleEmoji(c, s, e, immediate, skipStallReset))
  {
  }

  lemma StartStaysKnown(c: Config, known: set<Emoji>, s: State)
    requires OnlyKnown(known, s) && Enabled(s, TaskStarts)
    ensures OnlyKnown(known, StartTask(c, s))
  {
    hide KnownList;
    assert QueueKnown(known, s.queue[1..]);
  }

  lemma SettleStaysKnown(c: Config, known: set<Emoji>, s: State, succeeded: bool, applied: bool)
    requires OnlyKnown(known, s) && s.worker != Idle
    ensures OnlyKnown(known, SettleCall(c, s, succeeded, applied))
  {
    hide KnownList, QueueKnown;
  }

  lemma NextStaysKnown(c: Config, s: State, e: Event)
    requires OnlyKnown(KnownSet(c), s) && Enabled(s, e)
    ensures OnlyKnown(KnownSet(c), Next(c, s, e))
  {
    var known, all := KnownSet(c), AllEmojis(c);
    EventEmojisAreKnown(c);
    match e
    case SetQueued => ScheduleStaysKnown(c, known, s, all[1], true, false);
    case SetThinking => ScheduleStaysKnown(c, known, s, all[2], false, false);
    case SetTool(name) =>
      assert all[3] in known && all[4] in known && all[5] in known;
      ScheduleStaysKnown(c, known, s, ResolveToolEmoji(name, c.emojis), false, false);
    case SetCompacting => ScheduleStaysKnown(c, known, s, all[10], false, false);
    case SetDone => assert all[6] in known;
    case SetError => assert all[7] in known;
    case RestoreInitial => assert all[0] in known;
    case StallSoftFires => ScheduleStaysKnown(c, known, s.(stallSoft := false), all[8], true, true);
    case StallHardFires => ScheduleStaysKnown(c, known, s.(stallHard := false), all[9], true, true);
    case TaskStarts => StartStaysKnown(c, known, s);
    case CallSettles(succeeded, applied) => SettleStaysKnown(c, known, s, succeeded, applied);
    case _ =>
  }

  lemma {:induction false} RunStaysKnown(c: Config, s: State, events: seq<Event>, s': State)
    requires OnlyKnown(KnownSet(c), s) && Runs(c, s, events, s')
    ensures OnlyKnown(KnownSet(c), s')
    decreases |events|
  {
    if events != [] {
      NextStaysKnown(c, s, events[0]);
      RunStaysKnown(c, Next(c, s, events[0]), events[1..], s');
    }
  }

  /** Whatever calls fail, every reaction on the message is one that `clear` tries to remove. */
  lemma PresentReactionsAreKnown(c: Config, events: seq<Event>, s: State, e: Emoji)
    requires Runs(c, INIT, events, s) && e in s.present
    ensures e in KnownList(c)
  {
    RunStaysKnown(c, INIT, events, s);
  }

  // ---------------------------------------------------------------- clearing

  // The events of a run while one clear is at work, its removals all succeeding.
  predicate SweepEvent(e: Event) {
    match e
    case TaskStarts => false
    case CallSettles(succeeded, _) => succeeded
    case _ => true
  }

  // The first `next` known emojis are gone, and more are left to remove.
  ghost predicate Removed(c: Config, present: set<Emoji>, next: nat) {
    next < |KnownList(c)| && forall i :: 0 <= i < next ==> KnownList(c)[i] !in present
  }

  lemma KnownIsListed(c: Config, e: Emoji) returns (i: nat)
    requires e in KnownSet(c)
    ensures i < |KnownList(c)| && KnownList(c)[i] == e
  {
    i :| 0 <= i < |KnownList(c)| && KnownList(c)[i] == e;
  }

  // When the last known emoji is removed, nothing is left.
  lemma RemovedLeavesNothing(c: Config, present: set<Emoji>, next: nat)
    requires present <= KnownSet(c) && Removed(c, present, next) && next + 1 == |KnownList(c)|
    ensures present - {KnownList(c)[next]} == {}
  {
    hide KnownList;
    forall e | e in KnownSet(c) ensures e !in present - {KnownList(c)[next]} {
      var i := KnownIsListed(c, e);
    }
  }

  ghost predicate Swept(c: Config, s: State) {
    match s.worker
    case Clearing(next) => Removed(c, s.present, next)
    case Idle => s.present == {} && s.current == NO_EMOJI
    case _ => false
  }

  lemma NextStaysSwept(c: Config, s: State, e: Event)
    requires OnlyKnown(KnownSet(c), s) && Swept(c, s) && Enabled(s, e) && SweepEvent(e)
    ensures Swept(c, Next(c, s, e))
  {
    hide KnownList, ResolveToolEmoji;
    if e.CallSettles? && s.worker.Clearing? && s.worker.next + 1 == |KnownList(c)| {
      RemovedLeavesNothing(c, s.present, s.worker.next);
    }
  }

  /** A `clear` whose removals all succeed leaves no reaction, whatever failed before it. */
  lemma {:induction false} ClearLeavesNothing(c: Config, past: seq<Event>, s: State, events: seq<Event>, s': State)
    requires Runs(c, INIT, past, s) && s.worker == Clearing(0)
    requires Runs(c, s, events, s') && (forall e <- events :: SweepEvent(e)) && s'.worker == Idle
    ensures s'.present == {} && s'.current == NO_EMOJI
  {
    EventEmojisAreKnown(c);
    assert AllEmojis(c)[0] in KnownSet(c);
    RunStaysKnown(c, INIT, past, s);
    RunStaysSwept(c, s, events, s');
  }

  lemma {:induction false} RunStaysSwept(c: Config, s: State, events: seq<Event>, s': State)
    requires OnlyKnown(KnownSet(c), s) && Swept(c, s) && Runs(c, s, events, s') && forall e <- events :: SweepEvent(e)
    ensures Swept(c, s')
    decreases |events|
  {
    if events != [] {
      NextStaysKnown(c, s, events[0]);
      NextStaysSwept(c, s, events[0]);
      RunStaysSwept(c, Next(c, s, events[0]), events[1..], s');
    }
  }

  // ---------------------------------------------------------------- runs without failures

  predicate NoFailure(e: Event) {
    e.CallSettles? ==> e.succeeded
  }

  ghost predicate InSync(c: Config, s: State) {
    match s.worker
    case Idle => s.present == Just(s.current)
    case Setting(e, previous) => s.present == Just(s.current) && previous == s.current
    case Removing(e, previous) =>
      s.present == Just(e) + Just(previous) && previous == s.current && previous != NO_EMOJI && previous != e
    case Clearing(next) =>
      s.present <= Just(s.current) && Removed(c, s.present, next)
  }

  lemma SettleStaysInSync(c: Config, s: State)
    requires c.canRemove && s.present <= KnownSet(c) && InSync(c, s) && s.worker != Idle
    ensures InSync(c, SettleCall(c, s, true, true))
  {
    hide KnownList;
    if s.worker.Clearing? && s.worker.next + 1 == |KnownList(c)| {
      RemovedLeavesNothing(c, s.present, s.worker.next);
    }
  }

  lemma NextStaysInSync(c: Config, s: State, e: Event)
    requires c.canRemove && OnlyKnown(KnownSet(c), s) && InSync(c, s) && Enabled(s, e) && NoFailure(e)
    ensures InSync(c, Next(c, s, e))
  {
    hide KnownList, ResolveToolEmoji, SettleCall, OnlyKnown;
    SomethingIsKnown(c);
    if e.CallSettles? {
      assert s.present <= KnownSet(c) by { OnlyKnownIsPresent(c, s); }
      SettleStaysInSync(c, s);
    }
  }

  lemma SomethingIsKnown(c: Config)
    ensures KnownList(c) != []
  {
    DistinctKeepsAll(AllEmojis(c));
    assert AllEmojis(c)[0] in KnownList(c);
  }

  lemma OnlyKnownIsPresent(c: Config, s: State)
    requires OnlyKnown(KnownSet(c), s)
    ensures s.present <= KnownSet(c)
  {
  }

  /**
   With an adapter that can remove reactions and no failing call, the message shows exactly
   the current emoji, or nothing, whenever no task is running.
   */
  lemma {:induction false} ShowsTheCurrentEmoji(c: Config, events: seq<Event>, s: State)
    requires c.canRemove && Runs(c, INIT, events, s) && (forall e <- events :: NoFailure(e)) && s.worker == Idle
    ensures s.present == if s.current == NO_EMOJI then {} else {s.current}
  {
    RunStaysInSync(c, INIT, events, s);
  }

  lemma {:induction false} RunStaysInSync(c: Config, s: State, events: seq<Event>, s': State)
    requires c.canRemove && OnlyKnown(KnownSet(c), s) && InSync(c, s)
    requires Runs(c, s, events, s') && forall e <- events :: NoFailure(e)
    ensures InSync(c, s')
    decreases |events|
  {
    if events != [] {
      NextStaysKnown(c, s, events[0]);
      NextStaysInSync(c, s, events[0]);
      RunStaysInSync(c, Next(c, s, events[0]), events[1..], s');
    }
  }

  // ---------------------------------------------------------------- adapters that replace reactions

  function LastSet(calls: seq<Call>): Option<Emoji> {
    if calls == [] then None
    else if calls[|calls| - 1].SetReaction? then Some(calls[|calls| - 1].emoji)
    else LastSet(calls[..|calls| - 1])
  }

  lemma LastSetAppend(calls: seq<Call>, call: Call)
    ensures LastSet(calls + [call]) == if call.SetReaction? then Some(call.emoji) else LastSet(calls)
  {
    assert (calls + [call])[..|calls|] == calls;
  }

  // The emoji set last, if any.
  function Latest(calls: seq<Call>): Emoji {
    if LastSet(calls).Some? then LastSet(calls).value else NO_EMOJI
  }

  // Whether a `clear` is the last task that ran to its end, one step later.
  function ClearedBy(s: State, e: Event, was: bool): bool
    requires Enabled(s, e)
  {
    if e.TaskStarts? && s.queue[0].ClearAll? then true else if e.CallSettles? then false else was
  }

  // Whether a `clear` is the last task that ran to its end, told from the steps of a run.
  function Cleared(c: Config, s: State, events: seq<Event>, was: bool): bool
    requires RunnableFrom(c, s, events)
    decreases |events|
  {
    if events == [] then was
    else
      var e := events[0];
      var now := ClearedBy(s, e, was);
      Cleared(c, Next(c, s, e), events[1..], now)
  }

  predicate RunnableFrom(c: Config, s: State, events: seq<Event>)
    decreases |events|
  {
    events == [] || (Enabled(s, events[0]) && RunnableFrom(c, Next(c, s, events[0]), events[1..]))
  }

  lemma {:induction false} RunsAreRunnable(c: Config, s: State, events: seq<Event>, s': State)
    requires Runs(c, s, events, s')
    ensures RunnableFrom(c, s, events)
    decreases |events|
  {
    if events != [] { RunsAreRunnable(c, Next(c, s, events[0]), events[1..], s'); }
  }

  ghost predicate Replaces(s: State, cleared: bool) {
    match s.worker
    case Idle => s.present == Just(Latest(s.calls)) && s.current == if cleared then NO_EMOJI else Latest(s.calls)
    case Setting(e, _) => Latest(s.calls) == e
    case _ => false
  }

  lemma StartReplaces(c: Config, s: State, was: bool)
    requires !c.canRemove && Enabled(s, TaskStarts) && Replaces(s, was)
    ensures Replaces(StartTask(c, s), ClearedBy(s, TaskStarts, was))
  {
    hide KnownList, LastSet;
    if s.queue[0].Apply? { LastSetAppend(s.calls, SetReaction(s.queue[0].emoji)); }
  }

  lemma SettleReplaces(c: Config, s: State, was: bool)
    requires !c.canRemove && s.worker != Idle && Replaces(s, was)
    ensures Replaces(SettleCall(c, s, true, true), false)
  {
    hide KnownList, LastSet;
  }

  lemma NextReplaces(c: Config, s: State, e: Event, was: bool)
    requires !c.canRemove && Enabled(s, e) && NoFailure(e) && Replaces(s, was)
    ensures Replaces(Next(c, s, e), ClearedBy(s, e, was))
  {
    hide KnownList, ResolveToolEmoji, StartTask, SettleCall, LastSet;
    match e
    case TaskStarts => StartReplaces(c, s, was);
    case CallSettles(_, _) => SettleReplaces(c, s, was);
    case _ =>
  }

  lemma {:induction false} RunReplaces(c: Config, s: State, events: seq<Event>, s': State, was: bool)
    requires !c.canRemove && Runs(c, s, events, s') && RunnableFrom(c, s, events)
    requires (forall e <- events :: NoFailure(e)) && Replaces(s, was)
    ensures Replaces(s', Cleared(c, s, events, was))
    decreases |events|
  {
    if events != [] {
      var e := events[0];
      NextReplaces(c, s, e, was);
      var now := ClearedBy(s, e, was);
      hide Replaces, Next;
      RunReplaces(c, Next(c, s, e), events[1..], s', now);
    }
  }

  /**
   With an adapter that cannot remove reactions and no failing call, the message shows exactly
   the emoji set last, or nothing, whenever no task is running. That is the current emoji except
   exactly where a `clear` was the last task to end and an emoji is still shown.
   */
  lemma ShowsTheLatestEmoji(c: Config, events: seq<Event>, s: State)
    requires !c.canRemove && Runs(c, INIT, events, s) && (forall e <- events :: NoFailure(e)) && s.worker == Idle
    ensures RunnableFrom(c, INIT, events)
    ensures s.present == Just(Latest(s.calls))
    ensures s.present == Just(s.current) <==> !Cleared(c, INIT, events, false) || Latest(s.calls) == NO_EMOJI
  {
    RunsAreRunnable(c, INIT, events, s);
    RunReplaces(c, INIT, events, s, false);
  }

  /** A `clear` behind a `setDone` leaves the done emoji on the message of such an adapter. */
  lemma ClearCanLeaveTheEmoji(c: Config)
    requires c.enabled && !c.canRemove && c.emojis.done != NO_EMOJI
    ensures exists s :: Runs(c, INIT, [SetDone, TaskStarts, CallSettles(true, true), Clear, TaskStarts], s)
                        && s.worker == Idle && s.queue == [] && s.current == NO_EMOJI && s.present == {c.emojis.done}
  {
    hide StartTask, SettleCall, FinishWith, KnownList, ResolveToolEmoji;
    var done := c.emojis.done;
    var s1 := INIT.(finished := true, queue := [Apply(done)]);
    var s2 := s1.(queue := [], worker := Setting(done, NO_EMOJI), calls := [SetReaction(done)]);
    var s3 := s2.(worker := Idle, current := done, present := {done});
    var s4 := s3.(queue := [ClearAll]);
    var s5 := s3.(current := NO_EMOJI);
    DoneIsShown(c, s1, s2, s3);
    ShownStays(c, s3, s4, s5);
    FiveSteps(c, INIT, SetDone, s1, TaskStarts, s2, CallSettles(true, true), s3, Clear, s4, TaskStarts, s5);
  }

  lemma DoneIsShown(c: Config, s1: State, s2: State, s3: State)
    requires c.enabled && !c.canRemove && c.emojis.done != NO_EMOJI
    requires s1 == INIT.(finished := true, queue := [Apply(c.emojis.done)])
    requires s2 == s1.(queue := [], worker := Setting(c.emojis.done, NO_EMOJI), calls := [SetReaction(c.emojis.done)])
    requires s3 == s2.(worker := Idle, current := c.emojis.done, present := {c.emojis.done})
    ensures FinishWith(c, INIT, c.emojis.done) == s1
    ensures StartTask(c, s1) == s2
    ensures SettleCall(c, s2, true, true) == s3
  {
    hide KnownList, ResolveToolEmoji;
  }

  lemma ShownStays(c: Config, s: State, cleared: State, after: State)
    requires c.enabled && !c.canRemove && s.worker == Idle && s.queue == []
    requires s.debounce == None && !s.stallSoft && !s.stallHard && s.finished && s.pending == NO_EMOJI
    requires cleared == s.(queue := [ClearAll]) && after == s.(current := NO_EMOJI)
    ensures Next(c, s, Clear) == cleared
    ensures StartTask(c, cleared) == after
  {
    hide KnownList, ResolveToolEmoji;
  }

  lemma FiveSteps(c: Config, s0: State, e0: Event, s1: State, e1: Event, s2: State, e2: Event, s3: State, e3: Event,
      s4: State, e4: Event, s5: State)
    requires Enabled(s0, e0) && s1 == Next(c, s0, e0) && Enabled(s1, e1) && s2 == Next(c, s1, e1)
    requires Enabled(s2, e2) && s3 == Next(c, s2, e2) && Enabled(s3, e3) && s4 == Next(c, s3, e3)
    requires Enabled(s4, e4) && s5 == Next(c, s4, e4)
    ensures Runs(c, s0, [e0, e1, e2, e3, e4], s5)
  {
    hide Next, Enabled;
    assert Runs(c, s5, [], s5);
    assert [e4][1..] == [] && Runs(c, s4, [e4], s5);
    assert [e3, e4][1..] == [e4] && Runs(c, s3, [e3, e4], s5);
    assert [e2, e3, e4][1..] == [e3, e4] && Runs(c, s2, [e2, e3, e4], s5);
    assert [e1, e2, e3, e4][1..] == [e2, e3, e4] && Runs(c, s1, [e1, e2, e3, e4], s5);
    assert [e0, e1, e2, e3, e4][1..] == [e1, e2, e3, e4];
  }

  // ---------------------------------------------------------------- terminal emojis

  // No call that ends, cancels or overrides the terminal state.
  predicate Undisturbed(e: Event) {
    !e.SetDone? && !e.SetError? && !e.Clear? && !e.RestoreInitial?
  }

  // A step of the promise chain.
  predicate ChainStep(e: Event) {
    e.TaskStarts? || e.CallSettles?
  }

  ghost predicate EndsWith(s: State, e: Emoji) {
    && s.finished && s.debounce == None && !s.stallSoft && !s.stallHard
    && if s.queue == [] then LastSet(s.calls) == Some(e) else s.queue[|s.queue| - 1] == Apply(e)
  }

  function WorkOf(c: Config, queue: seq<Task>): nat {
    if queue == [] then 0
    else (if queue[0].Apply? then 3 else 1 + |KnownList(c)|) + WorkOf(c, queue[1..])
  }

  function WorkLeft(c: Config, s: State): nat {
    WorkOf(c, s.queue) + match s.worker
      case Idle => 0
      case Setting(_, _) => 2
      case Removing(_, _) => 1
      case Clearing(next) => if next < |KnownList(c)| then |KnownList(c)| - next else 1
  }

  lemma StartStaysTerminal(c: Config, s: State, emoji: Emoji)
    requires c.enabled && EndsWith(s, emoji) && Enabled(s, TaskStarts)
    ensures EndsWith(StartTask(c, s), emoji)
  {
    hide KnownList, LastSet;
    if s.queue[0].Apply? {
      LastSetAppend(s.calls, SetReaction(s.queue[0].emoji));
    } else if c.canRemove && 0 < |KnownList(c)| {
      LastSetAppend(s.calls, RemoveReaction(KnownList(c)[0]));
    }
  }

  lemma SettleStaysTerminal(c: Config, s: State, emoji: Emoji, succeeded: bool, applied: bool)
    requires EndsWith(s, emoji) && s.worker != Idle
    ensures EndsWith(SettleCall(c, s, succeeded, applied), emoji)
  {
    hide KnownList, LastSet, Shown;
    match s.worker
    case Setting(e, previous) => LastSetAppend(s.calls, RemoveReaction(previous));
    case Clearing(next) =>
      if next + 1 < |KnownList(c)| { LastSetAppend(s.calls, RemoveReaction(KnownList(c)[next + 1])); }
    case _ =>
  }

  lemma NextStaysTerminal(c: Config, s: State, emoji: Emoji, e: Event)
    requires c.enabled && EndsWith(s, emoji) && Enabled(s, e) && Undisturbed(e)
    ensures EndsWith(Next(c, s, e), emoji)
  {
    hide KnownList, ResolveToolEmoji, StartTask, SettleCall, LastSet;
    match e
    case TaskStarts => StartStaysTerminal(c, s, emoji);
    case CallSettles(succeeded, applied) => SettleStaysTerminal(c, s, emoji, succeeded, applied);
    case _ =>
  }

  lemma ChainStepsCost(c: Config, s: State, e: Event)
    requires c.enabled && s.finished && s.debounce == None && Enabled(s, e) && Undisturbed(e)
    ensures WorkLeft(c, Next(c, s, e)) + (if ChainStep(e) then 1 else 0) <= WorkLeft(c, s)
  {
    hide KnownList, ResolveToolEmoji, Shown;
  }

  function ChainSteps(events: seq<Event>): nat {
    if events == [] then 0 else (if ChainStep(events[0]) then 1 else 0) + ChainSteps(events[1..])
  }

  /**
   After `setDone` or `setError`, as long as no call of the same rank follows, the chain takes
   a bounded number of steps, no timer is armed and no phase call adds to it; and when it has
   no step left, it is empty and the terminal emoji is the last one ever set.
   */
  lemma TerminalEmojiIsLast(c: Config, s: State, terminal: Event, events: seq<Event>, s': State)
    requires c.enabled && (terminal == SetDone || terminal == SetError)
    requires Runs(c, Next(c, s, terminal), events, s') && forall e <- events :: Undisturbed(e)
    ensures s'.debounce == None && !s'.stallSoft && !s'.stallHard
    ensures ChainSteps(events) <= WorkLeft(c, Next(c, s, terminal))
    ensures !Enabled(s', TaskStarts) && !Enabled(s', CallSettles(true, true)) ==>
              s'.queue == [] && LastSet(s'.calls) == Some(if terminal == SetDone then c.emojis.done else c.emojis.error)
  {
    var emoji := if terminal == SetDone then c.emojis.done else c.emojis.error;
    RunStaysTerminal(c, Next(c, s, terminal), emoji, events, s');
  }

  lemma {:induction false} RunStaysTerminal(c: Config, s: State, emoji: Emoji, events: seq<Event>, s': State)
    requires c.enabled && EndsWith(s, emoji) && Runs(c, s, events, s') && forall e <- events :: Undisturbed(e)
    ensures EndsWith(s', emoji) && ChainSteps(events) + WorkLeft(c, s') <= WorkLeft(c, s)
    decreases |events|
  {
    if events != [] {
      NextStaysTerminal(c, s, emoji, events[0]);
      ChainStepsCost(c, s, events[0]);
      RunStaysTerminal(c, Next(c, s, events[0]), emoji, events[1..], s');
    }
  }
}
