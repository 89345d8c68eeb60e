/**
 What each call on a status reaction controller does by itself, and that a phase which takes
 effect ends up on the message.
 */
module StatusReactionPhases {
  import opened Optional
  import opened StatusReactionProtocol
  import opened StatusReactionTheorems

  // ---------------------------------------------------------------- which emoji

  // The text holds the token at some place.
  ghost predicate Holds(text: string, token: string) {
    exists i :: 0 <= i <= |text| && token <= text[i..]
  }

  lemma {:induction false} IncludesIffHolds(text: string, token: string)
    ensures Includes(text, token) <==> Holds(text, token)
  {
    assert text[0..] == text;
    if token <= text {
      assert Holds(text, token);
    } else if text != "" {
      IncludesIffHolds(text[1..], token);
      if i :| 0 <= i <= |text[1..]| && token <= text[1..][i..] {
        assert text[i + 1..] == text[1..][i..];
      }
      if i :| 0 <= i <= |text| && token <= text[i..] {
        assert i > 0 && text[1..][i - 1..] == text[i..];
      }
    }
  }

  ghost predicate NamesWebTool(name: string) {
    || Holds(name, "web_search") || Holds(name, "web-search") || Holds(name, "web_fetch")
    || Holds(name, "web-fetch") || Holds(name, "browser")
  }

  ghost predicate NamesCodingTool(name: string) {
    || Holds(name, "exec") || Holds(name, "process") || Holds(name, "read") || Holds(name, "write")
    || Holds(name, "edit") || Holds(name, "session_status") || Holds(name, "bash")
  }

  lemma EmptyNameHoldsNothing(token: string)
    requires token != ""
    ensures !Holds("", token)
  {
  }

  lemma WebTokens(name: string)
    ensures (exists token | token in WEB_TOOL_TOKENS :: Includes(name, token)) <==> NamesWebTool(name)
  {
    hide Includes, Holds;
    forall token ensures Includes(name, token) <==> Holds(name, token) { IncludesIffHolds(name, token); }
    var t := WEB_TOOL_TOKENS;
    assert t[0] in t && t[1] in t && t[2] in t && t[3] in t && t[4] in t;
  }

  lemma CodingTokens(name: string)
    ensures (exists token | token in CODING_TOOL_TOKENS :: Includes(name, token)) <==> NamesCodingTool(name)
  {
    hide Includes, Holds;
    forall token ensures Includes(name, token) <==> Holds(name, token) { IncludesIffHolds(name, token); }
    var t := CODING_TOOL_TOKENS;
    assert t[0] in t && t[1] in t && t[2] in t && t[3] in t && t[4] in t && t[5] in t && t[6] in t;
  }

  /** A tool whose name holds a web token gets the web emoji, else one that holds a coding token the coding one. */
  lemma ToolEmojiIsTheFirstMatch(name: string, emojis: Emojis)
    ensures ResolveToolEmoji(name, emojis) ==
      if NamesWebTool(name) then emojis.web else if NamesCodingTool(name) then emojis.coding else emojis.tool
  {
    hide Includes;
    WebTokens(name);
    CodingTokens(name);
    hide Holds;
    if name == "" {
      EmptyNameHoldsNothing("web_search");
      EmptyNameHoldsNothing("web-search");
      EmptyNameHoldsNothing("web_fetch");
      EmptyNameHoldsNothing("web-fetch");
      EmptyNameHoldsNothing("browser");
      EmptyNameHoldsNothing("exec");
      EmptyNameHoldsNothing("process");
      EmptyNameHoldsNothing("read");
      EmptyNameHoldsNothing("write");
      EmptyNameHoldsNothing("edit");
      EmptyNameHoldsNothing("session_status");
      EmptyNameHoldsNothing("bash");
    }
  }

  ghost predicate Configured(c: Config, e: Emoji) {
    || e == c.initial || e == c.emojis.queued || e == c.emojis.thinking || e == c.emojis.tool || e == c.emojis.coding
    || e == c.emojis.web || e == c.emojis.done || e == c.emojis.error || e == c.emojis.stallSoft
    || e == c.emojis.stallHard || e == c.emojis.compacting
  }

  lemma {:induction false} DistinctHasNoDuplicates(emojis: seq<Emoji>, i: nat, j: nat)
    requires i < j < |Distinct(emojis)|
    ensures Distinct(emojis)[i] != Distinct(emojis)[j]
  {
    var front, last := emojis[..|emojis| - 1], emojis[|emojis| - 1];
    if j < |Distinct(front)| { DistinctHasNoDuplicates(front, i, j); }
  }

  /** The emojis that `clear` removes are the configured ones, each once. */
  lemma KnownIsConfigured(c: Config, e: Emoji, i: nat, j: nat)
    ensures e in KnownList(c) <==> Configured(c, e)
    ensures i < j < |KnownList(c)| ==> KnownList(c)[i] != KnownList(c)[j]
  {
    hide Distinct;
    DistinctKeepsAll(AllEmojis(c));
    if i < j < |KnownList(c)| { DistinctHasNoDuplicates(AllEmojis(c), i, j); }
    var all := AllEmojis(c);
    assert all[0] in all && all[1] in all && all[2] in all && all[3] in all && all[4] in all && all[5] in all;
    assert all[6] in all && all[7] in all && all[8] in all && all[9] in all && all[10] in all;
  }

  // ---------------------------------------------------------------- the phase calls

  // The emoji asked for is wanted: the controller is live, and neither shows nor awaits it.
  predicate Wanted(c: Config, s: State, e: Emoji) {
    c.enabled && !s.finished && e != s.current && e != s.pending
  }

  ghost predicate Queues(s: State, s': State, e: Emoji) {
    s'.queue == s.queue + [Apply(e)] && s'.debounce == None && s'.pending == e
  }

  ghost predicate Debounces(s: State, s': State, e: Emoji) {
    s'.queue == s.queue && s'.debounce == Some(e) && s'.pending == e
  }

  ghost predicate SchedulesNothing(s: State, s': State) {
    s'.queue == s.queue && s'.debounce == s.debounce && s'.pending == s.pending
  }

  // What no phase call touches.
  ghost predicate KeepsTheRest(s: State, s': State) {
    && s'.current == s.current && s'.finished == s.finished && s'.worker == s.worker
    && s'.present == s.present && s'.calls == s.calls
  }

  // The stall timers are both armed by a call on a live controller, and else as they were.
  ghost predicate RestartsStall(c: Config, s: State, s': State) {
    && s'.stallSoft == (s.stallSoft || (c.enabled && !s.finished))
    && s'.stallHard == (s.stallHard || (c.enabled && !s.finished))
  }

  /**
   A phase call queues its own emoji, or arms the debounce with it and drops the older one,
   exactly if that emoji is wanted; and it restarts the stall timers of a live controller.
   */
  lemma PhaseTakesEffectIff(c: Config, s: State, e: Event)
    requires e.SetQueued? || e.SetThinking? || e.SetTool? || e.SetCompacting?
    ensures var s' := Next(c, s, e);
            && KeepsTheRest(s, s') && RestartsStall(c, s, s')
            && (e.SetQueued? ==>
                  if Wanted(c, s, c.emojis.queued) then Queues(s, s', c.emojis.queued) else SchedulesNothing(s, s'))
            && (e.SetThinking? ==>
                  if Wanted(c, s, c.emojis.thinking) then Debounces(s, s', c.emojis.thinking)
                  else SchedulesNothing(s, s'))
            && (e.SetCompacting? ==>
                  if Wanted(c, s, c.emojis.compacting) then Debounces(s, s', c.emojis.compacting)
                  else SchedulesNothing(s, s'))
            && (e.SetTool? ==>
                  var tool := ResolveToolEmoji(e.normalizedName, c.emojis);
                  if Wanted(c, s, tool) then Debounces(s, s', tool) else SchedulesNothing(s, s'))
  {
    hide ResolveToolEmoji;
  }

  /** A stall timer that fires queues its emoji exactly if it is wanted, and rearms neither timer. */
  lemma StallTakesEffectIff(c: Config, s: State)
    ensures s.stallSoft ==>
              var s' := Next(c, s, StallSoftFires);
              && KeepsTheRest(s, s') && !s'.stallSoft && s'.stallHard == s.stallHard
              && if Wanted(c, s, c.emojis.stallSoft) then Queues(s, s', c.emojis.stallSoft) else SchedulesNothing(s, s')
    ensures s.stallHard ==>
              var s' := Next(c, s, StallHardFires);
              && KeepsTheRest(s, s') && !s'.stallHard && s'.stallSoft == s.stallSoft
              && if Wanted(c, s, c.emojis.stallHard) then Queues(s, s', c.emojis.stallHard) else SchedulesNothing(s, s')
  {
  }

  /** The debounce timer queues the emoji it was armed with, and a cancel drops it unqueued. */
  lemma DebounceTakesEffect(c: Config, s: State)
    ensures s.debounce.Some? ==>
              var s' := Next(c, s, DebounceFires);
              && KeepsTheRest(s, s') && s'.queue == s.queue + [Apply(s.debounce.value)] && s'.debounce == None
              && s'.pending == s.pending && s'.stallSoft == s.stallSoft && s'.stallHard == s.stallHard
    ensures var s' := Next(c, s, CancelPending);
            && KeepsTheRest(s, s') && s'.queue == s.queue && s'.debounce == None && s'.pending == NO_EMOJI
            && s'.stallSoft == s.stallSoft && s'.stallHard == s.stallHard
  {
  }

  // The timers are off and the task stands at the end of the chain.
  ghost predicate ClearsTimersAndQueues(s: State, s': State, task: Task, finished: bool) {
    && s'.queue == s.queue + [task] && s'.finished == finished
    && s'.debounce == None && !s'.stallSoft && !s'.stallHard
    && s' == s.(queue := s'.queue, finished := finished, debounce := None, stallSoft := false, stallHard := false)
  }

  /**
   The terminal calls of an enabled controller end it, `restoreInitial` does not; each turns all
   timers off and queues its own task. None does anything to a disabled controller.
   */
  lemma TerminalTakesEffect(c: Config, s: State)
    ensures c.enabled ==>
      && ClearsTimersAndQueues(s, Next(c, s, SetDone), Apply(c.emojis.done), true)
      && ClearsTimersAndQueues(s, Next(c, s, SetError), Apply(c.emojis.error), true)
      && ClearsTimersAndQueues(s, Next(c, s, Clear), ClearAll, true)
      && ClearsTimersAndQueues(s, Next(c, s, RestoreInitial), Apply(c.initial), s.finished)
    ensures !c.enabled ==>
      && Next(c, s, SetDone) == s && Next(c, s, SetError) == s
      && Next(c, s, Clear) == s && Next(c, s, RestoreInitial) == s
  {
  }

  // ---------------------------------------------------------------- the chain

  // The task has ended: the chain is free and no emoji is awaited.
  ghost predicate Ends(s: State, s': State, current: Emoji) {
    s'.worker == Idle && s'.pending == NO_EMOJI && s'.current == current && s'.calls == s.calls
  }

  ghost predicate CallsFor(s: State, s': State, call: Call) {
    s'.calls == s.calls + [call] && s'.worker != Idle && s'.current == s.current && s'.pending == s.pending
  }

  /** A task takes its place off the chain and makes its first adapter call, or ends without one. */
  lemma TaskTakesEffect(c: Config, s: State)
    requires s.worker == Idle && s.queue != []
    ensures var s' := Next(c, s, TaskStarts);
            && s'.queue == s.queue[1..] && s'.present == s.present
            && match s.queue[0]
               case Apply(e) => if c.enabled then CallsFor(s, s', SetReaction(e)) else Ends(s, s', s.current)
               case ClearAll =>
                 if c.canRemove then CallsFor(s, s', RemoveReaction(KnownList(c)[0])) else Ends(s, s', NO_EMOJI)
  {
    SomethingIsKnown(c);
    hide KnownList;
  }

  /**
   Behind a set that succeeded the previous emoji is removed if there is another one and the
   adapter can; a call of an apply that fails ends it with the current emoji as it was.
   */
  lemma SettlingTakesEffect(c: Config, s: State, succeeded: bool, applied: bool)
    requires s.worker.Setting? || s.worker.Removing?
    requires succeeded ==> applied
    ensures var s' := Next(c, s, CallSettles(succeeded, applied));
            && s'.queue == s.queue
            && (!succeeded ==> Ends(s, s', s.current))
            && (succeeded && s.worker.Setting? ==>
                  var e, previous := s.worker.emoji, s.worker.previous;
                  if c.canRemove && previous != NO_EMOJI && previous != e then CallsFor(s, s', RemoveReaction(previous))
                  else Ends(s, s', e))
            && (succeeded && s.worker.Removing? ==> Ends(s, s', s.worker.emoji))
  {
    hide KnownList;
  }

  /** A removal of `clear` goes on to the next known emoji whether it succeeds or not, and ends behind the last. */
  lemma ClearingTakesEffect(c: Config, s: State, succeeded: bool, applied: bool)
    requires s.worker.Clearing? && s.worker.next < |KnownList(c)| && (succeeded ==> applied)
    ensures var s', next := Next(c, s, CallSettles(succeeded, applied)), s.worker.next + 1;
            && s'.queue == s.queue
            && if next < |KnownList(c)| then
                 CallsFor(s, s', RemoveReaction(KnownList(c)[next])) && s'.worker == Clearing(next)
               else Ends(s, s', NO_EMOJI)
  {
    hide KnownList;
  }

  // ---------------------------------------------------------------- from a call to the message

  // What the runtime does for a queued emoji when every call succeeds.
  function Chain(c: Config, s: State, e: Emoji): seq<Event> {
    [TaskStarts, CallSettles(true, true)]
    + (if c.canRemove && s.current != NO_EMOJI && s.current != e then [CallSettles(true, true)] else [])
  }

  // The emoji is the current one and the one set last, and nothing is left to do for it.
  ghost predicate Shows(s: State, e: Emoji) {
    s.current == e && LastSet(s.calls) == Some(e) && s.pending == NO_EMOJI && s.worker == Idle && s.queue == []
  }

  lemma QueuedIsShown(c: Config, s: State, e: Emoji) returns (s': State)
    requires c.enabled && s.worker == Idle && s.queue == [Apply(e)]
    ensures Runs(c, s, Chain(c, s, e), s') && Shows(s', e)
  {
    hide KnownList;
    var settle := CallSettles(true, true);
    var s1 := Next(c, s, TaskStarts);
    LastSetAppend(s.calls, SetReaction(e));
    var s2 := Next(c, s1, settle);
    if c.canRemove && s.current != NO_EMOJI && s.current != e {
      LastSetAppend(s1.calls, RemoveReaction(s.current));
      s' := Next(c, s2, settle);
      assert Runs(c, s', [], s') && Runs(c, s2, [settle] + [], s') by { RunsFrom(c, s2, settle, [], s'); }
      RunsFrom(c, s1, settle, [settle] + [], s');
      RunsFrom(c, s, TaskStarts, [settle] + ([settle] + []), s');
      assert Chain(c, s, e) == [TaskStarts] + ([settle] + ([settle] + []));
    } else {
      s' := s2;
      RunsFrom(c, s1, settle, [], s');
      RunsFrom(c, s, TaskStarts, [settle] + [], s');
      assert Chain(c, s, e) == [TaskStarts] + ([settle] + []);
    }
  }

  lemma RunsFrom(c: Config, s: State, e: Event, events: seq<Event>, s': State)
    requires Enabled(s, e) && Runs(c, Next(c, s, e), events, s')
    ensures Runs(c, s, [e] + events, s')
  {
    hide Next, Enabled;
    assert ([e] + events)[1..] == events;
  }

  /**
   From an idle controller, a phase that is wanted ends up as the current emoji and the one set
   last: `setQueued` and the stall timers by the steps of the chain alone, the others once their
   debounce has fired.
   */
  lemma WantedPhaseIsShown(c: Config, s: State, e: Event, emoji: Emoji) returns (events: seq<Event>, s': State)
    requires s.worker == Idle && s.queue == [] && Wanted(c, s, emoji) && Enabled(s, e)
    requires (e == SetQueued && emoji == c.emojis.queued) || (e == SetThinking && emoji == c.emojis.thinking)
          || (e == SetCompacting && emoji == c.emojis.compacting)
          || (e.SetTool? && emoji == ResolveToolEmoji(e.normalizedName, c.emojis))
          || (e == StallSoftFires && emoji == c.emojis.stallSoft)
          || (e == StallHardFires && emoji == c.emojis.stallHard)
    ensures events == [e] + (if e.SetQueued? || e.StallSoftFires? || e.StallHardFires? then [] else [DebounceFires])
                          + Chain(c, s, emoji)
    ensures Runs(c, s, events, s') && Shows(s', emoji)
  {
    hide ResolveToolEmoji, KnownList, Chain, Shows;
    if e.StallSoftFires? || e.StallHardFires? { StallTakesEffectIff(c, s); } else { PhaseTakesEffectIff(c, s, e); }
    var t := Next(c, s, e);
    assert t.worker == Idle && t.current == s.current;
    if e.SetQueued? || e.StallSoftFires? || e.StallHardFires? {
      assert t.queue == [Apply(emoji)];
      s' := QueuedIsShown(c, t, emoji);
      SameChain(c, s, t, emoji);
      RunsFrom(c, s, e, Chain(c, s, emoji), s');
      events := [e] + [] + Chain(c, s, emoji);
      assert events == [e] + Chain(c, s, emoji);
    } else {
      var u := Next(c, t, DebounceFires);
      assert u.queue == [Apply(emoji)] && u.worker == Idle && u.current == s.current;
      s' := QueuedIsShown(c, u, emoji);
      SameChain(c, s, u, emoji);
      RunsFrom(c, t, DebounceFires, Chain(c, s, emoji), s');
      RunsFrom(c, s, e, [DebounceFires] + Chain(c, s, emoji), s');
      events := [e] + [DebounceFires] + Chain(c, s, emoji);
      assert events == [e] + ([DebounceFires] + Chain(c, s, emoji));
    }
  }

  lemma SameChain(c: Config, s: State, t: State, e: Emoji)
    requires t.current == s.current
    ensures Chain(c, t, e) == Chain(c, s, e)
  {
  }

  /** A disabled controller never calls the adapter. */
  lemma {:induction false} DisabledIsSilent(c: Config, s: State, events: seq<Event>, s': State)
    requires !c.enabled && s.queue == [] && s.debounce == None && !s.stallSoft && !s.stallHard && s.worker == Idle
    requires Runs(c, s, events, s')
    ensures s'.calls == s.calls && s'.present == s.present && s'.queue == [] && s'.worker == Idle
    decreases |events|
  {
    if events != [] {
      DisabledStep(c, s, events[0]);
      DisabledIsSilent(c, Next(c, s, events[0]), events[1..], s');
    }
  }

  lemma DisabledStep(c: Config, s: State, e: Event)
    requires !c.enabled && s.queue == [] && s.debounce == None && !s.stallSoft && !s.stallHard && s.worker == Idle
    requires Enabled(s, e)
    ensures Next(c, s, e) == s || e.CancelPending?
    ensures e.CancelPending? ==> Next(c, s, e) == s.(pending := NO_EMOJI)
  {
    hide ResolveToolEmoji;
  }

  /** From an idle controller, `clear` empties the message when its removals all succeed. */
  lemma ClearEmptiesTheMessage(c: Config, past: seq<Event>, s: State, events: seq<Event>, s': State)
    requires c.enabled && c.canRemove && Runs(c, INIT, past, s) && s.worker == Idle && s.queue == []
    requires Enabled(Next(c, s, Clear), TaskStarts)
    requires Runs(c, Next(c, Next(c, s, Clear), TaskStarts), events, s')
    requires (forall e <- events :: SweepEvent(e)) && s'.worker == Idle
    ensures s'.present == {} && s'.current == NO_EMOJI
  {
    SomethingIsKnown(c);
    hide KnownList;
    var t := Next(c, s, Clear);
    var u := Next(c, t, TaskStarts);
    RunsAppend(c, INIT, past, s, Clear);
    RunsAppend(c, INIT, past + [Clear], t, TaskStarts);
    assert u.worker == Clearing(0);
    hide Next, Runs;
    ClearLeavesNothing(c, past + [Clear] + [TaskStarts], u, events, s');
  }
}
