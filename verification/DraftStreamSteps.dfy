/**
 What each call on a draft stream does by itself, and what a finalizing stop does to the whole
 rest of a run.
 */
module DraftStreamSteps {
  import opened Optional
  import opened JsText
  import opened DraftStreamProtocol
  import opened DraftStreamTheorems

  // ---------------------------------------------------------------- updates

  // The sends after the step are those before it, or one more, in flight, of the given draft.
  ghost predicate Issues(s: State, s': State, draft: Draft) {
    && |s'.sends| == |s.sends| + 1 && s'.sends[..|s.sends|] == s.sends
    && s'.sends[|s.sends|].draft == draft && s'.sends[|s.sends|].outcome == InFlight
    && s'.inFlight == Some(|s.sends|) && s'.pending == NO_DRAFT && !s'.timer
  }

  /**
   An update is taken exactly if the stream is neither stopped nor final. If nothing is in
   flight, no timer is armed and the throttle window is over, it is sent at once, or dropped if
   it is blank; otherwise it is pending behind an armed timer.
   */
  lemma UpdateTakesEffect(s: State, text: Text, now: int)
    ensures var s' := Next(s, Update(text, now));
            var draft := Draft(|s.accepted| + 1, text);
            var at_once := s.inFlight == None && !s.timer && now - s.lastSentAt >= s.throttleMs;
            && (s.stopped || s.final ==> s' == s)
            && (!s.stopped && !s.final ==>
                  && s'.accepted == s.accepted + [text] && s'.lastSentAt == s.lastSentAt
                  && s'.stopped == s.stopped && s'.final == s.final
                  && (at_once && !Blank(text) ==> Issues(s, s', draft))
                  && (at_once && Blank(text) ==> s'.sends == s.sends && s'.pending.text == [] && !s'.timer)
                  && (!at_once ==> s'.sends == s.sends && s'.inFlight == s.inFlight && s'.pending == draft && s'.timer))
  {
  }

  /** A delivered send, and no other step than a reset, moves the throttle window. */
  lemma WindowMovesIff(s: State, e: Event)
    requires Enabled(s, e)
    ensures Next(s, e).lastSentAt ==
      match e
      case SendSettles(_, Delivered, _, now) => now
      case ResetThrottleWindow => 0
      case _ => s.lastSentAt
  {
  }

  // ---------------------------------------------------------------- flushes

  // What an explicit flush, a timer, a stop and a flush that resumes have in common.
  ghost predicate Flushes(s: State, s': State, f: nat) {
    && f < |s'.flushes|
    && (s.stopped ==> s'.flushes[f] == Returned && s'.sends == s.sends && s'.pending == s.pending)
    && (!s.stopped && s.inFlight.Some? ==>
          s'.flushes[f] == Awaiting(s.inFlight.value) && s'.sends == s.sends && s'.pending == s.pending)
    && (!s.stopped && s.inFlight == None && Blank(s.pending.text) ==>
          s'.flushes[f] == Returned && s'.sends == s.sends && s'.pending.text == [])
    && (!s.stopped && s.inFlight == None && !Blank(s.pending.text) ==>
          && |s'.sends| == |s.sends| + 1 && s'.sends[..|s.sends|] == s.sends
          && s'.sends[|s.sends|] == Send(s.pending, f, InFlight) && s'.flushes[f] == Sending(|s.sends|)
          && s'.inFlight == Some(|s.sends|) && s'.pending.text == [])
  }

  /** Every flush sends the pending text, drops it if blank, or waits for the send in flight. */
  lemma FlushTakesEffect(s: State, e: Event)
    requires Enabled(s, e) && (e.Flush? || e.TimerFires? || e.Stop? || e.FlushResumes?)
    ensures Flushes(s, Next(s, e), if e.FlushResumes? then e.flush else |s.flushes|)
    ensures !e.FlushResumes? ==> !Next(s, e).timer
    ensures Next(s, e).accepted == s.accepted && Next(s, e).takes == s.takes && Next(s, e).messageId == s.messageId
  {
  }

  // ---------------------------------------------------------------- resets and stopping

  /** Each of the remaining calls changes what it names and nothing else. */
  lemma ResetsTakeEffect(s: State)
    ensures var s' := Next(s, LoopStop);
            s'.pending.text == [] && !s'.timer && s' == s.(pending := s'.pending, timer := false)
    ensures var s' := Next(s, ResetPending); s'.pending.text == [] && s' == s.(pending := s'.pending)
    ensures var s' := Next(s, ResetThrottleWindow);
            s'.lastSentAt == 0 && !s'.timer && s' == s.(lastSentAt := 0, timer := false)
    ensures var s' := Next(s, MarkStopped); s'.stopped && s' == s.(stopped := true)
  {
  }

  /**
   `takeMessageIdAfterStop` stops the stream and drops its text and timer at once; it waits for
   the send in flight, if any, and then returns the recorded id and clears it.
   */
  lemma TakeTakesEffect(s: State, t: nat)
    ensures var s' := Next(s, TakeMessageId);
            && s'.stopped && s'.pending.text == [] && !s'.timer && s'.sends == s.sends && s'.inFlight == s.inFlight
            && |s'.takes| == |s.takes| + 1 && s'.takes[..|s.takes|] == s.takes
            && s'.takes[|s.takes|] == (if s.inFlight.Some? then Stopping(s.inFlight.value) else Reading)
    ensures t < |s.takes| && s.takes[t] == Reading ==>
              var s' := Next(s, TakeResumes(t));
              && s'.takes == s.takes[t := Took(s.messageId)] && s'.messageId == None && s'.sends == s.sends
  {
  }

  /** A take that waits for a send reads the id when the send resolves, and fails when it fails. */
  lemma TakeIsWoken(s: State, t: nat, i: nat, outcome: Outcome, seen: Option<MessageId>, now: int)
    requires Enabled(s, SendSettles(i, outcome, seen, now)) && t < |s.takes| && s.takes[t] == Stopping(i)
    ensures var s' := Next(s, SendSettles(i, outcome, seen, now));
            && t < |s'.takes| && s'.takes[t] == (if outcome == Failed then Rejected else Reading)
            && s'.messageId == (if seen.Some? then seen else s.messageId)
  {
  }

  /** A send that settles wakes the flushes that await it, and leaves its own outcome behind. */
  lemma SettlingTakesEffect(s: State, f: nat, i: nat, outcome: Outcome, seen: Option<MessageId>, now: int)
    requires Inv(s) && Enabled(s, SendSettles(i, outcome, seen, now)) && f < |s.flushes|
    ensures var s' := Next(s, SendSettles(i, outcome, seen, now));
            && s'.sends[i] == s.sends[i].(outcome := outcome)
            && (s.flushes[f] == Awaiting(i) ==> s'.flushes[f] == if outcome == Failed then Threw else Resuming)
            && (f == s.sends[i].flush && outcome == Failed ==> s'.flushes[f] == Threw && s'.pending == s.pending)
            && (f == s.sends[i].flush && outcome == Refused ==>
                  s'.flushes[f] == Returned && s'.pending == s.sends[i].draft)
            && (f == s.sends[i].flush && outcome == Delivered ==>
                  Flushes(s.(inFlight := None, sends := s.sends[i := s'.sends[i]]), s', f))
  {
  }

  // ---------------------------------------------------------------- a stop and the rest of the run

  lemma {:induction false} RunsAppendRun(s: State, events: seq<Event>, t: State, more: seq<Event>, s': State)
    requires Runs(s, events, t) && Runs(t, more, s')
    ensures Runs(s, events + more, s')
    decreases |events|
  {
    hide Next, Enabled;
    if events == [] {
      assert [] + more == more;
    } else {
      assert (events + more)[1..] == events[1..] + more;
      RunsAppendRun(Next(s, events[0]), events[1..], t, more, s');
    }
  }

  lemma FinalStep(s: State, e: Event)
    requires Enabled(s, e) && s.final
    ensures Next(s, e).final && Next(s, e).accepted == s.accepted && s.finals <= Next(s, e).finals
    ensures |s.flushes| <= |Next(s, e).flushes|
  {
    hide RunFlush;
    match e
    case Flush => RunFlushKeeps(s.(timer := false, flushes := s.flushes + [Resuming]), |s.flushes|);
    case TimerFires => RunFlushKeeps(s.(timer := false, flushes := s.flushes + [Resuming]), |s.flushes|);
    case Stop =>
      var t := s.(final := true, finals := s.finals + {|s.flushes|});
      RunFlushKeeps(t.(timer := false, flushes := s.flushes + [Resuming]), |s.flushes|);
    case FlushResumes(f) => RunFlushKeeps(s, f);
    case SendSettles(i, outcome, seen, now) =>
      RunFlushKeeps(Settled(s, i, outcome, seen).(lastSentAt := now), s.sends[i].flush);
    case _ =>
  }

  lemma RunFlushKeeps(s: State, f: nat)
    requires f < |s.flushes|
    ensures var s' := RunFlush(s, f);
            && s'.final == s.final && s'.finals == s.finals && s'.accepted == s.accepted
            && |s'.flushes| == |s.flushes|
  {
  }

  lemma {:induction false} FinalRun(s: State, events: seq<Event>, s': State)
    requires s.final && Runs(s, events, s')
    ensures s'.final && s'.accepted == s.accepted && s.finals <= s'.finals && |s.flushes| <= |s'.flushes|
    decreases |events|
  {
    if events != [] {
      FinalStep(s, events[0]);
      FinalRun(Next(s, events[0]), events[1..], s');
    }
  }

  /**
   A stop makes the stream final for good: its own flush sends the pending text or waits for the
   send in flight, and no update is taken in the whole rest of the run.
   */
  lemma StopIsFinal(s: State, events: seq<Event>, s': State)
    requires Runs(Next(s, Stop), events, s')
    ensures s'.final && s'.accepted == s.accepted
    ensures |s.flushes| in s'.finals && |s.flushes| < |s'.flushes|
    ensures Flushes(s, Next(s, Stop), |s.flushes|)
  {
    var t := Next(s, Stop);
    FlushTakesEffect(s, Stop);
    StopMarks(s);
    FinalRun(t, events, s');
  }

  lemma StopMarks(s: State)
    ensures Next(s, Stop).final && |s.flushes| in Next(s, Stop).finals && |Next(s, Stop).flushes| == |s.flushes| + 1
  {
  }

  /**
   On every run with a stop on which the stream is not stopped otherwise: when the flush that this
   stop started has returned, and not from a refused send, nothing is in flight or pending, and a
   text that is not blank, of those accepted before the stop, was delivered exactly if no step of
   the run lost it. No update behind the stop is among them.
   */
  lemma StopEventDelivers(throttleMs: int, final: bool, messageId: Option<MessageId>,
                          past: seq<Event>, s: State, events: seq<Event>, s': State, n: nat)
    requires Runs(Init(throttleMs, false, final, messageId), past, s) && Runs(Next(s, Stop), events, s') && !s'.stopped
    requires |s.flushes| < |s'.flushes| && s'.flushes[|s.flushes|] == Returned && !RefusedTo(s'.sends, |s.flushes|)
    ensures s'.inFlight == None && s'.pending.text == [] && s'.accepted == s.accepted
    ensures Proper(s.accepted, n) ==>
              (Delivers(s'.sends, n)
               <==> !RunLoses(Init(throttleMs, false, final, messageId), past + [Stop] + events, n))
  {
    var init := Init(throttleMs, false, final, messageId);
    StopIsFinal(s, events, s');
    RunsAppend(init, past, s, Stop);
    RunsAppendRun(init, past + [Stop], Next(s, Stop), events, s');
    hide Next, Runs, RefusedTo, RunLoses, Delivers;
    StopDeliversTheLastUpdate(throttleMs, final, messageId, past + [Stop] + events, s', |s.flushes|, n);
  }
}
