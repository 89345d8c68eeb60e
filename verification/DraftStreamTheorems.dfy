module DraftStreamTheorems {
  import opened Optional
  import opened JsText
  import opened DraftStreamProtocol

  lemma IssuedIsInFlight(sends: seq<Send>, send: Send)
    requires OneInFlight(sends, None) && send.outcome == InFlight
    ensures OneInFlight(sends + [send], Some(|sends|))
  {
  }

  lemma IssuedFlushSends(sends: seq<Send>, flushes: seq<Coroutine>, draft: Draft, f: nat)
    requires OneInFlight(sends, None) && Waiters(sends, None, flushes) && f < |flushes|
    ensures Waiters(sends + [Send(draft, f, InFlight)], Some(|sends|), flushes[f := Sending(|sends|)])
  {
  }

  lemma IssueSendKeepsInv(s: State, f: nat)
    requires Inv(s) && f < |s.flushes| && s.inFlight == None && !s.stopped && !Blank(s.pending.text)
    ensures Inv(IssueSend(s, f))
  {
    IssuedIsInFlight(s.sends, Send(s.pending, f, InFlight));
    IssuedFlushSends(s.sends, s.flushes, s.pending, f);
    IssueSendKeepsOrder(s.sends, s.pending, s.accepted, f);
  }

  lemma IssueSendKeepsOrder(sends: seq<Send>, pending: Draft, accepted: seq<Text>, f: nat)
    requires InOrder(sends, pending) && Genuine(sends, pending, accepted) && !Blank(pending.text)
    ensures InOrder(sends + [Send(pending, f, InFlight)], NO_DRAFT)
    ensures Genuine(sends + [Send(pending, f, InFlight)], NO_DRAFT, accepted)
  {
  }

  lemma RunFlushKeepsInv(s: State, f: nat)
    requires Inv(s) && f < |s.flushes| && !s.flushes[f].Sending?
    ensures Inv(RunFlush(s, f))
  {
    if !s.stopped && s.inFlight == None && !Blank(s.pending.text) {
      IssueSendKeepsInv(s, f);
    }
  }

  lemma StartFlushKeepsInv(s: State)
    requires Inv(s)
    ensures Inv(StartFlush(s))
  {
    RunFlushKeepsInv(s.(timer := false, flushes := s.flushes + [Resuming]), |s.flushes|);
  }

  lemma AcceptKeepsInv(s: State, text: Text, now: int)
    requires Inv(s)
    ensures Inv(AcceptUpdate(s, text, now))
  {
    if !s.stopped && !s.final {
      var s' := s.(accepted := s.accepted + [text], pending := Draft(|s.accepted| + 1, text));
      assert Inv(s');
      StartFlushKeepsInv(s');
    }
  }

  lemma SettledIsNotInFlight(sends: seq<Send>, i: nat, outcome: Outcome)
    requires OneInFlight(sends, Some(i)) && outcome != InFlight
    ensures OneInFlight(sends[i := sends[i].(outcome := outcome)], None)
  {
  }

  lemma SettledKeepsOrder(sends: seq<Send>, pending: Draft, i: nat, outcome: Outcome)
    requires InOrder(sends, pending) && i == |sends| - 1 && sends[i].outcome == InFlight
    ensures InOrder(sends[i := sends[i].(outcome := outcome)], pending)
    ensures outcome == Refused ==> InOrder(sends[i := sends[i].(outcome := outcome)], sends[i].draft)
  {
  }

  lemma SettledWakesFlushes(sends: seq<Send>, flushes: seq<Coroutine>, i: nat, outcome: Outcome)
    requires OneInFlight(sends, Some(i)) && Waiters(sends, Some(i), flushes) && outcome != InFlight
    ensures Waiters(sends[i := sends[i].(outcome := outcome)], None, WakeFlushes(flushes, i, outcome))
  {
    var sends', flushes' := sends[i := sends[i].(outcome := outcome)], WakeFlushes(flushes, i, outcome);
    assert forall f :: 0 <= f < |flushes'| ==> !flushes'[f].Awaiting?;
    assert forall j :: 0 <= j < |sends'| ==> sends'[j].flush == sends[j].flush && sends'[j].outcome != InFlight;
  }

  lemma SettledWakesTakes(takes: seq<Take>, stopped: bool, i: nat, outcome: Outcome,
      before: Option<MessageId>, after: Option<MessageId>)
    requires Takes(takes, stopped, Some(i), before)
    ensures Takes(WakeTakes(takes, i, outcome), stopped, None, after)
  {
  }

  lemma SettledSendKeepsInv(s: State, i: nat, outcome: Outcome, seen: Option<MessageId>)
    requires Inv(s) && i < |s.sends| && s.sends[i].outcome == InFlight && outcome != InFlight
    ensures Inv(Settled(s, i, outcome, seen))
    ensures Settled(s, i, outcome, seen).inFlight == None
    ensures outcome == Refused ==> InOrder(Settled(s, i, outcome, seen).sends, s.sends[i].draft)
  {
    assert s.inFlight == Some(i) && i == |s.sends| - 1;
    SettledIsNotInFlight(s.sends, i, outcome);
    SettledKeepsOrder(s.sends, s.pending, i, outcome);
    SettledWakesFlushes(s.sends, s.flushes, i, outcome);
    SettledWakesTakes(s.takes, s.stopped, i, outcome, s.messageId, if seen.Some? then seen else s.messageId);
  }

  // A flush that sends nothing any more may take any other state.
  lemma MoveFlushKeepsInv(s: State, f: nat, c: Coroutine)
    requires Inv(s) && s.inFlight == None && f < |s.flushes| && !c.Awaiting?
    ensures Inv(s.(flushes := s.flushes[f := c]))
  {
  }

  lemma SettleKeepsInv(s: State, i: nat, outcome: Outcome, seen: Option<MessageId>, now: int)
    requires Inv(s) && Enabled(s, SendSettles(i, outcome, seen, now))
    ensures Inv(SettleSend(s, i, outcome, seen, now))
  {
    var f := s.sends[i].flush;
    var settled := Settled(s, i, outcome, seen);
    SettledSendKeepsInv(s, i, outcome, seen);
    match outcome
    case Failed => MoveFlushKeepsInv(settled, f, Threw);
    case Refused =>
      assert Inv(settled.(pending := s.sends[i].draft));
      MoveFlushKeepsInv(settled.(pending := s.sends[i].draft), f, Returned);
    case Delivered =>
      var resumed := settled.(lastSentAt := now, flushes := settled.flushes[f := Resuming]);
      MoveFlushKeepsInv(settled, f, Resuming);
      MoveFlushKeepsInv(settled, f, Returned);
      assert Inv(resumed);
      RunFlushKeepsInv(resumed, f);
      RunFlushForgets(settled.(lastSentAt := now), f);
  }

  // What a flush does next does not depend on what it did before.
  lemma RunFlushForgets(s: State, f: nat)
    requires f < |s.flushes|
    ensures RunFlush(s.(flushes := s.flushes[f := Resuming]), f) == RunFlush(s, f)
  {
    var g := s.flushes[f := Resuming];
    assert g[f := Returned] == s.flushes[f := Returned];
    assert g[f := Sending(|s.sends|)] == s.flushes[f := Sending(|s.sends|)];
    assert s.inFlight.Some? ==> g[f := Awaiting(s.inFlight.value)] == s.flushes[f := Awaiting(s.inFlight.value)];
  }

  lemma NextKeepsInv(s: State, e: Event)
    requires Inv(s) && Enabled(s, e)
    ensures Inv(Next(s, e))
  {
    match e
    case Update(text, now) => AcceptKeepsInv(s, text, now);
    case Flush => StartFlushKeepsInv(s);
    case TimerFires => StartFlushKeepsInv(s);
    case SendSettles(i, outcome, seen, now) => SettleKeepsInv(s, i, outcome, seen, now);
    case FlushResumes(f) => RunFlushKeepsInv(s, f);
    case Stop => StartFlushKeepsInv(s.(final := true, finals := s.finals + {|s.flushes|}));
    case _ =>
  }

  lemma {:induction false} RunKeepsInv(s: State, events: seq<Event>, s': State)
    requires Inv(s) && Runs(s, events, s')
    ensures Inv(s')
    decreases |events|
  {
    if events != [] {
      NextKeepsInv(s, events[0]);
      RunKeepsInv(Next(s, events[0]), events[1..], s');
    }
  }

  // ---------------------------------------------------------------- every run

  lemma InitHasInv(throttleMs: int, stopped: bool, final: bool, messageId: Option<MessageId>)
    ensures Inv(Init(throttleMs, stopped, final, messageId))
  {
  }

  ghost predicate Reachable(s: State) {
    exists throttleMs, stopped, final, messageId, events :: Runs(Init(throttleMs, stopped, final, messageId), events, s)
  }

  lemma {:induction false} RunsAppend(s: State, events: seq<Event>, s': State, e: Event)
    requires Runs(s, events, s') && Enabled(s', e)
    ensures Runs(s, events + [e], Next(s', e))
    decreases |events|
  {
    hide Next, Enabled;
    if events == [] {
      assert ([] + [e])[1..] == [] && Runs(Next(s, e), [], Next(s, e));
    } else {
      assert (events + [e])[1..] == events[1..] + [e];
      RunsAppend(Next(s, events[0]), events[1..], s', e);
    }
  }

  lemma NextStaysReachable(s: State, e: Event)
    requires Reachable(s) && Enabled(s, e)
    ensures Reachable(Next(s, e))
  {
    hide Next;
    var throttleMs, stopped, final, messageId, events :| Runs(Init(throttleMs, stopped, final, messageId), events, s);
    RunsAppend(Init(throttleMs, stopped, final, messageId), events, s, e);
  }

  lemma ReachableHasInv(s: State)
    requires Reachable(s)
    ensures Inv(s)
  {
    var throttleMs, stopped, final, messageId, events :| Runs(Init(throttleMs, stopped, final, messageId), events, s);
    InitHasInv(throttleMs, stopped, final, messageId);
    RunKeepsInv(Init(throttleMs, stopped, final, messageId), events, s);
  }

  /** However many flushes race, at most one send is in flight. */
  lemma OneSendAtATime(s: State, i: nat, j: nat)
    requires Reachable(s)
    requires i < |s.sends| && s.sends[i].outcome == InFlight && j < |s.sends| && s.sends[j].outcome == InFlight
    ensures i == j == |s.sends| - 1
  {
    ReachableHasInv(s);
  }

  /**
   Every send carries the text of an accepted update. Attempts never go back to an older
   update, and go back to the same one only when it was refused; so the updates that were
   delivered have strictly increasing numbers.
   */
  lemma SendsFollowUpdates(s: State, i: nat, j: nat)
    requires Reachable(s) && i < j < |s.sends|
    ensures Authentic(s.sends[i].draft, s.accepted) && Authentic(s.sends[j].draft, s.accepted)
    ensures s.sends[i].draft.index <= s.sends[j].draft.index
    ensures s.sends[i].draft.index == s.sends[j].draft.index ==> s.sends[i].outcome == Refused
  {
    ReachableHasInv(s);
  }

  // ---------------------------------------------------------------- stopping for clear

  // Once stopped, no step issues a send.
  lemma StoppedIssuesNothing(s: State, e: Event)
    requires Inv(s) && s.stopped && Enabled(s, e)
    ensures Next(s, e).stopped && |Next(s, e).sends| == |s.sends|
    ensures s.inFlight == None ==> Next(s, e).sends == s.sends && Next(s, e).inFlight == None
    ensures s.inFlight == None && s.messageId == None ==> Next(s, e).messageId == None
  {
  }

  /**
   After `takeMessageIdAfterStop` has returned an id, no continuation of the run sends
   anything or records another id, whatever flushes are suspended and timers armed.
   */
  lemma {:induction false} NothingIsSentAfterTake(s: State, t: nat, events: seq<Event>, s': State)
    requires Reachable(s) && t < |s.takes| && s.takes[t].Took? && Runs(s, events, s')
    ensures s'.sends == s.sends && s'.inFlight == None && s'.messageId == None
  {
    ReachableHasInv(s);
    StoppedRunIsSilent(s, events, s');
  }

  lemma {:induction false} StoppedRunIsSilent(s: State, events: seq<Event>, s': State)
    requires Inv(s) && s.stopped && s.inFlight == None && s.messageId == None && Runs(s, events, s')
    ensures s'.sends == s.sends && s'.inFlight == None && s'.messageId == None
    decreases |events|
  {
    if events != [] {
      NextKeepsInv(s, events[0]);
      StoppedIssuesNothing(s, events[0]);
      StoppedRunIsSilent(Next(s, events[0]), events[1..], s');
    }
  }

  /** From the moment `stopForClear` is called, no further send starts. */
  lemma {:induction false} NoSendStartsAfterStop(s: State, events: seq<Event>, s': State)
    requires Inv(s) && s.stopped && Runs(s, events, s')
    ensures |s'.sends| == |s.sends|
    decreases |events|
  {
    if events != [] {
      NextKeepsInv(s, events[0]);
      StoppedIssuesNothing(s, events[0]);
      NoSendStartsAfterStop(Next(s, events[0]), events[1..], s');
    }
  }

  // ---------------------------------------------------------------- what becomes of one text

  // The send is on its way with text n or has delivered it.
  predicate Carries(send: Send, n: nat) {
    send.draft.index == n && (send.outcome == InFlight || send.outcome == Delivered)
  }

  ghost predicate Alive(sends: seq<Send>, pending: Draft, n: nat) {
    pending.index == n || exists i :: 0 <= i < |sends| && Carries(sends[i], n)
  }

  ghost predicate Delivers(sends: seq<Send>, n: nat) {
    exists i :: 0 <= i < |sends| && sends[i].draft.index == n && sends[i].outcome == Delivered
  }

  // Text n of the accepted updates, and it is not blank.
  predicate Proper(accepted: seq<Text>, n: nat) {
    1 <= n <= |accepted| && !Blank(accepted[n - 1])
  }

  /**
   The step drops text n: a newer update or an older refused text takes its place while it is
   pending, its send fails, or the pending text is reset or cleared.
   */
  predicate LosesText(s: State, e: Event, n: nat) {
    match e
    case Update(_, _) => !s.stopped && !s.final && s.pending.index == n
    case SendSettles(i, outcome, _, _) =>
      || (outcome == Refused && s.pending.index == n)
      || (outcome == Failed && i < |s.sends| && s.sends[i].draft.index == n)
    case LoopStop => s.pending.index == n
    case ResetPending => s.pending.index == n
    case TakeMessageId => s.pending.index == n
    case _ => false
  }

  ghost predicate RunLoses(s: State, events: seq<Event>, n: nat)
    decreases |events|
  {
    events != [] && Enabled(s, events[0]) &&
    (LosesText(s, events[0], n) || RunLoses(Next(s, events[0]), events[1..], n))
  }

  // Issuing the pending text moves it into the new send.
  lemma IssuedStaysAlive(sends: seq<Send>, pending: Draft, f: nat, n: nat)
    requires n >= 1
    ensures Alive(sends + [Send(pending, f, InFlight)], NO_DRAFT, n) <==> Alive(sends, pending, n)
  {
    var sends' := sends + [Send(pending, f, InFlight)];
    if pending.index == n { assert Carries(sends'[|sends|], n); }
    if i :| 0 <= i < |sends| && Carries(sends[i], n) { assert Carries(sends'[i], n); }
  }

  lemma RunFlushStaysAlive(s: State, f: nat, n: nat)
    requires Genuine(s.sends, s.pending, s.accepted) && f < |s.flushes| && Proper(s.accepted, n)
    ensures Alive(RunFlush(s, f).sends, RunFlush(s, f).pending, n) <==> Alive(s.sends, s.pending, n)
  {
    IssuedStaysAlive(s.sends, s.pending, f, n);
  }

  // A text is carried by the newest send, or only by one that settled before.
  lemma SettledStaysAlive(sends: seq<Send>, pending: Draft, i: nat, outcome: Outcome, n: nat)
    requires InOrder(sends, pending) && i == |sends| - 1 && sends[i].outcome == InFlight && outcome != InFlight
    ensures var sends' := sends[i := sends[i].(outcome := outcome)];
            && (outcome == Delivered ==> (Alive(sends', pending, n) <==> Alive(sends, pending, n)))
            && (outcome != Delivered ==> ((exists j :: 0 <= j < |sends'| && Carries(sends'[j], n))
                  <==> sends[i].draft.index != n && exists j :: 0 <= j < |sends| && Carries(sends[j], n)))
            && (pending.index == n >= 1 ==> !exists j :: 0 <= j < |sends| && Carries(sends[j], n))
  {
    var sends' := sends[i := sends[i].(outcome := outcome)];
    assert forall j :: 0 <= j < i ==> sends'[j] == sends[j];
    if j :| 0 <= j < |sends| && Carries(sends[j], n) { assert j < i ==> Carries(sends'[j], n); }
    if outcome == Delivered { assert Carries(sends[i], n) ==> Carries(sends'[i], n); }
  }

  lemma SettleStepForText(s: State, e: Event, n: nat)
    requires Inv(s) && Enabled(s, e) && e.SendSettles? && Proper(s.accepted, n)
    ensures Alive(Next(s, e).sends, Next(s, e).pending, n) <==> Alive(s.sends, s.pending, n) && !LosesText(s, e, n)
  {
    var i := e.send;
    var settled := Settled(s, i, e.outcome, e.seen);
    SettledStaysAlive(s.sends, s.pending, i, e.outcome, n);
    SettledSendKeepsInv(s, i, e.outcome, e.seen);
    if e.outcome == Delivered {
      RunFlushStaysAlive(settled.(lastSentAt := e.now), s.sends[i].flush, n);
    } else if e.outcome == Refused {
      assert s.sends[i].draft.index == n ==> Carries(s.sends[i], n);
    }
  }

  // Of an accepted text, nothing but these steps loses it, and nothing brings it back.
  lemma TextStep(s: State, e: Event, n: nat)
    requires Inv(s) && Enabled(s, e) && Proper(s.accepted, n)
    ensures Alive(Next(s, e).sends, Next(s, e).pending, n) <==> Alive(s.sends, s.pending, n) && !LosesText(s, e, n)
  {
    hide RunFlush, Alive;
    match e
    case Update(text, now) => UpdateStepForText(s, text, now, n);
    case Flush => StartStaysAlive(s, n);
    case TimerFires => StartStaysAlive(s, n);
    case SendSettles(_, _, _, _) => SettleStepForText(s, e, n);
    case FlushResumes(f) => RunFlushStaysAlive(s, f, n);
    case Stop => StartStaysAlive(s.(final := true, finals := s.finals + {|s.flushes|}), n);
    case LoopStop => DroppedIsAlive(s.sends, s.pending, n);
    case ResetPending => DroppedIsAlive(s.sends, s.pending, n);
    case TakeMessageId => DroppedIsAlive(s.sends, s.pending, n);
    case _ =>
  }

  lemma StartStaysAlive(s: State, n: nat)
    requires Genuine(s.sends, s.pending, s.accepted) && Proper(s.accepted, n)
    ensures Alive(StartFlush(s).sends, StartFlush(s).pending, n) <==> Alive(s.sends, s.pending, n)
  {
    RunFlushStaysAlive(s.(timer := false, flushes := s.flushes + [Resuming]), |s.flushes|, n);
  }

  // Replacing the pending text loses the text that was pending, and no other.
  lemma DroppedIsAlive(sends: seq<Send>, pending: Draft, n: nat)
    requires n >= 1
    ensures Alive(sends, NO_DRAFT, n) ==> Alive(sends, pending, n)
    ensures pending.index != n ==> (Alive(sends, NO_DRAFT, n) <==> Alive(sends, pending, n))
    ensures pending.index == n && InOrder(sends, pending) ==> !Alive(sends, NO_DRAFT, n)
  {
  }

  lemma UpdateStepForText(s: State, text: Text, now: int, n: nat)
    requires Inv(s) && Proper(s.accepted, n)
    ensures var s' := AcceptUpdate(s, text, now);
            Alive(s'.sends, s'.pending, n) <==> Alive(s.sends, s.pending, n) && !LosesText(s, Update(text, now), n)
  {
    if !s.stopped && !s.final {
      var t := s.(accepted := s.accepted + [text], pending := Draft(|s.accepted| + 1, text));
      DroppedIsAlive(s.sends, s.pending, n);
      assert Alive(t.sends, t.pending, n) <==> Alive(s.sends, NO_DRAFT, n);
      assert Genuine(t.sends, t.pending, t.accepted) && Proper(t.accepted, n);
      StartStaysAlive(t, n);
    }
  }

  // A new text that is not blank is pending or on its way.
  lemma AcceptedIsAlive(s: State, text: Text, now: int)
    requires Inv(s) && !s.stopped && !s.final && !Blank(text)
    ensures var s' := AcceptUpdate(s, text, now); Alive(s'.sends, s'.pending, |s.accepted| + 1)
  {
    var t := s.(accepted := s.accepted + [text], pending := Draft(|s.accepted| + 1, text));
    assert Genuine(t.sends, t.pending, t.accepted);
    StartStaysAlive(t, |s.accepted| + 1);
  }

  lemma AcceptedGrows(s: State, e: Event)
    requires Enabled(s, e)
    ensures s.accepted <= Next(s, e).accepted
    ensures |Next(s, e).accepted| > |s.accepted| ==>
      e.Update? && !s.stopped && !s.final && Next(s, e).accepted == s.accepted + [e.text]
  {
  }

  lemma {:induction false} AcceptedStays(s: State, events: seq<Event>, s': State)
    requires Runs(s, events, s')
    ensures s.accepted <= s'.accepted
    decreases |events|
  {
    if events != [] {
      AcceptedGrows(s, events[0]);
      AcceptedStays(Next(s, events[0]), events[1..], s');
    }
  }

  // Before its update no step loses a text.
  lemma UnknownTextIsNotLost(s: State, e: Event, n: nat)
    requires Inv(s) && Enabled(s, e) && n > |s.accepted|
    ensures !LosesText(s, e, n)
  {
  }

  /**
   On every run, whatever is sent, refused, reset or stopped: a text that is not blank is
   pending, on its way or delivered at the end exactly if no step of the run lost it.
   */
  lemma {:induction false} TextSurvivesIff(s: State, events: seq<Event>, s': State, n: nat)
    requires Inv(s) && Runs(s, events, s') && Proper(s'.accepted, n)
    requires n <= |s.accepted| ==> Alive(s.sends, s.pending, n)
    ensures Alive(s'.sends, s'.pending, n) <==> !RunLoses(s, events, n)
    decreases |events|
  {
    hide Alive, LosesText, Inv;
    if events != [] {
      var e, t := events[0], Next(s, events[0]);
      NextKeepsInv(s, e);
      AcceptedGrows(s, e);
      AcceptedStays(t, events[1..], s');
      hide Next;
      if n <= |s.accepted| {
        TextStep(s, e, n);
        if LosesText(s, e, n) {
          LostTextIsNeverSent(t, events[1..], s', n);
        } else {
          TextSurvivesIff(t, events[1..], s', n);
        }
      } else {
        UnknownTextIsNotLost(s, e, n);
        NewTextIsAlive(s, e, n);
        TextSurvivesIff(t, events[1..], s', n);
      }
    }
  }

  lemma NewTextIsAlive(s: State, e: Event, n: nat)
    requires Inv(s) && Enabled(s, e) && n > |s.accepted|
    ensures Proper(Next(s, e).accepted, n) ==> Alive(Next(s, e).sends, Next(s, e).pending, n)
  {
    AcceptedGrows(s, e);
    if e.Update? && !s.stopped && !s.final && !Blank(e.text) {
      AcceptedIsAlive(s, e.text, e.now);
    }
  }

  lemma RunFlushSends(s: State, f: nat)
    requires f < |s.flushes|
    ensures var s' := RunFlush(s, f);
            && s'.accepted == s.accepted && s'.stopped == s.stopped
            && (s'.sends == s.sends || s'.sends == s.sends + [Send(s.pending, f, InFlight)])
  {
  }

  // A step issues at most one send, of the pending or the new text, and changes the outcome of
  // no other than the one that settles.
  lemma NextSends(s: State, e: Event)
    requires Enabled(s, e)
    ensures |s.sends| <= |Next(s, e).sends| <= |s.sends| + 1
    ensures |Next(s, e).sends| > |s.sends| ==>
      var send := Next(s, e).sends[|s.sends|];
      (send.draft.index == s.pending.index || send.draft.index == |s.accepted| + 1) && send.outcome == InFlight
    ensures forall i :: 0 <= i < |s.sends| ==>
      && Next(s, e).sends[i].draft == s.sends[i].draft
      && ((e.SendSettles? && e.send == i) || Next(s, e).sends[i] == s.sends[i])
    ensures e.SendSettles? ==> Next(s, e).sends[e.send].outcome == e.outcome
  {
    hide RunFlush;
    match e
    case Update(text, now) =>
      var t := s.(accepted := s.accepted + [text], pending := Draft(|s.accepted| + 1, text));
      RunFlushSends(t.(timer := false, flushes := s.flushes + [Resuming]), |s.flushes|);
    case Flush => RunFlushSends(s.(timer := false, flushes := s.flushes + [Resuming]), |s.flushes|);
    case TimerFires => RunFlushSends(s.(timer := false, flushes := s.flushes + [Resuming]), |s.flushes|);
    case SendSettles(i, outcome, seen, now) =>
      RunFlushSends(Settled(s, i, outcome, seen).(lastSentAt := now), s.sends[i].flush);
    case FlushResumes(f) => RunFlushSends(s, f);
    case Stop =>
      var t := s.(final := true, finals := s.finals + {|s.flushes|});
      RunFlushSends(t.(timer := false, flushes := s.flushes + [Resuming]), |s.flushes|);
    case _ =>
  }

  // The later sends extend the earlier ones, none of the new ones carrying text n.
  ghost predicate NoneAdded(sends: seq<Send>, later: seq<Send>, n: nat) {
    && |sends| <= |later|
    && (forall i :: 0 <= i < |sends| ==> later[i].draft == sends[i].draft)
    && (forall i :: |sends| <= i < |later| ==> later[i].draft.index != n)
  }

  lemma NoneAddedTwice(sends: seq<Send>, later: seq<Send>, latest: seq<Send>, n: nat)
    requires NoneAdded(sends, later, n) && NoneAdded(later, latest, n)
    ensures NoneAdded(sends, latest, n)
  {
    forall i | |sends| <= i < |latest| ensures latest[i].draft.index != n {
      if i < |later| { assert latest[i].draft == later[i].draft; }
    }
  }

  lemma LostStep(s: State, e: Event, n: nat)
    requires Inv(s) && Enabled(s, e) && Proper(s.accepted, n) && !Alive(s.sends, s.pending, n)
    ensures var t := Next(s, e);
            Inv(t) && Proper(t.accepted, n) && !Alive(t.sends, t.pending, n) && NoneAdded(s.sends, t.sends, n)
  {
    hide Next, Inv, Enabled, LosesText, Alive;
    NextKeepsInv(s, e);
    TextStep(s, e, n);
    AcceptedGrows(s, e);
    NextSends(s, e);
    PendingIsAlive(s.sends, s.pending);
  }

  /** A lost text is gone for good: no continuation sends or delivers it. */
  lemma {:induction false} LostTextIsNeverSent(s: State, events: seq<Event>, s': State, n: nat)
    requires Inv(s) && Runs(s, events, s') && Proper(s.accepted, n) && !Alive(s.sends, s.pending, n)
    ensures !Alive(s'.sends, s'.pending, n) && !Delivers(s'.sends, n) && NoneAdded(s.sends, s'.sends, n)
    decreases |events|
  {
    if events != [] {
      var t := Next(s, events[0]);
      LostStep(s, events[0], n);
      hide Next, Inv, Enabled, Alive, Delivers, NoneAdded;
      LostTextIsNeverSent(t, events[1..], s', n);
      NoneAddedTwice(s.sends, t.sends, s'.sends, n);
    } else {
      DeliveredIsAlive(s.sends, s.pending, n);
    }
  }

  lemma PendingIsAlive(sends: seq<Send>, pending: Draft)
    ensures Alive(sends, pending, pending.index)
  {
  }

  lemma DeliveredIsAlive(sends: seq<Send>, pending: Draft, n: nat)
    ensures Delivers(sends, n) ==> Alive(sends, pending, n)
  {
    if i :| 0 <= i < |sends| && sends[i].draft.index == n && sends[i].outcome == Delivered {
      assert Carries(sends[i], n);
    }
  }

  ghost predicate CanDeliver(s: State, n: nat) {
    exists events, s' :: Runs(s, events, s') && Delivers(s'.sends, n)
  }

  /** A text can still be delivered by some continuation exactly if it is pending, on its way or delivered. */
  lemma AliveIffDeliverable(s: State, n: nat)
    requires Inv(s) && !s.stopped && Proper(s.accepted, n)
    ensures CanDeliver(s, n) <==> Alive(s.sends, s.pending, n)
  {
    if !Alive(s.sends, s.pending, n) {
      forall events, s' | Runs(s, events, s') ensures !Delivers(s'.sends, n) {
        LostTextIsNeverSent(s, events, s', n);
      }
    } else if i :| 0 <= i < |s.sends| && Carries(s.sends[i], n) {
      CarriedIsDeliverable(s, i, n);
    } else {
      var e := if s.inFlight.Some? then SendSettles(s.inFlight.value, Delivered, None, 0) else Flush;
      PendingIsIssued(s, e);
      var t := Next(s, e);
      NextKeepsInv(s, e);
      CarriedIsDeliverable(t, |s.sends|, n);
      DeliverableBefore(s, e, n);
    }
  }

  lemma DeliverableBefore(s: State, e: Event, n: nat)
    requires Enabled(s, e) && CanDeliver(Next(s, e), n)
    ensures CanDeliver(s, n)
  {
    var events, s' :| Runs(Next(s, e), events, s') && Delivers(s'.sends, n);
    assert ([e] + events)[1..] == events && Runs(s, [e] + events, s');
  }

  lemma CarriedIsDeliverable(s: State, i: nat, n: nat)
    requires Inv(s) && i < |s.sends| && Carries(s.sends[i], n)
    ensures CanDeliver(s, n)
  {
    if s.sends[i].outcome == Delivered {
      assert Runs(s, [], s) && Delivers(s.sends, n);
    } else {
      var e := SendSettles(i, Delivered, None, 0);
      assert s.sends[i].flush < |s.flushes|;
      var t := Next(s, e);
      assert t.sends[i].draft.index == n && t.sends[i].outcome == Delivered;
      assert Runs(t, [], t) && Delivers(t.sends, n);
      DeliverableBefore(s, e, n);
    }
  }

  // A flush, or the send in flight when it settles, sends the pending text.
  lemma PendingIsIssued(s: State, e: Event)
    requires Inv(s) && !s.stopped && !Blank(s.pending.text)
    requires e == if s.inFlight.Some? then SendSettles(s.inFlight.value, Delivered, None, 0) else Flush
    ensures Enabled(s, e) && |Next(s, e).sends| == |s.sends| + 1
    ensures Carries(Next(s, e).sends[|s.sends|], s.pending.index)
  {
    if s.inFlight.Some? { assert s.sends[s.inFlight.value].flush < |s.flushes|; }
  }

  // ---------------------------------------------------------------- finalizing stop

  ghost predicate Quiet(s: State) {
    s.inFlight == None && s.pending.text == []
  }

  // A flush returns from a refused send at once.
  ghost predicate RefusedTo(sends: seq<Send>, f: nat) {
    exists i :: 0 <= i < |sends| && sends[i].flush == f && sends[i].outcome == Refused
  }

  // The flush of a finalizing stop returns when nothing is left to send, or from a refusal.
  ghost predicate FinalsQuiet(finals: set<nat>, final: bool, flushes: seq<Coroutine>, sends: seq<Send>, quiet: bool) {
    forall f <- finals :: final && f < |flushes| && (flushes[f] == Returned ==> quiet || RefusedTo(sends, f))
  }

  ghost predicate StopsQuiet(s: State) {
    FinalsQuiet(s.finals, s.final, s.flushes, s.sends, Quiet(s))
  }

  lemma MoveFlushStaysQuiet(finals: set<nat>, final: bool, flushes: seq<Coroutine>, sends: seq<Send>,
                            f: nat, c: Coroutine, was: bool, quiet: bool)
    requires FinalsQuiet(finals, final, flushes, sends, was) && f < |flushes|
    requires (was ==> quiet) && (c == Returned ==> quiet || RefusedTo(sends, f))
    ensures FinalsQuiet(finals, final, flushes[f := c], sends, quiet)
  {
  }

  lemma IssuedStaysRefused(sends: seq<Send>, draft: Draft, g: nat, f: nat)
    ensures RefusedTo(sends + [Send(draft, g, InFlight)], f) <==> RefusedTo(sends, f)
  {
    var sends' := sends + [Send(draft, g, InFlight)];
    if i :| 0 <= i < |sends| && sends[i].flush == f && sends[i].outcome == Refused {
      assert sends'[i].flush == f && sends'[i].outcome == Refused;
    }
  }

  lemma RunFlushStaysQuiet(s: State, f: nat)
    requires !s.stopped && f < |s.flushes| && StopsQuiet(s)
    ensures StopsQuiet(RunFlush(s, f))
  {
    hide RefusedTo;
    var s' := RunFlush(s, f);
    MoveFlushStaysQuiet(s.finals, s.final, s.flushes, s.sends, f, s'.flushes[f], Quiet(s), Quiet(s'));
    forall g ensures RefusedTo(s.sends, g) ==> RefusedTo(s'.sends, g) {
      IssuedStaysRefused(s.sends, s.pending, f, g);
    }
  }

  lemma StartFlushStaysQuiet(s: State)
    requires !s.stopped && StopsQuiet(s.(finals := s.finals - {|s.flushes|})) && (|s.flushes| in s.finals ==> s.final)
    ensures StopsQuiet(StartFlush(s))
  {
    hide RefusedTo;
    var s' := s.(timer := false, flushes := s.flushes + [Resuming]);
    assert forall f :: f in s.finals && f != |s.flushes| ==> f in s.finals - {|s.flushes|};
    assert StopsQuiet(s');
    RunFlushStaysQuiet(s', |s.flushes|);
  }

  // A settled send wakes nobody into returning, and refusals are never taken back.
  lemma SettledStaysQuiet(s: State, i: nat, outcome: Outcome, seen: Option<MessageId>)
    requires Inv(s) && StopsQuiet(s) && i < |s.sends| && s.sends[i].outcome == InFlight
    ensures var t := Settled(s, i, outcome, seen);
            && FinalsQuiet(t.finals, t.final, t.flushes, t.sends, false)
            && (outcome == Refused ==> RefusedTo(t.sends, s.sends[i].flush))
  {
    var t := Settled(s, i, outcome, seen);
    forall f | RefusedTo(s.sends, f) ensures RefusedTo(t.sends, f) {
      var j :| 0 <= j < |s.sends| && s.sends[j].flush == f && s.sends[j].outcome == Refused;
      assert t.sends[j] == s.sends[j];
    }
    if outcome == Refused { assert t.sends[i].flush == s.sends[i].flush && t.sends[i].outcome == Refused; }
  }

  lemma SettleStaysQuiet(s: State, i: nat, outcome: Outcome, seen: Option<MessageId>, now: int)
    requires Inv(s) && !s.stopped && StopsQuiet(s) && Enabled(s, SendSettles(i, outcome, seen, now))
    ensures StopsQuiet(SettleSend(s, i, outcome, seen, now))
  {
    hide RefusedTo;
    var f, t := s.sends[i].flush, Settled(s, i, outcome, seen);
    SettledStaysQuiet(s, i, outcome, seen);
    match outcome
    case Failed => MoveFlushStaysQuiet(t.finals, t.final, t.flushes, t.sends, f, Threw, false, Quiet(t));
    case Refused => MoveFlushStaysQuiet(t.finals, t.final, t.flushes, t.sends, f, Returned, false, false);
    case Delivered =>
      var resumed := t.(lastSentAt := now);
      FinalsMayBeQuiet(t.finals, t.final, t.flushes, t.sends, Quiet(t));
      if t.pending.text == [] {
        SettledSendKeepsInv(s, i, outcome, seen);
        MoveFlushStaysQuiet(t.finals, t.final, t.flushes, t.sends, f, Returned, false, true);
      } else {
        RunFlushStaysQuiet(resumed, f);
      }
  }

  lemma FinalsMayBeQuiet(finals: set<nat>, final: bool, flushes: seq<Coroutine>, sends: seq<Send>, quiet: bool)
    requires FinalsQuiet(finals, final, flushes, sends, false)
    ensures FinalsQuiet(finals, final, flushes, sends, quiet)
  {
  }

  lemma NextStaysQuiet(s: State, e: Event)
    requires Inv(s) && !s.stopped && StopsQuiet(s) && Enabled(s, e)
    ensures StopsQuiet(Next(s, e))
  {
    hide RefusedTo, RunFlush;
    match e
    case Update(text, now) =>
      if !s.final {
        assert s.finals == {};
        var t := s.(accepted := s.accepted + [text], pending := Draft(|s.accepted| + 1, text));
        assert t.finals - {|t.flushes|} == {};
        StartFlushStaysQuiet(t);
      }
    case Flush =>
      assert s.finals - {|s.flushes|} == s.finals;
      StartFlushStaysQuiet(s);
    case TimerFires =>
      assert s.finals - {|s.flushes|} == s.finals;
      StartFlushStaysQuiet(s);
    case SendSettles(i, outcome, seen, now) => SettleStaysQuiet(s, i, outcome, seen, now);
    case FlushResumes(f) => RunFlushStaysQuiet(s, f);
    case Stop =>
      var t := s.(final := true, finals := s.finals + {|s.flushes|});
      assert t.finals - {|s.flushes|} == s.finals;
      StartFlushStaysQuiet(t);
    case _ =>
  }

  lemma StoppedStaysStopped(s: State, e: Event)
    requires Enabled(s, e) && s.stopped
    ensures Next(s, e).stopped
  {
  }

  lemma {:induction false} RunStaysStopped(s: State, events: seq<Event>, s': State)
    requires Runs(s, events, s') && s.stopped
    ensures s'.stopped
    decreases |events|
  {
    if events != [] {
      StoppedStaysStopped(s, events[0]);
      RunStaysStopped(Next(s, events[0]), events[1..], s');
    }
  }

  lemma {:induction false} RunStaysQuiet(s: State, events: seq<Event>, s': State)
    requires Inv(s) && StopsQuiet(s) && Runs(s, events, s') && !s'.stopped
    ensures Inv(s') && StopsQuiet(s')
    decreases |events|
  {
    if s.stopped {
      RunStaysStopped(s, events, s');
    } else if events != [] {
      NextKeepsInv(s, events[0]);
      NextStaysQuiet(s, events[0]);
      RunStaysQuiet(Next(s, events[0]), events[1..], s');
    }
  }

  /**
   When a finalizing `stop` has returned, and not from a refused send, nothing is in flight or
   pending, further updates change nothing, and a text that is not blank was delivered exactly
   if no step of the run lost it. The run is any run on which the stream is not stopped.
   */
  lemma StopDeliversTheLastUpdate(throttleMs: int, final: bool, messageId: Option<MessageId>,
                                  events: seq<Event>, s: State, f: nat, n: nat)
    requires Runs(Init(throttleMs, false, final, messageId), events, s) && !s.stopped
    requires f in s.finals && f < |s.flushes| && s.flushes[f] == Returned && !RefusedTo(s.sends, f)
    ensures Quiet(s)
    ensures Proper(s.accepted, n) ==>
              (Delivers(s.sends, n) <==> !RunLoses(Init(throttleMs, false, final, messageId), events, n))
    ensures forall text, now :: Next(s, Update(text, now)) == s
  {
    var init := Init(throttleMs, false, final, messageId);
    InitHasInv(throttleMs, false, final, messageId);
    RunStaysQuiet(init, events, s);
    if Proper(s.accepted, n) {
      TextSurvivesIff(init, events, s, n);
      QuietTextIsDelivered(s, n);
    }
  }

  // With nothing pending or in flight a text is alive only if it was delivered.
  lemma QuietTextIsDelivered(s: State, n: nat)
    requires Inv(s) && s.inFlight == None && Proper(s.accepted, n) && s.pending.index != n
    ensures Delivers(s.sends, n) <==> Alive(s.sends, s.pending, n)
  {
    if i :| 0 <= i < |s.sends| && Carries(s.sends[i], n) {
      assert s.sends[i].outcome == Delivered;
    }
    if i :| 0 <= i < |s.sends| && s.sends[i].draft.index == n && s.sends[i].outcome == Delivered {
      assert Carries(s.sends[i], n);
    }
  }

  // No send is refused or fails, and nobody resets, stops or clears the stream.
  predicate Smooth(e: Event) {
    match e
    case SendSettles(_, outcome, _, _) => outcome == Delivered
    case LoopStop => false
    case ResetPending => false
    case MarkStopped => false
    case TakeMessageId => false
    case _ => true
  }

  /** On such a run the newest text is never lost and no stop returns from a refusal. */
  lemma {:induction false} SmoothRunsLoseNothing(s: State, events: seq<Event>, s': State)
    requires Inv(s) && Runs(s, events, s') && forall e <- events :: Smooth(e)
    ensures !RunLoses(s, events, |s'.accepted|)
    ensures forall i :: 0 <= i < |s'.sends| && s'.sends[i].outcome == Refused ==>
      i < |s.sends| && s.sends[i].outcome == Refused
    ensures s'.stopped == s.stopped && |s.sends| <= |s'.sends|
    decreases |events|
  {
    if events != [] {
      var e, t := events[0], Next(s, events[0]);
      assert Smooth(e);
      NextKeepsInv(s, e);
      SmoothRunsLoseNothing(t, events[1..], s');
      AcceptedStays(t, events[1..], s');
      SmoothStepLosesNothing(s, e, |s'.accepted|);
    }
  }

  lemma SmoothStepLosesNothing(s: State, e: Event, n: nat)
    requires Inv(s) && Enabled(s, e) && Smooth(e) && |Next(s, e).accepted| <= n
    ensures !LosesText(s, e, n)
    ensures |s.sends| <= |Next(s, e).sends| && Next(s, e).stopped == s.stopped
    ensures forall i :: 0 <= i < |Next(s, e).sends| && Next(s, e).sends[i].outcome == Refused ==>
      i < |s.sends| && s.sends[i].outcome == Refused
  {
    NextSends(s, e);
    SmoothStepKeepsRunning(s, e);
    if e.Update? && !s.stopped && !s.final { UpdateIsAccepted(s, e); }
  }

  lemma UpdateIsAccepted(s: State, e: Event)
    requires e.Update? && !s.stopped && !s.final
    ensures Next(s, e).accepted == s.accepted + [e.text]
  {
  }

  lemma SmoothStepKeepsRunning(s: State, e: Event)
    requires Enabled(s, e) && Smooth(e)
    ensures Next(s, e).stopped == s.stopped
  {
  }

  /** The stream then stays quiet: no continuation sends anything more, whatever its events. */
  lemma {:induction false} QuietStreamStaysQuiet(s: State, events: seq<Event>, s': State)
    requires Inv(s) && s.final && Quiet(s) && Runs(s, events, s')
    ensures Quiet(s') && s'.sends == s.sends && s'.accepted == s.accepted
    decreases |events|
  {
    if events != [] {
      NextKeepsInv(s, events[0]);
      QuietStep(s, events[0]);
      QuietStreamStaysQuiet(Next(s, events[0]), events[1..], s');
    }
  }

  lemma QuietStep(s: State, e: Event)
    requires Inv(s) && s.final && Quiet(s) && Enabled(s, e)
    ensures var t := Next(s, e); t.final && Quiet(t) && t.sends == s.sends && t.accepted == s.accepted
  {
  }

  // ---------------------------------------------------------------- refusals

  /**
   A refused send puts its own text back, and the flush that issued it returns without having
   delivered the newest text. The newest text can be delivered later exactly if it is the
   refused one: a newer text that was pending is lost for good.
   */
  lemma RefusalKeepsNewestIff(s: State, i: nat, seen: Option<MessageId>, now: int)
    requires Reachable(s) && !s.stopped && Enabled(s, SendSettles(i, Refused, seen, now))
    requires Proper(s.accepted, |s.accepted|)
    ensures var s', n := Next(s, SendSettles(i, Refused, seen, now)), |s.accepted|;
            && s'.pending == s.sends[i].draft && s'.flushes[s.sends[i].flush] == Returned
            && !Delivers(s'.sends, n)
            && (CanDeliver(s', n) <==> s.sends[i].draft.index == n)
  {
    var e, n := SendSettles(i, Refused, seen, now), |s.accepted|;
    var s' := Next(s, e);
    ReachableHasInv(s);
    NextKeepsInv(s, e);
    AliveIffDeliverable(s', n);
    assert s'.sends == s.sends[i := s.sends[i].(outcome := Refused)] && i == |s.sends| - 1;
    assert forall j :: 0 <= j < |s'.sends| && s'.sends[j].draft.index == n ==> s'.sends[j].outcome == Refused;
  }

  /** Two updates and a refusal lose the second update, whatever the two texts are. */
  lemma RefusalLosesNewerText(older: Text, newer: Text)
    requires !Blank(older) && !Blank(newer)
    ensures var events := [Update(older, 0), Update(newer, 0), SendSettles(0, Refused, None, 0)];
            exists s :: Runs(Init(0, false, false, None), events, s)
                        && s.accepted == [older, newer] && s.pending == Draft(1, older) && s.inFlight == None
                        && forall i :: 0 <= i < |s.sends| ==> s.sends[i].draft.text == older
  {
    var e0, e1, e2 := Update(older, 0), Update(newer, 0), SendSettles(0, Refused, None, 0);
    var s0 := Init(0, false, false, None);
    var s1 := Next(s0, e0);
    assert s1.sends == [Send(Draft(1, older), 0, InFlight)] && s1.inFlight == Some(0) && s1.accepted == [older];
    var s2 := Next(s1, e1);
    assert s2.sends == s1.sends && s2.inFlight == Some(0) && s2.accepted == [older, newer] && |s2.flushes| == 1;
    var s3 := Next(s2, e2);
    assert s3.sends == [Send(Draft(1, older), 0, Refused)] && s3.pending == Draft(1, older);
    ThreeSteps(s0, e0, s1, e1, s2, e2, s3);
  }

  lemma ThreeSteps(s0: State, e0: Event, s1: State, e1: Event, s2: State, e2: Event, s3: State)
    requires Enabled(s0, e0) && s1 == Next(s0, e0) && Enabled(s1, e1) && s2 == Next(s1, e1)
    requires Enabled(s2, e2) && s3 == Next(s2, e2)
    ensures Runs(s0, [e0, e1, e2], s3)
  {
    hide Next, Enabled;
    assert Runs(s3, [], s3);
    assert [e2][1..] == [] && Runs(s2, [e2], s3);
    assert [e1, e2][1..] == [e2] && Runs(s1, [e1, e2], s3);
    assert [e0, e1, e2][1..] == [e1, e2] && Runs(s0, [e0, e1, e2], s3);
  }
}
