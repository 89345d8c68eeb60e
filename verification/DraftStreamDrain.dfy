/**
 What becomes of pending text once updates stop: the timer, the sends and the suspended
 flushes take a bounded number of steps, and deliver it exactly if something watches it.
 */
module DraftStreamDrain {
  import opened Optional
  import opened JsText
  import opened DraftStreamProtocol
  import opened DraftStreamTheorems

  // The steps the runtime takes by itself when sends succeed.
  predicate Internal(e: Event) {
    e.TimerFires? || e.FlushResumes? || (e.SendSettles? && e.outcome == Delivered)
  }

  ghost predicate SomeResuming(flushes: seq<Coroutine>) {
    exists f :: 0 <= f < |flushes| && flushes[f] == Resuming
  }

  ghost predicate SomeAwaiting(flushes: seq<Coroutine>) {
    exists f :: 0 <= f < |flushes| && flushes[f].Awaiting?
  }

  // Pending text is under the eye of a send, the timer or a flush about to resume.
  ghost predicate Watched(s: State) {
    Blank(s.pending.text) || s.inFlight.Some? || s.timer || SomeResuming(s.flushes)
  }

  /**
   The step leaves text pending that nothing watches: the timer is reset with no send to follow
   it, a send is refused and nothing else is about to flush, or a send fails that was all that
   a newer text waited for.
   */
  ghost predicate Strands(s: State, e: Event) {
    match e
    case ResetThrottleWindow => !Blank(s.pending.text) && s.inFlight == None && !SomeResuming(s.flushes)
    case SendSettles(_, outcome, _, _) =>
      || (outcome == Refused && !s.timer && !SomeResuming(s.flushes) && !SomeAwaiting(s.flushes))
      || (outcome == Failed && !Blank(s.pending.text) && !s.timer && !SomeResuming(s.flushes))
    case _ => false
  }

  // The step watches over the pending text again, or drops it.
  predicate Attends(s: State, e: Event) {
    match e
    case Update(_, _) => !s.final
    case Flush => true
    case Stop => true
    case LoopStop => true
    case ResetPending => true
    case _ => false
  }

  lemma RunFlushWatches(s: State, f: nat)
    requires !s.stopped && f < |s.flushes|
    ensures Watched(RunFlush(s, f))
  {
  }

  lemma StartFlushWatches(s: State)
    requires !s.stopped
    ensures Watched(StartFlush(s))
  {
    RunFlushWatches(s.(timer := false, flushes := s.flushes + [Resuming]), |s.flushes|);
  }

  lemma UpdateWatches(s: State, text: Text, now: int)
    requires !s.stopped && !s.final
    ensures Watched(AcceptUpdate(s, text, now))
  {
    StartFlushWatches(s.(accepted := s.accepted + [text], pending := Draft(|s.accepted| + 1, text)));
  }

  // Who is about to flush behind a send that was refused or has failed.
  lemma WokenFlushes(sends: seq<Send>, flushes: seq<Coroutine>, i: nat, outcome: Outcome, c: Coroutine)
    requires OneInFlight(sends, Some(i)) && Waiters(sends, Some(i), flushes) && c != Resuming && outcome != InFlight
    ensures var f := sends[i].flush;
            f < |flushes| &&
            (SomeResuming(WakeFlushes(flushes, i, outcome)[f := c])
             <==> SomeResuming(flushes) || (outcome != Failed && SomeAwaiting(flushes)))
  {
    var f := sends[i].flush;
    var woken := WakeFlushes(flushes, i, outcome)[f := c];
    assert flushes[f] == Sending(i);
    if g :| 0 <= g < |flushes| && flushes[g] == Resuming { assert woken[g] == Resuming; }
    if g :| 0 <= g < |flushes| && flushes[g].Awaiting? {
      assert outcome != Failed ==> woken[g] == Resuming;
    }
    if g :| 0 <= g < |woken| && woken[g] == Resuming {
      assert flushes[g] == Resuming || (flushes[g].Awaiting? && outcome != Failed);
    }
  }

  lemma SettlingWatches(s: State, e: Event)
    requires Inv(s) && !s.stopped && Enabled(s, e) && e.SendSettles?
    ensures Watched(Next(s, e)) <==> !Strands(s, e)
  {
    hide SomeResuming, SomeAwaiting;
    var i := e.send;
    if e.outcome == Delivered {
      DeliveryWatches(s, e);
    } else {
      WokenFlushes(s.sends, s.flushes, i, e.outcome, if e.outcome == Failed then Threw else Returned);
    }
  }

  lemma DeliveryWatches(s: State, e: Event)
    requires Inv(s) && !s.stopped && Enabled(s, e) && e.SendSettles? && e.outcome == Delivered
    ensures Watched(Next(s, e))
  {
    RunFlushWatches(Settled(s, e.send, Delivered, e.seen).(lastSentAt := e.now), s.sends[e.send].flush);
  }

  /** While the stream is not stopped, exactly these steps strand pending text or take it up again. */
  lemma WatchedIff(s: State, e: Event)
    requires Inv(s) && Enabled(s, e) && !Next(s, e).stopped
    ensures Watched(Next(s, e)) <==> !Strands(s, e) && (Watched(s) || Attends(s, e))
  {
    hide SomeResuming, SomeAwaiting, RunFlush;
    if s.stopped { StoppedStaysStopped(s, e); }
    match e
    case Update(text, now) => if !s.final { UpdateWatches(s, text, now); }
    case Flush => StartFlushWatches(s);
    case TimerFires => StartFlushWatches(s);
    case SendSettles(i, _, _, _) => SettlingWatches(s, e);
    case FlushResumes(f) =>
      RunFlushWatches(s, f);
      ResumingIsSome(s.flushes, f);
    case Stop => StartFlushWatches(s.(final := true, finals := s.finals + {|s.flushes|}));
    case _ =>
  }

  lemma ResumingIsSome(flushes: seq<Coroutine>, f: nat)
    requires f < |flushes| && flushes[f] == Resuming
    ensures SomeResuming(flushes)
  {
  }

  // Whether the text pending at the end of a run is watched, told from its steps.
  ghost predicate Attended(s: State, events: seq<Event>, was: bool)
    decreases |events|
  {
    if events == [] then was
    else
      Enabled(s, events[0]) &&
      Attended(Next(s, events[0]), events[1..], !Strands(s, events[0]) && (was || Attends(s, events[0])))
  }

  lemma {:induction false} RunIsWatchedIff(s: State, events: seq<Event>, s': State)
    requires Inv(s) && Runs(s, events, s') && !s'.stopped
    ensures Watched(s') <==> Attended(s, events, Watched(s))
    decreases |events|
  {
    if events != [] {
      var t := Next(s, events[0]);
      NextKeepsInv(s, events[0]);
      if t.stopped { RunStaysStopped(t, events[1..], s'); }
      WatchedIff(s, events[0]);
      hide Next, Watched, Strands, Attends, Inv;
      RunIsWatchedIff(t, events[1..], s');
    }
  }

  // ---------------------------------------------------------------- the measure

  function Count(flushes: seq<Coroutine>, awaiting: bool): nat {
    if flushes == [] then 0
    else (if flushes[0] == Resuming || (awaiting && flushes[0].Awaiting?) then 1 else 0) + Count(flushes[1..], awaiting)
  }

  function Counts(c: Coroutine, awaiting: bool): nat {
    if c == Resuming || (awaiting && c.Awaiting?) then 1 else 0
  }

  lemma {:induction false} CountUpdate(flushes: seq<Coroutine>, f: nat, c: Coroutine, awaiting: bool)
    requires f < |flushes|
    ensures Count(flushes[f := c], awaiting)
         == Count(flushes, awaiting) - Counts(flushes[f], awaiting) + Counts(c, awaiting)
  {
    if f == 0 {
      assert flushes[f := c][1..] == flushes[1..];
    } else {
      assert flushes[f := c][1..] == flushes[1..][f - 1 := c];
      CountUpdate(flushes[1..], f - 1, c, awaiting);
    }
  }

  lemma {:induction false} CountAppend(flushes: seq<Coroutine>, c: Coroutine, awaiting: bool)
    ensures Count(flushes + [c], awaiting) == Count(flushes, awaiting) + Counts(c, awaiting)
  {
    if flushes == [] {
      assert flushes + [c] == [c];
    } else {
      assert (flushes + [c])[1..] == flushes[1..] + [c];
      CountAppend(flushes[1..], c, awaiting);
    }
  }

  // Waking turns awaiting flushes into resuming ones.
  lemma {:induction false} CountWake(flushes: seq<Coroutine>, i: nat)
    ensures Count(WakeFlushes(flushes, i, Delivered), true) == Count(flushes, true)
    ensures Count(WakeFlushes(flushes, i, Delivered), false) <= Count(flushes, true)
  {
    if flushes != [] {
      var woken := WakeFlushes(flushes, i, Delivered);
      assert woken[1..] == WakeFlushes(flushes[1..], i, Delivered);
      CountWake(flushes[1..], i);
    }
  }

  // Sends still to come, weighted.
  function SendsLeft(s: State): nat {
    (if s.inFlight.Some? then 1 else 0) + (if Blank(s.pending.text) then 0 else 2)
  }

  function TimerLeft(s: State): nat {
    if s.timer then 1 else 0
  }

  function Measure(s: State): nat {
    SendsLeft(s) * (Count(s.flushes, true) + TimerLeft(s) + 2) + Count(s.flushes, false) + 2 * TimerLeft(s)
  }

  lemma ProductGrows(a: nat, b: nat, c: nat)
    requires a <= b
    ensures a * c <= b * c && c * a <= c * b
  {
  }

  // Running a flush from its loop head costs at most one waiter, and a send if it issues one.
  lemma RunFlushCosts(s: State, f: nat)
    requires Inv(s) && !s.stopped && f < |s.flushes| && s.flushes[f] == Resuming
    ensures Measure(RunFlush(s, f)) < Measure(s)
  {
    var s' := RunFlush(s, f);
    CountUpdate(s.flushes, f, s'.flushes[f], true);
    CountUpdate(s.flushes, f, s'.flushes[f], false);
    var w, w' := Count(s.flushes, true) + TimerLeft(s) + 2, Count(s'.flushes, true) + TimerLeft(s') + 2;
    assert w' <= w && SendsLeft(s') <= SendsLeft(s);
    ProductGrows(SendsLeft(s'), SendsLeft(s), w');
    ProductGrows(w', w, SendsLeft(s));
    assert SendsLeft(s') * w' <= SendsLeft(s) * w;
  }

  lemma TimerCosts(s: State)
    requires Inv(s) && !s.stopped && s.timer
    ensures Measure(StartFlush(s)) < Measure(s)
  {
    var begun := s.(timer := false, flushes := s.flushes + [Resuming]);
    CountAppend(s.flushes, Resuming, true);
    CountAppend(s.flushes, Resuming, false);
    assert Count(begun.flushes, true) + TimerLeft(begun) == Count(s.flushes, true) + TimerLeft(s);
    assert Measure(begun) < Measure(s);
    assert Inv(begun);
    RunFlushCosts(begun, |s.flushes|);
  }

  // One send less pays for every flush that waited for it.
  lemma OneSendLess(left': nat, left: nat, waiters: nat, resuming': nat, timer: nat)
    requires left' + 1 <= left && resuming' <= waiters
    ensures left' * (waiters + timer + 2) + resuming' < left * (waiters + timer + 2)
  {
    var w := waiters + timer + 2;
    ProductGrows(left' + 1, left, w);
    assert (left' + 1) * w == left' * w + w;
  }

  lemma SettledLeavesFewerSends(s: State, i: nat, seen: Option<MessageId>, now: int)
    requires Inv(s) && !s.stopped && Enabled(s, SendSettles(i, Delivered, seen, now))
    ensures var f, s' := s.sends[i].flush, SettleSend(s, i, Delivered, seen, now);
            && f < |s.flushes| == |s'.flushes| && WakeFlushes(s.flushes, i, Delivered)[f] == Sending(i)
            && s'.flushes == WakeFlushes(s.flushes, i, Delivered)[f := s'.flushes[f]]
            && (s'.flushes[f].Sending? || s'.flushes[f] == Returned)
            && s'.timer == s.timer && SendsLeft(s') + 1 <= SendsLeft(s)
  {
  }

  lemma SettlingCosts(s: State, i: nat, seen: Option<MessageId>, now: int)
    requires Inv(s) && !s.stopped && Enabled(s, SendSettles(i, Delivered, seen, now))
    ensures Measure(SettleSend(s, i, Delivered, seen, now)) < Measure(s)
  {
    var f, s', woken := s.sends[i].flush, SettleSend(s, i, Delivered, seen, now), WakeFlushes(s.flushes, i, Delivered);
    SettledLeavesFewerSends(s, i, seen, now);
    CountWake(s.flushes, i);
    CountUpdate(woken, f, s'.flushes[f], true);
    CountUpdate(woken, f, s'.flushes[f], false);
    OneSendLess(SendsLeft(s'), SendsLeft(s), Count(s.flushes, true), Count(s'.flushes, false), TimerLeft(s));
  }

  lemma InternalStepsCost(s: State, e: Event)
    requires Inv(s) && !s.stopped && Enabled(s, e) && Internal(e)
    ensures Measure(Next(s, e)) < Measure(s)
  {
    match e
    case TimerFires => TimerCosts(s);
    case FlushResumes(f) => RunFlushCosts(s, f);
    case SendSettles(i, _, seen, now) => SettlingCosts(s, i, seen, now);
  }

  lemma InternalStepKeeps(s: State, e: Event)
    requires Inv(s) && !s.stopped && Enabled(s, e) && Internal(e)
    ensures Next(s, e).accepted == s.accepted && !Next(s, e).stopped
    ensures forall n :: !LosesText(s, e, n)
    ensures !Strands(s, e)
  {
  }

  lemma {:induction false} InternalRuns(s: State, events: seq<Event>, s': State, n: nat)
    requires Inv(s) && !s.stopped && Runs(s, events, s') && forall e <- events :: Internal(e)
    ensures Inv(s') && !s'.stopped && s'.accepted == s.accepted
    ensures |events| + Measure(s') <= Measure(s)
    ensures Watched(s) ==> Watched(s')
    ensures Proper(s.accepted, n) ==> (Alive(s'.sends, s'.pending, n) <==> Alive(s.sends, s.pending, n))
    decreases |events|
  {
    if events != [] {
      var e := events[0];
      assert Internal(e);
      NextKeepsInv(s, e);
      InternalStepsCost(s, e);
      InternalStepKeeps(s, e);
      WatchedIff(s, e);
      if Proper(s.accepted, n) { TextStep(s, e, n); }
      hide Next, Enabled, Inv, Measure, Watched, Strands, Attends, Alive;
      InternalRuns(Next(s, e), events[1..], s', n);
    }
  }

  ghost predicate Stuck(s: State) {
    forall e | Internal(e) :: !Enabled(s, e)
  }

  lemma StuckIsIdle(s: State)
    requires Inv(s) && Stuck(s)
    ensures s.inFlight == None && !s.timer && !SomeResuming(s.flushes) && !SomeAwaiting(s.flushes)
  {
    assert !Enabled(s, Event.TimerFires);
    if s.inFlight.Some? {
      var i := s.inFlight.value;
      assert s.sends[i].flush < |s.flushes|;
      assert Enabled(s, SendSettles(i, Delivered, None, 0));
    }
    forall f | 0 <= f < |s.flushes| ensures s.flushes[f] != Resuming {
      assert !Enabled(s, FlushResumes(f));
    }
  }

  // Where nothing watches pending text, the runtime has no step left.
  lemma UnwatchedIsOver(s: State, events: seq<Event>, s': State)
    requires Inv(s) && !Watched(s) && Runs(s, events, s') && forall e <- events :: Internal(e)
    ensures s' == s
  {
    if events != [] {
      var e := events[0];
      assert Internal(e) && Enabled(s, e);
      if e.FlushResumes? { ResumingIsSome(s.flushes, e.flush); }
    }
  }

  // What is delivered when nothing is left to do.
  lemma StuckHasDelivered(s: State, s': State, n: nat)
    requires Inv(s') && Stuck(s') && Proper(s'.accepted, n)
    requires (Watched(s) ==> Watched(s')) && (!Watched(s) ==> s' == s)
    requires Alive(s'.sends, s'.pending, n) <==> Alive(s.sends, s.pending, n)
    ensures Delivers(s'.sends, n) <==> Alive(s.sends, s.pending, n) && (Watched(s) || s.pending.index != n)
  {
    hide Stuck, Delivers, Alive;
    StuckIsIdle(s');
    if s'.pending.index != n {
      QuietTextIsDelivered(s', n);
    } else {
      PendingIsNotDelivered(s', n);
    }
  }

  lemma PendingIsNotDelivered(s: State, n: nat)
    requires Inv(s) && s.pending.index == n >= 1
    ensures !Delivers(s.sends, n)
  {
  }

  /**
   From any state of any run on which the stream is not stopped, if no updates arrive and sends
   succeed, the runtime takes a bounded number of steps. When it has none left, nothing is in
   flight and no flush is suspended; and a text that is not blank has then been delivered exactly
   if no step of the run lost it, and it was not left pending with nothing to watch it.
   */
  lemma LastUpdateIsDelivered(throttleMs: int, final: bool, messageId: Option<MessageId>,
                              past: seq<Event>, s: State, events: seq<Event>, s': State, n: nat)
    requires Runs(Init(throttleMs, false, final, messageId), past, s) && !s.stopped
    requires Runs(s, events, s') && forall e <- events :: Internal(e)
    ensures |events| <= Measure(s)
    ensures Stuck(s') ==> s'.inFlight == None && !s'.timer && !SomeResuming(s'.flushes) && !SomeAwaiting(s'.flushes)
    ensures Stuck(s') && Proper(s.accepted, n) ==>
              var init := Init(throttleMs, false, final, messageId);
              (Delivers(s'.sends, n)
               <==> !RunLoses(init, past, n) && (Attended(init, past, true) || s.pending.index != n))
  {
    hide Stuck, Measure, Watched, Inv, Alive, Delivers, RunLoses, Attended, Runs;
    var init := Init(throttleMs, false, final, messageId);
    InitIsWatched(throttleMs, final, messageId);
    RunKeepsInv(init, past, s);
    RunIsWatchedIff(init, past, s);
    InternalRuns(s, events, s', n);
    if Stuck(s') { StuckIsIdle(s'); }
    if Stuck(s') && Proper(s.accepted, n) {
      TextSurvivesIff(init, past, s, n);
      if !Watched(s) { UnwatchedIsOver(s, events, s'); }
      StuckHasDelivered(s, s', n);
    }
  }

  lemma InitIsWatched(throttleMs: int, final: bool, messageId: Option<MessageId>)
    ensures Inv(Init(throttleMs, false, final, messageId)) && Watched(Init(throttleMs, false, final, messageId))
  {
    InitHasInv(throttleMs, false, final, messageId);
  }

  /** An update inside the throttle window and a reset of the window strand the text, whatever it is. */
  lemma ResetStrandsText(text: Text)
    requires !Blank(text)
    ensures exists s :: Runs(Init(100, false, false, None), [Update(text, 0), ResetThrottleWindow], s)
                        && s.accepted == [text] && s.pending == Draft(1, text) && s.sends == [] && Stuck(s)
  {
    var s0, e0, e1 := Init(100, false, false, None), Update(text, 0), ResetThrottleWindow;
    var s1 := Next(s0, e0);
    var s2 := Next(s1, e1);
    assert Runs(s2, [], s2);
    assert [e1][1..] == [] && Runs(s1, [e1], s2);
    assert [e0, e1][1..] == [e1] && Runs(s0, [e0, e1], s2);
  }
}
