/**
 `createDraftStreamLoop` and `createFinalizableDraftStreamControls` with their state updated
 in place. Each method is proved to take exactly the step of the protocol that it stands for.
 */
module DraftStreams {
  import opened Optional
  import opened JsText
  import opened DraftStreamProtocol
  import Theorems = DraftStreamTheorems

  class DraftStream {
    const throttleMs: int
    var lastSentAt: int
    var pending: Draft
    var inFlight: Option<nat>
    var timer: bool
    var stopped: bool
    var final: bool
    var messageId: Option<MessageId>
    var sends: seq<Send>
    var flushes: seq<Coroutine>
    var takes: seq<Take>
    var accepted: seq<Text>
    ghost var finals: set<nat>

    ghost function View(): State
      reads this
    {
      State(throttleMs, lastSentAt, pending, inFlight, timer, stopped, final, messageId,
            sends, flushes, finals, takes, accepted)
    }

    // The object is in a state that some run reaches, so every theorem about runs holds of it.
    ghost predicate Valid()
      reads this
    {
      Theorems.Reachable(View())
    }

    constructor (throttleMs: int, stopped: bool, final: bool, messageId: Option<MessageId>)
      ensures Valid() && View() == Init(throttleMs, stopped, final, messageId)
    {
      this.throttleMs := throttleMs;
      lastSentAt, pending, inFlight, timer := 0, NO_DRAFT, None, false;
      this.stopped, this.final, this.messageId := stopped, final, messageId;
      sends, flushes, takes, accepted, finals := [], [], [], [], {};
      new;
      assert Runs(Init(throttleMs, stopped, final, messageId), [], View());
    }

    // The loop of `flush`; it leaves where the source awaits or returns.
    method RunFlush(f: nat)
      requires f < |flushes|
      modifies this`pending, this`inFlight, this`sends, this`flushes
      ensures View() == DraftStreamProtocol.RunFlush(old(View()), f)
    {
      if stopped {
        flushes := flushes[f := Returned];
        return;
      }
      if inFlight.Some? {
        flushes := flushes[f := Awaiting(inFlight.value)];
        return;
      }
      var draft := pending;
      pending := NO_DRAFT;
      if Blank(draft.text) {
        flushes := flushes[f := Returned];
        return;
      }
      inFlight := Some(|sends|);
      flushes := flushes[f := Sending(|sends|)];
      sends := sends + [Send(draft, f, InFlight)];
    }

    method StartFlush() returns (f: nat)
      modifies this`pending, this`inFlight, this`timer, this`sends, this`flushes
      ensures View() == DraftStreamProtocol.StartFlush(old(View())) && f == |old(flushes)|
    {
      timer := false;
      f := |flushes|;
      flushes := flushes + [Resuming];
      RunFlush(f);
    }

    method Flush()
      requires Valid()
      modifies this
      ensures Valid() && View() == Next(old(View()), Event.Flush)
    {
      Theorems.NextStaysReachable(View(), Event.Flush);
      var f := StartFlush();
    }

    method Update(text: Text, now: int)
      requires Valid()
      modifies this
      ensures Valid() && View() == Next(old(View()), Event.Update(text, now))
    {
      Theorems.NextStaysReachable(View(), Event.Update(text, now));
      Accept(text, now);
    }

    method Accept(text: Text, now: int)
      modifies this
      ensures View() == AcceptUpdate(old(View()), text, now)
    {
      if stopped || final {
        return;
      }
      accepted := accepted + [text];
      pending := Draft(|accepted|, text);
      if inFlight.Some? {
        timer := true;
        return;
      }
      if !timer && now - lastSentAt >= throttleMs {
        var f := StartFlush();
        return;
      }
      timer := true;
    }

    method TimerFires()
      requires Valid() && timer
      modifies this
      ensures Valid() && View() == Next(old(View()), Event.TimerFires)
    {
      Theorems.NextStaysReachable(View(), Event.TimerFires);
      var f := StartFlush();
    }

    // The promise of a send settles: `finally` runs and whoever awaits it wakes up.
    method SettlePromise(i: nat, outcome: Outcome, seen: Option<MessageId>)
      requires i < |sends|
      modifies this`sends, this`inFlight, this`messageId, this`flushes, this`takes
      ensures View() == Settled(old(View()), i, outcome, seen)
    {
      sends := sends[i := sends[i].(outcome := outcome)];
      if inFlight == Some(i) {
        inFlight := None;
      }
      if seen.Some? {
        messageId := seen;
      }
      flushes := WakeFlushes(flushes, i, outcome);
      takes := WakeTakes(takes, i, outcome);
    }

    // `flush` behind the await of the send it issued.
    method Continue(f: nat, draft: Draft, outcome: Outcome, now: int)
      requires f < |flushes|
      modifies this`pending, this`inFlight, this`lastSentAt, this`sends, this`flushes
      ensures View() == DraftStreamProtocol.Continue(old(View()), f, draft, outcome, now)
    {
      if outcome == Failed {
        flushes := flushes[f := Threw];
        return;
      }
      if outcome == Refused {
        pending := draft;
        flushes := flushes[f := Returned];
        return;
      }
      lastSentAt := now;
      if |pending.text| == 0 {
        flushes := flushes[f := Returned];
        return;
      }
      RunFlush(f);
    }

    method SendSettles(i: nat, outcome: Outcome, seen: Option<MessageId>, now: int)
      requires Valid() && Enabled(View(), Event.SendSettles(i, outcome, seen, now))
      modifies this
      ensures Valid() && View() == Next(old(View()), Event.SendSettles(i, outcome, seen, now))
    {
      Theorems.NextStaysReachable(View(), Event.SendSettles(i, outcome, seen, now));
      var f, draft := sends[i].flush, sends[i].draft;
      SettlePromise(i, outcome, seen);
      Continue(f, draft, outcome, now);
    }

    method FlushResumes(f: nat)
      requires Valid() && Enabled(View(), Event.FlushResumes(f))
      modifies this
      ensures Valid() && View() == Next(old(View()), Event.FlushResumes(f))
    {
      Theorems.NextStaysReachable(View(), Event.FlushResumes(f));
      RunFlush(f);
    }

    method Stop()
      requires Valid()
      modifies this
      ensures Valid() && View() == Next(old(View()), Event.Stop)
    {
      Theorems.NextStaysReachable(View(), Event.Stop);
      final := true;
      finals := finals + {|flushes|};
      var f := StartFlush();
    }

    method LoopStop()
      requires Valid()
      modifies this
      ensures Valid() && View() == Next(old(View()), Event.LoopStop)
    {
      Theorems.NextStaysReachable(View(), Event.LoopStop);
      DropPending();
    }

    method DropPending()
      modifies this`pending, this`timer
      ensures pending == NO_DRAFT && !timer
    {
      pending := NO_DRAFT;
      timer := false;
    }

    method ResetPending()
      requires Valid()
      modifies this
      ensures Valid() && View() == Next(old(View()), Event.ResetPending)
    {
      Theorems.NextStaysReachable(View(), Event.ResetPending);
      pending := NO_DRAFT;
    }

    method ResetThrottleWindow()
      requires Valid()
      modifies this
      ensures Valid() && View() == Next(old(View()), Event.ResetThrottleWindow)
    {
      Theorems.NextStaysReachable(View(), Event.ResetThrottleWindow);
      lastSentAt := 0;
      timer := false;
    }

    // `takeMessageIdAfterStop` up to the await inside `stopForClear`.
    method TakeMessageId()
      requires Valid()
      modifies this
      ensures Valid() && View() == Next(old(View()), Event.TakeMessageId)
    {
      Theorems.NextStaysReachable(View(), Event.TakeMessageId);
      stopped := true;
      DropPending();
      takes := takes + [if inFlight.Some? then Stopping(inFlight.value) else Reading];
    }

    method TakeResumes(t: nat) returns (id: Option<MessageId>)
      requires Valid() && Enabled(View(), Event.TakeResumes(t))
      modifies this
      ensures Valid() && View() == Next(old(View()), Event.TakeResumes(t))
      ensures id == old(messageId)
    {
      Theorems.NextStaysReachable(View(), Event.TakeResumes(t));
      id := messageId;
      messageId := None;
      takes := takes[t := Took(id)];
    }
  }
}
