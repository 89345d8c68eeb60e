/**
 The throttled draft stream loop and its finalizable controls as a transition system.

 Every call of `flush` is a coroutine `flushes[f]`, every call of the send callback is
 `sends[i]`, every call of `takeMessageIdAfterStop` is `takes[t]`. A send that settles, the
 `finally` that clears `inFlightPromise` and the continuation of the flush that issued the
 send form one step; the other flushes awaiting that send resume in later steps, in any order.
 Texts are numbered by the accepted update that wrote them.
 */
module DraftStreamProtocol {
  import opened Optional
  import opened JsText

  type MessageId = string

  // `pendingText` with the number of the update that wrote it.
  datatype Draft = Draft(index: nat, text: Text)

  const NO_DRAFT := Draft(0, [])

  datatype Outcome = InFlight | Delivered | Refused | Failed

  datatype Send = Send(draft: Draft, flush: nat, outcome: Outcome)

  datatype Coroutine = Sending(send: nat) | Awaiting(send: nat) | Resuming | Returned | Threw

  datatype Take = Stopping(send: nat) | Reading | Took(id: Option<MessageId>) | Rejected

  datatype State = State(
    throttleMs: int,
    lastSentAt: int,
    pending: Draft,
    inFlight: Option<nat>,
    timer: bool,
    stopped: bool,
    final: bool,
    messageId: Option<MessageId>,
    sends: seq<Send>,
    flushes: seq<Coroutine>,
    finals: set<nat>,
    takes: seq<Take>,
    accepted: seq<Text>)

  datatype Event =
    | Update(text: Text, now: int)
    | Flush
    | TimerFires
    | SendSettles(send: nat, outcome: Outcome, seen: Option<MessageId>, now: int)
    | FlushResumes(flush: nat)
    | Stop
    | TakeMessageId
    | TakeResumes(take: nat)
    | LoopStop
    | ResetPending
    | ResetThrottleWindow
    | MarkStopped

  function Init(throttleMs: int, stopped: bool, final: bool, messageId: Option<MessageId>): State {
    State(throttleMs, 0, NO_DRAFT, None, false, stopped, final, messageId, [], [], {}, [], [])
  }

  // ---------------------------------------------------------------- transitions

  function IssueSend(s: State, f: nat): State
    requires f < |s.flushes|
  {
    s.(pending := NO_DRAFT,
       sends := s.sends + [Send(s.pending, f, InFlight)],
       inFlight := Some(|s.sends|),
       flushes := s.flushes[f := Sending(|s.sends|)])
  }

  // The loop of `flush` from its head to its next await or return.
  function RunFlush(s: State, f: nat): State
    requires f < |s.flushes|
  {
    if s.stopped then
      s.(flushes := s.flushes[f := Returned])
    else if s.inFlight.Some? then
      s.(flushes := s.flushes[f := Awaiting(s.inFlight.value)])
    else if Blank(s.pending.text) then
      s.(pending := NO_DRAFT, flushes := s.flushes[f := Returned])
    else
      IssueSend(s, f)
  }

  function StartFlush(s: State): State {
    RunFlush(s.(timer := false, flushes := s.flushes + [Resuming]), |s.flushes|)
  }

  function AcceptUpdate(s: State, text: Text, now: int): State {
    if s.stopped || s.final then s else
    var s' := s.(accepted := s.accepted + [text], pending := Draft(|s.accepted| + 1, text));
    if s.inFlight.Some? then
      s'.(timer := true)
    else if !s.timer && now - s.lastSentAt >= s.throttleMs then
      StartFlush(s')
    else
      s'.(timer := true)
  }

  // Awaiting a promise that rejects throws; awaiting one that resolves resumes.
  function WakeFlushes(flushes: seq<Coroutine>, i: nat, outcome: Outcome): seq<Coroutine> {
    seq(|flushes|, f requires 0 <= f < |flushes| =>
      if flushes[f] == Awaiting(i) then (if outcome == Failed then Threw else Resuming) else flushes[f])
  }

  function WakeTakes(takes: seq<Take>, i: nat, outcome: Outcome): seq<Take> {
    seq(|takes|, t requires 0 <= t < |takes| =>
      if takes[t] == Stopping(i) then (if outcome == Failed then Rejected else Reading) else takes[t])
  }

  // The flush that issued the send continues behind its await.
  function Continue(s: State, f: nat, draft: Draft, outcome: Outcome, now: int): State
    requires f < |s.flushes|
  {
    match outcome
    case Failed => s.(flushes := s.flushes[f := Threw])
    case Refused => s.(pending := draft, flushes := s.flushes[f := Returned])
    case _ =>
      var s' := s.(lastSentAt := now);
      if s'.pending.text == [] then s'.(flushes := s'.flushes[f := Returned]) else RunFlush(s', f)
  }

  // The promise of send i settles and its `finally` runs.
  function Settled(s: State, i: nat, outcome: Outcome, seen: Option<MessageId>): State
    requires i < |s.sends|
  {
    s.(sends := s.sends[i := s.sends[i].(outcome := outcome)],
       inFlight := if s.inFlight == Some(i) then None else s.inFlight,
       messageId := if seen.Some? then seen else s.messageId,
       flushes := WakeFlushes(s.flushes, i, outcome),
       takes := WakeTakes(s.takes, i, outcome))
  }

  function SettleSend(s: State, i: nat, outcome: Outcome, seen: Option<MessageId>, now: int): State
    requires i < |s.sends| && s.sends[i].flush < |s.flushes|
  {
    Continue(Settled(s, i, outcome, seen), s.sends[i].flush, s.sends[i].draft, outcome, now)
  }

  // `stopForClear`, up to its await.
  function BeginTake(s: State): State {
    s.(stopped := true, pending := NO_DRAFT, timer := false,
       takes := s.takes + [if s.inFlight.Some? then Stopping(s.inFlight.value) else Reading])
  }

  predicate Enabled(s: State, e: Event) {
    match e
    case TimerFires => s.timer
    case SendSettles(i, outcome, _, _) =>
      i < |s.sends| && s.sends[i].outcome == InFlight && s.sends[i].flush < |s.flushes| && outcome != InFlight
    case FlushResumes(f) => f < |s.flushes| && s.flushes[f] == Resuming
    case TakeResumes(t) => t < |s.takes| && s.takes[t] == Reading
    case _ => true
  }

  function Next(s: State, e: Event): State
    requires Enabled(s, e)
  {
    match e
    case Update(text, now) => AcceptUpdate(s, text, now)
    case Flush => StartFlush(s)
    case TimerFires => StartFlush(s)
    case SendSettles(i, outcome, seen, now) => SettleSend(s, i, outcome, seen, now)
    case FlushResumes(f) => RunFlush(s, f)
    case Stop => StartFlush(s.(final := true, finals := s.finals + {|s.flushes|}))
    case TakeMessageId => BeginTake(s)
    case TakeResumes(t) => s.(takes := s.takes[t := Took(s.messageId)], messageId := None)
    case LoopStop => s.(pending := NO_DRAFT, timer := false)
    case ResetPending => s.(pending := NO_DRAFT)
    case ResetThrottleWindow => s.(lastSentAt := 0, timer := false)
    case MarkStopped => s.(stopped := true)
  }

  ghost predicate Runs(s: State, events: seq<Event>, s': State)
    decreases |events|
  {
    if events == [] then s' == s
    else Enabled(s, events[0]) && Runs(Next(s, events[0]), events[1..], s')
  }

  // ---------------------------------------------------------------- invariant

  // A numbered text is the text of the update with that number.
  ghost predicate Authentic(draft: Draft, accepted: seq<Text>) {
    1 <= draft.index <= |accepted| && draft.text == accepted[draft.index - 1]
  }

  // The only send that may be in flight is the newest one, and `inFlightPromise` is its promise.
  ghost predicate OneInFlight(sends: seq<Send>, inFlight: Option<nat>) {
    && (forall i :: 0 <= i < |sends| && sends[i].outcome == InFlight ==> inFlight == Some(i))
    && (inFlight.Some? ==> inFlight.value == |sends| - 1 && sends[inFlight.value].outcome == InFlight)
  }

  // A text goes out after an older one, and once more only if it was refused.
  ghost predicate Before(earlier: Send, later: nat) {
    earlier.draft.index < later || (earlier.draft.index == later && earlier.outcome == Refused)
  }

  ghost predicate InOrder(sends: seq<Send>, pending: Draft) {
    && (forall i, j :: 0 <= i < j < |sends| ==> Before(sends[i], sends[j].draft.index))
    && (pending != NO_DRAFT ==> forall i :: 0 <= i < |sends| ==> Before(sends[i], pending.index))
  }

  ghost predicate Genuine(sends: seq<Send>, pending: Draft, accepted: seq<Text>) {
    && (forall i :: 0 <= i < |sends| ==> Authentic(sends[i].draft, accepted) && !Blank(sends[i].draft.text))
    && (pending == NO_DRAFT || Authentic(pending, accepted))
  }

  ghost predicate Waiters(sends: seq<Send>, inFlight: Option<nat>, flushes: seq<Coroutine>) {
    && (forall i :: 0 <= i < |sends| ==> sends[i].flush < |flushes|)
    && (forall f :: 0 <= f < |flushes| && flushes[f].Awaiting? ==> inFlight == Some(flushes[f].send))
    && (forall i :: 0 <= i < |sends| && sends[i].outcome == InFlight ==> flushes[sends[i].flush] == Sending(i))
  }

  // While a take waits or after it, the stream is stopped; once it reads, nothing is in flight.
  ghost predicate Takes(takes: seq<Take>, stopped: bool, inFlight: Option<nat>, messageId: Option<MessageId>) {
    && (takes != [] ==> stopped)
    && forall t :: 0 <= t < |takes| ==>
      && (takes[t].Stopping? ==> inFlight == Some(takes[t].send))
      && (!takes[t].Stopping? ==> inFlight == None)
      && (takes[t].Took? ==> messageId == None)
  }

  ghost predicate Inv(s: State) {
    && OneInFlight(s.sends, s.inFlight)
    && InOrder(s.sends, s.pending)
    && Genuine(s.sends, s.pending, s.accepted)
    && Waiters(s.sends, s.inFlight, s.flushes)
    && Takes(s.takes, s.stopped, s.inFlight, s.messageId)
  }
}
