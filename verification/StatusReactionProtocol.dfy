/**
 The status reaction controller as a transition system. `present` is what the adapter's
 platform shows on the message and `calls` is the history of adapter calls. Adapter calls
 are made one at a time by the promise chain; each of them may fail, and a failed call may
 or may not have reached the platform.
 */
module StatusReactionProtocol {
  import opened Optional

  type Emoji = string

  // The controller's falsy value for "no emoji".
  const NO_EMOJI: Emoji := ""

  datatype Emojis = Emojis(
    queued: Emoji, thinking: Emoji, tool: Emoji, coding: Emoji, web: Emoji,
    done: Emoji, error: Emoji, stallSoft: Emoji, stallHard: Emoji, compacting: Emoji)

  // `canRemove` says whether the adapter implements `removeReaction`.
  datatype Config = Config(enabled: bool, canRemove: bool, initial: Emoji, emojis: Emojis)

  datatype Task = Apply(emoji: Emoji) | ClearAll

  // Where the running task of the chain is suspended.
  datatype Worker =
    | Idle
    | Setting(emoji: Emoji, previous: Emoji)
    | Removing(emoji: Emoji, previous: Emoji)
    | Clearing(next: nat)

  datatype Call = SetReaction(emoji: Emoji) | RemoveReaction(emoji: Emoji)

  datatype State = State(
    current: Emoji,
    pending: Emoji,
    debounce: Option<Emoji>,
    stallSoft: bool,
    stallHard: bool,
    finished: bool,
    queue: seq<Task>,
    worker: Worker,
    present: set<Emoji>,
    calls: seq<Call>)

  datatype Event =
    | SetQueued
    | SetThinking
    | SetTool(normalizedName: string)
    | SetCompacting
    | CancelPending
    | SetDone
    | SetError
    | Clear
    | RestoreInitial
    | DebounceFires
    | StallSoftFires
    | StallHardFires
    | TaskStarts
    | CallSettles(succeeded: bool, applied: bool)

  const INIT := State(NO_EMOJI, NO_EMOJI, None, false, false, false, [], Idle, {}, [])

  // ---------------------------------------------------------------- emojis

  const CODING_TOOL_TOKENS: seq<string> :=
    ["exec", "process", "read", "write", "edit", "session_status", "bash"]

  const WEB_TOOL_TOKENS: seq<string> :=
    ["web_search", "web-search", "web_fetch", "web-fetch", "browser"]

  predicate Includes(text: string, token: string) {
    token <= text || (text != "" && Includes(text[1..], token))
  }

  // `normalizedName` is the trimmed, lower-cased tool name, "" when there is none.
  function ResolveToolEmoji(normalizedName: string, emojis: Emojis): Emoji {
    if normalizedName == "" then emojis.tool
    else if exists token | token in WEB_TOOL_TOKENS :: Includes(normalizedName, token) then emojis.web
    else if exists token | token in CODING_TOOL_TOKENS :: Includes(normalizedName, token) then emojis.coding
    else emojis.tool
  }

  // A JavaScript `Set` built from a list keeps the first of equal elements, in order.
  function Distinct(emojis: seq<Emoji>): seq<Emoji> {
    if emojis == [] then []
    else
      var front, last := Distinct(emojis[..|emojis| - 1]), emojis[|emojis| - 1];
      if last in front then front else front + [last]
  }

  function AllEmojis(c: Config): seq<Emoji> {
    [c.initial, c.emojis.queued, c.emojis.thinking, c.emojis.tool, c.emojis.coding, c.emojis.web,
     c.emojis.done, c.emojis.error, c.emojis.stallSoft, c.emojis.stallHard, c.emojis.compacting]
  }

  // `knownEmojis` in iteration order.
  function KnownList(c: Config): seq<Emoji> {
    Distinct(AllEmojis(c))
  }

  // ---------------------------------------------------------------- the platform

  function Just(e: Emoji): set<Emoji> {
    if e == NO_EMOJI then {} else {e}
  }

  // Setting adds a reaction where reactions can be removed one by one, and replaces it elsewhere.
  function Shown(c: Config, present: set<Emoji>, e: Emoji): set<Emoji> {
    if c.canRemove then present + Just(e) else Just(e)
  }

  // ---------------------------------------------------------------- transitions

  function ResetStallTimers(s: State): State {
    s.(stallSoft := true, stallHard := true)
  }

  function ScheduleEmoji(c: Config, s: State, e: Emoji, immediate: bool, skipStallReset: bool): State {
    if !c.enabled || s.finished then s
    else if e == s.current || e == s.pending then
      if skipStallReset then s else ResetStallTimers(s)
    else
      var s' := s.(pending := e, debounce := if immediate then None else Some(e),
                   queue := if immediate then s.queue + [Apply(e)] else s.queue);
      if skipStallReset then s' else ResetStallTimers(s')
  }

  function ClearAllTimers(s: State): State {
    s.(debounce := None, stallSoft := false, stallHard := false)
  }

  function FinishWith(c: Config, s: State, e: Emoji): State {
    if !c.enabled then s
    else ClearAllTimers(s).(finished := true, queue := s.queue + [Apply(e)])
  }

  // Every queued task ends by clearing the pending emoji.
  function EndTask(s: State, current: Emoji): State {
    s.(current := current, pending := NO_EMOJI, worker := Idle)
  }

  function StartTask(c: Config, s: State): State
    requires s.queue != []
  {
    var s' := s.(queue := s.queue[1..]);
    match s.queue[0]
    case Apply(e) =>
      if !c.enabled then EndTask(s', s.current)
      else s'.(worker := Setting(e, s.current), calls := s.calls + [SetReaction(e)])
    case ClearAll => if c.canRemove then ClearFrom(c, s', 0) else EndTask(s', NO_EMOJI)
  }

  function ClearFrom(c: Config, s: State, next: nat): State {
    if next < |KnownList(c)| then
      s.(worker := Clearing(next), calls := s.calls + [RemoveReaction(KnownList(c)[next])])
    else
      EndTask(s, NO_EMOJI)
  }

  function SettleCall(c: Config, s: State, succeeded: bool, applied: bool): State
    requires s.worker != Idle
  {
    match s.worker
    case Setting(e, previous) =>
      var s' := s.(present := if applied then Shown(c, s.present, e) else s.present);
      if !succeeded then EndTask(s', s.current)
      else if c.canRemove && previous != NO_EMOJI && previous != e then
        s'.(worker := Removing(e, previous), calls := s.calls + [RemoveReaction(previous)])
      else EndTask(s', e)
    case Removing(e, previous) =>
      var s' := s.(present := if applied then s.present - {previous} else s.present);
      EndTask(s', if succeeded then e else s.current)
    case Clearing(next) =>
      var e := if next < |KnownList(c)| then KnownList(c)[next] else NO_EMOJI;
      ClearFrom(c, s.(present := if applied then s.present - {e} else s.present), next + 1)
  }

  predicate Enabled(s: State, e: Event) {
    match e
    case DebounceFires => s.debounce.Some?
    case StallSoftFires => s.stallSoft
    case StallHardFires => s.stallHard
    case TaskStarts => s.worker == Idle && s.queue != []
    case CallSettles(succeeded, applied) => s.worker != Idle && (succeeded ==> applied)
    case _ => true
  }

  function Next(c: Config, s: State, e: Event): State
    requires Enabled(s, e)
  {
    match e
    case SetQueued => ScheduleEmoji(c, s, c.emojis.queued, true, false)
    case SetThinking => ScheduleEmoji(c, s, c.emojis.thinking, false, false)
    case SetTool(name) => ScheduleEmoji(c, s, ResolveToolEmoji(name, c.emojis), false, false)
    case SetCompacting => ScheduleEmoji(c, s, c.emojis.compacting, false, false)
    case CancelPending => s.(debounce := None, pending := NO_EMOJI)
    case SetDone => FinishWith(c, s, c.emojis.done)
    case SetError => FinishWith(c, s, c.emojis.error)
    case Clear =>
      if !c.enabled then s else ClearAllTimers(s).(finished := true, queue := s.queue + [ClearAll])
    case RestoreInitial =>
      if !c.enabled then s else ClearAllTimers(s).(queue := s.queue + [Apply(c.initial)])
    case DebounceFires => s.(debounce := None, queue := s.queue + [Apply(s.debounce.value)])
    case StallSoftFires => ScheduleEmoji(c, s.(stallSoft := false), c.emojis.stallSoft, true, true)
    case StallHardFires => ScheduleEmoji(c, s.(stallHard := false), c.emojis.stallHard, true, true)
    case TaskStarts => StartTask(c, s)
    case CallSettles(succeeded, applied) => SettleCall(c, s, succeeded, applied)
  }

  ghost predicate Runs(c: Config, s: State, events: seq<Event>, s': State)
    decreases |events|
  {
    if events == [] then s' == s
    else Enabled(s, events[0]) && Runs(c, Next(c, s, events[0]), events[1..], s')
  }
}
