/**
 `createStatusReactionController` with its state updated in place. Each method is proved to
 take exactly the step of the protocol that it stands for; the recorded history is a run of the
 protocol that ends in the object's state, so every theorem about runs holds of the object.
 */
module StatusReactions {
  import opened Optional
  import opened StatusReactionProtocol
  import Theorems = StatusReactionTheorems

  class StatusReactionController {
    const config: Config
    var currentEmoji: Emoji
    var pendingEmoji: Emoji
    var debounceTimer: Option<Emoji>
    var stallSoftTimer: bool
    var stallHardTimer: bool
    var finished: bool
    var chain: seq<Task>
    var worker: Worker
    ghost var present: set<Emoji>
    ghost var calls: seq<Call>
    ghost var history: seq<Event>

    ghost function View(): State
      reads this
    {
      State(currentEmoji, pendingEmoji, debounceTimer, stallSoftTimer, stallHardTimer, finished,
            chain, worker, present, calls)
    }

    // The object is where its history of events leads.
    ghost predicate Valid()
      reads this
    {
      Runs(config, INIT, history, View())
    }

    constructor (config: Config)
      ensures Valid() && this.config == config && View() == INIT && history == []
    {
      this.config := config;
      currentEmoji, pendingEmoji, debounceTimer := NO_EMOJI, NO_EMOJI, None;
      stallSoftTimer, stallHardTimer, finished := false, false, false;
      chain, worker, present, calls, history := [], Idle, {}, [], [];
    }

    // The step from `before` to the present state is written down.
    ghost method Record(before: State, e: Event)
      requires Runs(config, INIT, history, before) && Enabled(before, e) && View() == Next(config, before, e)
      modifies this`history
      ensures Valid() && history == old(history) + [e]
    {
      Theorems.RunsAppend(config, INIT, history, before, e);
      history := history + [e];
    }

    method Enqueue(task: Task)
      modifies this`chain
      ensures chain == old(chain) + [task]
    {
      chain := chain + [task];
    }

    method ClearAllTimers()
      modifies this`debounceTimer, this`stallSoftTimer, this`stallHardTimer
      ensures View() == StatusReactionProtocol.ClearAllTimers(old(View()))
    {
      debounceTimer := None;
      stallSoftTimer := false;
      stallHardTimer := false;
    }

    method ResetStallTimers()
      modifies this`stallSoftTimer, this`stallHardTimer
      ensures View() == StatusReactionProtocol.ResetStallTimers(old(View()))
    {
      stallSoftTimer := true;
      stallHardTimer := true;
    }

    method ScheduleEmoji(emoji: Emoji, immediate: bool, skipStallReset: bool)
      modifies this`pendingEmoji, this`debounceTimer, this`stallSoftTimer, this`stallHardTimer, this`chain
      ensures View() == StatusReactionProtocol.ScheduleEmoji(config, old(View()), emoji, immediate, skipStallReset)
    {
      if !config.enabled || finished {
        return;
      }
      if emoji == currentEmoji || emoji == pendingEmoji {
        if !skipStallReset {
          ResetStallTimers();
        }
        return;
      }
      pendingEmoji := emoji;
      debounceTimer := None;
      if immediate {
        Enqueue(Apply(emoji));
      } else {
        debounceTimer := Some(emoji);
      }
      if !skipStallReset {
        ResetStallTimers();
      }
    }

    method SetQueued()
      requires Valid()
      modifies this
      ensures Valid() && View() == Next(config, old(View()), Event.SetQueued)
      ensures history == old(history) + [Event.SetQueued]
    {
      ghost var before := View();
      ScheduleEmoji(config.emojis.queued, true, false);
      Record(before, Event.SetQueued);
    }

    method SetThinking()
      requires Valid()
      modifies this
      ensures Valid() && View() == Next(config, old(View()), Event.SetThinking)
      ensures history == old(history) + [Event.SetThinking]
    {
      ghost var before := View();
      ScheduleEmoji(config.emojis.thinking, false, false);
      Record(before, Event.SetThinking);
    }

    method SetTool(normalizedName: string)
      requires Valid()
      modifies this
      ensures Valid() && View() == Next(config, old(View()), Event.SetTool(normalizedName))
      ensures history == old(history) + [Event.SetTool(normalizedName)]
    {
      ghost var before := View();
      ScheduleEmoji(ResolveToolEmoji(normalizedName, config.emojis), false, false);
      Record(before, Event.SetTool(normalizedName));
    }

    method SetCompacting()
      requires Valid()
      modifies this
      ensures Valid() && View() == Next(config, old(View()), Event.SetCompacting)
      ensures history == old(history) + [Event.SetCompacting]
    {
      ghost var before := View();
      ScheduleEmoji(config.emojis.compacting, false, false);
      Record(before, Event.SetCompacting);
    }

    method CancelPending()
      requires Valid()
      modifies this
      ensures Valid() && View() == Next(config, old(View()), Event.CancelPending)
      ensures history == old(history) + [Event.CancelPending]
    {
      ghost var before := View();
      debounceTimer := None;
      pendingEmoji := NO_EMOJI;
      Record(before, Event.CancelPending);
    }

    method FinishWithEmoji(emoji: Emoji)
      modifies this`finished, this`debounceTimer, this`stallSoftTimer, this`stallHardTimer, this`chain
      ensures View() == FinishWith(config, old(View()), emoji)
    {
      if !config.enabled {
        return;
      }
      finished := true;
      ClearAllTimers();
      Enqueue(Apply(emoji));
    }

    method SetDone()
      requires Valid()
      modifies this
      ensures Valid() && View() == Next(config, old(View()), Event.SetDone)
      ensures history == old(history) + [Event.SetDone]
    {
      ghost var before := View();
      FinishWithEmoji(config.emojis.done);
      Record(before, Event.SetDone);
    }

    method SetError()
      requires Valid()
      modifies this
      ensures Valid() && View() == Next(config, old(View()), Event.SetError)
      ensures history == old(history) + [Event.SetError]
    {
      ghost var before := View();
      FinishWithEmoji(config.emojis.error);
      Record(before, Event.SetError);
    }

    method Clear()
      requires Valid()
      modifies this
      ensures Valid() && View() == Next(config, old(View()), Event.Clear)
      ensures history == old(history) + [Event.Clear]
    {
      ghost var before := View();
      if !config.enabled {
        Record(before, Event.Clear);
        return;
      }
      ClearAllTimers();
      finished := true;
      Enqueue(ClearAll);
      Record(before, Event.Clear);
    }

    method RestoreInitial()
      requires Valid()
      modifies this
      ensures Valid() && View() == Next(config, old(View()), Event.RestoreInitial)
      ensures history == old(history) + [Event.RestoreInitial]
    {
      ghost var before := View();
      if !config.enabled {
        Record(before, Event.RestoreInitial);
        return;
      }
      ClearAllTimers();
      Enqueue(Apply(config.initial));
      Record(before, Event.RestoreInitial);
    }

    // The callbacks of the runtime.

    method DebounceFires()
      requires Valid() && debounceTimer.Some?
      modifies this
      ensures Valid() && View() == Next(config, old(View()), Event.DebounceFires)
      ensures history == old(history) + [Event.DebounceFires]
    {
      ghost var before := View();
      Enqueue(Apply(debounceTimer.value));
      debounceTimer := None;
      Record(before, Event.DebounceFires);
    }

    method StallSoftFires()
      requires Valid() && stallSoftTimer
      modifies this
      ensures Valid() && View() == Next(config, old(View()), Event.StallSoftFires)
      ensures history == old(history) + [Event.StallSoftFires]
    {
      ghost var before := View();
      stallSoftTimer := false;
      ScheduleEmoji(config.emojis.stallSoft, true, true);
      Record(before, Event.StallSoftFires);
    }

    method StallHardFires()
      requires Valid() && stallHardTimer
      modifies this
      ensures Valid() && View() == Next(config, old(View()), Event.StallHardFires)
      ensures history == old(history) + [Event.StallHardFires]
    {
      ghost var before := View();
      stallHardTimer := false;
      ScheduleEmoji(config.emojis.stallHard, true, true);
      Record(before, Event.StallHardFires);
    }

    method EndTask(current: Emoji)
      modifies this`currentEmoji, this`pendingEmoji, this`worker
      ensures View() == StatusReactionProtocol.EndTask(old(View()), current)
    {
      currentEmoji := current;
      pendingEmoji := NO_EMOJI;
      worker := Idle;
    }

    // The removal loop of `clear`, up to its next await.
    method ClearFrom(next: nat)
      modifies this`currentEmoji, this`pendingEmoji, this`worker, this`calls
      ensures View() == StatusReactionProtocol.ClearFrom(config, old(View()), next)
    {
      var known := KnownList(config);
      if next < |known| {
        worker := Clearing(next);
        calls := calls + [RemoveReaction(known[next])];
      } else {
        EndTask(NO_EMOJI);
      }
    }

    method TaskStarts()
      requires Valid() && Enabled(View(), Event.TaskStarts)
      modifies this
      ensures Valid() && View() == Next(config, old(View()), Event.TaskStarts)
      ensures history == old(history) + [Event.TaskStarts]
    {
      ghost var before := View();
      StartTask();
      Record(before, Event.TaskStarts);
    }

    // A task of the chain up to its first await.
    method StartTask()
      requires chain != []
      modifies this`chain, this`currentEmoji, this`pendingEmoji, this`worker, this`calls
      ensures View() == StatusReactionProtocol.StartTask(config, old(View()))
    {
      var task := chain[0];
      chain := chain[1..];
      match task {
        case Apply(emoji) =>
          if !config.enabled {
            EndTask(currentEmoji);
            return;
          }
          worker := Setting(emoji, currentEmoji);
          calls := calls + [SetReaction(emoji)];
        case ClearAll =>
          if config.canRemove {
            ClearFrom(0);
          } else {
            EndTask(NO_EMOJI);
          }
      }
    }

    method CallSettles(succeeded: bool, ghost applied: bool)
      requires Valid() && Enabled(View(), Event.CallSettles(succeeded, applied))
      modifies this
      ensures Valid() && View() == Next(config, old(View()), Event.CallSettles(succeeded, applied))
      ensures history == old(history) + [Event.CallSettles(succeeded, applied)]
    {
      ghost var before := View();
      SettleCall(succeeded, applied);
      Record(before, Event.CallSettles(succeeded, applied));
    }

    // A task behind the await of an adapter call, up to its next await or its end.
    method SettleCall(succeeded: bool, ghost applied: bool)
      requires worker != Idle
      modifies this`currentEmoji, this`pendingEmoji, this`worker, this`present, this`calls
      ensures View() == StatusReactionProtocol.SettleCall(config, old(View()), succeeded, applied)
    {
      hide KnownList;
      match worker {
        case Setting(emoji, previous) =>
          present := if applied then Shown(config, present, emoji) else present;
          if !succeeded {
            EndTask(currentEmoji);
          } else if config.canRemove && previous != NO_EMOJI && previous != emoji {
            worker := Removing(emoji, previous);
            calls := calls + [RemoveReaction(previous)];
          } else {
            EndTask(emoji);
          }
        case Removing(emoji, previous) =>
          present := if applied then present - {previous} else present;
          EndTask(if succeeded then emoji else currentEmoji);
        case Clearing(next) =>
          ghost var emoji := if next < |KnownList(config)| then KnownList(config)[next] else NO_EMOJI;
          present := if applied then present - {emoji} else present;
          ClearFrom(next + 1);
      }
    }
  }
}
