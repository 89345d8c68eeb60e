/**
 What one call does on each of the paths of `enqueue`, and what becomes of the items that a
 buffer collects: they are handed to `onFlush` together, as one batch.
 */
module DebounceBatches {
  import opened Optional
  import opened DebounceProtocol
  import opened DebounceInvariant
  import opened DebounceTheorems

  // ---------------------------------------------------------------- the paths of enqueue

  // The task that a step has put at the end of the chain of `key`, all others being as they were.
  ghost predicate Chains<T>(s: State<T>, s': State<T>, key: Key, work: Work<T>, gate: Gate) {
    && |s'.tasks| == |s.tasks| + 1
    && s'.keyChains == s.keyChains[key := |s.tasks|]
    && s'.tasks[|s.tasks|].key == key && s'.tasks[|s.tasks|].phase == Waiting
    && s'.tasks[|s.tasks|].work == work && s'.tasks[|s.tasks|].gate == gate
    && s'.tasks[|s.tasks|].previous == (if key in s.keyChains then Some(s.keyChains[key]) else None)
  }

  // No flush has started or ended.
  ghost predicate SameFlushes<T>(s: State<T>, s': State<T>) {
    s'.started == s.started && s'.direct == s.direct
  }

  ghost predicate OthersSame<T>(store: seq<Buffer<T>>, store': seq<Buffer<T>>, b: nat) {
    |store'| == |store| && forall i :: 0 <= i < |store| && i != b ==> store'[i] == store[i]
  }

  /** A debounced item for a key with a buffer goes behind the buffer's items, rearms it, and changes nothing else. */
  lemma CollectsIntoBuffer<T>(s: State<T>, e: Event<T>)
    requires InRange(s) && Debounceable(e) && e.key in s.buffers
    ensures var s', b := Next(s, e), s.buffers[e.key];
            && s'.tasks == s.tasks && s'.buffers == s.buffers && s'.keyChains == s.keyChains && SameFlushes(s, s')
            && OthersSame(s.store, s'.store, b)
            && s'.store[b].items == s.store[b].items + [e.item]
            && s'.store[b].armed && s'.store[b].debounceMs == e.debounceMs
            && s'.store[b].readyReleased == s.store[b].readyReleased && s'.store[b].slot == s.store[b].slot
  {
  }

  /** Where there is room, a debounced item for another key opens an armed buffer with the item and a closed slot. */
  lemma OpensBuffer<T>(s: State<T>, e: Event<T>)
    requires InRange(s) && Debounceable(e) && e.key !in s.buffers
    requires e.key in s.keyChains || |Tracked(s)| < s.maxTrackedKeys
    ensures var s' := Next(s, e);
            && s'.buffers == s.buffers[e.key := |s.store|]
            && s'.store == s.store + [Buffer([e.item], true, e.debounceMs, false, |s.tasks|)]
            && Chains(s, s', e.key, Buffered(|s.store|), UntilFlushed) && s'.tasks[..|s.tasks|] == s.tasks
            && SameFlushes(s, s')
  {
  }

  /** Where there is none, the item is chained by itself. */
  lemma SaturatedIsChained<T>(s: State<T>, e: Event<T>)
    requires InRange(s) && Debounceable(e) && e.key !in Tracked(s) && |Tracked(s)| >= s.maxTrackedKeys
    ensures var s' := Next(s, e);
            && s'.buffers == s.buffers && s'.store == s.store
            && Chains(s, s', e.key, Immediate(e.item), Released) && s'.tasks[..|s.tasks|] == s.tasks
            && SameFlushes(s, s')
  {
  }

  // The buffer has left the map, its timer is off and its slot is open.
  ghost predicate LetGo<T>(s: State<T>, s': State<T>, key: Key)
    requires InRange(s) && key in s.buffers
  {
    var b := s.buffers[key];
    && s'.buffers == s.buffers - {key}
    && OthersSame(s.store, s'.store, b)
    && s'.store[b] == s.store[b].(armed := false, readyReleased := true)
    && var slot := s.store[b].slot;
    && slot < |s.tasks| <= |s'.tasks| && s'.tasks[slot] == s.tasks[slot].(gate := Released)
  }

  /** An immediate item for a key with a buffer lets the buffer go, and waits for it in a slot of its own. */
  lemma ImmediateForcesFlush<T>(s: State<T>, e: Event<T>)
    requires Inv(s) && e.Enqueue? && !Debounceable(e) && e.key in s.buffers
    ensures var s', slot := Next(s, e), s.store[s.buffers[e.key]].slot;
            && LetGo(s, s', e.key) && Chains(s, s', e.key, Immediate(e.item), UntilSettled(slot))
            && (forall t :: 0 <= t < |s.tasks| && t != slot ==> s'.tasks[t] == s.tasks[t])
            && SameFlushes(s, s')
  {
    MappedSlotIsOpen(s, e.key);
  }

  lemma MappedSlotIsOpen<T>(s: State<T>, key: Key)
    requires Inv(s) && key in s.buffers
    ensures key != NO_KEY && !s.store[s.buffers[key]].readyReleased
  {
    assert OwnsTail(s.buffers, s.keyChains, s.store, s.tasks, key);
  }

  /** An immediate item for a key with a chain alone is chained, ready to run. */
  lemma ImmediateIsChained<T>(s: State<T>, e: Event<T>)
    requires Inv(s) && e.Enqueue? && !Debounceable(e) && e.key !in s.buffers && e.key in s.keyChains
    ensures var s' := Next(s, e);
            && s'.buffers == s.buffers && s'.store == s.store
            && Chains(s, s', e.key, Immediate(e.item), Released) && s'.tasks[..|s.tasks|] == s.tasks
            && SameFlushes(s, s')
  {
  }

  /** Any other immediate item is flushed at once, by itself and outside every chain. */
  lemma ImmediateIsDirect<T>(s: State<T>, e: Event<T>)
    requires Inv(s) && e.Enqueue? && !Debounceable(e) && e.key !in s.buffers && e.key !in s.keyChains
    ensures var s' := Next(s, e);
            && s'.buffers == s.buffers && s'.store == s.store && s'.tasks == s.tasks && s'.keyChains == s.keyChains
            && s'.started == s.started + [Batch(e.key, [e.item])] && s'.direct == s.direct + multiset{e.key}
  {
  }

  /** `flushKey` lets the key's buffer go, if there is one, and does nothing else. */
  lemma FlushKeyLetsGo<T>(s: State<T>, key: Key)
    requires Inv(s)
    ensures var s' := Next(s, FlushKey(key));
            if key in s.buffers then
              && LetGo(s, s', key) && |s'.tasks| == |s.tasks| && s'.keyChains == s.keyChains && SameFlushes(s, s')
            else s' == s
  {
    if key in s.buffers { MappedSlotIsOpen(s, key); }
  }

  // What every path leaves of the tasks that were there.
  lemma EnqueueKeepsTasks<T>(s: State<T>, e: Event<T>, t: nat)
    requires Inv(s) && e.Enqueue? && t < |s.tasks|
    ensures t < |Next(s, e).tasks| && Next(s, e).tasks[t].key == s.tasks[t].key
    ensures Next(s, e).tasks[t].phase == s.tasks[t].phase
    ensures s.started <= Next(s, e).started
  {
    EnqueuePaths(s, e);
    hide Next, Inv, InRange;
    if e.key in s.buffers && !Debounceable(e) {
      if t != s.store[s.buffers[e.key]].slot { assert Next(s, e).tasks[t] == s.tasks[t]; }
    } else {
      assert Next(s, e).tasks[..|s.tasks|][t] == s.tasks[t];
    }
  }

  lemma EnqueuePaths<T>(s: State<T>, e: Event<T>)
    requires Inv(s) && e.Enqueue?
    ensures var s' := Next(s, e);
            && |s.tasks| <= |s'.tasks| && s.started <= s'.started
            && if e.key in s.buffers && !Debounceable(e) then
                 var slot := s.store[s.buffers[e.key]].slot;
                 && LetGo(s, s', e.key) && forall t :: 0 <= t < |s.tasks| && t != slot ==> s'.tasks[t] == s.tasks[t]
               else
                 && s'.tasks[..|s.tasks|] == s.tasks
                 && (e.key !in s.buffers ==> s.store == s'.store[..|s.store|] <= s'.store)
  {
    assert s.tasks[..|s.tasks|] == s.tasks && s.store[..|s.store|] == s.store;
    hide Next;
    if Debounceable(e) {
      if e.key in s.buffers {
        CollectsIntoBuffer(s, e);
      } else if e.key in s.keyChains || |Tracked(s)| < s.maxTrackedKeys {
        OpensBuffer(s, e);
      } else {
        SaturatedIsChained(s, e);
      }
    } else if e.key in s.buffers {
      ImmediateForcesFlush(s, e);
    } else if e.key in s.keyChains {
      ImmediateIsChained(s, e);
    } else {
      ImmediateIsDirect(s, e);
    }
  }

  // ---------------------------------------------------------------- one buffer, one batch

  // The event lets buffer b of key k go.
  predicate Releases<T>(e: Event<T>, k: Key, b: nat) {
    match e
    case TimerFires(_, buffer) => buffer == b
    case FlushKey(key) => key == k
    case Enqueue(key, _, _, _) => key == k && !Debounceable(e)
    case _ => false
  }

  // The debounced items of the key up to the event that lets its buffer go, in arrival order.
  function Gathered<T>(k: Key, b: nat, events: seq<Event<T>>): seq<T> {
    if events == [] || Releases(events[0], k, b) then []
    else
      (if Debounceable(events[0]) && events[0].key == k then [events[0].item] else []) + Gathered(k, b, events[1..])
  }

  ghost predicate SomeReleases<T>(k: Key, b: nat, events: seq<Event<T>>) {
    exists i :: 0 <= i < |events| && Releases(events[i], k, b)
  }

  // Two keys never share a buffer.
  lemma BuffersAreApart<T>(s: State<T>, k: Key, other: Key)
    requires Inv(s) && k in s.buffers && other in s.buffers && other != k
    ensures s.buffers[other] != s.buffers[k]
  {
    assert OwnsTail(s.buffers, s.keyChains, s.store, s.tasks, k);
    assert OwnsTail(s.buffers, s.keyChains, s.store, s.tasks, other);
  }

  lemma ReleasingStep<T>(s: State<T>, e: Event<T>, k: Key)
    requires Inv(s) && Enabled(s, e) && k in s.buffers && Releases(e, k, s.buffers[k])
    ensures var s', b := Next(s, e), s.buffers[k];
            && |s'.store| == |s.store| && s'.store[b] == s.store[b].(armed := false, readyReleased := true)
  {
    hide Accept;
    match e
    case Enqueue(_, _, _, _) => ImmediateForcesFlush(s, e);
    case FlushKey(_) => FlushKeyLetsGo(s, k);
    case _ =>
  }

  lemma GatheringStep<T>(s: State<T>, e: Event<T>, k: Key)
    requires Inv(s) && Enabled(s, e) && k in s.buffers && !Releases(e, k, s.buffers[k])
    ensures var s', b := Next(s, e), s.buffers[k];
            && k in s'.buffers && s'.buffers[k] == b && b < |s'.store|
            && s'.store[b].slot == s.store[b].slot && s'.store[b].readyReleased == s.store[b].readyReleased
            && s'.store[b].items
               == s.store[b].items + (if Debounceable(e) && e.key == k then [e.item] else [])
  {
    hide Accept;
    assert s.store[s.buffers[k]].items + [] == s.store[s.buffers[k]].items;
    match e
    case Enqueue(_, _, _, _) => EnqueueGathers(s, e, k);
    case FlushKey(key) =>
      if key in s.buffers { BuffersAreApart(s, k, key); }
    case TimerFires(key, b) =>
      if key in s.buffers && s.buffers[key] == b { BuffersAreApart(s, k, key); }
    case _ =>
  }

  // An item of another key leaves the buffer alone; a debounced one of the key goes into it.
  lemma EnqueueGathers<T>(s: State<T>, e: Event<T>, k: Key)
    requires Inv(s) && k in s.buffers && e.Enqueue? && !(e.key == k && !Debounceable(e))
    ensures var s', b := Next(s, e), s.buffers[k];
            && k in s'.buffers && s'.buffers[k] == b && b < |s'.store|
            && s'.store[b].slot == s.store[b].slot && s'.store[b].readyReleased == s.store[b].readyReleased
            && s'.store[b].items == s.store[b].items + (if e.key == k then [e.item] else [])
  {
    var b := s.buffers[k];
    assert b < |s.store| && s.store[b].items + [] == s.store[b].items;
    if e.key != k && e.key in s.buffers { BuffersAreApart(s, k, e.key); }
    assert InRange(s);
    hide Next, Inv;
    if Debounceable(e) {
      if e.key in s.buffers {
        CollectsIntoBuffer(s, e);
      } else if e.key in s.keyChains || |Tracked(s)| < s.maxTrackedKeys {
        OpensBuffer(s, e);
      } else {
        SaturatedIsChained(s, e);
      }
    } else if e.key in s.buffers {
      ImmediateForcesFlush(s, e);
    } else if e.key in s.keyChains {
      ImmediateIsChained(s, e);
    } else {
      ImmediateIsDirect(s, e);
    }
  }

  // What the events make of a buffer that was in the map.
  ghost predicate Gathers<T>(buffer: Buffer<T>, s: State<T>, k: Key, b: nat, events: seq<Event<T>>) {
    && b < |s.store| && s.store[b].slot == buffer.slot
    && s.store[b].items == buffer.items + Gathered(k, b, events)
    && (s.store[b].readyReleased <==> SomeReleases(k, b, events))
    && (k in s.buffers && s.buffers[k] == b <==> !SomeReleases(k, b, events))
  }

  lemma GathersNothing<T>(s: State<T>, k: Key)
    requires Inv(s) && k in s.buffers
    ensures s.buffers[k] < |s.store| && Gathers(s.store[s.buffers[k]], s, k, s.buffers[k], [])
  {
    MappedSlotIsOpen(s, k);
    assert s.store[s.buffers[k]].items + [] == s.store[s.buffers[k]].items;
  }

  lemma GathersNoMore<T>(buffer: Buffer<T>, s: State<T>, k: Key, b: nat, events: seq<Event<T>>)
    requires events != [] && Releases(events[0], k, b)
    requires b < |s.store| && s.store[b].slot == buffer.slot && s.store[b].items == buffer.items
    requires s.store[b].readyReleased && !(k in s.buffers && s.buffers[k] == b)
    ensures Gathers(buffer, s, k, b, events)
  {
    assert buffer.items + [] == buffer.items;
  }

  lemma GathersFurther<T>(buffer: Buffer<T>, later: Buffer<T>, s: State<T>, k: Key, b: nat, events: seq<Event<T>>)
    requires events != [] && !Releases(events[0], k, b) && Gathers(later, s, k, b, events[1..])
    requires later.slot == buffer.slot
    requires later.items
          == buffer.items + (if Debounceable(events[0]) && events[0].key == k then [events[0].item] else [])
    ensures Gathers(buffer, s, k, b, events)
  {
    SomeReleasesFurther(k, b, events);
    hide SomeReleases;
    var one := if Debounceable(events[0]) && events[0].key == k then [events[0].item] else [];
    assert (buffer.items + one) + Gathered(k, b, events[1..]) == buffer.items + (one + Gathered(k, b, events[1..]));
  }

  /**
   On every run from a state with a buffer for the key, the buffer holds in the end what it held
   and, in arrival order, all debounced items of the key up to the event that let it go; and it
   has been let go exactly if some event of the run does that.
   */
  lemma {:induction false} BufferGathers<T>(s: State<T>, events: seq<Event<T>>, s': State<T>, k: Key)
    requires Inv(s) && k in s.buffers && Runs(s, events, s')
    ensures s.buffers[k] < |s.store| && Gathers(s.store[s.buffers[k]], s', k, s.buffers[k], events)
    decreases |events|
  {
    hide Next, Inv, Gathers, Enabled;
    GathersNothing(s, k);
    var b := s.buffers[k];
    if events != [] {
      var e, t := events[0], Next(s, events[0]);
      NextKeepsInv(s, e);
      if Releases(e, k, b) {
        ReleasingStep(s, e, k);
        ReleasedStaysReleased(t, events[1..], s', k, b);
        GathersNoMore(s.store[b], s', k, b, events);
      } else {
        GatheringStep(s, e, k);
        BufferGathers(t, events[1..], s', k);
        GathersFurther(s.store[b], t.store[b], s', k, b, events);
      }
    }
  }

  lemma ReleasedStaysReleased<T>(s: State<T>, events: seq<Event<T>>, s': State<T>, k: Key, b: nat)
    requires Inv(s) && Runs(s, events, s') && b < |s.store| && s.store[b].readyReleased
    ensures b < |s'.store| && s'.store[b] == s.store[b] && !(k in s'.buffers && s'.buffers[k] == b)
  {
    FlushedBufferIsFrozen(s, events, s', b);
    RunKeepsInv(s, events, s');
    if k in s'.buffers { MappedSlotIsOpen(s', k); }
  }

  lemma SomeReleasesFurther<T>(k: Key, b: nat, events: seq<Event<T>>)
    requires events != [] && !Releases(events[0], k, b)
    ensures SomeReleases(k, b, events) <==> SomeReleases(k, b, events[1..])
  {
    if i :| 0 <= i < |events| && Releases(events[i], k, b) {
      assert events[1..][i - 1] == events[i];
    }
    if i :| 0 <= i < |events[1..]| && Releases(events[1..][i], k, b) {
      assert events[i + 1] == events[1..][i];
    }
  }

  lemma StartedGrows<T>(s: State<T>, e: Event<T>)
    requires Inv(s) && Enabled(s, e)
    ensures s.started <= Next(s, e).started
  {
    hide Accept;
    if e.Enqueue? { EnqueuePaths(s, e); }
  }

  lemma {:induction false} StartedStays<T>(s: State<T>, events: seq<Event<T>>, s': State<T>)
    requires Inv(s) && Runs(s, events, s')
    ensures s.started <= s'.started
    decreases |events|
  {
    if events != [] {
      NextKeepsInv(s, events[0]);
      StartedGrows(s, events[0]);
      StartedStays(Next(s, events[0]), events[1..], s');
    }
  }

  // A task leaves `Waiting` by starting, and never waits again; it keeps its key.
  lemma WaitingStep<T>(s: State<T>, e: Event<T>, t: nat)
    requires Inv(s) && Enabled(s, e) && t < |s.tasks|
    ensures t < |Next(s, e).tasks| && Next(s, e).tasks[t].key == s.tasks[t].key
    ensures Next(s, e).tasks[t].phase == Waiting <==> s.tasks[t].phase == Waiting && e != TaskStarts(t)
    ensures e == TaskStarts(t) ==> s.tasks[t].phase == Waiting
  {
    hide Accept;
    if e.Enqueue? {
      EnqueueKeepsTasks(s, e, t);
    } else if e.FlushKey? {
      FlushKeyLetsGo(s, e.key);
    }
  }

  lemma {:induction false} StartedTaskStartsNoMore<T>(s: State<T>, events: seq<Event<T>>, s': State<T>, t: nat)
    requires Inv(s) && Runs(s, events, s') && t < |s.tasks| && s.tasks[t].phase != Waiting
    ensures TaskStarts(t) !in events && t < |s'.tasks| && s'.tasks[t].phase != Waiting
    decreases |events|
  {
    hide Next, Inv, Enabled;
    if events != [] {
      NextKeepsInv(s, events[0]);
      WaitingStep(s, events[0], t);
      StartedTaskStartsNoMore(Next(s, events[0]), events[1..], s', t);
      assert events == [events[0]] + events[1..];
    }
  }

  // Where a run starts a task, there is one place where it does.
  lemma {:induction false} StartIsSomewhere<T>(s: State<T>, events: seq<Event<T>>, s': State<T>, t: nat)
      returns (past: seq<Event<T>>, at: State<T>, rest: seq<Event<T>>)
    requires Inv(s) && Runs(s, events, s') && t < |s.tasks| && s.tasks[t].phase == Waiting
    requires t < |s'.tasks| && s'.tasks[t].phase != Waiting
    ensures events == past + [TaskStarts(t)] + rest && TaskStarts(t) !in past && TaskStarts(t) !in rest
    ensures Runs(s, past, at) && Inv(at) && t < |at.tasks| && at.tasks[t].phase == Waiting
    ensures Enabled(at, TaskStarts(t)) && Runs(Next(at, TaskStarts(t)), rest, s')
    decreases |events|
  {
    hide Next, Inv, Enabled;
    var e, next := events[0], Next(s, events[0]);
    NextKeepsInv(s, e);
    WaitingStep(s, e, t);
    assert events == [e] + events[1..];
    if e == TaskStarts(t) {
      past, at, rest := [], s, events[1..];
      assert Runs(s, [], s) && [] + [e] + rest == [e] + rest;
      StartedTaskStartsNoMore(next, rest, s', t);
    } else {
      past, at, rest := StartIsSomewhere(next, events[1..], s', t);
      RunsFrom(s, e, past, at);
      assert [e] + (past + [TaskStarts(t)] + rest) == ([e] + past) + [TaskStarts(t)] + rest;
      past := [e] + past;
    }
  }

  lemma RunsFrom<T>(s: State<T>, e: Event<T>, events: seq<Event<T>>, s': State<T>)
    requires InRange(s) && Enabled(s, e) && Runs(Next(s, e), events, s')
    ensures Runs(s, [e] + events, s')
  {
    hide Next, Enabled;
    assert ([e] + events)[1..] == events;
  }

  /**
   A buffer's items reach `onFlush` as one batch: if its slot has started by the end of a run, it
   started at one place of the run, and there the batch handed over is what the buffer held at
   first and all debounced items of the key that came until it was let go.
   */
  lemma BufferIsOneBatch<T>(s: State<T>, events: seq<Event<T>>, s': State<T>, k: Key)
      returns (past: seq<Event<T>>, at: State<T>, rest: seq<Event<T>>)
    requires Inv(s) && k in s.buffers && Runs(s, events, s')
    requires var slot := s.store[s.buffers[k]].slot; slot < |s'.tasks| && s'.tasks[slot].phase != Waiting
    ensures var b := s.buffers[k];
            var start := TaskStarts(s.store[b].slot);
            && events == past + [start] + rest && start !in past && start !in rest && Runs(s, past, at)
            && at.started + [Batch(k, s.store[b].items + Gathered(k, b, events))] <= s'.started
            && InRange(at) && Enabled(at, start)
            && Next(at, start).started == at.started + [Batch(k, s.store[b].items + Gathered(k, b, events))]
  {
    var b := s.buffers[k];
    var slot := s.store[b].slot;
    assert OwnsTail(s.buffers, s.keyChains, s.store, s.tasks, k);
    past, at, rest := StartIsSomewhere(s, events, s', slot);
    var start := TaskStarts(slot);
    var next := Next(at, start);
    BufferGathers(s, events, s', k);
    BufferGathers(s, past, at, k);
    RunKeepsKey(s, past, at, slot);
    NextKeepsInv(at, start);
    StartedSlotIsReleased(at, b);
    FlushedBufferIsFrozen(at, [start] + rest, s', b) by { assert ([start] + rest)[1..] == rest; }
    StartHandsOver(at, slot, b);
    StartedStays(next, rest, s');
  }

  lemma StartedSlotIsReleased<T>(s: State<T>, b: nat)
    requires Inv(s) && b < |s.store| && Enabled(s, TaskStarts(s.store[b].slot))
    ensures s.store[b].readyReleased
  {
  }

  lemma StartHandsOver<T>(s: State<T>, slot: nat, b: nat)
    requires Inv(s) && b < |s.store| && s.store[b].slot == slot && Enabled(s, TaskStarts(slot))
    ensures Next(s, TaskStarts(slot)).started == s.started + [Batch(s.tasks[slot].key, s.store[b].items)]
  {
  }

  lemma {:induction false} RunKeepsKey<T>(s: State<T>, events: seq<Event<T>>, s': State<T>, t: nat)
    requires Inv(s) && Runs(s, events, s') && t < |s.tasks|
    ensures t < |s'.tasks| && s'.tasks[t].key == s.tasks[t].key
    decreases |events|
  {
    if events != [] {
      NextKeepsInv(s, events[0]);
      WaitingStep(s, events[0], t);
      RunKeepsKey(Next(s, events[0]), events[1..], s', t);
    }
  }
}
