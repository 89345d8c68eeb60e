/**
 What the debouncer promises on every run: per key, items are handed to `onFlush` exactly
 once and in arrival order; and once items stop arriving, everything drains.
 */
module DebounceTheorems {
  import opened Optional
  import opened DebounceProtocol
  import opened DebounceInvariant

  // ---------------------------------------------------------------- runs

  ghost predicate Runs<T>(s: State<T>, events: seq<Event<T>>, s': State<T>)
    decreases |events|
  {
    if events == [] then s' == s
    else InRange(s) && Enabled(s, events[0]) && Runs(Next(s, events[0]), events[1..], s')
  }

  lemma {:induction false} RunKeepsInv<T>(s: State<T>, events: seq<Event<T>>, s': State<T>)
    requires Inv(s) && Runs(s, events, s')
    ensures Inv(s')
    decreases |events|
  {
    if events != [] {
      NextKeepsInv(s, events[0]);
      RunKeepsInv(Next(s, events[0]), events[1..], s');
    }
  }

  // ---------------------------------------------------------------- arrival order

  lemma {:induction false} FlattenConcat<T>(a: seq<seq<T>>, b: seq<seq<T>>)
    ensures Flatten(a + b) == Flatten(a) + Flatten(b)
  {
    if a == [] {
      assert a + b == b;
    } else {
      assert (a + b)[1..] == a[1..] + b;
      FlattenConcat(a[1..], b);
    }
  }

  lemma {:induction false} FlattenEmpties<T>(parts: seq<seq<T>>)
    requires forall i :: 0 <= i < |parts| ==> parts[i] == []
    ensures Flatten(parts) == []
  {
    if parts != [] { FlattenEmpties(parts[1..]); }
  }

  lemma FlattenSplit<T>(parts: seq<seq<T>>, i: nat, part: seq<T>)
    requires i < |parts|
    ensures Flatten(parts[i := part]) == Flatten(parts[..i]) + part + Flatten(parts[i + 1..])
  {
    assert parts[i := part] == parts[..i] + ([part] + parts[i + 1..]);
    assert ([part] + parts[i + 1..])[1..] == parts[i + 1..];
    FlattenConcat(parts[..i], [part] + parts[i + 1..]);
  }

  lemma ItemsOfAppend<T>(log: seq<Batch<T>>, batch: Batch<T>, k: Key)
    ensures ItemsOf(log + [batch], k) == ItemsOf(log, k) + (if batch.key == k then batch.items else [])
  {
    assert (log + [batch])[..|log|] == log;
  }

  // A key without a chain owes nothing.
  lemma UnchainedOwesNothing<T>(s: State<T>, k: Key)
    requires Inv(s) && k !in s.keyChains
    ensures Pending(s, k) == []
  {
    FlattenEmpties(OwedAll(s.tasks, s.store, k));
  }

  // A change of one task changes what that task owes and nothing else.
  lemma UpdateOwes<T>(tasks: seq<Task<T>>, store: seq<Buffer<T>>, t: nat, after: Task<T>, k: Key)
    requires t < |tasks|
    ensures OwedAll(tasks[t := after], store, k) == OwedAll(tasks, store, k)[t := Owed(after, store, k)]
  {
  }

  lemma QuietUpdate<T>(tasks: seq<Task<T>>, store: seq<Buffer<T>>, t: nat, after: Task<T>, k: Key)
    requires t < |tasks| && Owed(after, store, k) == Owed(tasks[t], store, k)
    ensures OwedAll(tasks[t := after], store, k) == OwedAll(tasks, store, k)
  {
  }

  lemma AppendOwes<T>(tasks: seq<Task<T>>, store: seq<Buffer<T>>, store': seq<Buffer<T>>, task: Task<T>, k: Key)
    requires forall i :: 0 <= i < |tasks| ==> Owed(tasks[i], store', k) == Owed(tasks[i], store, k)
    ensures Flatten(OwedAll(tasks + [task], store', k)) == Flatten(OwedAll(tasks, store, k)) + Owed(task, store', k)
  {
    var owed, last := OwedAll(tasks, store, k), Owed(task, store', k);
    assert OwedAll(tasks + [task], store', k) == owed + [last];
    FlattenConcat(owed, [last]);
    assert Flatten([last]) == last + Flatten([]);
  }

  lemma FlushOwes<T>(s: State<T>, key: Key, b: nat, k: Key)
    requires b < |s.store| && s.store[b].slot < |s.tasks|
    ensures Pending(FlushBuffer(s, key, b), k) == Pending(s, k)
  {
    var s' := FlushBuffer(s, key, b);
    assert OwedAll(s'.tasks, s'.store, k) == OwedAll(s.tasks, s.store, k);
  }

  // The slot of a mapped buffer is the last task of its key, and no other task reads the buffer.
  lemma MappedSlot<T>(s: State<T>, key: Key)
    requires Inv(s) && key in s.buffers
    ensures HoldsLastSlot(s, key)
  {
    assert OwnsTail(s.buffers, s.keyChains, s.store, s.tasks, key);
  }

  ghost predicate HoldsLastSlot<T>(s: State<T>, key: Key) {
    && key in s.buffers && s.buffers[key] < |s.store|
    && var b := s.buffers[key];
       var slot := s.store[b].slot;
    && slot < |s.tasks| && s.tasks[slot].key == key && s.tasks[slot].phase == Waiting
    && s.tasks[slot].work == Buffered(b)
    && (forall i :: slot < i < |s.tasks| ==> s.tasks[i].key != key)
    && (forall i :: 0 <= i < |s.tasks| && s.tasks[i].work == Buffered(b) ==> i == slot)
  }

  // The buffered item lands behind everything its key still owes.
  lemma PushOwes<T>(s: State<T>, key: Key, item: T, debounceMs: nat, k: Key)
    requires HoldsLastSlot(s, key)
    ensures Pending(PushItem(s, s.buffers[key], item, debounceMs), k)
         == Pending(s, k) + (if k == key then [item] else [])
  {
    var b := s.buffers[key];
    var s' := PushItem(s, b, item, debounceMs);
    var slot := s.store[b].slot;
    var owed, owed' := OwedAll(s.tasks, s.store, k), OwedAll(s.tasks, s'.store, k);
    if k == key {
      assert owed' == owed[slot := owed[slot] + [item]];
      assert owed == owed[slot := owed[slot]];
      FlattenSplit(owed, slot, owed[slot]);
      FlattenSplit(owed, slot, owed[slot] + [item]);
      FlattenEmpties(owed[slot + 1..]);
    } else {
      assert owed' == owed;
    }
  }

  // Taking one part out takes its items out, at the front if nothing stands before it.
  lemma FlattenTake<T>(parts: seq<seq<T>>, t: nat)
    requires t < |parts| && (parts[t] == [] || forall i :: 0 <= i < t ==> parts[i] == [])
    ensures Flatten(parts) == parts[t] + Flatten(parts[t := []])
  {
    assert parts == parts[t := parts[t]];
    FlattenSplit(parts, t, parts[t]);
    FlattenSplit(parts, t, []);
    if parts[t] != [] { FlattenEmpties(parts[..t]); }
  }

  lemma StartOwes<T>(s: State<T>, t: nat, k: Key)
    requires t < |s.tasks| && s.tasks[t].phase == Waiting && EarlierDone(s.tasks, t)
    ensures Pending(s, k) == Owed(s.tasks[t], s.store, k) + Pending(StartTask(s, t), k)
  {
    var owed := OwedAll(s.tasks, s.store, k);
    var after := StartTask(s, t).tasks[t];
    UpdateOwes(s.tasks, s.store, t, after, k);
    FlattenTake(owed, t);
  }

  function Grown<T>(key: Key, item: T, k: Key): seq<T> {
    if key == k then [item] else []
  }

  // What has been flushed for k, followed by what is still owed to it.
  function Account<T>(s: State<T>, k: Key): seq<T> {
    ItemsOf(s.started, k) + Pending(s, k)
  }

  lemma DirectAccount<T>(s: State<T>, key: Key, item: T, k: Key)
    requires Pending(s, key) == []
    ensures Account(StartDirect(s, key, item), k) == Account(s, k) + Grown(key, item, k)
  {
    ItemsOfAppend(s.started, Batch(key, [item]), k);
  }

  lemma ChainAccount<T>(s: State<T>, key: Key, item: T, gate: Gate, k: Key)
    ensures Account(ChainTask(s, key, Immediate(item), gate), k) == Account(s, k) + Grown(key, item, k)
  {
    AppendOwes(s.tasks, s.store, s.store, ChainTask(s, key, Immediate(item), gate).tasks[|s.tasks|], k);
  }

  lemma OpenAccount<T>(s: State<T>, key: Key, item: T, debounceMs: nat, k: Key)
    requires Gates(s.store, s.tasks)
    ensures Account(OpenBuffer(s, key, item, debounceMs), k) == Account(s, k) + Grown(key, item, k)
  {
    var s' := OpenBuffer(s, key, item, debounceMs);
    AppendOwes(s.tasks, s.store, s'.store, s'.tasks[|s.tasks|], k);
  }

  lemma OvertakeAccount<T>(s: State<T>, key: Key, item: T, gate: Gate, k: Key)
    requires HoldsLastSlot(s, key)
    ensures Account(FlushBuffer(ChainTask(s, key, Immediate(item), gate), key, s.buffers[key]), k)
         == Account(s, k) + Grown(key, item, k)
  {
    ChainAccount(s, key, item, gate, k);
    FlushOwes(ChainTask(s, key, Immediate(item), gate), key, s.buffers[key], k);
  }

  // Every path of `enqueue` accounts for the item: flushed at once, or owed last.
  lemma AcceptAccount<T>(s: State<T>, key: Key, item: T, debounceMs: nat, shouldDebounce: bool, k: Key)
    requires Inv(s)
    ensures Account(Accept(s, key, item, debounceMs, shouldDebounce), k) == Account(s, k) + Grown(key, item, k)
  {
    var immediate := key == NO_KEY || !(debounceMs > 0 && shouldDebounce);
    if immediate && (key == NO_KEY || (key !in s.buffers && key !in s.keyChains)) {
      UnchainedOwesNothing(s, key);
      DirectAccount(s, key, item, k);
    } else if key in s.buffers {
      MappedSlot(s, key);
      if immediate {
        OvertakeAccount(s, key, item, UntilSettled(s.store[s.buffers[key]].slot), k);
      } else {
        PushOwes(s, key, item, debounceMs, k);
      }
    } else if immediate || !CanTrack(s, key) {
      ChainAccount(s, key, item, Released, k);
    } else {
      OpenAccount(s, key, item, debounceMs, k);
    }
  }

  lemma StartAccount<T>(s: State<T>, t: nat, k: Key)
    requires t < |s.tasks| && s.tasks[t].phase == Waiting && EarlierDone(s.tasks, t)
    ensures Account(StartTask(s, t), k) == Account(s, k)
  {
    var s', owed, before := StartTask(s, t), Owed(s.tasks[t], s.store, k), ItemsOf(s.started, k);
    StartOwes(s, t, k);
    ItemsOfAppend(s.started, Batch(s.tasks[t].key, TaskItems(s.tasks[t], s.store)), k);
    assert ItemsOf(s'.started, k) == before + owed;
    assert (before + owed) + Pending(s', k) == before + (owed + Pending(s', k));
  }

  lemma NextAccount<T>(s: State<T>, e: Event<T>, k: Key)
    requires Inv(s) && Enabled(s, e) && !e.Enqueue?
    ensures Account(Next(s, e), k) == Account(s, k)
  {
    match e
    case FlushKey(key) =>
      if key in s.buffers { FlushOwes(s, key, s.buffers[key], k); }
    case TimerFires(key, b) => FlushOwes(s, key, b, k);
    case SlotReleases(t) => QuietUpdate(s.tasks, s.store, t, s.tasks[t].(gate := Released), k);
    case TaskStarts(t) =>
      PredecessorDoneMeansAllDone(s.tasks, t);
      StartAccount(s, t, k);
    case TaskSettles(t, _) => QuietUpdate(s.tasks, s.store, t, s.tasks[t].(phase := Settled), k);
    case DirectSettles(_, _) =>
    case ChainDrops(t) => QuietUpdate(s.tasks, s.store, t, s.tasks[t].(phase := Dropped), k);
  }

  lemma NextKeepsOrder<T>(s: State<T>, e: Event<T>, k: Key)
    requires Inv(s) && Enabled(s, e) && Ordered(s, k)
    ensures Ordered(Next(s, e), k)
  {
    if e.Enqueue? {
      ItemsOfAppend(s.arrived, Batch(e.key, [e.item]), k);
      AcceptAccount(s, e.key, e.item, e.debounceMs, e.shouldDebounce, k);
    } else {
      NextAccount(s, e, k);
    }
  }

  // A state on some run: consistent, and every key delivered so far in arrival order.
  ghost predicate Sound<T>(s: State<T>) {
    Inv(s) && forall k :: Ordered(s, k)
  }

  lemma InitIsSound<T>(maxTrackedKeys: nat)
    ensures Sound(Init<T>(maxTrackedKeys))
  {
    forall k ensures Ordered(Init<T>(maxTrackedKeys), k) {
      assert OwedAll(Init<T>(maxTrackedKeys).tasks, Init<T>(maxTrackedKeys).store, k) == [];
    }
  }

  lemma NextKeepsSound<T>(s: State<T>, e: Event<T>)
    requires Sound(s) && Enabled(s, e)
    ensures Sound(Next(s, e))
  {
    NextKeepsInv(s, e);
    forall k ensures Ordered(Next(s, e), k) {
      NextKeepsOrder(s, e, k);
    }
  }

  lemma {:induction false} RunKeepsOrder<T>(s: State<T>, events: seq<Event<T>>, s': State<T>, k: Key)
    requires Inv(s) && Ordered(s, k) && Runs(s, events, s')
    ensures Ordered(s', k)
    decreases |events|
  {
    if events != [] {
      NextKeepsInv(s, events[0]);
      NextKeepsOrder(s, events[0], k);
      RunKeepsOrder(Next(s, events[0]), events[1..], s', k);
    }
  }

  /**
   Exactly once and in order, on every run: what arrived for a key is what was flushed for
   it, in that order, followed by what its unstarted tasks hold, in chain order.
   */
  lemma DeliveredInArrivalOrder<T>(maxTrackedKeys: nat, events: seq<Event<T>>, s: State<T>, k: Key)
    requires Runs(Init(maxTrackedKeys), events, s)
    ensures ItemsOf(s.arrived, k) == ItemsOf(s.started, k) + Pending(s, k)
  {
    InitIsSound<T>(maxTrackedKeys);
    RunKeepsOrder(Init(maxTrackedKeys), events, s, k);
  }

  /** Two flushes chained on one key never run at the same time, and start in chain order. */
  lemma ChainedFlushesNeverOverlap<T>(maxTrackedKeys: nat, events: seq<Event<T>>, s: State<T>, i: nat, j: nat)
    requires Runs(Init(maxTrackedKeys), events, s)
    requires i < j < |s.tasks| && s.tasks[i].key == s.tasks[j].key && s.tasks[j].phase != Waiting
    ensures Done(s.tasks[i])
  {
    RunKeepsInv(Init(maxTrackedKeys), events, s);
  }

  ghost predicate RunsChained<T>(tasks: seq<Task<T>>, k: Key) {
    exists t :: 0 <= t < |tasks| && tasks[t].key == k && tasks[t].phase == Flushing
  }

  // Two flushes of the key are running.
  ghost predicate Overlaps<T>(tasks: seq<Task<T>>, direct: multiset<Key>, k: Key) {
    || (exists t, u :: 0 <= t < u < |tasks| && tasks[t].key == k == tasks[u].key
                       && tasks[t].phase == Flushing && tasks[u].phase == Flushing)
    || (RunsChained(tasks, k) && k in direct)
    || direct[k] >= 2
  }

  /**
   The step starts a flush of key k: a chained one when a released task at the head of its chain
   runs, a direct one when an item comes that has no key, or one that is not debounced for a key
   with neither buffer nor chain.
   */
  predicate Starts<T>(s: State<T>, e: Event<T>, k: Key) {
    match e
    case TaskStarts(t) => t < |s.tasks| && s.tasks[t].key == k
    case Enqueue(key, _, debounceMs, shouldDebounce) =>
      && key == k
      && (key == NO_KEY || (!(debounceMs > 0 && shouldDebounce) && key !in s.buffers && key !in s.keyChains))
    case _ => false
  }

  // Every task that starts has items to flush.
  lemma StartingTaskFlushes<T>(s: State<T>, t: nat)
    requires Inv(s) && t < |s.tasks|
    ensures TaskItems(s.tasks[t], s.store) != []
  {
    if s.tasks[t].work.Buffered? {
      var b := s.tasks[t].work.buffer;
      assert s.store[b].slot == t && s.store[b].items != [];
    }
  }

  /** These are the steps that hand a batch to `onFlush`, and the batch is one of that key. */
  lemma StartsIff<T>(s: State<T>, e: Event<T>, k: Key)
    requires Inv(s) && Enabled(s, e)
    ensures (|Next(s, e).started| > |s.started| && Next(s, e).started[|s.started|].key == k) <==> Starts(s, e, k)
  {
    if e.TaskStarts? { StartingTaskFlushes(s, e.task); }
  }

  // A task that starts when no other task of its key is flushing.
  lemma TouchOverlapsIff<T>(tasks: seq<Task<T>>, direct: multiset<Key>, t: nat, after: Task<T>, k: Key)
    requires t < |tasks| && after.key == tasks[t].key && tasks[t].phase == Waiting && !Overlaps(tasks, direct, k)
    requires forall u :: 0 <= u < |tasks| && tasks[u].key == after.key ==> tasks[u].phase != Flushing
    ensures Overlaps(tasks[t := after], direct, k) <==> after.phase == Flushing && after.key == k && k in direct
  {
    var tasks' := tasks[t := after];
    assert forall u :: 0 <= u < |tasks| && u != t ==> tasks'[u] == tasks[u];
    if after.phase == Flushing && after.key == k { assert tasks'[t].key == k && RunsChained(tasks', k); }
    if RunsChained(tasks', k) && !(after.phase == Flushing && after.key == k) {
      var u :| 0 <= u < |tasks'| && tasks'[u].key == k && tasks'[u].phase == Flushing;
      assert tasks[u] == tasks'[u] && RunsChained(tasks, k);
    }
  }

  lemma StartOverlapsIff<T>(s: State<T>, t: nat, k: Key)
    requires Inv(s) && Enabled(s, TaskStarts(t)) && !Overlaps(s.tasks, s.direct, k)
    ensures var s' := Next(s, TaskStarts(t));
            Overlaps(s'.tasks, s'.direct, k) <==> Starts(s, TaskStarts(t), k) && k in s.direct
  {
    hide Overlaps;
    PredecessorDoneMeansAllDone(s.tasks, t);
    StartingTaskFlushes(s, t);
    forall u | 0 <= u < |s.tasks| && s.tasks[u].key == s.tasks[t].key ensures s.tasks[u].phase != Flushing {
      if u < t { assert Done(s.tasks[u]); }
    }
    TouchOverlapsIff(s.tasks, s.direct, t, StartTask(s, t).tasks[t], k);
  }

  // Only an unchained item is flushed directly, and then nothing chained of its key is running.
  lemma DirectMeetsNoChained<T>(s: State<T>, key: Key)
    requires Inv(s) && (key == NO_KEY || key !in s.keyChains)
    ensures !RunsChained(s.tasks, key)
  {
  }

  lemma DirectOverlapsIff<T>(tasks: seq<Task<T>>, direct: multiset<Key>, key: Key, k: Key)
    requires !RunsChained(tasks, key) && !Overlaps(tasks, direct, k)
    ensures Overlaps(tasks, direct + multiset{key}, k) <==> k == key && k in direct
  {
  }

  // Whatever flushes afterwards was flushing before.
  ghost predicate Calm<T>(tasks: seq<Task<T>>, tasks': seq<Task<T>>) {
    forall u :: 0 <= u < |tasks'| && tasks'[u].phase == Flushing ==>
      u < |tasks| && tasks[u].phase == Flushing && tasks[u].key == tasks'[u].key
  }

  // Where no flush starts, no second one comes to run beside a running one.
  lemma CalmNeverOverlaps<T>(
    tasks: seq<Task<T>>, tasks': seq<Task<T>>, direct: multiset<Key>, direct': multiset<Key>, k: Key)
    requires !Overlaps(tasks, direct, k) && direct' <= direct && Calm(tasks, tasks')
    ensures !Overlaps(tasks', direct', k)
  {
    if RunsChained(tasks', k) {
      var u :| 0 <= u < |tasks'| && tasks'[u].key == k && tasks'[u].phase == Flushing;
      assert tasks[u].key == k && RunsChained(tasks, k);
    }
  }

  lemma TouchIsCalm<T>(tasks: seq<Task<T>>, t: nat, after: Task<T>)
    requires t < |tasks| && after.key == tasks[t].key && (after.phase == Flushing ==> tasks[t].phase == Flushing)
    ensures Calm(tasks, tasks[t := after])
  {
  }

  lemma AppendIsCalm<T>(tasks: seq<Task<T>>, tasks': seq<Task<T>>, task: Task<T>)
    requires Calm(tasks, tasks') && task.phase == Waiting
    ensures Calm(tasks, tasks' + [task])
  {
  }

  lemma FlushIsCalm<T>(s: State<T>, key: Key, b: nat)
    requires b < |s.store| && s.store[b].slot < |s.tasks|
    ensures Calm(s.tasks, FlushBuffer(s, key, b).tasks)
  {
    var t := s.store[b].slot;
    TouchIsCalm(s.tasks, t, s.tasks[t].(gate := Released));
  }

  lemma EnqueueIsCalm<T>(s: State<T>, e: Event<T>)
    requires InRange(s) && e.Enqueue?
    ensures Calm(s.tasks, Next(s, e).tasks)
  {
    hide CanTrack;
    var key, work := e.key, Immediate(e.item);
    var previous := if key in s.keyChains then Some(s.keyChains[key]) else None;
    AppendIsCalm(s.tasks, s.tasks, Task(key, previous, work, Released, Waiting));
    AppendIsCalm(s.tasks, s.tasks, Task(key, previous, Buffered(|s.store|), UntilFlushed, Waiting));
    if key in s.buffers {
      var t := s.store[s.buffers[key]].slot;
      var touched := s.tasks[t := s.tasks[t].(gate := Released)];
      var task := Task(key, previous, work, UntilSettled(t), Waiting);
      TouchIsCalm(s.tasks, t, s.tasks[t].(gate := Released));
      AppendIsCalm(s.tasks, touched, task);
      AppendIsCalm(s.tasks, s.tasks, task);
      assert (s.tasks + [task])[t := s.tasks[t].(gate := Released)] == touched + [task];
    }
  }

  lemma CalmStep<T>(s: State<T>, e: Event<T>)
    requires InRange(s) && Enabled(s, e) && !e.TaskStarts?
    ensures Calm(s.tasks, Next(s, e).tasks)
  {
    hide Accept;
    match e
    case Enqueue(_, _, _, _) => EnqueueIsCalm(s, e);
    case FlushKey(key) => if key in s.buffers { FlushIsCalm(s, key, s.buffers[key]); }
    case TimerFires(key, b) => FlushIsCalm(s, key, b);
    case SlotReleases(t) => TouchIsCalm(s.tasks, t, s.tasks[t].(gate := Released));
    case TaskSettles(t, _) => TouchIsCalm(s.tasks, t, s.tasks[t].(phase := Settled));
    case ChainDrops(t) => TouchIsCalm(s.tasks, t, s.tasks[t].(phase := Dropped));
    case _ =>
  }

  /**
   Flushes of one key begin to overlap exactly when one starts while a direct flush of the key
   is still running: chained ones never meet each other, nor does a direct one meet a chained one.
   */
  lemma OverlapBeginsIff<T>(maxTrackedKeys: nat, events: seq<Event<T>>, s: State<T>, e: Event<T>, k: Key)
    requires Runs(Init(maxTrackedKeys), events, s) && InRange(s) && Enabled(s, e) && !Overlaps(s.tasks, s.direct, k)
    ensures Overlaps(Next(s, e).tasks, Next(s, e).direct, k) <==> Starts(s, e, k) && k in s.direct
  {
    hide Overlaps, RunsChained, Calm;
    InitIsSound<T>(maxTrackedKeys);
    RunKeepsInv(Init(maxTrackedKeys), events, s);
    hide Next, Inv;
    if e.TaskStarts? {
      StartOverlapsIff(s, e.task, k);
    } else if Next(s, e).direct <= s.direct {
      CalmStep(s, e);
      CalmNeverOverlaps(s.tasks, Next(s, e).tasks, s.direct, Next(s, e).direct, k);
      OthersStartNothing(s, e, k);
    } else {
      DirectStepIsDirect(s, e);
      DirectMeetsNoChained(s, e.key);
      DirectOverlapsIff(s.tasks, s.direct, e.key, k);
    }
  }

  lemma OthersStartNothing<T>(s: State<T>, e: Event<T>, k: Key)
    requires InRange(s) && Enabled(s, e) && !e.TaskStarts? && Next(s, e).direct <= s.direct
    ensures !Starts(s, e, k)
  {
    if e.Enqueue? { assert s.direct[e.key] < (s.direct + multiset{e.key})[e.key]; }
  }

  lemma DirectStepIsDirect<T>(s: State<T>, e: Event<T>)
    requires InRange(s) && Enabled(s, e) && !(Next(s, e).direct <= s.direct)
    ensures e.Enqueue? && (e.key == NO_KEY || e.key !in s.keyChains) && Starts(s, e, e.key)
    ensures Next(s, e).tasks == s.tasks && Next(s, e).direct == s.direct + multiset{e.key}
  {
  }

  /** A direct flush can be overtaken: the next item of its key may be flushed while it runs. */
  lemma DirectFlushCanOverlap<T>(key: Key, item: T, next: T)
    requires key != NO_KEY
    ensures exists s: State<T> :: Overlaps(s.tasks, s.direct, key) && Runs(Init(1),
                          [Enqueue(key, item, 0, true), Enqueue(key, next, 1, true),
                           TimerFires(key, 0), TaskStarts(0)], s)
  {
    var e0, e1, e2, e3 := Enqueue(key, item, 0, true), Enqueue(key, next, 1, true), TimerFires(key, 0), TaskStarts(0);
    var s0 := Init<T>(1);
    FirstStep(s0, e0);
    var s1 := Next(s0, e0);
    SecondStep(s1, e1);
    var s2 := Next(s1, e1);
    LastSteps(key, s2);
    var s3 := Next(s2, e2);
    var s4 := Next(s3, e3);
    hide Next, InRange, Enabled;
    FourSteps(s0, e0, s1, e1, s2, e2, s3, e3, s4);
  }

  ghost predicate Idle<T>(s: State<T>, key: Key) {
    && s.buffers == map[] && s.keyChains == map[] && s.store == [] && s.tasks == []
    && s.maxTrackedKeys == 1 && key in s.direct
  }

  // A buffer of one item, at the head of its key's chain.
  ghost predicate Waits<T>(s: State<T>, key: Key) {
    && s.buffers == map[key := 0] && s.keyChains == map[key := 0] && key in s.direct
    && |s.store| == 1 && s.store[0].slot == 0 && s.store[0].armed && !s.store[0].readyReleased && s.store[0].items != []
    && s.tasks == [Task(key, None, Buffered(0), UntilFlushed, Waiting)]
  }

  lemma FirstStep<T>(s: State<T>, e: Event<T>)
    requires s == Init(1) && e.Enqueue? && e.debounceMs == 0
    ensures InRange(s) && InRange(Next(s, e)) && Idle(Next(s, e), e.key)
  {
  }

  lemma SecondStep<T>(s: State<T>, e: Event<T>)
    requires e.Enqueue? && Idle(s, e.key) && e.key != NO_KEY && e.debounceMs > 0 && e.shouldDebounce
    ensures InRange(s) && InRange(Next(s, e)) && Waits(Next(s, e), e.key)
  {
    assert |s.buffers.Keys + s.keyChains.Keys| == 0;
  }

  lemma LastSteps<T>(key: Key, s: State<T>)
    requires Waits(s, key)
    ensures InRange(s) && Enabled(s, TimerFires(key, 0))
    ensures var s' := Next(s, TimerFires(key, 0));
            && InRange(s') && Enabled(s', TaskStarts(0))
            && var s'' := Next(s', TaskStarts(0)); Overlaps(s''.tasks, s''.direct, key)
  {
    var s' := Next(s, TimerFires(key, 0));
    assert s'.buffers == map[] && s'.tasks == [s.tasks[0].(gate := Released)];
    var s'' := Next(s', TaskStarts(0));
    assert s''.tasks[0].phase == Flushing && RunsChained(s''.tasks, key);
  }

  lemma FourSteps<T>(s0: State<T>, e0: Event<T>, s1: State<T>, e1: Event<T>, s2: State<T>, e2: Event<T>, s3: State<T>,
      e3: Event<T>, s4: State<T>)
    requires InRange(s0) && Enabled(s0, e0) && s1 == Next(s0, e0)
    requires InRange(s1) && Enabled(s1, e1) && s2 == Next(s1, e1)
    requires InRange(s2) && Enabled(s2, e2) && s3 == Next(s2, e2)
    requires InRange(s3) && Enabled(s3, e3) && s4 == Next(s3, e3)
    ensures Runs(s0, [e0, e1, e2, e3], s4)
  {
    hide Next;
    assert Runs(s4, [], s4);
    assert [e3][1..] == [] && Runs(s3, [e3], s4);
    assert [e2, e3][1..] == [e3] && Runs(s2, [e2, e3], s4);
    assert [e1, e2, e3][1..] == [e2, e3] && Runs(s1, [e1, e2, e3], s4);
    assert [e0, e1, e2, e3][1..] == [e1, e2, e3];
  }

  /** While a buffer is in the map its timer is armed and its closed slot is the chain's tail. */
  lemma MappedBufferHoldsTheTail<T>(maxTrackedKeys: nat, events: seq<Event<T>>, s: State<T>, k: Key)
    requires Runs(Init(maxTrackedKeys), events, s) && k in s.buffers
    ensures s.buffers[k] < |s.store| && s.store[s.buffers[k]].armed
    ensures k in s.keyChains && s.keyChains[k] == s.store[s.buffers[k]].slot
    ensures var slot := s.keyChains[k];
            && slot < |s.tasks| && s.tasks[slot].work == Buffered(s.buffers[k])
            && s.tasks[slot].gate == UntilFlushed && s.tasks[slot].phase == Waiting
            && forall i :: slot < i < |s.tasks| ==> s.tasks[i].key != k
  {
    RunKeepsInv(Init(maxTrackedKeys), events, s);
    assert OwnsTail(s.buffers, s.keyChains, s.store, s.tasks, k);
  }

  // ---------------------------------------------------------------- tracked keys

  function Tracked<T>(s: State<T>): set<Key> {
    s.buffers.Keys + s.keyChains.Keys
  }

  // An item that may be debounced.
  predicate Debounceable<T>(e: Event<T>) {
    e.Enqueue? && e.key != NO_KEY && e.debounceMs > 0 && e.shouldDebounce
  }

  lemma ChainTracks<T>(s: State<T>, key: Key, work: Work<T>, gate: Gate)
    ensures Tracked(ChainTask(s, key, work, gate)) == Tracked(s) + {key}
  {
  }

  lemma FlushTracks<T>(s: State<T>, key: Key, b: nat)
    requires b < |s.store| && s.store[b].slot < |s.tasks|
    ensures Tracked(FlushBuffer(s, key, b)) <= Tracked(s)
  {
  }

  // An item that may be debounced tracks its key whatever path it takes; no other step tracks a new one.
  lemma EnqueueTracks<T>(s: State<T>, e: Event<T>)
    requires InRange(s) && e.Enqueue?
    ensures Debounceable(e) ==> Tracked(Next(s, e)) == Tracked(s) + {e.key}
    ensures !Debounceable(e) ==> Tracked(Next(s, e)) <= Tracked(s)
  {
    hide FlushBuffer, CanTrack;
    var key := e.key;
    assert key in Tracked(s) ==> Tracked(s) + {key} == Tracked(s);
    if key in s.buffers {
      var gate := UntilSettled(s.store[s.buffers[key]].slot);
      ChainTracks(s, key, Immediate(e.item), gate);
      FlushTracks(ChainTask(s, key, Immediate(e.item), gate), key, s.buffers[key]);
    } else {
      ChainTracks(s, key, Immediate(e.item), Released);
      OpenTracksKey(s, key, e.item, e.debounceMs);
    }
  }

  lemma OpenTracksKey<T>(s: State<T>, key: Key, item: T, debounceMs: nat)
    ensures Tracked(OpenBuffer(s, key, item, debounceMs)) == Tracked(s) + {key}
  {
  }

  lemma OthersTrackNothing<T>(s: State<T>, e: Event<T>)
    requires InRange(s) && Enabled(s, e) && !e.Enqueue?
    ensures Tracked(Next(s, e)) <= Tracked(s)
  {
    match e
    case FlushKey(key) => if key in s.buffers { FlushTracks(s, key, s.buffers[key]); }
    case TimerFires(key, b) => FlushTracks(s, key, b);
    case _ =>
  }

  /**
   The limit is no bound on the tracked keys: a step breaks it exactly if it enqueues an item
   that may be debounced for a new key when the limit has been reached.
   */
  lemma LimitIsExceededIff<T>(s: State<T>, e: Event<T>)
    requires InRange(s) && Enabled(s, e) && |Tracked(s)| <= s.maxTrackedKeys
    ensures |Tracked(Next(s, e))| > s.maxTrackedKeys <==> Debounceable(e) && !CanTrack(s, e.key)
  {
    hide Next;
    if e.Enqueue? { EnqueueTracks(s, e); } else { OthersTrackNothing(s, e); }
    if Tracked(Next(s, e)) <= Tracked(s) {
      SubsetIsSmaller(Tracked(Next(s, e)), Tracked(s));
    }
  }

  /** With room for one key, two items that may be debounced for different keys track both. */
  lemma LimitCanBeExceeded<T>(key: Key, item: T, other: Key, otherItem: T)
    requires key != NO_KEY && other != NO_KEY && key != other
    ensures exists s :: Runs(Init(1), [Enqueue(key, item, 1, true), Enqueue(other, otherItem, 1, true)], s)
                        && Tracked(s) == {key, other} && |Tracked(s)| == 2 > s.maxTrackedKeys
  {
    hide Accept, CanTrack;
    var s0, e0, e1 := Init<T>(1), Enqueue(key, item, 1, true), Enqueue(other, otherItem, 1, true);
    var s1 := Next(s0, e0);
    EnqueueTracks(s0, e0);
    InitIsSound<T>(1);
    NextKeepsInv(s0, e0);
    assert InRange(s1);
    hide Next, Inv;
    var s2 := Next(s1, e1);
    EnqueueTracks(s1, e1);
    KeepsLimit(s0, e0);
    KeepsLimit(s1, e1);
    assert Tracked(s2) == {key, other};
    TwoSteps(s0, e0, s1, e1, s2);
  }

  lemma KeepsLimit<T>(s: State<T>, e: Event<T>)
    requires InRange(s) && e.Enqueue?
    ensures Next(s, e).maxTrackedKeys == s.maxTrackedKeys
  {
  }

  lemma TwoSteps<T>(s0: State<T>, e0: Event<T>, s1: State<T>, e1: Event<T>, s2: State<T>)
    requires InRange(s0) && Enabled(s0, e0) && s1 == Next(s0, e0)
    requires InRange(s1) && Enabled(s1, e1) && s2 == Next(s1, e1)
    ensures Runs(s0, [e0, e1], s2)
  {
    hide Next;
    assert Runs(s2, [], s2);
    assert [e1][1..] == [] && Runs(s1, [e1], s2);
    assert [e0, e1][1..] == [e1] && Runs(s0, [e0, e1], s2);
  }

  lemma SubsetIsSmaller(a: set<Key>, b: set<Key>)
    requires a <= b
    ensures |a| <= |b|
  {
    assert b == a + (b - a);
  }

  // Only `enqueue` opens a buffer, for its own key, and only where it can track the key.
  lemma AcceptOpensItsKey<T>(s: State<T>, key: Key, item: T, debounceMs: nat, shouldDebounce: bool, k: Key)
    requires InRange(s) && k !in s.buffers && k in Accept(s, key, item, debounceMs, shouldDebounce).buffers
    ensures k == key && CanTrack(s, k)
    ensures Accept(s, key, item, debounceMs, shouldDebounce) == OpenBuffer(s, k, item, debounceMs)
  {
  }

  lemma OthersOpenNothing<T>(s: State<T>, e: Event<T>)
    requires InRange(s) && Enabled(s, e) && !e.Enqueue?
    ensures Next(s, e).buffers.Keys <= s.buffers.Keys
  {
  }

  /** A step that starts to debounce an untracked key leaves at most the allowed number of keys tracked. */
  lemma DebouncingRespectsTheLimit<T>(s: State<T>, e: Event<T>, k: Key)
    requires InRange(s) && Enabled(s, e) && k !in Tracked(s) && k in Next(s, e).buffers
    ensures |Tracked(Next(s, e))| <= s.maxTrackedKeys
  {
    if e.Enqueue? {
      AcceptOpensItsKey(s, e.key, e.item, e.debounceMs, e.shouldDebounce, k);
      OpenTracksKey(s, k, e.item, e.debounceMs);
      assert Tracked(Next(s, e)) == Tracked(s) + {k};
    } else {
      OthersOpenNothing(s, e);
    }
  }

  // A step leaves a flushed buffer as it is: pushes and flushes reach mapped buffers only.
  lemma StepKeepsFlushedBuffer<T>(s: State<T>, e: Event<T>, b: nat)
    requires Inv(s) && Enabled(s, e) && b < |s.store| && s.store[b].readyReleased
    ensures b < |Next(s, e).store| && Next(s, e).store[b] == s.store[b]
  {
    match e {
      case Enqueue(key, _, _, _) => assert OwnsTail(s.buffers, s.keyChains, s.store, s.tasks, key);
      case FlushKey(key) => assert OwnsTail(s.buffers, s.keyChains, s.store, s.tasks, key);
      case _ =>
    }
  }

  /** A buffer that has left the map is never touched again. */
  lemma {:induction false} FlushedBufferIsFrozen<T>(s: State<T>, events: seq<Event<T>>, s': State<T>, b: nat)
    requires Inv(s) && b < |s.store| && s.store[b].readyReleased && Runs(s, events, s')
    ensures b < |s'.store| && s'.store[b] == s.store[b]
    decreases |events|
  {
    if events != [] {
      NextKeepsInv(s, events[0]);
      StepKeepsFlushedBuffer(s, events[0], b);
      FlushedBufferIsFrozen(Next(s, events[0]), events[1..], s', b);
    }
  }

  // ---------------------------------------------------------------- draining

  // The steps the runtime takes by itself.
  predicate Internal<T>(e: Event<T>) {
    !e.Enqueue? && !e.FlushKey?
  }

  function Weight<T>(t: Task<T>): nat {
    (match t.phase case Waiting => 3 case Flushing => 2 case Settled => 1 case Dropped => 0)
    + (if t.gate == Released then 0 else 1)
  }

  function Measure<T>(tasks: seq<Task<T>>): nat {
    if tasks == [] then 0 else Weight(tasks[0]) + Measure(tasks[1..])
  }

  lemma {:induction false} MeasureUpdate<T>(tasks: seq<Task<T>>, t: nat, after: Task<T>)
    requires t < |tasks|
    ensures Measure(tasks[t := after]) == Measure(tasks) - Weight(tasks[t]) + Weight(after)
  {
    if t == 0 {
      assert tasks[t := after][1..] == tasks[1..];
    } else {
      assert tasks[t := after][1..] == tasks[1..][t - 1 := after];
      MeasureUpdate(tasks[1..], t - 1, after);
    }
  }

  // Each of these steps moves one task on, and touches no other.
  lemma InternalStepMovesOne<T>(s: State<T>, e: Event<T>) returns (t: nat)
    requires Inv(s) && Enabled(s, e) && Internal(e) && !e.DirectSettles?
    ensures t < |s.tasks| == |Next(s, e).tasks| && Next(s, e).direct == s.direct
    ensures Next(s, e).tasks == s.tasks[t := Next(s, e).tasks[t]]
    ensures Weight(Next(s, e).tasks[t]) < Weight(s.tasks[t])
  {
    match e
    case TimerFires(_, b) => t := s.store[b].slot;
    case SlotReleases(i) => t := i;
    case TaskStarts(i) => t := i;
    case TaskSettles(i, _) => t := i;
    case ChainDrops(i) => t := i;
  }

  function Steps<T>(s: State<T>): nat {
    Measure(s.tasks) + |s.direct|
  }

  lemma InternalStepsDecrease<T>(s: State<T>, e: Event<T>)
    requires Inv(s) && Enabled(s, e) && Internal(e)
    ensures Steps(Next(s, e)) < Steps(s)
  {
    if !e.DirectSettles? {
      var t := InternalStepMovesOne(s, e);
      MeasureUpdate(s.tasks, t, Next(s, e).tasks[t]);
    }
  }

  ghost predicate Drained<T>(s: State<T>) {
    s.direct == multiset{} && forall i :: 0 <= i < |s.tasks| ==> s.tasks[i].phase == Dropped
  }

  ghost predicate Stuck<T(!new)>(s: State<T>) {
    forall e: Event<T> | Internal(e) :: !Enabled(s, e)
  }

  lemma FirstUnfinished<T>(tasks: seq<Task<T>>) returns (t: nat)
    requires exists i :: 0 <= i < |tasks| && !Done(tasks[i])
    ensures t < |tasks| && !Done(tasks[t]) && forall i :: 0 <= i < t ==> Done(tasks[i])
  {
    t := 0;
    while Done(tasks[t])
      invariant t < |tasks| && forall i :: 0 <= i < t ==> Done(tasks[i])
      decreases |tasks| - t
    {
      t := t + 1;
    }
  }

  // The first unfinished task can always move: it flushes, may start, or its gate may open.
  lemma FirstUnfinishedMoves<T>(s: State<T>, t: nat) returns (e: Event<T>)
    requires Inv(s) && t < |s.tasks| && !Done(s.tasks[t]) && EarlierDone(s.tasks, t)
    requires s.tasks[t].gate.UntilSettled? ==> Done(s.tasks[s.tasks[t].gate.task])
    ensures Internal(e) && Enabled(s, e)
  {
    if s.tasks[t].phase == Flushing {
      e := TaskSettles(t, false);
    } else if s.tasks[t].gate == Released {
      e := TaskStarts(t);
    } else if s.tasks[t].gate.UntilSettled? {
      e := SlotReleases(t);
    } else {
      e := TimerFires(s.tasks[t].key, s.tasks[t].work.buffer);
      assert s.store[s.tasks[t].work.buffer].slot == t;
    }
  }

  // No reserved slot waits forever: as long as a task is left, the runtime has a step to take.
  lemma Progress<T>(s: State<T>) returns (e: Event<T>)
    requires Inv(s) && !Drained(s)
    ensures Internal(e) && Enabled(s, e)
  {
    if i :| 0 <= i < |s.tasks| && !Done(s.tasks[i]) {
      var t := FirstUnfinished(s.tasks);
      e := FirstUnfinishedMoves(s, t);
    } else if i :| 0 <= i < |s.tasks| && s.tasks[i].phase != Dropped {
      e := ChainDrops(i);
    } else {
      var key :| key in s.direct;
      e := DirectSettles(key, false);
    }
  }

  lemma DrainedIsEmpty<T>(s: State<T>, k: Key)
    requires Inv(s) && Drained(s)
    ensures k !in s.buffers && k !in s.keyChains && Pending(s, k) == []
  {
    assert OwnsTail(s.buffers, s.keyChains, s.store, s.tasks, k);
    FlattenEmpties(OwedAll(s.tasks, s.store, k));
  }

  lemma DrainedHasDelivered<T>(s: State<T>)
    requires Inv(s) && Drained(s) && forall k :: Ordered(s, k)
    ensures s.buffers == map[] && s.keyChains == map[]
    ensures forall k :: ItemsOf(s.started, k) == ItemsOf(s.arrived, k)
  {
    forall k ensures k !in s.buffers && k !in s.keyChains && ItemsOf(s.started, k) == ItemsOf(s.arrived, k) {
      assert Ordered(s, k);
      DrainedIsEmpty(s, k);
    }
  }

  lemma DrainedIsStuck<T(!new)>(s: State<T>)
    requires Inv(s) && Drained(s)
    ensures Stuck(s)
  {
    forall e: Event<T> | Internal(e) ensures !Enabled(s, e) {
      match e
      case TimerFires(key, b) => if b < |s.store| { assert !s.store[b].armed; }
      case _ =>
    }
  }

  lemma StuckIsDrained<T(!new)>(s: State<T>)
    requires Inv(s)
    ensures Stuck(s) <==> Drained(s)
  {
    if Drained(s) {
      DrainedIsStuck(s);
    } else {
      var e := Progress(s);
      assert Internal(e) && Enabled(s, e);
    }
  }

  lemma {:induction false} InternalRunsAreShort<T>(s: State<T>, events: seq<Event<T>>, s': State<T>)
    requires Inv(s) && Runs(s, events, s') && forall e <- events :: Internal(e)
    ensures |events| + Steps(s') <= Steps(s)
    decreases |events|
  {
    if events != [] {
      NextKeepsInv(s, events[0]);
      InternalStepsDecrease(s, events[0]);
      InternalRunsAreShort(Next(s, events[0]), events[1..], s');
    }
  }

  /**
   From any reachable state, if no items arrive, the runtime takes a bounded number of steps,
   whatever the flushes report, and stops only when every chain and buffer is gone and all
   that arrived has been flushed.
   */
  lemma EverythingDrains<T(!new)>(
    maxTrackedKeys: nat, past: seq<Event<T>>, s: State<T>, events: seq<Event<T>>, s': State<T>)
    requires Runs(Init(maxTrackedKeys), past, s)
    requires Runs(s, events, s') && forall e <- events :: Internal(e)
    ensures |events| <= Steps(s)
    ensures Stuck(s') <==> Drained(s')
    ensures Stuck(s') ==> s'.buffers == map[] && s'.keyChains == map[]
    ensures Stuck(s') ==> forall k :: ItemsOf(s'.started, k) == ItemsOf(s'.arrived, k)
  {
    RunKeepsInv(Init<T>(maxTrackedKeys), past, s);
    RunKeepsInv(s, events, s');
    InternalRunsAreShort(s, events, s');
    StuckIsDrained(s');
    if Drained(s') {
      forall k ensures Ordered(s', k) {
        DeliveredInArrivalOrder(maxTrackedKeys, past, s, k);
        RunKeepsOrder(s, events, s', k);
      }
      DrainedHasDelivered(s');
    }
  }
}
