module DebounceInvariant {
  import opened Optional
  import opened DebounceProtocol

  // The fields that order a chain never change, and a finished task stays finished.
  ghost predicate Touches<T>(before: Task<T>, after: Task<T>) {
    && after.key == before.key && after.previous == before.previous && after.work == before.work
    && (Done(before) ==> Done(after))
  }

  // ---------------------------------------------------------------- chains

  // A task that is chained behind the newest task of its key, if the chain is still there.
  ghost predicate Chained<T>(chains: map<Key, nat>, tasks: seq<Task<T>>, task: Task<T>) {
    && task.key != NO_KEY && task.phase == Waiting
    && task.previous == if task.key in chains then Some(chains[task.key]) else None
  }

  lemma AppendKeepsLinks<T>(chains: map<Key, nat>, tasks: seq<Task<T>>, task: Task<T>)
    requires Linked(tasks) && Tails(chains, tasks) && Chained(chains, tasks, task)
    ensures Linked(tasks + [task])
  {
    var tasks' := tasks + [task];
    forall i, j | 0 <= i < j < |tasks'| && tasks'[i].key == tasks'[j].key && !Done(tasks'[i])
      ensures tasks'[j].previous.Some? && i <= tasks'[j].previous.value
    {
      assert tasks'[i] == tasks[i];
      if j == |tasks| { assert tasks[i].key in chains && i <= chains[task.key]; }
    }
  }

  lemma AppendKeepsSerial<T>(tasks: seq<Task<T>>, task: Task<T>)
    requires Serial(tasks) && task.phase == Waiting
    ensures Serial(tasks + [task])
  {
  }

  lemma AppendKeepsTails<T>(chains: map<Key, nat>, tasks: seq<Task<T>>, task: Task<T>)
    requires Tails(chains, tasks) && Chained(chains, tasks, task)
    ensures Tails(chains[task.key := |tasks|], tasks + [task])
  {
  }

  lemma AppendKeepsChain<T>(s: State<T>, key: Key, work: Work<T>, gate: Gate)
    requires Linked(s.tasks) && Serial(s.tasks) && Tails(s.keyChains, s.tasks) && key != NO_KEY
    ensures var s' := ChainTask(s, key, work, gate);
            Linked(s'.tasks) && Serial(s'.tasks) && Tails(s'.keyChains, s'.tasks)
  {
    var task := ChainTask(s, key, work, gate).tasks[|s.tasks|];
    AppendKeepsLinks(s.keyChains, s.tasks, task);
    AppendKeepsSerial(s.tasks, task);
    AppendKeepsTails(s.keyChains, s.tasks, task);
  }

  lemma TouchKeepsLinks<T>(tasks: seq<Task<T>>, t: nat, after: Task<T>)
    requires t < |tasks| && Linked(tasks) && Touches(tasks[t], after)
    ensures Linked(tasks[t := after])
  {
  }

  lemma TouchKeepsSerial<T>(tasks: seq<Task<T>>, t: nat, after: Task<T>)
    requires t < |tasks| && Serial(tasks) && Touches(tasks[t], after)
    requires after.phase != Waiting ==> tasks[t].phase != Waiting || EarlierDone(tasks, t)
    ensures Serial(tasks[t := after])
  {
  }

  ghost predicate EarlierDone<T>(tasks: seq<Task<T>>, t: nat)
    requires t < |tasks|
  {
    forall i :: 0 <= i < t && tasks[i].key == tasks[t].key ==> Done(tasks[i])
  }

  lemma TouchKeepsTails<T>(chains: map<Key, nat>, tasks: seq<Task<T>>, t: nat, after: Task<T>)
    requires t < |tasks| && Tails(chains, tasks) && Touches(tasks[t], after)
    requires after.phase == Dropped ==> tasks[t].phase == Dropped
    ensures Tails(chains, tasks[t := after])
  {
  }

  lemma TouchKeepsSlots<T>(buffers: map<Key, nat>, store: seq<Buffer<T>>, tasks: seq<Task<T>>, t: nat, after: Task<T>)
    requires t < |tasks| && Slots(buffers, store, tasks) && Gates(store, tasks) && Touches(tasks[t], after)
    requires after.phase != Waiting ==> after.gate == Released
    requires after.gate == tasks[t].gate || (tasks[t].gate.UntilSettled? && after.gate == Released)
    ensures Slots(buffers, store, tasks[t := after]) && Gates(store, tasks[t := after])
  {
  }

  lemma MappedSlotIsClosed<T>(
    buffers: map<Key, nat>, chains: map<Key, nat>, store: seq<Buffer<T>>, tasks: seq<Task<T>>, k: Key)
    requires OwnsTail(buffers, chains, store, tasks, k) && Slots(buffers, store, tasks) && k in buffers
    ensures tasks[chains[k]].gate == UntilFlushed
  {
    assert store[buffers[k]].slot == chains[k];
  }

  // Whatever changes in a task whose gate is open, and in chains that end in such a task.
  lemma TouchKeepsOwners<T>(
    buffers: map<Key, nat>, chains: map<Key, nat>, chains': map<Key, nat>, store: seq<Buffer<T>>, tasks: seq<Task<T>>,
    t: nat, after: Task<T>)
    requires t < |tasks| && Owns(buffers, chains, store, tasks) && Slots(buffers, store, tasks)
    requires Touches(tasks[t], after)
    requires after.phase != tasks[t].phase ==> tasks[t].gate == Released
    requires chains' == chains
      || (tasks[t].gate == Released && forall k <- chains :: chains[k] != t ==> k in chains' && chains'[k] == chains[k])
    ensures Owns(buffers, chains', store, tasks[t := after])
  {
    var tasks' := tasks[t := after];
    forall k ensures OwnsTail(buffers, chains', store, tasks', k) {
      assert OwnsTail(buffers, chains, store, tasks, k);
      if k in buffers { MappedSlotIsClosed(buffers, chains, store, tasks, k); }
    }
  }

  // Only the newest task takes the entry of its key along when it drops.
  lemma DropKeepsTails<T>(s: State<T>, t: nat)
    requires t < |s.tasks| && s.tasks[t].phase == Settled && Serial(s.tasks) && Tails(s.keyChains, s.tasks)
    ensures Tails(DropChain(s, t).keyChains, DropChain(s, t).tasks)
  {
    var key, s' := s.tasks[t].key, DropChain(s, t);
    forall i | 0 <= i < |s'.tasks| && !Done(s'.tasks[i]) ensures s'.tasks[i].key in s'.keyChains {
      assert !Done(s.tasks[i]) && s.tasks[i].key in s.keyChains;
      assert i <= s.keyChains[s.tasks[i].key];
    }
  }

  // A task whose predecessor is done may start: everything before it on its key is done.
  lemma PredecessorDoneMeansAllDone<T>(tasks: seq<Task<T>>, t: nat)
    requires t < |tasks| && Linked(tasks) && Serial(tasks)
    requires tasks[t].previous.Some? ==> tasks[t].previous.value < |tasks| && Done(tasks[tasks[t].previous.value])
    ensures EarlierDone(tasks, t)
  {
  }

  // ---------------------------------------------------------------- transitions

  // An immediate task behind everything its key has chained.
  lemma ImmediateKeepsSlots<T>(buffers: map<Key, nat>, store: seq<Buffer<T>>, tasks: seq<Task<T>>, task: Task<T>)
    requires Slots(buffers, store, tasks) && Gates(store, tasks)
    requires task.work.Immediate? && task.key != NO_KEY && task.phase == Waiting && task.gate != UntilFlushed
    requires task.gate.UntilSettled? ==> task.gate.task < |tasks|
    ensures Slots(buffers, store, tasks + [task]) && Gates(store, tasks + [task])
  {
  }

  lemma AppendKeepsOwners<T>(
    buffers: map<Key, nat>, chains: map<Key, nat>, store: seq<Buffer<T>>, tasks: seq<Task<T>>, task: Task<T>)
    requires Owns(buffers, chains, store, tasks)
    ensures Owns(buffers - {task.key}, chains[task.key := |tasks|], store, tasks + [task])
  {
    var chains', tasks' := chains[task.key := |tasks|], tasks + [task];
    forall k ensures OwnsTail(buffers - {task.key}, chains', store, tasks', k) {
      assert OwnsTail(buffers, chains, store, tasks, k);
    }
  }

  lemma PlainTaskKeepsInv<T>(s: State<T>, key: Key, item: T)
    requires Inv(s) && key != NO_KEY && key !in s.buffers
    ensures Inv(ChainTask(s, key, Immediate(item), Released))
  {
    var task := ChainTask(s, key, Immediate(item), Released).tasks[|s.tasks|];
    AppendKeepsChain(s, key, Immediate(item), Released);
    AppendKeepsOwners(s.buffers, s.keyChains, s.store, s.tasks, task);
    assert s.buffers - {key} == s.buffers;
    ImmediateKeepsSlots(s.buffers, s.store, s.tasks, task);
  }

  lemma PushKeepsInv<T>(s: State<T>, key: Key, item: T, debounceMs: nat)
    requires Inv(s) && key in s.buffers
    ensures Inv(PushItem(s, s.buffers[key], item, debounceMs))
  {
    var store := PushItem(s, s.buffers[key], item, debounceMs).store;
    assert OwnsTail(s.buffers, s.keyChains, s.store, s.tasks, key);
    forall k ensures OwnsTail(s.buffers, s.keyChains, store, s.tasks, k) {
      assert OwnsTail(s.buffers, s.keyChains, s.store, s.tasks, k);
    }
  }

  lemma OpenKeepsInv<T>(s: State<T>, key: Key, item: T, debounceMs: nat)
    requires Inv(s) && key != NO_KEY && key !in s.buffers
    ensures Inv(OpenBuffer(s, key, item, debounceMs))
  {
    var s' := OpenBuffer(s, key, item, debounceMs);
    AppendKeepsChain(s, key, Buffered(|s.store|), UntilFlushed);
    OpenKeepsOwners(s, key, item, debounceMs);
    OpenKeepsSlots(s, key, item, debounceMs);
  }

  lemma OpenKeepsOwners<T>(s: State<T>, key: Key, item: T, debounceMs: nat)
    requires Owns(s.buffers, s.keyChains, s.store, s.tasks)
    ensures var s' := OpenBuffer(s, key, item, debounceMs);
            Owns(s'.buffers, s'.keyChains, s'.store, s'.tasks)
  {
    var s' := OpenBuffer(s, key, item, debounceMs);
    forall k ensures OwnsTail(s'.buffers, s'.keyChains, s'.store, s'.tasks, k) {
      assert OwnsTail(s.buffers, s.keyChains, s.store, s.tasks, k);
    }
  }

  lemma OpenKeepsSlots<T>(s: State<T>, key: Key, item: T, debounceMs: nat)
    requires Slots(s.buffers, s.store, s.tasks) && Gates(s.store, s.tasks) && key != NO_KEY && key !in s.buffers
    ensures var s' := OpenBuffer(s, key, item, debounceMs);
            Slots(s'.buffers, s'.store, s'.tasks) && Gates(s'.store, s'.tasks)
  {
  }

  // Inv gives everything a flush of the buffer of `key` relies on.
  lemma InvIsAlmostInv<T>(s: State<T>, key: Key)
    requires Inv(s) && key in s.buffers
    ensures AlmostInv(s, key)
  {
    assert OwnsTail(s.buffers, s.keyChains, s.store, s.tasks, key);
    forall k ensures OwnsTail(s.buffers - {key}, s.keyChains, s.store, s.tasks, k) {
      assert OwnsTail(s.buffers, s.keyChains, s.store, s.tasks, k);
    }
  }

  // Inv without the claim that the buffer of `key` is at the tail of its chain.
  ghost predicate AlmostInv<T>(s: State<T>, key: Key) {
    && InRange(s) && key in s.buffers
    && Linked(s.tasks) && Serial(s.tasks)
    && Tails(s.keyChains, s.tasks)
    && Owns(s.buffers - {key}, s.keyChains, s.store, s.tasks)
    && Slots(s.buffers, s.store, s.tasks)
    && Gates(s.store, s.tasks)
    && s.tasks[s.store[s.buffers[key]].slot].key == key
    && !s.store[s.buffers[key]].readyReleased
  }

  lemma FlushKeepsSlots<T>(buffers: map<Key, nat>, store: seq<Buffer<T>>, tasks: seq<Task<T>>, key: Key)
    requires Slots(buffers, store, tasks) && Gates(store, tasks) && key in buffers && buffers[key] < |store|
    requires tasks[store[buffers[key]].slot].key == key
    ensures var b := buffers[key];
            var store' := store[b := store[b].(armed := false, readyReleased := true)];
            var tasks' := ReleaseTask(tasks, store[b].slot);
            Slots(buffers - {key}, store', tasks') && Gates(store', tasks')
  {
  }

  lemma FlushKeepsOwners<T>(
    buffers: map<Key, nat>, chains: map<Key, nat>, store: seq<Buffer<T>>, tasks: seq<Task<T>>, key: Key)
    requires Owns(buffers - {key}, chains, store, tasks) && Slots(buffers, store, tasks)
    requires key in buffers && buffers[key] < |store| && tasks[store[buffers[key]].slot].key == key
    ensures var b := buffers[key];
            var store' := store[b := store[b].(armed := false, readyReleased := true)];
            var tasks' := ReleaseTask(tasks, store[b].slot);
            Owns(buffers - {key}, chains, store', tasks')
  {
    var b := buffers[key];
    var store' := store[b := store[b].(armed := false, readyReleased := true)];
    var tasks' := ReleaseTask(tasks, store[b].slot);
    forall k ensures OwnsTail(buffers - {key}, chains, store', tasks', k) {
      assert OwnsTail(buffers - {key}, chains, store, tasks, k);
    }
  }

  lemma FlushKeepsInv<T>(s: State<T>, key: Key)
    requires AlmostInv(s, key)
    ensures Inv(FlushBuffer(s, key, s.buffers[key]))
  {
    var b := s.buffers[key];
    var slot := s.store[b].slot;
    var s' := FlushBuffer(s, key, b);
    TouchKeepsLinks(s.tasks, slot, s'.tasks[slot]);
    TouchKeepsSerial(s.tasks, slot, s'.tasks[slot]);
    TouchKeepsTails(s.keyChains, s.tasks, slot, s'.tasks[slot]);
    FlushKeepsSlots(s.buffers, s.store, s.tasks, key);
    FlushKeepsOwners(s.buffers, s.keyChains, s.store, s.tasks, key);
  }

  lemma ReserveBehindBuffer<T>(s: State<T>, key: Key, item: T)
    requires Inv(s) && key in s.buffers
    ensures AlmostInv(ChainTask(s, key, Immediate(item), UntilSettled(s.store[s.buffers[key]].slot)), key)
  {
    var gate := UntilSettled(s.store[s.buffers[key]].slot);
    var task := ChainTask(s, key, Immediate(item), gate).tasks[|s.tasks|];
    assert OwnsTail(s.buffers, s.keyChains, s.store, s.tasks, key);
    AppendKeepsChain(s, key, Immediate(item), gate);
    AppendKeepsOwners(s.buffers, s.keyChains, s.store, s.tasks, task);
    ImmediateKeepsSlots(s.buffers, s.store, s.tasks, task);
  }

  lemma AcceptKeepsInv<T>(s: State<T>, key: Key, item: T, debounceMs: nat, shouldDebounce: bool)
    requires Inv(s)
    ensures Inv(Accept(s, key, item, debounceMs, shouldDebounce))
  {
    if key == NO_KEY || (!(debounceMs > 0 && shouldDebounce) && key !in s.buffers && key !in s.keyChains) {
    } else if !(debounceMs > 0 && shouldDebounce) && key in s.buffers {
      ReserveBehindBuffer(s, key, item);
      FlushKeepsInv(ChainTask(s, key, Immediate(item), UntilSettled(s.store[s.buffers[key]].slot)), key);
    } else if debounceMs > 0 && shouldDebounce && key in s.buffers {
      PushKeepsInv(s, key, item, debounceMs);
    } else if !(debounceMs > 0 && shouldDebounce) || !CanTrack(s, key) {
      PlainTaskKeepsInv(s, key, item);
    } else {
      OpenKeepsInv(s, key, item, debounceMs);
    }
  }

  lemma TouchKeepsInv<T>(s: State<T>, t: nat, after: Task<T>)
    requires Inv(s) && t < |s.tasks| && Touches(s.tasks[t], after)
    requires after.phase != Waiting ==> after.gate == Released && EarlierDone(s.tasks, t)
    requires after.phase == Dropped ==> s.tasks[t].phase == Dropped
    requires after.gate == s.tasks[t].gate || (s.tasks[t].gate.UntilSettled? && after.gate == Released)
    requires after.phase != s.tasks[t].phase ==> s.tasks[t].gate == Released
    ensures Inv(s.(tasks := s.tasks[t := after]))
  {
    TouchKeepsLinks(s.tasks, t, after);
    TouchKeepsSerial(s.tasks, t, after);
    TouchKeepsTails(s.keyChains, s.tasks, t, after);
    TouchKeepsSlots(s.buffers, s.store, s.tasks, t, after);
    TouchKeepsOwners(s.buffers, s.keyChains, s.keyChains, s.store, s.tasks, t, after);
  }

  lemma DropKeepsInv<T>(s: State<T>, t: nat)
    requires Inv(s) && Enabled(s, ChainDrops(t))
    ensures Inv(Next(s, ChainDrops(t)))
  {
    var after := s.tasks[t].(phase := Dropped);
    TouchKeepsLinks(s.tasks, t, after);
    TouchKeepsSerial(s.tasks, t, after);
    DropKeepsTails(s, t);
    TouchKeepsSlots(s.buffers, s.store, s.tasks, t, after);
    TouchKeepsOwners(s.buffers, s.keyChains, DropChain(s, t).keyChains, s.store, s.tasks, t, after);
  }

  lemma MappedFlushKeepsInv<T>(s: State<T>, key: Key)
    requires Inv(s) && key in s.buffers
    ensures Inv(FlushBuffer(s, key, s.buffers[key]))
  {
    InvIsAlmostInv(s, key);
    FlushKeepsInv(s, key);
  }

  lemma TimerKeepsInv<T>(s: State<T>, key: Key, b: nat)
    requires Inv(s) && Enabled(s, TimerFires(key, b))
    ensures Inv(FlushBuffer(s, key, b))
  {
    MappedFlushKeepsInv(s, key);
  }

  lemma StartKeepsInv<T>(s: State<T>, t: nat)
    requires Inv(s) && Enabled(s, TaskStarts(t))
    ensures Inv(StartTask(s, t))
  {
    PredecessorDoneMeansAllDone(s.tasks, t);
    TouchKeepsInv(s, t, StartTask(s, t).tasks[t]);
  }

  lemma NextKeepsInv<T>(s: State<T>, e: Event<T>)
    requires Inv(s) && Enabled(s, e)
    ensures Inv(Next(s, e))
  {
    match e
    case Enqueue(key, item, debounceMs, shouldDebounce) =>
      AcceptKeepsInv(s, key, item, debounceMs, shouldDebounce);
    case FlushKey(key) => if key in s.buffers { MappedFlushKeepsInv(s, key); }
    case TimerFires(key, b) => TimerKeepsInv(s, key, b);
    case SlotReleases(t) => TouchKeepsInv(s, t, s.tasks[t].(gate := Released));
    case TaskStarts(t) => StartKeepsInv(s, t);
    case TaskSettles(t, succeeded) => TouchKeepsInv(s, t, s.tasks[t].(phase := Settled));
    case DirectSettles(key, _) =>
    case ChainDrops(t) => DropKeepsInv(s, t);
  }
}
