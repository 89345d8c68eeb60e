/**
 The keyed inbound debouncer as a transition system.

 One transition is the code between two awaits. Promises become indices: the n-th
 promise chained by `enqueueKeyTask` is `tasks[n]`, the n-th buffer object is
 `store[n]`. `arrived` and `started` are the history of the run: every item handed to
 `enqueue`, and every batch handed to `onFlush`, in the order in which that happened. `direct`
 counts, per key, the running flushes that `enqueue` started without a chain.
 */
module DebounceProtocol {
  import opened Optional

  type Key = string

  // `buildKey` returns null, undefined or "" for an item that has no key.
  const NO_KEY: Key := ""

  datatype Work<T> = Immediate(item: T) | Buffered(buffer: nat)

  // The `ready` promise of a reserved slot. `UntilSettled(t)` is an immediate slot whose
  // `enqueue` call is suspended on task t; `UntilFlushed` is the slot of a buffer.
  datatype Gate = Released | UntilSettled(task: nat) | UntilFlushed

  // `Dropped` is a settled task whose `finally` callback has run as well.
  datatype Phase = Waiting | Flushing | Settled | Dropped

  datatype Task<T> = Task(key: Key, previous: Option<nat>, work: Work<T>, gate: Gate, phase: Phase)

  datatype Buffer<T> = Buffer(items: seq<T>, armed: bool, debounceMs: nat, readyReleased: bool, slot: nat)

  datatype Batch<T> = Batch(key: Key, items: seq<T>)

  datatype State<T> = State(
    maxTrackedKeys: nat,
    buffers: map<Key, nat>,
    keyChains: map<Key, nat>,
    store: seq<Buffer<T>>,
    tasks: seq<Task<T>>,
    direct: multiset<Key>,
    arrived: seq<Batch<T>>,
    started: seq<Batch<T>>)

  datatype Event<T> =
    | Enqueue(key: Key, item: T, debounceMs: nat, shouldDebounce: bool)
    | FlushKey(key: Key)
    | TimerFires(key: Key, buffer: nat)
    | SlotReleases(task: nat)
    | TaskStarts(task: nat)
    | TaskSettles(task: nat, succeeded: bool)
    | DirectSettles(key: Key, succeeded: bool)
    | ChainDrops(task: nat)

  predicate Done<T>(t: Task<T>) {
    t.phase == Settled || t.phase == Dropped
  }

  function TaskItems<T>(t: Task<T>, store: seq<Buffer<T>>): seq<T> {
    match t.work
    case Immediate(item) => [item]
    case Buffered(b) => if b < |store| then store[b].items else []
  }

  function Init<T>(maxTrackedKeys: nat): State<T> {
    State(maxTrackedKeys, map[], map[], [], [], multiset{}, [], [])
  }

  // ---------------------------------------------------------------- transitions

  function ChainTask<T>(s: State<T>, key: Key, work: Work<T>, gate: Gate): State<T> {
    var previous := if key in s.keyChains then Some(s.keyChains[key]) else None;
    s.(tasks := s.tasks + [Task(key, previous, work, gate, Waiting)],
       keyChains := s.keyChains[key := |s.tasks|])
  }

  function ReleaseTask<T>(tasks: seq<Task<T>>, t: nat): seq<Task<T>>
    requires t < |tasks|
  {
    tasks[t := tasks[t].(gate := Released)]
  }

  function FlushBuffer<T>(s: State<T>, key: Key, b: nat): State<T>
    requires b < |s.store| && s.store[b].slot < |s.tasks|
  {
    s.(buffers := if key in s.buffers && s.buffers[key] == b then s.buffers - {key} else s.buffers,
       store := s.store[b := s.store[b].(armed := false, readyReleased := true)],
       tasks := if s.store[b].readyReleased then s.tasks else ReleaseTask(s.tasks, s.store[b].slot))
  }

  predicate CanTrack<T>(s: State<T>, key: Key) {
    key in s.buffers || key in s.keyChains || |s.buffers.Keys + s.keyChains.Keys| < s.maxTrackedKeys
  }

  function StartFlush<T>(s: State<T>, key: Key, items: seq<T>): State<T> {
    s.(started := s.started + [Batch(key, items)])
  }

  function StartDirect<T>(s: State<T>, key: Key, item: T): State<T> {
    StartFlush(s, key, [item]).(direct := s.direct + multiset{key})
  }

  function PushItem<T>(s: State<T>, b: nat, item: T, debounceMs: nat): State<T>
    requires b < |s.store|
  {
    var buffer := s.store[b];
    s.(store := s.store[b := buffer.(items := buffer.items + [item], debounceMs := debounceMs, armed := true)])
  }

  function OpenBuffer<T>(s: State<T>, key: Key, item: T, debounceMs: nat): State<T> {
    ChainTask(s, key, Buffered(|s.store|), UntilFlushed).(
      store := s.store + [Buffer([item], true, debounceMs, false, |s.tasks|)],
      buffers := s.buffers[key := |s.store|])
  }

  function Accept<T>(s: State<T>, key: Key, item: T, debounceMs: nat, shouldDebounce: bool): State<T>
    requires InRange(s)
  {
    if !(debounceMs > 0 && shouldDebounce) || key == NO_KEY then
      if key != NO_KEY && key in s.buffers then
        var b := s.buffers[key];
        var reserved := ChainTask(s, key, Immediate(item), UntilSettled(s.store[b].slot));
        FlushBuffer(reserved, key, b)
      else if key != NO_KEY && key in s.keyChains then
        ChainTask(s, key, Immediate(item), Released)
      else
        StartDirect(s, key, item)
    else if key in s.buffers then
      PushItem(s, s.buffers[key], item, debounceMs)
    else if !CanTrack(s, key) then
      ChainTask(s, key, Immediate(item), Released)
    else
      OpenBuffer(s, key, item, debounceMs)
  }

  function StartTask<T>(s: State<T>, t: nat): State<T>
    requires t < |s.tasks|
  {
    var task := s.tasks[t];
    var items := TaskItems(task, s.store);
    if items == [] then
      s.(tasks := s.tasks[t := task.(phase := Settled)])
    else
      StartFlush(s.(tasks := s.tasks[t := task.(phase := Flushing)]), task.key, items)
  }

  function DropChain<T>(s: State<T>, t: nat): State<T>
    requires t < |s.tasks|
  {
    var key := s.tasks[t].key;
    s.(tasks := s.tasks[t := s.tasks[t].(phase := Dropped)],
       keyChains := if key in s.keyChains && s.keyChains[key] == t then s.keyChains - {key} else s.keyChains)
  }

  /** When the runtime may take a step. Items and flush requests may arrive at any time. */
  predicate Enabled<T>(s: State<T>, e: Event<T>) {
    match e
    case Enqueue(_, _, _, _) => true
    case FlushKey(_) => true
    case TimerFires(key, b) =>
      b < |s.store| && s.store[b].armed && s.store[b].slot < |s.tasks| && s.tasks[s.store[b].slot].key == key
    case SlotReleases(t) =>
      && t < |s.tasks| && s.tasks[t].gate.UntilSettled?
      && s.tasks[t].gate.task < |s.tasks| && Done(s.tasks[s.tasks[t].gate.task])
    case TaskStarts(t) =>
      && t < |s.tasks| && s.tasks[t].phase == Waiting && s.tasks[t].gate == Released
      && (s.tasks[t].previous.Some? ==>
            s.tasks[t].previous.value < |s.tasks| && Done(s.tasks[s.tasks[t].previous.value]))
    case TaskSettles(t, _) => t < |s.tasks| && s.tasks[t].phase == Flushing
    case DirectSettles(key, _) => key in s.direct
    case ChainDrops(t) => t < |s.tasks| && s.tasks[t].phase == Settled
  }

  function Next<T>(s: State<T>, e: Event<T>): State<T>
    requires InRange(s) && Enabled(s, e)
  {
    match e
    case Enqueue(key, item, debounceMs, shouldDebounce) =>
      Accept(s, key, item, debounceMs, shouldDebounce).(arrived := s.arrived + [Batch(key, [item])])
    case FlushKey(key) => if key in s.buffers then FlushBuffer(s, key, s.buffers[key]) else s
    case TimerFires(key, b) => FlushBuffer(s, key, b)
    case SlotReleases(t) => s.(tasks := ReleaseTask(s.tasks, t))
    case TaskStarts(t) => StartTask(s, t)
    // `runFlush` swallows the error of a failed flush, so a task settles either way.
    case TaskSettles(t, _) => s.(tasks := s.tasks[t := s.tasks[t].(phase := Settled)])
    case DirectSettles(key, _) => s.(direct := s.direct - multiset{key})
    case ChainDrops(t) => DropChain(s, t)
  }

  // ---------------------------------------------------------------- invariant

  predicate InRange<T>(s: State<T>) {
    && (forall k <- s.buffers :: s.buffers[k] < |s.store|)
    && (forall b :: 0 <= b < |s.store| ==> s.store[b].slot < |s.tasks|)
    && (forall k <- s.keyChains :: s.keyChains[k] < |s.tasks|)
  }

  // Every unfinished task of a key is at or before the predecessor recorded by a later one.
  ghost predicate Linked<T>(tasks: seq<Task<T>>) {
    && (forall j :: 0 <= j < |tasks| && tasks[j].previous.Some? ==> tasks[j].previous.value < j)
    && (forall i, j :: 0 <= i < j < |tasks| && tasks[j].previous == Some(i) ==> tasks[i].key == tasks[j].key)
    && (forall i, j :: 0 <= i < j < |tasks| && tasks[i].key == tasks[j].key && !Done(tasks[i]) ==>
          tasks[j].previous.Some? && i <= tasks[j].previous.value)
  }

  // No task leaves `Waiting` before every earlier task of its key is done.
  ghost predicate Serial<T>(tasks: seq<Task<T>>) {
    forall i, j :: 0 <= i < j < |tasks| && tasks[i].key == tasks[j].key && tasks[j].phase != Waiting ==> Done(tasks[i])
  }

  // A chain entry is the newest task of its key; a key without an entry has nothing left to do.
  ghost predicate Tails<T>(chains: map<Key, nat>, tasks: seq<Task<T>>) {
    && NO_KEY !in chains
    && (forall k {:trigger chains[k]} :: k in chains ==>
          chains[k] < |tasks| && tasks[chains[k]].key == k && tasks[chains[k]].phase != Dropped)
    && (forall i, k :: 0 <= i < |tasks| && k in chains && tasks[i].key == k ==> i <= chains[k])
    && (forall i :: 0 <= i < |tasks| && !Done(tasks[i]) ==> tasks[i].key in chains)
  }

  // A buffer in the map holds the still closed slot at the tail of its key's chain.
  ghost predicate OwnsTail<T>(
    buffers: map<Key, nat>, chains: map<Key, nat>, store: seq<Buffer<T>>, tasks: seq<Task<T>>, k: Key)
  {
    k in buffers ==>
      && k in chains && chains[k] < |tasks|
      && buffers[k] < |store| && !store[buffers[k]].readyReleased && store[buffers[k]].slot == chains[k]
      && tasks[chains[k]].key == k && tasks[chains[k]].phase == Waiting
  }

  ghost predicate Owns<T>(buffers: map<Key, nat>, chains: map<Key, nat>, store: seq<Buffer<T>>, tasks: seq<Task<T>>) {
    forall k :: OwnsTail(buffers, chains, store, tasks, k)
  }

  // A buffer's slot stays closed exactly while the buffer is armed, and then it is in the map.
  ghost predicate Slots<T>(buffers: map<Key, nat>, store: seq<Buffer<T>>, tasks: seq<Task<T>>) {
    forall b :: 0 <= b < |store| ==>
      && store[b].slot < |tasks| && store[b].items != []
      && tasks[store[b].slot].work == Buffered(b)
      && store[b].armed == !store[b].readyReleased
      && tasks[store[b].slot].gate == (if store[b].readyReleased then Released else UntilFlushed)
      && (!store[b].readyReleased ==>
            tasks[store[b].slot].key in buffers && buffers[tasks[store[b].slot].key] == b)
  }

  ghost predicate Gates<T>(store: seq<Buffer<T>>, tasks: seq<Task<T>>) {
    forall j :: 0 <= j < |tasks| ==>
      && tasks[j].key != NO_KEY
      && (tasks[j].phase != Waiting ==> tasks[j].gate == Released)
      && (tasks[j].work.Immediate? ==> tasks[j].gate != UntilFlushed)
      && (tasks[j].gate.UntilSettled? ==> tasks[j].gate.task < j)
      && (tasks[j].work.Buffered? ==> tasks[j].work.buffer < |store|)
      && (forall b :: 0 <= b < |store| && tasks[j].work == Buffered(b) ==> store[b].slot == j)
  }

  ghost predicate Inv<T>(s: State<T>) {
    && InRange(s)
    && Linked(s.tasks) && Serial(s.tasks)
    && Tails(s.keyChains, s.tasks)
    && Owns(s.buffers, s.keyChains, s.store, s.tasks)
    && Slots(s.buffers, s.store, s.tasks)
    && Gates(s.store, s.tasks)
  }

  // ---------------------------------------------------------------- history

  function ItemsOf<T>(log: seq<Batch<T>>, k: Key): seq<T> {
    if log == [] then []
    else ItemsOf(log[..|log| - 1], k) + (if log[|log| - 1].key == k then log[|log| - 1].items else [])
  }

  function Flatten<T>(parts: seq<seq<T>>): seq<T> {
    if parts == [] then [] else parts[0] + Flatten(parts[1..])
  }

  // What one task still owes to key k.
  function Owed<T>(t: Task<T>, store: seq<Buffer<T>>, k: Key): seq<T> {
    if t.key == k && t.phase == Waiting then TaskItems(t, store) else []
  }

  function OwedAll<T>(tasks: seq<Task<T>>, store: seq<Buffer<T>>, k: Key): seq<seq<T>> {
    seq(|tasks|, i requires 0 <= i < |tasks| => Owed(tasks[i], store, k))
  }

  // What unstarted tasks of key k hold, in chain order.
  function Pending<T>(s: State<T>, k: Key): seq<T> {
    Flatten(OwedAll(s.tasks, s.store, k))
  }

  ghost predicate Ordered<T>(s: State<T>, k: Key) {
    ItemsOf(s.arrived, k) == ItemsOf(s.started, k) + Pending(s, k)
  }
}
