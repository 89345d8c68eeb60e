/**
 `createInboundDebouncer` with its state updated in place. Each method is proved to take
 exactly the transition of the protocol that bears its name, so every theorem about runs of
 the protocol holds of every sequence of calls and callbacks on an object.
 */
module InboundDebouncers {
  import opened Optional
  import opened DebounceProtocol
  import opened DebounceTheorems

  const DEFAULT_MAX_TRACKED_KEYS: nat := 2048

  class InboundDebouncer<T> {
    const maxTrackedKeys: nat
    var buffers: map<Key, nat>
    var keyChains: map<Key, nat>
    var store: seq<Buffer<T>>
    var tasks: seq<Task<T>>
    ghost var direct: multiset<Key>
    ghost var arrived: seq<Batch<T>>
    ghost var started: seq<Batch<T>>

    ghost function View(): State<T>
      reads this
    {
      State(maxTrackedKeys, buffers, keyChains, store, tasks, direct, arrived, started)
    }

    // What `Sound` says of the fields: for every key, what arrived for it is what was flushed
    // for it followed by what its unstarted tasks hold, in order.
    ghost predicate Valid()
      reads this
    {
      Sound(View()) && maxTrackedKeys >= 1
    }

    constructor (maxTrackedKeys: Option<int>)
      ensures Valid()
      ensures View() == Init(this.maxTrackedKeys)
      ensures maxTrackedKeys.None? ==> this.maxTrackedKeys == DEFAULT_MAX_TRACKED_KEYS
      ensures maxTrackedKeys.Some? ==>
        this.maxTrackedKeys == if maxTrackedKeys.value >= 1 then maxTrackedKeys.value else 1
    {
      var limit := if maxTrackedKeys.Some? then maxTrackedKeys.value else DEFAULT_MAX_TRACKED_KEYS;
      this.maxTrackedKeys := if limit < 1 then 1 else limit;
      buffers, keyChains, store, tasks := map[], map[], [], [];
      direct, arrived, started := multiset{}, [], [];
      InitIsSound<T>(if limit < 1 then 1 else limit);
    }

    method RunFlush(key: Key, items: seq<T>)
      modifies this`started
      ensures View() == StartFlush(old(View()), key, items)
    {
      started := started + [Batch(key, items)];
    }

    method EnqueueKeyTask(key: Key, work: Work<T>, gate: Gate) returns (task: nat)
      modifies this`tasks, this`keyChains
      ensures View() == ChainTask(old(View()), key, work, gate) && task == |old(tasks)|
    {
      var previous := if key in keyChains then Some(keyChains[key]) else None;
      task := |tasks|;
      tasks := tasks + [Task(key, previous, work, gate, Waiting)];
      keyChains := keyChains[key := task];
    }

    method ReleaseBuffer(b: nat)
      requires b < |store| && store[b].slot < |tasks|
      modifies this`store, this`tasks
      ensures store == old(store)[b := old(store)[b].(readyReleased := true)]
      ensures tasks == if old(store)[b].readyReleased then old(tasks) else ReleaseTask(old(tasks), old(store)[b].slot)
    {
      if store[b].readyReleased {
        return;
      }
      tasks := tasks[store[b].slot := tasks[store[b].slot].(gate := Released)];
      store := store[b := store[b].(readyReleased := true)];
    }

    method FlushBuffer(key: Key, b: nat)
      requires b < |store| && store[b].slot < |tasks|
      modifies this`buffers, this`store, this`tasks
      ensures View() == DebounceProtocol.FlushBuffer(old(View()), key, b)
    {
      if key in buffers && buffers[key] == b {
        buffers := buffers - {key};
      }
      store := store[b := store[b].(armed := false)];
      ReleaseBuffer(b);
    }

    method FlushKey(key: Key)
      requires Valid()
      modifies this`buffers, this`store, this`tasks
      ensures Valid() && View() == Next(old(View()), Event.FlushKey(key))
    {
      NextKeepsSound(View(), Event.FlushKey(key));
      if key !in buffers {
        return;
      }
      FlushBuffer(key, buffers[key]);
    }

    method CanTrackKey(key: Key) returns (can: bool)
      ensures can == CanTrack(View(), key)
    {
      if key in buffers || key in keyChains {
        return true;
      }
      can := |buffers.Keys + keyChains.Keys| < maxTrackedKeys;
    }

    method Enqueue(key: Key, item: T, debounceMs: nat, shouldDebounce: bool)
      requires Valid()
      modifies this
      ensures Valid() && View() == Next(old(View()), Event.Enqueue(key, item, debounceMs, shouldDebounce))
    {
      NextKeepsSound(View(), Event.Enqueue(key, item, debounceMs, shouldDebounce));
      Accept(key, item, debounceMs, shouldDebounce);
      arrived := arrived + [Batch(key, [item])];
    }

    method Accept(key: Key, item: T, debounceMs: nat, shouldDebounce: bool)
      requires InRange(View())
      modifies this`buffers, this`keyChains, this`store, this`tasks, this`direct, this`started
      ensures View() == DebounceProtocol.Accept(old(View()), key, item, debounceMs, shouldDebounce)
    {
      var canDebounce := debounceMs > 0 && shouldDebounce;
      if !canDebounce || key == NO_KEY {
        if key != NO_KEY && key in buffers {
          var pending := buffers[key];
          var reserved := EnqueueKeyTask(key, Immediate(item), UntilSettled(store[pending].slot));
          FlushBuffer(key, pending);
        } else if key != NO_KEY && key in keyChains {
          var task := EnqueueKeyTask(key, Immediate(item), Released);
        } else {
          RunFlush(key, [item]);
          direct := direct + multiset{key};
        }
        return;
      }
      if key in buffers {
        var existing := buffers[key];
        var buffer := store[existing];
        store := store[existing := buffer.(items := buffer.items + [item], debounceMs := debounceMs, armed := true)];
        return;
      }
      var can := CanTrackKey(key);
      if !can {
        var task := EnqueueKeyTask(key, Immediate(item), Released);
        return;
      }
      var slot := EnqueueKeyTask(key, Buffered(|store|), UntilFlushed);
      buffers := buffers[key := |store|];
      store := store + [Buffer([item], true, debounceMs, false, slot)];
    }

    // The callbacks of the runtime.

    method TimerFires(key: Key, b: nat)
      requires Valid() && Enabled(View(), Event.TimerFires(key, b))
      modifies this`buffers, this`store, this`tasks
      ensures Valid() && View() == Next(old(View()), Event.TimerFires(key, b))
    {
      NextKeepsSound(View(), Event.TimerFires(key, b));
      FlushBuffer(key, b);
    }

    method SlotReleases(t: nat)
      requires Valid() && Enabled(View(), Event.SlotReleases(t))
      modifies this`tasks
      ensures Valid() && View() == Next(old(View()), Event.SlotReleases(t))
    {
      NextKeepsSound(View(), Event.SlotReleases(t));
      tasks := tasks[t := tasks[t].(gate := Released)];
    }

    method TaskStarts(t: nat)
      requires Valid() && Enabled(View(), Event.TaskStarts(t))
      modifies this`tasks, this`started
      ensures Valid() && View() == Next(old(View()), Event.TaskStarts(t))
    {
      NextKeepsSound(View(), Event.TaskStarts(t));
      var task := tasks[t];
      var items := TaskItems(task, store);
      if |items| == 0 {
        tasks := tasks[t := task.(phase := Settled)];
        return;
      }
      tasks := tasks[t := task.(phase := Flushing)];
      RunFlush(task.key, items);
    }

    method TaskSettles(t: nat, succeeded: bool)
      requires Valid() && Enabled(View(), Event.TaskSettles(t, succeeded))
      modifies this`tasks
      ensures Valid() && View() == Next(old(View()), Event.TaskSettles(t, succeeded))
    {
      NextKeepsSound(View(), Event.TaskSettles(t, succeeded));
      tasks := tasks[t := tasks[t].(phase := Settled)];
    }

    // A flush that `enqueue` awaits without a chain settles.
    method DirectSettles(key: Key, succeeded: bool)
      requires Valid() && Enabled(View(), Event.DirectSettles(key, succeeded))
      modifies this`direct
      ensures Valid() && View() == Next(old(View()), Event.DirectSettles(key, succeeded))
    {
      NextKeepsSound(View(), Event.DirectSettles(key, succeeded));
      direct := direct - multiset{key};
    }

    method ChainDrops(t: nat)
      requires Valid() && Enabled(View(), Event.ChainDrops(t))
      modifies this`tasks, this`keyChains
      ensures Valid() && View() == Next(old(View()), Event.ChainDrops(t))
    {
      NextKeepsSound(View(), Event.ChainDrops(t));
      var key := tasks[t].key;
      tasks := tasks[t := tasks[t].(phase := Dropped)];
      if key in keyChains && keyChains[key] == t {
        keyChains := keyChains - {key};
      }
    }
  }
}
