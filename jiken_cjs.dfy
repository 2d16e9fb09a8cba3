/** The reference revision of the `Jiken` event emitter (the CommonJS build).

    The object's fields are the registry `_events` (here `events`, with the key
    order of `Object.keys` kept in `names`) and the dispatch strategy
    `_invoke_listener` (here `mode`).  `handed` records what the strategy did:
    each listener called at once, or handed to `setTimeout`.
    Every method is proved to change the registry as the matching function of
    `EventMap` says, and to keep `Compact`: a key is present exactly while its
    list is non-empty.  Listeners are opaque and leave the emitter alone.
 */
module JikenCjs {
  import opened Listeners
  import opened Dispatch
  import opened EventMap

  class Jiken<K(==, !new), V> {
    var events: map<K, seq<Entry>>
    var names: seq<K>
    var mode: Mode
    var handed: seq<Handoff<V>>

    /** The registry as a value. */
    function State(): Registry<K>
      reads this`events, this`names
    {
      Registry(events, names)
    }

    ghost predicate Valid()
      reads this`events, this`names
    {
      Compact(State())
    }

    /** A new instance has no listeners and dispatches synchronously. */
    constructor ()
      ensures Valid() && State() == Empty()
      ensures mode == Mode.Sync && handed == []
    {
      events := map[];
      names := [];
      mode := Mode.Sync;
      handed := [];
      new;
      Sync();
    }

    /** `sync()`: from now on every listener is called at once. */
    method Sync()
      modifies this`mode
      ensures mode == Mode.Sync
    {
      mode := Mode.Sync;
    }

    /** `not_sync(timeout)`: from now on every call goes through `setTimeout(…, timeout || 0)`. */
    method NotSync(timeout: Option<nat>)
      modifies this`mode
      ensures mode == Deferred(DelayOf(timeout))
    {
      mode := Deferred(DelayOf(timeout));
    }

    /** `_invoke_listener(listener, args)` under the current strategy. */
    method InvokeListener(listener: ListenerId, args: seq<V>)
      modifies this`handed
      ensures handed == old(handed) + [HandOff(mode, listener, args)]
    {
      match mode
      case Sync =>
        handed := handed + [Call(listener, args)];
      case Deferred(t) =>
        handed := handed + [Timer(listener, args, t)];
    }

    /** `_init_event_if(name)`: create the list of a new name. */
    method InitEventIf(name: K)
      modifies this`events, this`names
      ensures State() == Init(old(State()), name)
    {
      if name !in events {
        events := events[name := []];
        names := names + [name];
      }
    }

    /** `emit(name, ...args)`: false, and nothing happens, for a name without
        listeners; otherwise every entry is handed to the strategy once, in
        list order, the once-entries are removed, and the result is true. */
    method Emit(name: K, args: seq<V>) returns (fired: bool)
      requires Valid()
      modifies this`events, this`names, this`handed
      ensures Valid()
      ensures fired <==> name in old(events)
      ensures State() == Fire(old(State()), name)
      ensures handed == old(handed) + Handoffs(mode, old(Listeners(name)), args)
    {
      if name !in events {
        return false;
      }
      var event := FireList(events[name], args);
      WriteBack(name, event);
      return true;
    }

    /** `emit`'s loop over the list `event0`: every entry is handed to the
        strategy once, in order, and the once-entries are spliced out; the
        loop stops early when the list becomes empty. */
    method FireList(event0: seq<Entry>, args: seq<V>) returns (event: seq<Entry>)
      modifies this`handed
      ensures event == Plains(event0)
      ensures handed == old(handed) + Handoffs(mode, Unwrapped(event0), args)
    {
      event := event0;
      ghost var orig := event0;
      ghost var sent := Unwrapped(orig);
      ghost var m := mode;
      ConsumeStart(orig);
      assert old(handed) + [] == old(handed);
      ghost var k := 0;
      var idx: int := 0;
      while idx < |event|
        invariant sent == Unwrapped(orig)
        invariant Consumed(orig, k, event, idx) && (orig != [] ==> event != [])
        invariant handed == old(handed) + Sent(m, sent, k, args)
        modifies this`handed
        decreases |orig| - k
      {
        var spliced;
        event, idx, spliced := FireEntry(orig, sent, old(handed), k, event, idx, args);
        k := k + 1;
        if spliced && |event| == 0 {
          ConsumeEnd(orig, k, event, idx + 1);
          break;
        }
        idx := idx + 1;
      }
      if event != [] || orig == [] {
        ConsumeEnd(orig, k, event, idx);
      }
      SentAll(m, sent, k, args);
    }

    /** The list `emit` leaves behind, the plain entries of the one it started
        with: kept under `name`, or the key deleted once nothing is left. */
    method WriteBack(name: K, event: seq<Entry>)
      requires Valid() && name in events && event == Plains(events[name])
      modifies this`events, this`names
      ensures Valid() && State() == Fire(old(State()), name)
    {
      if event != [] {
        FireKept(State(), name);
        events := events[name := event];
      } else {
        FireDropped(State(), name);
        events := events - {name};
        names := Without(names, name);
      }
    }

    /** One pass of `emit`'s loop body: the entry under the cursor is handed to
        the strategy; a once-entry is spliced out first and the cursor is moved
        back (`idx -= 1`) so that the loop's `idx += 1` lands on its successor. */
    method FireEntry(ghost orig: seq<Entry>, ghost sent: seq<ListenerId>, ghost base: seq<Handoff<V>>,
                     ghost k: nat, event: seq<Entry>, idx: int, args: seq<V>)
      returns (event': seq<Entry>, idx': int, spliced: bool)
      requires sent == Unwrapped(orig)
      requires Consumed(orig, k, event, idx) && 0 <= idx < |event|
      requires handed == base + Sent(mode, sent, k, args)
      modifies this`handed
      ensures k < |orig| && Consumed(orig, k + 1, event', idx' + 1)
      ensures handed == base + Sent(mode, sent, k + 1, args)
      ensures spliced ==> |event'| == |event| - 1 && idx' == idx - 1
      ensures !spliced ==> event' == event && idx' == idx
    {
      var listener := event[idx];
      UnwrappedAt(orig, k);
      if listener.Once? {
        ConsumeOnce(orig, k, event, idx);
        event' := event[..idx] + event[idx + 1..];
        idx', spliced := idx - 1, true;
        InvokeListener(listener.inner, args);
      } else {
        ConsumePlain(orig, k, event, idx);
        event', idx', spliced := event, idx, false;
        InvokeListener(listener.id, args);
      }
    }

    /** `trigger(name, ...args)`: `emit` for chaining; the result is dropped. */
    method Trigger(name: K, args: seq<V>)
      requires Valid()
      modifies this`events, this`names, this`handed
      ensures Valid()
      ensures State() == Fire(old(State()), name)
      ensures handed == old(handed) + Handoffs(mode, old(Listeners(name)), args)
    {
      var _ := Emit(name, args);
    }

    /** `eventNames()`: the names that have listeners, in key order, each once. */
    function EventNames(): (ks: seq<K>)
      reads this`events, this`names
      ensures Valid() ==> Distinct(ks)
      ensures Valid() ==> forall k :: k in ks <==> ListenerCount(k) > 0
    {
      names
    }

    /** `listenerCount(name)`: how many entries, once-entries included; 0 for an absent name. */
    function ListenerCount(name: K): (n: nat)
      reads this`events, this`names
      ensures n == |Listeners(name)|
      ensures Valid() ==> (n == 0 <==> name !in events)
    {
      if name in events then |events[name]| else 0
    }

    /** `listeners(name)`: the functions registered, in order, with every
        once-wrapper replaced by its inner function; `[]` for an absent name. */
    function Listeners(name: K): (fs: seq<ListenerId>)
      reads this`events, this`names
      ensures name !in events ==> fs == []
      ensures name in events ==> |fs| == |events[name]|
      ensures name in events ==> forall i :: 0 <= i < |fs| ==> fs[i] == Callable(events[name][i])
    {
      if name in events then UnwrappedAll(events[name]); Unwrapped(events[name]) else []
    }

    /** `on(name, listener)`: append `listener`, no duplicate check. */
    method On(name: K, listener: Arg) returns (c: Completion)
      requires Valid()
      modifies this`events, this`names
      ensures Valid()
      ensures c == if listener.Fn? then Normal else TypeError(InvalidListenerMessage)
      ensures State() == if listener.Fn? then Insert(old(State()), name, Plain(listener.id), Back) else old(State())
    {
      c := CheckListener(listener);
      if c.TypeError? {
        return;
      }
      InitEventIf(name);
      events := events[name := events[name] + [Plain(listener.id)]];
      InsertKeeps(old(State()), name, Plain(listener.id), Back);
    }

    /** `prependListener(name, listener)`: put `listener` before every other entry. */
    method PrependListener(name: K, listener: Arg) returns (c: Completion)
      requires Valid()
      modifies this`events, this`names
      ensures Valid()
      ensures c == if listener.Fn? then Normal else TypeError(InvalidListenerMessage)
      ensures State() == if listener.Fn? then Insert(old(State()), name, Plain(listener.id), Front) else old(State())
    {
      c := CheckListener(listener);
      if c.TypeError? {
        return;
      }
      InitEventIf(name);
      events := events[name := [Plain(listener.id)] + events[name]];
      InsertKeeps(old(State()), name, Plain(listener.id), Front);
    }

    /** `once(name, listener)`: append `{once: true, inner: listener}`. */
    method Once(name: K, listener: Arg) returns (c: Completion)
      requires Valid()
      modifies this`events, this`names
      ensures Valid()
      ensures c == if listener.Fn? then Normal else TypeError(InvalidListenerMessage)
      ensures State() == if listener.Fn? then Insert(old(State()), name, Entry.Once(listener.id), Back) else old(State())
    {
      c := CheckListener(listener);
      if c.TypeError? {
        return;
      }
      InitEventIf(name);
      events := events[name := events[name] + [Entry.Once(listener.id)]];
      InsertKeeps(old(State()), name, Entry.Once(listener.id), Back);
    }

    /** `prependOnceListener(name, listener)`: put `{once: true, inner: listener}` first. */
    method PrependOnceListener(name: K, listener: Arg) returns (c: Completion)
      requires Valid()
      modifies this`events, this`names
      ensures Valid()
      ensures c == if listener.Fn? then Normal else TypeError(InvalidListenerMessage)
      ensures State() == if listener.Fn? then Insert(old(State()), name, Entry.Once(listener.id), Front) else old(State())
    {
      c := CheckListener(listener);
      if c.TypeError? {
        return;
      }
      InitEventIf(name);
      events := events[name := [Entry.Once(listener.id)] + events[name]];
      InsertKeeps(old(State()), name, Entry.Once(listener.id), Front);
    }

    /** `removeAllListeners(name)`, `removeAllListeners()`. */
    method RemoveAllListeners(name: Option<K>)
      requires Valid()
      modifies this`events, this`names
      ensures Valid()
      ensures State() == RemoveAll(old(State()), name)
    {
      RemoveAllKeeps(State(), name);
      match name {
        case None =>
          events := map[];
          names := [];
        case Some(n) =>
          events := events - {n};
          names := Without(names, n);
      }
    }

    /** `removeListener(name, listener)`: search the list for the first entry
        that is `listener` or wraps it, remove it, and delete the key if the
        list is left empty; nothing else changes. */
    method RemoveListener(name: K, listener: Arg) returns (c: Completion)
      requires Valid()
      modifies this`events, this`names
      ensures Valid()
      ensures c == if listener.Fn? then Normal else TypeError(InvalidListenerMessage)
      ensures State() == if listener.Fn? then Unregister(old(State()), name, listener.id) else old(State())
    {
      c := CheckListener(listener);
      if c.TypeError? {
        return;
      }
      var f := listener.id;
      ghost var r0 := State();
      UnregisterKeeps(r0, name, f);
      if name in events {
        var event := events[name];
        var idx := 0;
        while idx < |event|
          invariant 0 <= idx <= |event|
          invariant forall j :: 0 <= j < idx ==> Callable(event[j]) != f
        {
          var entry := event[idx];
          if (entry.Once? && entry.inner == f) || entry == Plain(f) {
            UnregisterAt(r0, name, f, idx);
            event := event[..idx] + event[idx + 1..];
            events := events[name := event];
            if |event| == 0 {
              events := events - {name};
              names := Without(names, name);
            }
            return;
          }
          idx := idx + 1;
        }
        RemoveFirstAbsent(event, f);
      }
      UnregisterAbsent(r0, name, f);
    }
  }
}
