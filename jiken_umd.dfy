/** The UMD build of the `Jiken` event emitter, compiled from an intermediate
    revision.

    Like the reference revision it has the dispatch strategy (`sync`,
    `not_sync`) and `trigger`; like the older source, `listeners` returns the
    stored entries themselves, `emit` returns false for an empty list and
    deletes the key only after its loop, and `removeListener` never deletes a
    key, so the invariant kept is only `Indexed`.  The compiled code collects
    the rest arguments of `emit` and `trigger` with an explicit copy loop.
    `handed` records what the strategy did with each listener.
 */
module JikenUmd {
  import opened Listeners
  import opened Dispatch
  import opened EventMap

  class Jiken<K(==, !new), V> {
    var events: map<K, seq<Entry>>
    var names: seq<K>
    var mode: Mode
    var handed: seq<Handoff<V>>

    /** The registry as a value. */
    function State(): Registry<K>
      reads this`events, this`names
    {
      Registry(events, names)
    }

    ghost predicate Valid()
      reads this`events, this`names
    {
      Indexed(State())
    }

    /** A new instance has no listeners and dispatches synchronously. */
    constructor ()
      ensures Valid() && State() == Empty()
      ensures mode == Mode.Sync && handed == []
    {
      events := map[];
      names := [];
      mode := Mode.Sync;
      handed := [];
      new;
      Sync();
    }

    /** `sync()`: from now on every listener is called at once. */
    method Sync()
      modifies this`mode
      ensures mode == Mode.Sync
    {
      mode := Mode.Sync;
    }

    /** `not_sync(timeout)`: from now on every call goes through `setTimeout(…, timeout || 0)`. */
    method NotSync(timeout: Option<nat>)
      modifies this`mode
      ensures mode == Deferred(DelayOf(timeout))
    {
      mode := Deferred(DelayOf(timeout));
    }

    /** `_invoke_listener(listener, args)` under the current strategy. */
    method InvokeListener(listener: ListenerId, args: seq<V>)
      modifies this`handed
      ensures handed == old(handed) + [HandOff(mode, listener, args)]
    {
      match mode
      case Sync =>
        handed := handed + [Call(listener, args)];
      case Deferred(t) =>
        handed := handed + [Timer(listener, args, t)];
    }

    /** `_init_event_if(name)`: create the list of a new name. */
    method InitEventIf(name: K)
      modifies this`events, this`names
      ensures State() == Init(old(State()), name)
    {
      if name !in events {
        events := events[name := []];
        names := names + [name];
      }
    }

    /** `emit(name, ...args)`, `args` being what `RestArguments` collects:
        false, and nothing happens, for an absent name or an empty list;
        otherwise every entry is handed to the strategy once, in list order,
        the once-entries are removed, the key is deleted if nothing is left,
        and the result is true. */
    method Emit(name: K, args: seq<V>) returns (fired: bool)
      requires Valid()
      modifies this`events, this`names, this`handed
      ensures Valid()
      ensures fired <==> name in old(events) && old(events)[name] != []
      ensures State() == FireLegacy(old(State()), name)
      ensures handed == old(handed) + Handoffs(mode, Unwrapped(old(Listeners(name))), args)
    {
      if name !in events || events[name] == [] {
        return false;
      }
      var event := FireList(events[name], args);
      WriteBack(name, event);
      return true;
    }

    /** `emit`'s loop over the list `event0`: every entry is handed to the strategy
        once, in order, and the once-entries are spliced out. */
    method FireList(event0: seq<Entry>, args: seq<V>) returns (event: seq<Entry>)
      modifies this`handed
      ensures event == Plains(event0)
      ensures handed == old(handed) + Handoffs(mode, Unwrapped(event0), args)
    {
      event := event0;
      ghost var orig := event0;
      ghost var sent := Unwrapped(orig);
      ghost var m := mode;
      ConsumeStart(orig);
      assert old(handed) + [] == old(handed);
      ghost var k := 0;
      var idx: int := 0;
      while idx < |event|
        invariant sent == Unwrapped(orig)
        invariant Consumed(orig, k, event, idx)
        invariant handed == old(handed) + Sent(m, sent, k, args)
        modifies this`handed
        decreases |orig| - k
      {
        event, idx := FireEntry(orig, sent, old(handed), k, event, idx, args);
        k := k + 1;
        idx := idx + 1;
      }
      ConsumeEnd(orig, k, event, idx);
      SentAll(m, sent, k, args);
    }

    /** One pass of `emit`'s loop body: a once-entry is spliced out and the
        cursor moved back (`idx -= 1`); then the function is handed to the strategy. */
    method FireEntry(ghost orig: seq<Entry>, ghost sent: seq<ListenerId>, ghost base: seq<Handoff<V>>,
                      ghost k: nat, event: seq<Entry>, idx: int, args: seq<V>)
      returns (event': seq<Entry>, idx': int)
      requires sent == Unwrapped(orig)
      requires Consumed(orig, k, event, idx) && 0 <= idx < |event|
      requires handed == base + Sent(mode, sent, k, args)
      modifies this`handed
      ensures k < |orig| && Consumed(orig, k + 1, event', idx' + 1)
      ensures handed == base + Sent(mode, sent, k + 1, args)
    {
      var listener := event[idx];
      UnwrappedAt(orig, k);
      if listener.Once? {
        ConsumeOnce(orig, k, event, idx);
        event', idx' := event[..idx] + event[idx + 1..], idx - 1;
        InvokeListener(listener.inner, args);
      } else {
        ConsumePlain(orig, k, event, idx);
        event', idx' := event, idx;
        InvokeListener(listener.id, args);
      }
    }

    /** After the loop: `if (event.length === 0) delete this._events[name]`. */
    method WriteBack(name: K, event: seq<Entry>)
      requires Valid() && name in events && events[name] != [] && event == Plains(events[name])
      modifies this`events, this`names
      ensures Valid() && State() == FireLegacy(old(State()), name)
    {
      if event != [] {
        FireLegacyKept(State(), name);
        events := events[name := event];
      } else {
        FireLegacyDropped(State(), name);
        events := events - {name};
        names := Without(names, name);
      }
    }

    /** `trigger(name, ...args)`: `emit` for chaining; the result is dropped. */
    method Trigger(name: K, args: seq<V>)
      requires Valid()
      modifies this`events, this`names, this`handed
      ensures Valid()
      ensures State() == FireLegacy(old(State()), name)
      ensures handed == old(handed) + Handoffs(mode, Unwrapped(old(Listeners(name))), args)
    {
      var _ := Emit(name, args);
    }

    /** `eventNames()`: every key present, empty lists included, each once. */
    function EventNames(): (ks: seq<K>)
      reads this`events, this`names
      ensures Valid() ==> Distinct(ks)
      ensures Valid() ==> forall k :: k in ks <==> k in events
    {
      names
    }

    /** `listenerCount(name)`: how many entries; 0 for an absent name. */
    function ListenerCount(name: K): (n: nat)
      reads this`events, this`names
      ensures n == |Listeners(name)|
      ensures name !in events ==> n == 0
    {
      if name in events then |events[name]| else 0
    }

    /** `listeners(name)`: the stored entries themselves, once-wrappers
        included; `[]` for an absent name. */
    function Listeners(name: K): (es: seq<Entry>)
      reads this`events, this`names
      ensures es == ListOf(State(), name)
    {
      if name in events then events[name] else []
    }

    /** `on(name, listener)`: append `listener`, no duplicate check. */
    method On(name: K, listener: Arg) returns (c: Completion)
      requires Valid()
      modifies this`events, this`names
      ensures Valid()
      ensures c == if listener.Fn? then Normal else TypeError(InvalidListenerMessage)
      ensures State() == if listener.Fn? then Insert(old(State()), name, Plain(listener.id), Back) else old(State())
    {
      c := CheckListener(listener);
      if c.TypeError? {
        return;
      }
      InitEventIf(name);
      events := events[name := events[name] + [Plain(listener.id)]];
      InsertKeeps(old(State()), name, Plain(listener.id), Back);
    }

    /** `prependListener(name, listener)`: put `listener` before every other entry. */
    method PrependListener(name: K, listener: Arg) returns (c: Completion)
      requires Valid()
      modifies this`events, this`names
      ensures Valid()
      ensures c == if listener.Fn? then Normal else TypeError(InvalidListenerMessage)
      ensures State() == if listener.Fn? then Insert(old(State()), name, Plain(listener.id), Front) else old(State())
    {
      c := CheckListener(listener);
      if c.TypeError? {
        return;
      }
      InitEventIf(name);
      events := events[name := [Plain(listener.id)] + events[name]];
      InsertKeeps(old(State()), name, Plain(listener.id), Front);
    }

    /** `once(name, listener)`: append `{once: true, inner: listener}`. */
    method Once(name: K, listener: Arg) returns (c: Completion)
      requires Valid()
      modifies this`events, this`names
      ensures Valid()
      ensures c == if listener.Fn? then Normal else TypeError(InvalidListenerMessage)
      ensures State() == if listener.Fn? then Insert(old(State()), name, Entry.Once(listener.id), Back) else old(State())
    {
      c := CheckListener(listener);
      if c.TypeError? {
        return;
      }
      InitEventIf(name);
      events := events[name := events[name] + [Entry.Once(listener.id)]];
      InsertKeeps(old(State()), name, Entry.Once(listener.id), Back);
    }

    /** `prependOnceListener(name, listener)`: put `{once: true, inner: listener}` first. */
    method PrependOnceListener(name: K, listener: Arg) returns (c: Completion)
      requires Valid()
      modifies this`events, this`names
      ensures Valid()
      ensures c == if listener.Fn? then Normal else TypeError(InvalidListenerMessage)
      ensures State() == if listener.Fn? then Insert(old(State()), name, Entry.Once(listener.id), Front) else old(State())
    {
      c := CheckListener(listener);
      if c.TypeError? {
        return;
      }
      InitEventIf(name);
      events := events[name := [Entry.Once(listener.id)] + events[name]];
      InsertKeeps(old(State()), name, Entry.Once(listener.id), Front);
    }

    /** `removeAllListeners(name)`, `removeAllListeners()`. */
    method RemoveAllListeners(name: Option<K>)
      requires Valid()
      modifies this`events, this`names
      ensures Valid()
      ensures State() == RemoveAll(old(State()), name)
    {
      RemoveAllKeeps(State(), name);
      match name {
        case None =>
          events := map[];
          names := [];
        case Some(n) =>
          events := events - {n};
          names := Without(names, n);
      }
    }

    /** `removeListener(name, listener)`: search the list for the first entry
        that is `listener` or wraps it and splice it out; the key stays even
        when its list is left empty. */
    method RemoveListener(name: K, listener: Arg) returns (c: Completion)
      requires Valid()
      modifies this`events, this`names
      ensures Valid()
      ensures c == if listener.Fn? then Normal else TypeError(InvalidListenerMessage)
      ensures State() == if listener.Fn? then UnregisterLegacy(old(State()), name, listener.id) else old(State())
    {
      c := CheckListener(listener);
      if c.TypeError? {
        return;
      }
      var f := listener.id;
      ghost var r0 := State();
      UnregisterLegacyKeeps(r0, name, f);
      if name in events {
        var event := events[name];
        var idx := 0;
        while idx < |event|
          invariant 0 <= idx <= |event|
          invariant forall j :: 0 <= j < idx ==> Callable(event[j]) != f
        {
          var entry := event[idx];
          if (entry.Once? && entry.inner == f) || entry == Plain(f) {
            UnregisterLegacyAt(r0, name, f, idx);
            events := events[name := event[..idx] + event[idx + 1..]];
            return;
          }
          idx := idx + 1;
        }
        RemoveFirstAbsent(event, f);
      }
      UnregisterLegacyAbsent(r0, name, f);
    }
  }

  /** The compiled rest parameter of `emit` and `trigger`: an array of
      `max(arguments.length - 1, 0)` slots, filled from `arguments[1]` on
      (`arguments[0]` is the event name). */
  method RestArguments<T(0)>(arguments: seq<T>) returns (args: seq<T>)
    ensures |args| == if |arguments| > 1 then |arguments| - 1 else 0
    ensures forall i :: 0 <= i < |args| ==> args[i] == arguments[i + 1]
  {
    var len := |arguments|;
    var a := new T[if len > 1 then len - 1 else 0];
    var key := 1;
    while key < len
      invariant 1 <= key <= if len > 1 then len else 1
      invariant a.Length == if len > 1 then len - 1 else 0
      invariant forall j :: 0 <= j < key - 1 ==> a[j] == arguments[j + 1]
    {
      a[key - 1] := arguments[key];
      key := key + 1;
    }
    args := a[..];
  }
}
