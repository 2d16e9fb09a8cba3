/** The older ES-module source of the `Jiken` event emitter.

    It has no dispatch strategy (every listener is applied at once), `listeners`
    returns the stored entries themselves, `emit` returns false for an empty
    list and deletes the key only after its loop, and `removeListener` never
    deletes a key.  A key can therefore hold an empty list, and the invariant
    kept is only `Indexed`.  `called` records the listener calls in order.
 */
module JikenSrc {
  import opened Listeners
  import opened Dispatch
  import opened EventMap

  class Jiken<K(==, !new), V> {
    var events: map<K, seq<Entry>>
    var names: seq<K>
    var called: seq<Handoff<V>>

    /** The registry as a value. */
    function State(): Registry<K>
      reads this`events, this`names
    {
      Registry(events, names)
    }

    ghost predicate Valid()
      reads this`events, this`names
    {
      Indexed(State())
    }

    /** A new instance has no listeners. */
    constructor ()
      ensures Valid() && State() == Empty()
      ensures called == []
    {
      events := map[];
      names := [];
      called := [];
    }

    /** `listener.apply(this, args)`. */
    method Apply(listener: ListenerId, args: seq<V>)
      modifies this`called
      ensures called == old(called) + [Call(listener, args)]
    {
      called := called + [Call(listener, args)];
    }

    /** `_init_event_if(name)`: create the list of a new name. */
    method InitEventIf(name: K)
      modifies this`events, this`names
      ensures State() == Init(old(State()), name)
    {
      if name !in events {
        events := events[name := []];
        names := names + [name];
      }
    }

    /** `emit(name, ...args)`: false, and nothing happens, for an absent name
        or an empty list; otherwise every entry is applied once, in list order,
        the once-entries are removed, the key is deleted if nothing is left,
        and the result is true. */
    method Emit(name: K, args: seq<V>) returns (fired: bool)
      requires Valid()
      modifies this`events, this`names, this`called
      ensures Valid()
      ensures fired <==> name in old(events) && old(events)[name] != []
      ensures State() == FireLegacy(old(State()), name)
      ensures called == old(called) + Handoffs(Mode.Sync, Unwrapped(old(Listeners(name))), args)
    {
      if name !in events || events[name] == [] {
        return false;
      }
      var event := FireList(events[name], args);
      WriteBack(name, event);
      return true;
    }

    /** `emit`'s loop over the list `event0`: every entry is applied
        once, in order, and the once-entries are spliced out. */
    method FireList(event0: seq<Entry>, args: seq<V>) returns (event: seq<Entry>)
      modifies this`called
      ensures event == Plains(event0)
      ensures called == old(called) + Handoffs(Mode.Sync, Unwrapped(event0), args)
    {
      event := event0;
      ghost var orig := event0;
      ghost var sent := Unwrapped(orig);
      ConsumeStart(orig);
      assert old(called) + [] == old(called);
      ghost var k := 0;
      var idx: int := 0;
      while idx < |event|
        invariant sent == Unwrapped(orig)
        invariant Consumed(orig, k, event, idx)
        invariant called == old(called) + Sent(Mode.Sync, sent, k, args)
        modifies this`called
        decreases |orig| - k
      {
        event, idx := ApplyEntry(orig, sent, old(called), k, event, idx, args);
        k := k + 1;
        idx := idx + 1;
      }
      ConsumeEnd(orig, k, event, idx);
      SentAll(Mode.Sync, sent, k, args);
    }

    /** One pass of `emit`'s loop body: a once-entry is spliced out and the
        cursor moved back (`idx -= 1`); then the function is applied. */
    method ApplyEntry(ghost orig: seq<Entry>, ghost sent: seq<ListenerId>, ghost base: seq<Handoff<V>>,
                      ghost k: nat, event: seq<Entry>, idx: int, args: seq<V>)
      returns (event': seq<Entry>, idx': int)
      requires sent == Unwrapped(orig)
      requires Consumed(orig, k, event, idx) && 0 <= idx < |event|
      requires called == base + Sent(Mode.Sync, sent, k, args)
      modifies this`called
      ensures k < |orig| && Consumed(orig, k + 1, event', idx' + 1)
      ensures called == base + Sent(Mode.Sync, sent, k + 1, args)
    {
      var listener := event[idx];
      UnwrappedAt(orig, k);
      if listener.Once? {
        ConsumeOnce(orig, k, event, idx);
        event', idx' := event[..idx] + event[idx + 1..], idx - 1;
        Apply(listener.inner, args);
      } else {
        ConsumePlain(orig, k, event, idx);
        event', idx' := event, idx;
        Apply(listener.id, args);
      }
    }

    /** After the loop: `if (event.length === 0) delete this._events[name]`. */
    method WriteBack(name: K, event: seq<Entry>)
      requires Valid() && name in events && events[name] != [] && event == Plains(events[name])
      modifies this`events, this`names
      ensures Valid() && State() == FireLegacy(old(State()), name)
    {
      if event != [] {
        FireLegacyKept(State(), name);
        events := events[name := event];
      } else {
        FireLegacyDropped(State(), name);
        events := events - {name};
        names := Without(names, name);
      }
    }

    /** `eventNames()`: every key present, empty lists included, each once. */
    function EventNames(): (ks: seq<K>)
      reads this`events, this`names
      ensures Valid() ==> Distinct(ks)
      ensures Valid() ==> forall k :: k in ks <==> k in events
    {
      names
    }

    /** `listenerCount(name)`: how many entries; 0 for an absent name. */
    function ListenerCount(name: K): (n: nat)
      reads this`events, this`names
      ensures n == |Listeners(name)|
      ensures name !in events ==> n == 0
    {
      if name in events then |events[name]| else 0
    }

    /** `listeners(name)`: the stored entries themselves, once-wrappers
        included; `[]` for an absent name. */
    function Listeners(name: K): (es: seq<Entry>)
      reads this`events, this`names
      ensures es == ListOf(State(), name)
    {
      if name in events then events[name] else []
    }

    /** `on(name, listener)`: append `listener`, no duplicate check. */
    method On(name: K, listener: Arg) returns (c: Completion)
      requires Valid()
      modifies this`events, this`names
      ensures Valid()
      ensures c == if listener.Fn? then Normal else TypeError(InvalidListenerMessage)
      ensures State() == if listener.Fn? then Insert(old(State()), name, Plain(listener.id), Back) else old(State())
    {
      c := CheckListener(listener);
      if c.TypeError? {
        return;
      }
      InitEventIf(name);
      events := events[name := events[name] + [Plain(listener.id)]];
      InsertKeeps(old(State()), name, Plain(listener.id), Back);
    }

    /** `prependListener(name, listener)`: put `listener` before every other entry. */
    method PrependListener(name: K, listener: Arg) returns (c: Completion)
      requires Valid()
      modifies this`events, this`names
      ensures Valid()
      ensures c == if listener.Fn? then Normal else TypeError(InvalidListenerMessage)
      ensures State() == if listener.Fn? then Insert(old(State()), name, Plain(listener.id), Front) else old(State())
    {
      c := CheckListener(listener);
      if c.TypeError? {
        return;
      }
      InitEventIf(name);
      events := events[name := [Plain(listener.id)] + events[name]];
      InsertKeeps(old(State()), name, Plain(listener.id), Front);
    }

    /** `once(name, listener)`: append `{once: true, inner: listener}`. */
    method Once(name: K, listener: Arg) returns (c: Completion)
      requires Valid()
      modifies this`events, this`names
      ensures Valid()
      ensures c == if listener.Fn? then Normal else TypeError(InvalidListenerMessage)
      ensures State() == if listener.Fn? then Insert(old(State()), name, Entry.Once(listener.id), Back) else old(State())
    {
      c := CheckListener(listener);
      if c.TypeError? {
        return;
      }
      InitEventIf(name);
      events := events[name := events[name] + [Entry.Once(listener.id)]];
      InsertKeeps(old(State()), name, Entry.Once(listener.id), Back);
    }

    /** `prependOnceListener(name, listener)`: put `{once: true, inner: listener}` first. */
    method PrependOnceListener(name: K, listener: Arg) returns (c: Completion)
      requires Valid()
      modifies this`events, this`names
      ensures Valid()
      ensures c == if listener.Fn? then Normal else TypeError(InvalidListenerMessage)
      ensures State() == if listener.Fn? then Insert(old(State()), name, Entry.Once(listener.id), Front) else old(State())
    {
      c := CheckListener(listener);
      if c.TypeError? {
        return;
      }
      InitEventIf(name);
      events := events[name := [Entry.Once(listener.id)] + events[name]];
      InsertKeeps(old(State()), name, Entry.Once(listener.id), Front);
    }

    /** `removeAllListeners(name)`, `removeAllListeners()`. */
    method RemoveAllListeners(name: Option<K>)
      requires Valid()
      modifies this`events, this`names
      ensures Valid()
      ensures State() == RemoveAll(old(State()), name)
    {
      RemoveAllKeeps(State(), name);
      match name {
        case None =>
          events := map[];
          names := [];
        case Some(n) =>
          events := events - {n};
          names := Without(names, n);
      }
    }

    /** `removeListener(name, listener)`: search the list for the first entry
        that is `listener` or wraps it and splice it out; the key stays even
        when its list is left empty. */
    method RemoveListener(name: K, listener: Arg) returns (c: Completion)
      requires Valid()
      modifies this`events, this`names
      ensures Valid()
      ensures c == if listener.Fn? then Normal else TypeError(InvalidListenerMessage)
      ensures State() == if listener.Fn? then UnregisterLegacy(old(State()), name, listener.id) else old(State())
    {
      c := CheckListener(listener);
      if c.TypeError? {
        return;
      }
      var f := listener.id;
      ghost var r0 := State();
      UnregisterLegacyKeeps(r0, name, f);
      if name in events {
        var event := events[name];
        var idx := 0;
        while idx < |event|
          invariant 0 <= idx <= |event|
          invariant forall j :: 0 <= j < idx ==> Callable(event[j]) != f
        {
          var entry := event[idx];
          if (entry.Once? && entry.inner == f) || entry == Plain(f) {
            UnregisterLegacyAt(r0, name, f, idx);
            events := events[name := event[..idx] + event[idx + 1..]];
            return;
          }
          idx := idx + 1;
        }
        RemoveFirstAbsent(event, f);
      }
      UnregisterLegacyAbsent(r0, name, f);
    }
  }
}
