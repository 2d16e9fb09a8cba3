/** The registry `_events` as a value, and the effect of each Jiken operation on it.

    `events` maps an event name to its listener list; `names` records the order
    in which the keys present were (last) created, which is the order
    `Object.keys` reports them in for the string keys the model stands for.
    The classes of the three revisions are proved to change their state exactly
    as the functions here say; the lemmas here state what that means.
 */
module EventMap {
  import opened Listeners

  /** Where a registration puts its entry: `push` or `unshift`. */
  datatype Position = Back | Front

  datatype Registry<K> = Registry(events: map<K, seq<Entry>>, names: seq<K>)

  ghost predicate Distinct<K(!new)>(s: seq<K>)
  {
    forall i, j :: 0 <= i < j < |s| ==> s[i] != s[j]
  }

  /** `names` lists every present key once, and nothing else. */
  ghost predicate Indexed<K(!new)>(r: Registry<K>)
  {
    Distinct(r.names) && forall k :: k in r.events <==> k in r.names
  }

  /** No key holds an empty list. */
  ghost predicate NoEmptyLists<K(!new)>(r: Registry<K>)
  {
    forall k :: k in r.events ==> r.events[k] != []
  }

  /** The reference revision's invariant: a key is present exactly while its list is non-empty. */
  ghost predicate Compact<K(!new)>(r: Registry<K>)
  {
    Indexed(r) && NoEmptyLists(r)
  }

  /** The state of a new instance, and of `removeAllListeners()`. */
  function Empty<K(==, !new)>(): (r: Registry<K>)
    ensures Compact(r)
    ensures forall k :: k !in r.events
  {
    Registry(map[], [])
  }

  /** The list stored under `name`, `[]` when the key is absent. */
  function ListOf<K(==, !new)>(r: Registry<K>, name: K): (l: seq<Entry>)
    ensures name in r.events ==> l == r.events[name]
    ensures name !in r.events ==> l == []
  {
    if name in r.events then r.events[name] else []
  }

  /** `names` after `delete this._events[x]`: the other keys, in their order. */
  function Without<K(==, !new)>(s: seq<K>, x: K): (t: seq<K>)
    ensures forall y :: y in t <==> y in s && y != x
    ensures x !in s ==> t == s
  {
    if s == [] then []
    else
      var init := s[..|s| - 1];
      var last := s[|s| - 1];
      assert s == init + [last];
      Without(init, x) + (if last == x then [] else [last])
  }

  lemma {:induction false} WithoutDistinct<K(!new)>(s: seq<K>, x: K)
    requires Distinct(s)
    ensures Distinct(Without(s, x))
  {
    if s != [] {
      var init := s[..|s| - 1];
      var last := s[|s| - 1];
      assert s == init + [last];
      assert Distinct(init) by {
        forall i, j | 0 <= i < j < |init| ensures init[i] != init[j] {
          assert init[i] == s[i] && init[j] == s[j];
        }
      }
      assert last !in init;
      WithoutDistinct(init, x);
    }
  }

  /** Deleting a key keeps the others in their order: it distributes over
      concatenation. */
  lemma {:induction false} WithoutConcat<K(!new)>(a: seq<K>, b: seq<K>, x: K)
    ensures Without(a + b, x) == Without(a, x) + Without(b, x)
  {
    if b != [] {
      var init := b[..|b| - 1];
      WithoutConcat(a, init, x);
      assert (a + b)[..|a + b| - 1] == a + init;
    } else {
      assert a + b == a;
    }
  }

  /** Deleting the key just created restores the order of the others. */
  lemma WithoutLast<K(!new)>(s: seq<K>, x: K)
    requires x !in s
    ensures Without(s + [x], x) == s
  {
    assert (s + [x])[..|s|] == s;
  }

  /** `_init_event_if`: create an empty list under a new key, last in key order. */
  function Init<K(==, !new)>(r: Registry<K>, name: K): (r': Registry<K>)
    ensures name in r'.events && ListOf(r', name) == ListOf(r, name)
    ensures forall k :: k != name ==> ListOf(r', k) == ListOf(r, k)
    ensures r'.events.Keys == r.events.Keys + {name}
    ensures r'.names == if name in r.events then r.names else r.names + [name]
  {
    if name in r.events then r else Registry(r.events[name := []], r.names + [name])
  }

  lemma InitIndexed<K(!new)>(r: Registry<K>, name: K)
    requires Indexed(r)
    ensures Indexed(Init(r, name))
  {
  }

  /** `on` (Back) and `prependListener` (Front) store `Plain(f)`; `once` and
      `prependOnceListener` store `Once(f)` the same way. */
  function Insert<K(==, !new)>(r: Registry<K>, name: K, e: Entry, at: Position): (r': Registry<K>)
    ensures ListOf(r', name) == if at == Back then ListOf(r, name) + [e] else [e] + ListOf(r, name)
    ensures forall k :: k != name ==> ListOf(r', k) == ListOf(r, k)
    ensures r'.events.Keys == r.events.Keys + {name}
    ensures r'.names == if name in r.events then r.names else r.names + [name]
  {
    var s := Init(r, name);
    var l := s.events[name];
    Registry(s.events[name := if at == Back then l + [e] else [e] + l], s.names)
  }

  /** Registration keeps the invariant of every revision. */
  lemma InsertKeeps<K(!new)>(r: Registry<K>, name: K, e: Entry, at: Position)
    ensures Indexed(r) ==> Indexed(Insert(r, name, e, at))
    ensures Compact(r) ==> Compact(Insert(r, name, e, at))
  {
    if Indexed(r) {
      InitIndexed(r, name);
      var s := Init(r, name);
      var r' := Insert(r, name, e, at);
      assert r'.names == s.names && r'.events.Keys == s.events.Keys;
      assert r'.events[name] != [];
    }
  }

  /** `delete this._events[name]`, which is also `removeAllListeners(name)`. */
  function Delete<K(==, !new)>(r: Registry<K>, name: K): (r': Registry<K>)
    ensures name !in r'.events
    ensures forall k :: k != name ==> ListOf(r', k) == ListOf(r, k)
    ensures r'.events.Keys == r.events.Keys - {name}
    ensures r'.names == Without(r.names, name)
  {
    Registry(r.events - {name}, Without(r.names, name))
  }

  lemma DeleteKeeps<K(!new)>(r: Registry<K>, name: K)
    ensures Indexed(r) ==> Indexed(Delete(r, name))
    ensures Compact(r) ==> Compact(Delete(r, name))
    ensures Indexed(r) && name !in r.events ==> Delete(r, name) == r
  {
    if Indexed(r) {
      WithoutDistinct(r.names, name);
      if name !in r.events {
        assert r.events - {name} == r.events;
      }
    }
  }

  /** `removeAllListeners(name)`: forget one key, or every key when no name is given. */
  function RemoveAll<K(==, !new)>(r: Registry<K>, name: Option<K>): (r': Registry<K>)
    ensures name.None? ==> r'.events == map[] && r'.names == []
    ensures name.Some? ==> r'.events.Keys == r.events.Keys - {name.value}
    ensures name.Some? ==> forall k :: k != name.value ==> ListOf(r', k) == ListOf(r, k)
  {
    match name
    case None => Empty()
    case Some(n) => Delete(r, n)
  }

  lemma RemoveAllKeeps<K(!new)>(r: Registry<K>, name: Option<K>)
    ensures Indexed(r) ==> Indexed(RemoveAll(r, name))
    ensures Compact(r) ==> Compact(RemoveAll(r, name))
  {
    if name.Some? { DeleteKeeps(r, name.value); }
  }

  /** The reference revision's `emit` on a compact registry (listeners that do
      not touch it): the once-entries are consumed, the key goes when nothing
      is left.  Off `Compact` it is not that `emit`: a key holding `[]` is
      deleted here, whereas the source's loop never runs and keeps it. */
  function Fire<K(==, !new)>(r: Registry<K>, name: K): (r': Registry<K>)
    ensures ListOf(r', name) == Plains(ListOf(r, name))
    ensures forall k :: k != name ==> ListOf(r', k) == ListOf(r, k)
    ensures name !in r.events ==> r' == r
    ensures name in r.events ==>
              (name !in r'.events <==> forall i :: 0 <= i < |ListOf(r, name)| ==> ListOf(r, name)[i].Once?)
  {
    if name !in r.events then r
    else
      var p := Plains(r.events[name]);
      PlainsEmpty(r.events[name]);
      if p == [] then Delete(r, name) else Registry(r.events[name := p], r.names)
  }

  lemma FireKeeps<K(!new)>(r: Registry<K>, name: K)
    ensures Indexed(r) ==> Indexed(Fire(r, name))
    ensures Compact(r) ==> Compact(Fire(r, name))
  {
    DeleteKeeps(r, name);
  }

  /** The older revisions' `emit`, on any indexed registry: an empty list
      stored under a key is left alone (`emit` returns false before the loop);
      otherwise the once-entries are consumed and the key is deleted after the
      loop when nothing is left. */
  function FireLegacy<K(==, !new)>(r: Registry<K>, name: K): (r': Registry<K>)
    ensures ListOf(r', name) == Plains(ListOf(r, name))
    ensures forall k :: k != name ==> ListOf(r', k) == ListOf(r, k)
    ensures ListOf(r, name) == [] ==> r' == r
  {
    if ListOf(r, name) == [] then r else Fire(r, name)
  }

  lemma FireLegacyKeeps<K(!new)>(r: Registry<K>, name: K)
    ensures Indexed(r) ==> Indexed(FireLegacy(r, name))
  {
    FireKeeps(r, name);
  }

  /** The reference revision's `removeListener`: drop the first entry of `f`;
      delete the key if that empties the list. */
  function Unregister<K(==, !new)>(r: Registry<K>, name: K, f: ListenerId): (r': Registry<K>)
    ensures ListOf(r', name) == RemoveFirst(ListOf(r, name), f)
    ensures forall k :: k != name ==> ListOf(r', k) == ListOf(r, k)
    ensures name in r.events && Registered(r.events[name], f) ==>
              (name !in r'.events <==> ListOf(r', name) == [])
  {
    if name !in r.events then r
    else
      var l := r.events[name];
      var l' := RemoveFirst(l, f);
      if Registered(l, f) && l' == [] then Delete(r, name)
      else Registry(r.events[name := l'], r.names)
  }

  lemma UnregisterKeeps<K(!new)>(r: Registry<K>, name: K, f: ListenerId)
    ensures Indexed(r) ==> Indexed(Unregister(r, name, f))
    ensures Compact(r) ==> Compact(Unregister(r, name, f))
  {
    DeleteKeeps(r, name);
  }

  /** `removeListener` of a function with no entry under `name` (or of an
      absent name) changes nothing. */
  lemma UnregisterAbsent<K(!new)>(r: Registry<K>, name: K, f: ListenerId)
    requires !Registered(ListOf(r, name), f)
    ensures Unregister(r, name, f) == r
  {
  }

  /** The list and key `removeListener`'s search loop leaves when it finds the
      first entry of `f` at `idx`. */
  lemma UnregisterAt<K(!new)>(r: Registry<K>, name: K, f: ListenerId, idx: nat)
    requires name in r.events && idx < |r.events[name]|
    requires Callable(r.events[name][idx]) == f
    requires forall j :: 0 <= j < idx ==> Callable(r.events[name][j]) != f
    ensures var l := r.events[name];
            var l' := l[..idx] + l[idx + 1..];
            Unregister(r, name, f)
              == if l' == [] then Registry(r.events[name := l'] - {name}, Without(r.names, name))
                 else Registry(r.events[name := l'], r.names)
  {
    var l := r.events[name];
    RemoveFirstAt(l, f, idx);
    UnwrappedAt(l, idx);
    assert r.events[name := []] - {name} == r.events - {name};
  }

  /** Where `emit`'s loop stops with plain entries left, they replace the
      list, and the registry is compact again. */
  lemma FireKept<K(!new)>(r: Registry<K>, name: K)
    requires Compact(r) && name in r.events && Plains(r.events[name]) != []
    ensures Fire(r, name) == Registry(r.events[name := Plains(r.events[name])], r.names)
    ensures Compact(Fire(r, name))
  {
    FireKeeps(r, name);
  }

  /** Where `emit`'s loop stops with nothing left, the key is gone. */
  lemma FireDropped<K(!new)>(r: Registry<K>, name: K)
    requires Compact(r) && name in r.events && Plains(r.events[name]) == []
    ensures Fire(r, name) == Registry(r.events - {name}, Without(r.names, name))
    ensures Compact(Fire(r, name))
  {
    FireKeeps(r, name);
  }

  /** The older revisions' `removeListener`: drop the first entry of `f`; the
      key stays, even with an empty list. */
  function UnregisterLegacy<K(==, !new)>(r: Registry<K>, name: K, f: ListenerId): (r': Registry<K>)
    ensures ListOf(r', name) == RemoveFirst(ListOf(r, name), f)
    ensures forall k :: k != name ==> ListOf(r', k) == ListOf(r, k)
    ensures r'.events.Keys == r.events.Keys && r'.names == r.names
  {
    if name !in r.events then r
    else Registry(r.events[name := RemoveFirst(r.events[name], f)], r.names)
  }

  lemma UnregisterLegacyKeeps<K(!new)>(r: Registry<K>, name: K, f: ListenerId)
    ensures Indexed(r) ==> Indexed(UnregisterLegacy(r, name, f))
  {
  }

  /** The list the older `removeListener`'s search loop leaves when it finds
      the first entry of `f` at `idx`: the key stays, whatever is left. */
  lemma UnregisterLegacyAt<K(!new)>(r: Registry<K>, name: K, f: ListenerId, idx: nat)
    requires name in r.events && idx < |r.events[name]|
    requires Callable(r.events[name][idx]) == f
    requires forall j :: 0 <= j < idx ==> Callable(r.events[name][j]) != f
    ensures var l := r.events[name];
            UnregisterLegacy(r, name, f) == Registry(r.events[name := l[..idx] + l[idx + 1..]], r.names)
  {
    RemoveFirstAt(r.events[name], f, idx);
  }

  /** The older `removeListener` of a function with no entry changes nothing. */
  lemma UnregisterLegacyAbsent<K(!new)>(r: Registry<K>, name: K, f: ListenerId)
    requires !Registered(ListOf(r, name), f)
    ensures UnregisterLegacy(r, name, f) == r
  {
  }

  /** Where the older `emit`'s loop ends with plain entries left, they replace the list. */
  lemma FireLegacyKept<K(!new)>(r: Registry<K>, name: K)
    requires Indexed(r) && name in r.events && r.events[name] != [] && Plains(r.events[name]) != []
    ensures FireLegacy(r, name) == Registry(r.events[name := Plains(r.events[name])], r.names)
    ensures Indexed(FireLegacy(r, name))
  {
    FireLegacyKeeps(r, name);
  }

  /** Where it ends with nothing left, the key is deleted after the loop. */
  lemma FireLegacyDropped<K(!new)>(r: Registry<K>, name: K)
    requires Indexed(r) && name in r.events && r.events[name] != [] && Plains(r.events[name]) == []
    ensures FireLegacy(r, name) == Registry(r.events - {name}, Without(r.names, name))
    ensures Indexed(FireLegacy(r, name))
  {
    FireLegacyKeeps(r, name);
  }

  /** A second firing changes nothing more: only plain entries were left. */
  lemma FireIdempotent<K(!new)>(r: Registry<K>, name: K)
    ensures Fire(Fire(r, name), name) == Fire(r, name)
  {
    if name in r.events {
      var p := Plains(r.events[name]);
      if p == [] {
        assert Fire(r, name) == Delete(r, name);
      } else {
        PlainsIdempotent(r.events[name]);
        var r1 := Registry(r.events[name := p], r.names);
        assert Fire(r, name) == r1;
        assert name in r1.events && r1.events[name] == p;
        assert Fire(r1, name) == Registry(r1.events[name := p], r1.names);
      }
    }
  }

  /** `once(name, f)` on a name without listeners, then `emit(name)`: the
      registry is as before, so `name` is not among the event names and a
      second `emit` finds nothing. */
  lemma OnceThenFire<K(!new)>(r: Registry<K>, name: K, f: ListenerId, at: Position)
    requires Indexed(r) && name !in r.events
    ensures Fire(Insert(r, name, Once(f), at), name) == r
  {
    InsertNew(r, name, Once(f), at);
    var s := Insert(r, name, Once(f), at);
    assert Plains([Once(f)]) == [];
    assert Fire(s, name) == Delete(s, name);
    NewKeyRemoved(r, s, name);
  }

  /** Registering under a new name creates a one-entry list, last in key order. */
  lemma InsertNew<K(!new)>(r: Registry<K>, name: K, e: Entry, at: Position)
    requires name !in r.events
    ensures Insert(r, name, e, at) == Registry(r.events[name := [e]], r.names + [name])
  {
    assert [] + [e] == [e] == [e] + [];
  }

  /** `prependListener` or `prependOnceListener`, then `removeListener` of the
      same function: the entry just put first is the one removed, and the
      registry is restored, insertion order of its keys included. */
  lemma PrependThenUnregister<K(!new)>(r: Registry<K>, name: K, e: Entry)
    requires Compact(r)
    ensures Unregister(Insert(r, name, e, Front), name, Callable(e)) == r
  {
    var s := Insert(r, name, e, Front);
    var l := s.events[name];
    assert l == [e] + ListOf(r, name);
    UnwrappedAt(l, 0);
    RemoveFirstAt(l, Callable(e), 0);
    assert RemoveFirst(l, Callable(e)) == ListOf(r, name);
    if name !in r.events {
      NewKeyRemoved(r, s, name);
    } else {
      ExistingKeyRestored(r, s, name);
    }
  }

  lemma NewKeyRemoved<K(!new)>(r: Registry<K>, s: Registry<K>, name: K)
    requires Indexed(r) && name !in r.events && name in s.events
    requires s.events == r.events[name := s.events[name]] && s.names == r.names + [name]
    ensures Delete(s, name) == r
  {
    WithoutLast(r.names, name);
    assert s.events - {name} == r.events;
  }

  lemma ExistingKeyRestored<K(!new)>(r: Registry<K>, s: Registry<K>, name: K)
    requires name in r.events && name in s.events && s.names == r.names
    requires s.events == r.events[name := s.events[name]]
    ensures Registry(s.events[name := r.events[name]], s.names) == r
  {
  }

  /** In the older revisions the same round trip leaves the key behind with an
      empty list, so it stays among the event names. */
  lemma PrependThenUnregisterLegacy<K(!new)>(r: Registry<K>, name: K, e: Entry)
    requires name !in r.events
    ensures var r' := UnregisterLegacy(Insert(r, name, e, Front), name, Callable(e));
            name in r'.events && r'.events[name] == [] && r'.names == r.names + [name]
  {
    var l := Insert(r, name, e, Front).events[name];
    assert l == [e];
    RemoveFirstAt(l, Callable(e), 0);
  }

  /** On a registry the reference revision can be in, the older `emit` has the
      same effect. */
  lemma FireLegacyAgrees<K(!new)>(r: Registry<K>, name: K)
    requires Compact(r)
    ensures FireLegacy(r, name) == Fire(r, name)
  {
  }

  /** The listeners reported after a registration: the new function last
      (`on`, `once`) or first (`prependListener`, `prependOnceListener`). */
  lemma InsertListeners<K(!new)>(r: Registry<K>, name: K, e: Entry, at: Position)
    ensures Unwrapped(ListOf(Insert(r, name, e, at), name))
         == if at == Back then Unwrapped(ListOf(r, name)) + [Callable(e)]
            else [Callable(e)] + Unwrapped(ListOf(r, name))
  {
    if at == Front {
      UnwrappedConcat([e], ListOf(r, name));
      assert Unwrapped([e]) == [Callable(e)];
    }
  }
}
