/** Listener entries and the per-event listener lists of the Jiken event emitter.

    A listener is a JavaScript function; the model identifies it by an opaque id
    (function identity is reference equality in the source).  An entry of a list
    is either the function itself or the `{once: true, inner: f}` wrapper that
    `once` and `prependOnceListener` store.
 */
module Listeners {

  type ListenerId = nat

  datatype Option<T> = None | Some(value: T)

  /** An argument passed where the source expects a listener: a function, or any
      other JavaScript value (for which `typeof listener !== "function"`). */
  datatype Arg = Fn(id: ListenerId) | NotFn

  /** A stored entry: a plain listener, or a once-wrapper around its inner listener. */
  datatype Entry = Plain(id: ListenerId) | Once(inner: ListenerId)

  /** How a call returns: normally, or by throwing the source's one error. */
  datatype Completion = Normal | TypeError(message: string)

  const InvalidListenerMessage: string := "listener must be a function!"

  /** `_throw_on_invalid_listener`: throws a TypeError exactly for non-functions. */
  function CheckListener(listener: Arg): (c: Completion)
    ensures c.Normal? <==> listener.Fn?
    ensures c.TypeError? ==> c.message == InvalidListenerMessage
  {
    if listener.Fn? then Normal else TypeError(InvalidListenerMessage)
  }

  /** The function an entry stands for: the listener itself, or a wrapper's inner one. */
  function Callable(e: Entry): (f: ListenerId)
    ensures e.Plain? ==> f == e.id
    ensures e.Once? ==> f == e.inner
  {
    match e
    case Plain(f) => f
    case Once(f) => f
  }

  /** The functions of a list, in order, once-wrappers unwrapped. */
  function Unwrapped(s: seq<Entry>): (fs: seq<ListenerId>)
    ensures |fs| == |s|
  {
    if s == [] then [] else Unwrapped(s[..|s| - 1]) + [Callable(s[|s| - 1])]
  }

  /** The `i`-th function is that of the `i`-th entry. */
  lemma {:induction false} UnwrappedAt(s: seq<Entry>, i: int)
    requires 0 <= i < |s|
    ensures Unwrapped(s)[i] == Callable(s[i])
  {
    if i < |s| - 1 {
      UnwrappedAt(s[..|s| - 1], i);
    }
  }

  lemma UnwrappedAll(s: seq<Entry>)
    ensures forall i :: 0 <= i < |s| ==> Unwrapped(s)[i] == Callable(s[i])
  {
    forall i | 0 <= i < |s| {
      UnwrappedAt(s, i);
    }
  }

  /** Unwrapping keeps order: it distributes over concatenation. */
  lemma {:induction false} UnwrappedConcat(a: seq<Entry>, b: seq<Entry>)
    ensures Unwrapped(a + b) == Unwrapped(a) + Unwrapped(b)
  {
    if b == [] {
      assert a + b == a;
    } else {
      UnwrappedConcat(a, b[..|b| - 1]);
      assert (a + b)[..|a + b| - 1] == a + b[..|b| - 1];
    }
  }

  /** The plain entries of a list, in their relative order: what is left of a
      list once every once-entry has fired. */
  function Plains(s: seq<Entry>): (r: seq<Entry>)
    ensures |r| <= |s|
    ensures forall i :: 0 <= i < |r| ==> r[i].Plain?
  {
    if s == [] then []
    else
      var last := s[|s| - 1];
      var init := s[..|s| - 1];
      assert forall i :: 0 <= i < |init| ==> init[i] == s[i];
      Plains(init) + (if last.Plain? then [last] else [])
  }

  /** Nothing is left exactly when every entry is a once-entry. */
  lemma {:induction false} PlainsEmpty(s: seq<Entry>)
    ensures Plains(s) == [] <==> forall i :: 0 <= i < |s| ==> s[i].Once?
  {
    if s != [] {
      var init := s[..|s| - 1];
      PlainsEmpty(init);
      assert forall i :: 0 <= i < |init| ==> init[i] == s[i];
    }
  }

  lemma PlainsPrefix(s: seq<Entry>, k: nat)
    requires k < |s|
    ensures Plains(s[..k + 1]) == Plains(s[..k]) + (if s[k].Plain? then [s[k]] else [])
  {
    assert s[..k + 1][..k] == s[..k];
  }

  /** The state of `emit`'s loop after `k` entries of the list `orig` have been
      handed over: the live list is their plain part followed by the rest, and
      the cursor `idx` points at the next unprocessed entry. */
  ghost predicate Consumed(orig: seq<Entry>, k: nat, event: seq<Entry>, idx: int)
  {
    k <= |orig| && event == Plains(orig[..k]) + orig[k..] && idx == |Plains(orig[..k])|
  }

  lemma ConsumeStart(orig: seq<Entry>)
    ensures Consumed(orig, 0, orig, 0)
  {
    assert orig[..0] == [];
  }

  /** A once-entry under the cursor is the next entry of `orig`; it is spliced
      out and the cursor stays where it is (`idx -= 1; idx += 1`). */
  lemma ConsumeOnce(orig: seq<Entry>, k: nat, event: seq<Entry>, idx: int)
    requires Consumed(orig, k, event, idx) && 0 <= idx < |event| && event[idx].Once?
    ensures k < |orig| && orig[k] == event[idx]
    ensures Consumed(orig, k + 1, event[..idx] + event[idx + 1..], idx)
  {
    PlainsPrefix(orig, k);
    assert orig[k..] == [orig[k]] + orig[k + 1..];
    assert event[..idx] == Plains(orig[..k]);
    assert event[idx + 1..] == orig[k + 1..];
  }

  /** A plain entry under the cursor is the next entry of `orig`; it stays and
      the cursor moves past it. */
  lemma ConsumePlain(orig: seq<Entry>, k: nat, event: seq<Entry>, idx: int)
    requires Consumed(orig, k, event, idx) && 0 <= idx < |event| && event[idx].Plain?
    ensures k < |orig| && orig[k] == event[idx]
    ensures Consumed(orig, k + 1, event, idx + 1)
  {
    PlainsPrefix(orig, k);
    assert orig[k..] == [orig[k]] + orig[k + 1..];
  }

  /** When the loop stops, by running off the end or because the list became
      empty, every entry has been handed over and the plain ones are left. */
  lemma ConsumeEnd(orig: seq<Entry>, k: nat, event: seq<Entry>, idx: int)
    requires Consumed(orig, k, event, idx) && |event| <= idx
    ensures k == |orig| && orig[..k] == orig && event == Plains(orig)
  {
  }

  /** Firing twice consumes nothing more: the plain part of a plain list is itself. */
  lemma {:induction false} PlainsIdempotent(s: seq<Entry>)
    ensures Plains(Plains(s)) == Plains(s)
  {
    if s != [] {
      var init := s[..|s| - 1];
      var last := s[|s| - 1];
      PlainsIdempotent(init);
      PlainsConcat(Plains(init), if last.Plain? then [last] else []);
    }
  }

  /** Filtering distributes over concatenation, which is to say it keeps order. */
  lemma {:induction false} PlainsConcat(a: seq<Entry>, b: seq<Entry>)
    ensures Plains(a + b) == Plains(a) + Plains(b)
  {
    if b == [] {
      assert a + b == a;
    } else {
      var init := b[..|b| - 1];
      PlainsConcat(a, init);
      assert (a + b)[..|a + b| - 1] == a + init;
    }
  }

  /** Exactly the plain entries survive, each as often as it was registered. */
  lemma {:induction false} PlainsCounts(s: seq<Entry>, e: Entry)
    ensures multiset(Plains(s))[e] == if e.Plain? then multiset(s)[e] else 0
  {
    if s != [] {
      var init := s[..|s| - 1];
      var last := s[|s| - 1];
      PlainsCounts(init, e);
      assert s == init + [last];
    }
  }

  /** Whether `f` is the function of some entry: a plain `f`, or once-wrapped `f`. */
  predicate Registered(s: seq<Entry>, f: ListenerId)
    ensures Registered(s, f) <==> exists i :: 0 <= i < |s| && Callable(s[i]) == f
  {
    UnwrappedAll(s);
    f in Unwrapped(s)
  }

  /** `removeListener`'s effect on one list: drop the first entry that is `f`
      itself or a once-wrapper of `f`, and nothing else. */
  function RemoveFirst(s: seq<Entry>, f: ListenerId): (r: seq<Entry>)
    ensures |r| == if Registered(s, f) then |s| - 1 else |s|
    ensures !Registered(s, f) ==> r == s
  {
    if s == [] then []
    else if Callable(s[0]) == f then
      UnwrappedAt(s, 0);
      assert s == [s[0]] + s[1..];
      s[1..]
    else
      assert s == [s[0]] + s[1..];
      UnwrappedConcat([s[0]], s[1..]);
      assert Unwrapped([s[0]]) == [Callable(s[0])];
      [s[0]] + RemoveFirst(s[1..], f)
  }

  /** The entry removed is the first match, found where the search loop stops. */
  lemma {:induction false} RemoveFirstAt(s: seq<Entry>, f: ListenerId, i: nat)
    requires i < |s| && Callable(s[i]) == f
    requires forall j :: 0 <= j < i ==> Callable(s[j]) != f
    ensures RemoveFirst(s, f) == s[..i] + s[i + 1..]
  {
    if i == 0 {
      assert RemoveFirst(s, f) == s[1..];
      assert s[..0] + s[1..] == s[1..];
    } else {
      var tail := s[1..];
      assert Callable(s[0]) != f;
      assert RemoveFirst(s, f) == [s[0]] + RemoveFirst(tail, f);
      assert forall j :: 0 <= j < i - 1 ==> tail[j] == s[j + 1];
      RemoveFirstAt(tail, f, i - 1);
      assert tail[..i - 1] == s[1..i];
      assert tail[i..] == s[i + 1..];
      assert s[..i] == [s[0]] + s[1..i];
    }
  }

  /** Where the search for `f` stops: the first entry that is `f` or wraps it. */
  function FirstMatch(s: seq<Entry>, f: ListenerId): (i: nat)
    requires Registered(s, f)
    ensures i < |s| && Callable(s[i]) == f
    ensures forall j :: 0 <= j < i ==> Callable(s[j]) != f
  {
    if Callable(s[0]) == f then 0
    else
      assert s == [s[0]] + s[1..];
      UnwrappedConcat([s[0]], s[1..]);
      assert Unwrapped([s[0]]) == [Callable(s[0])];
      var i := FirstMatch(s[1..], f);
      assert forall j :: 1 <= j <= i ==> s[j] == s[1..][j - 1];
      i + 1
  }

  /** When `f` is registered, exactly its first entry goes and the rest keep
      their order. */
  lemma RemoveFirstFound(s: seq<Entry>, f: ListenerId)
    requires Registered(s, f)
    ensures RemoveFirst(s, f) == s[..FirstMatch(s, f)] + s[FirstMatch(s, f) + 1..]
  {
    RemoveFirstAt(s, f, FirstMatch(s, f));
  }

  /** With no entry of `f` the search loop runs off the end and changes nothing. */
  lemma RemoveFirstAbsent(s: seq<Entry>, f: ListenerId)
    requires forall j :: 0 <= j < |s| ==> Callable(s[j]) != f
    ensures RemoveFirst(s, f) == s
  {
  }
}
