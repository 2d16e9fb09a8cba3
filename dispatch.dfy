/** The dispatch strategy `_invoke_listener` and what a firing hands to it.

    Each time the emitter passes a listener to its strategy the model appends
    one `Handoff` to the emitter's trace: a `Call` when the listener runs at
    once (`sync`), a `Timer` when it is passed to `setTimeout(…, delay)`
    (`not_sync`).  When the host scheduler runs a timer is outside the model.
 */
module Dispatch {
  import opened Listeners

  /** `sync()` installs `Sync`; `not_sync(timeout)` installs `Deferred(timeout || 0)`. */
  datatype Mode = Sync | Deferred(timeout: nat)

  /** The delay `not_sync` passes to `setTimeout`: `timeout || 0`. */
  function DelayOf(timeout: Option<nat>): (d: nat)
    ensures timeout.None? ==> d == 0
    ensures timeout.Some? ==> d == timeout.value
  {
    match timeout
    case None => 0
    case Some(t) => t
  }

  /** `listener.apply(this, args)` now, or
      `setTimeout(() => listener.apply(this, args), delay)`. */
  datatype Handoff<V> = Call(listener: ListenerId, args: seq<V>)
                      | Timer(listener: ListenerId, args: seq<V>, delay: nat)

  /** What the strategy `mode` does with one listener. */
  function HandOff<V>(mode: Mode, f: ListenerId, args: seq<V>): (h: Handoff<V>)
    ensures h.listener == f && h.args == args
    ensures h.Call? <==> mode.Sync?
    ensures h.Timer? ==> h.delay == mode.timeout
  {
    match mode
    case Sync => Call(f, args)
    case Deferred(t) => Timer(f, args, t)
  }

  /** What the strategy does with the listeners `fs`, one after the other. */
  function Handoffs<V>(mode: Mode, fs: seq<ListenerId>, args: seq<V>): (hs: seq<Handoff<V>>)
    ensures |hs| == |fs|
  {
    if fs == [] then [] else Handoffs(mode, fs[..|fs| - 1], args) + [HandOff(mode, fs[|fs| - 1], args)]
  }

  /** The hand-offs of the first `k` listeners of `fs`, one after the other. */
  ghost function Sent<V>(mode: Mode, fs: seq<ListenerId>, k: nat, args: seq<V>): seq<Handoff<V>>
    requires k <= |fs|
  {
    if k == 0 then [] else Sent(mode, fs, k - 1, args) + [HandOff(mode, fs[k - 1], args)]
  }

  /** Handing over the first `k` of `fs` one at a time is handing over `fs[..k]`. */
  lemma {:induction false} SentPrefix<V>(mode: Mode, fs: seq<ListenerId>, k: nat, args: seq<V>)
    requires k <= |fs|
    ensures Sent(mode, fs, k, args) == Handoffs(mode, fs[..k], args)
  {
    if k > 0 {
      SentPrefix(mode, fs, k - 1, args);
      assert fs[..k][..k - 1] == fs[..k - 1];
    }
  }

  /** Handing over all of `fs` one at a time is handing over `fs`. */
  lemma SentAll<V>(mode: Mode, fs: seq<ListenerId>, k: nat, args: seq<V>)
    requires k == |fs|
    ensures Sent(mode, fs, k, args) == Handoffs(mode, fs, args)
  {
    SentPrefix(mode, fs, k, args);
    assert fs[..k] == fs;
  }

  /** Whatever the strategy, the `i`-th listener is handed over `i`-th, with the
      firing's arguments, and every hand-off of one firing is of the same kind:
      all calls under `Sync`, all timers with the same delay under `Deferred`. */
  lemma {:induction false} HandoffsAt<V>(mode: Mode, fs: seq<ListenerId>, args: seq<V>, i: nat)
    requires i < |fs|
    ensures Handoffs(mode, fs, args)[i] == HandOff(mode, fs[i], args)
  {
    var init := fs[..|fs| - 1];
    if i < |init| {
      HandoffsAt(mode, init, args, i);
    }
  }
}
