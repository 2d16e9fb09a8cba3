# Jiken event emitter, modelled in Dafny

Jiken is a browser EventEmitter in the style of Node's. An instance keeps a
registry `_events` that maps each event name to an ordered list of entries.
An entry is a listener function, or the wrapper `{once: true, inner: f}` that
`once` and `prependOnceListener` store. The instance registers listeners with
`on`, `prependListener`, `once` and `prependOnceListener`. It removes them
with `removeListener` and `removeAllListeners`, answers `eventNames`,
`listenerCount` and `listeners`, and fires an event with `emit` (or `trigger`,
which returns the emitter). The dist builds also choose how listeners run:
`sync()` calls them at once, and `not_sync(timeout)` passes each one to
`setTimeout`.

Three revisions of the class are modelled, one Dafny class each.

- `JikenCjs` (`dist/jiken.cjs.js`) is the reference revision. `listeners`
  unwraps once-wrappers. `emit` deletes a key inside its loop as soon as the
  list becomes empty. `removeListener` deletes a key it empties. Every key
  present therefore holds a non-empty list (`EventMap.Compact`).
- `JikenSrc` (`src/jiken.js`) is the older source. It has no dispatch
  strategy and no `trigger`. `listeners` returns the stored entries. `emit`
  returns false for an empty list and deletes the key after its loop.
  `removeListener` never deletes a key. Keys with empty lists can exist, so
  the invariant kept is only `EventMap.Indexed`.
- `JikenUmd` (`dist/jiken.js`) sits between the two. It has the strategy and
  `trigger`, but keeps the older `emit`, `listeners` and `removeListener`. It
  also has the compiled loop that copies `emit`'s rest arguments.

Shared modules:

- `Listeners` models entries, the TypeError check and the list operations.
  The list operations are unwrapping, the plain part left after a firing, and
  removal of the first match. Its lemmas describe each step of `emit`'s
  splice-and-step-back loop.
- `Dispatch` models the strategy and the trace of hand-offs: calls, or
  timers with their delay.
- `EventMap` models the registry as a value: the map plus `names`, the
  order of `Object.keys`. Each operation's effect on the registry is a
  function. Lemmas state the invariants each operation keeps, and how
  operations combine.

Each class method is proved to change the registry exactly as the matching
`EventMap` function says, and to keep its revision's invariant. Each `emit`
is also proved to hand every entry to the strategy once, in list order, with
the call's arguments. The functions' own contracts and the lemmas state what
those functions mean. Listener identity is an opaque `ListenerId` (a
function's reference). A non-function argument is `Arg.NotFn`. A thrown
`TypeError` is the result `Completion.TypeError`, returned before anything
changes.

## Model

| member | source | states |
|---|---|---|
| Listeners.CheckListener | dist/jiken.cjs.js:88-90 | a TypeError with the message "listener must be a function!" exactly for a non-function argument |
| Listeners.Callable | dist/jiken.cjs.js:181 | the function of a plain entry is itself; that of a once-wrapper is its inner function |
| Listeners.Unwrapped | dist/jiken.cjs.js:181 | one function per entry (the i-th function is stated by `UnwrappedAt`) |
| Listeners.UnwrappedAt | dist/jiken.cjs.js:181 | the i-th function reported is the i-th entry with any once-wrapper replaced by its inner function |
| Listeners.UnwrappedConcat | dist/jiken.cjs.js:181 | unwrapping keeps order: it distributes over concatenation |
| Listeners.Plains | dist/jiken.cjs.js:117-131 | the list left after a firing has no longer length and holds only plain entries |
| Listeners.PlainsEmpty | dist/jiken.cjs.js:125-128 | nothing is left after a firing exactly when every entry was a once-entry |
| Listeners.PlainsIdempotent | dist/jiken.cjs.js:117-131 | a second firing removes nothing more |
| Listeners.PlainsConcat | dist/jiken.cjs.js:117-131 | the plain entries keep their relative order |
| Listeners.PlainsCounts | dist/jiken.cjs.js:117-131 | each plain entry survives as many times as it was registered; no once-entry survives |
| Listeners.ConsumeStart | dist/jiken.cjs.js:117 | the loop starts at index 0 with nothing consumed |
| Listeners.ConsumeOnce | dist/jiken.cjs.js:119-124 | a once-entry under the cursor is the next original entry; splicing it and stepping back leaves the cursor on its successor |
| Listeners.ConsumePlain | dist/jiken.cjs.js:130 | a plain entry under the cursor is the next original entry; it stays and the cursor moves past it |
| Listeners.ConsumeEnd | dist/jiken.cjs.js:117-128 | when the loop stops, by running off the end or because the list became empty, every entry was handed over and exactly the plain ones are left |
| Listeners.Registered | dist/jiken.cjs.js:299 | a function is registered exactly when some entry is that function or wraps it |
| Listeners.RemoveFirst | dist/jiken.cjs.js:297-303 | removal shortens the list by one exactly when the function has an entry, and changes nothing otherwise |
| Listeners.RemoveFirstAt | dist/jiken.cjs.js:297-300 | where the search loop stops at the first entry that is the function or wraps it, exactly that entry is removed and the rest keep their order |
| Listeners.FirstMatch | dist/jiken.cjs.js:297-299 | the index found is an entry of the function, and no earlier entry is |
| Listeners.RemoveFirstFound | dist/jiken.cjs.js:297-303 | for a registered function, exactly its first entry goes |
| Listeners.RemoveFirstAbsent | dist/jiken.cjs.js:297-307 | a search that runs off the end changes nothing |
| Dispatch.DelayOf | dist/jiken.cjs.js:78 | the delay is the given timeout, or 0 when none is given |
| Dispatch.HandOff | dist/jiken.cjs.js:62-80 | under `sync` a listener is called with the arguments; under `not_sync` it goes to a timer with the stored delay |
| Dispatch.Handoffs | dist/jiken.cjs.js:117-131 | one hand-off per listener |
| Dispatch.HandoffsAt | dist/jiken.cjs.js:117-131 | the i-th listener is handed over i-th, under the same strategy and with the same arguments |
| Dispatch.SentPrefix | dist/jiken.cjs.js:117-131 | handing over the first k listeners one at a time is handing over the first k |
| Dispatch.SentAll | dist/jiken.cjs.js:117-131 | when every listener has been handed over, the trace is that of the whole list |
| EventMap.ListOf | dist/jiken.cjs.js:180-185 | the list stored under a present name, `[]` for an absent one |
| EventMap.Empty | dist/jiken.cjs.js:41 | the empty registry has no keys and satisfies the invariant |
| EventMap.Without | dist/jiken.cjs.js:126 | after `delete`, exactly the other keys are listed, and deleting an absent key changes nothing |
| EventMap.WithoutConcat | dist/jiken.cjs.js:126 | deleting a key keeps the other keys in their order: deletion distributes over concatenation of the key list |
| EventMap.WithoutDistinct | dist/jiken.cjs.js:126 | the key list still names each key once |
| EventMap.WithoutLast | dist/jiken.cjs.js:126 | deleting the key created last restores the earlier key order |
| EventMap.Init | dist/jiken.cjs.js:98-102 | a new name gets an empty list and goes last in key order; an existing name and every other name are untouched |
| EventMap.InitIndexed | dist/jiken.cjs.js:98-102 | list creation keeps the key list in step with the map |
| EventMap.Insert | dist/jiken.cjs.js:199-267 | the entry is appended (`push`) or put first (`unshift`) under the name, which is created if new; no other list changes; no duplicate check |
| EventMap.InsertKeeps | dist/jiken.cjs.js:199-267 | registration keeps both invariants |
| EventMap.InsertNew | dist/jiken.cjs.js:98-102 | registering under a new name creates a one-entry list, last in key order |
| EventMap.InsertListeners | dist/jiken.cjs.js:199-267 | after registration the name's listeners end with the new function (`on`, `once`) or begin with it (`prependListener`, `prependOnceListener`) |
| EventMap.Delete | dist/jiken.cjs.js:277 | the key goes, every other list is unchanged, and the key list becomes `Without` of the old one, so the other keys keep their order |
| EventMap.DeleteKeeps | dist/jiken.cjs.js:277 | deletion keeps both invariants; deleting an absent key is a no-op |
| EventMap.RemoveAll | dist/jiken.cjs.js:276-280 | with no name the registry is emptied; with a name only that key goes |
| EventMap.RemoveAllKeeps | dist/jiken.cjs.js:276-280 | both variants keep both invariants |
| EventMap.Fire | dist/jiken.cjs.js:111-134 | the name keeps exactly its plain entries; other names are untouched; an absent name changes nothing; the key goes exactly when every entry was a once-entry |
| EventMap.FireKeeps | dist/jiken.cjs.js:111-134 | firing keeps both invariants |
| EventMap.FireKept | dist/jiken.cjs.js:117-131 | when plain entries are left they replace the list and the registry stays compact |
| EventMap.FireDropped | dist/jiken.cjs.js:125-128 | when nothing is left the key is deleted and the registry stays compact |
| EventMap.FireIdempotent | dist/jiken.cjs.js:111-134 | firing twice has the effect of firing once |
| EventMap.OnceThenFire | test/jiken.js:358-366 | `once` on a name without listeners followed by `emit` restores the registry, key order included |
| EventMap.Unregister | dist/jiken.cjs.js:292-308 | the first entry of the function goes from that name only; the key goes exactly when the removal empties the list |
| EventMap.UnregisterKeeps | dist/jiken.cjs.js:292-308 | removal keeps both invariants |
| EventMap.UnregisterAt | dist/jiken.cjs.js:297-302 | where the search stops, the list is spliced and the key deleted when that left it empty |
| EventMap.UnregisterAbsent | dist/jiken.cjs.js:295-307 | removing a function with no entry changes nothing |
| EventMap.PrependThenUnregister | dist/jiken.cjs.js:292-308 | `prependListener` (or `prependOnceListener`) followed by `removeListener` of the same function restores the registry, key order included |
| EventMap.NewKeyRemoved | dist/jiken.cjs.js:301 | deleting the name created last restores the registry |
| EventMap.ExistingKeyRestored | dist/jiken.cjs.js:300 | putting back a name's old list restores the registry |
| EventMap.FireLegacy | src/jiken.js:45-64 | the older `emit`: like `Fire`, but an empty list under a key is left alone |
| EventMap.FireLegacyKeeps | src/jiken.js:45-64 | the older `emit` keeps the key list in step with the map |
| EventMap.FireLegacyKept | src/jiken.js:50-61 | when plain entries are left they replace the list |
| EventMap.FireLegacyDropped | src/jiken.js:61 | when nothing is left the key is deleted after the loop |
| EventMap.FireLegacyAgrees | src/jiken.js:45-64 | on a compact registry the older and the reference `emit` have the same effect |
| EventMap.UnregisterLegacy | src/jiken.js:201-216 | the older `removeListener`: the first entry of the function goes, and no key is ever deleted |
| EventMap.UnregisterLegacyKeeps | src/jiken.js:201-216 | the older removal keeps the key list in step with the map |
| EventMap.UnregisterLegacyAt | src/jiken.js:206-210 | where the search stops, the list is spliced and the key stays |
| EventMap.UnregisterLegacyAbsent | src/jiken.js:204-215 | removing a function with no entry changes nothing |
| EventMap.PrependThenUnregisterLegacy | src/jiken.js:201-216 | in the older revision, prepending to a new name and then removing the same function leaves the name behind with an empty list |
| JikenCjs.Jiken.constructor | dist/jiken.cjs.js:40-56 | a new instance is empty and synchronous |
| JikenCjs.Jiken.Sync | dist/jiken.cjs.js:62-65 | listeners are called at once from now on |
| JikenCjs.Jiken.NotSync | dist/jiken.cjs.js:77-80 | listeners go to `setTimeout` with delay `timeout` or 0 from now on |
| JikenCjs.Jiken.InvokeListener | dist/jiken.cjs.js:62-80 | exactly one hand-off under the current strategy is recorded |
| JikenCjs.Jiken.InitEventIf | dist/jiken.cjs.js:98-102 | the registry becomes `Init` of the old one |
| JikenCjs.Jiken.Emit | dist/jiken.cjs.js:111-134 | true exactly for a present name; the registry becomes `Fire` of the old one and stays compact; every entry is handed to the strategy once, in order, as the reported listeners with the call's arguments |
| JikenCjs.Jiken.FireList | dist/jiken.cjs.js:117-131 | the loop over a list hands every entry's function to the strategy once, in order, with the arguments, and leaves exactly the plain entries |
| JikenCjs.Jiken.FireEntry | dist/jiken.cjs.js:118-130 | one loop pass hands over the next original entry and keeps the loop state `Consumed` |
| JikenCjs.Jiken.WriteBack | dist/jiken.cjs.js:121-128 | the list left after the loop is kept under the name, or the key is deleted when it is empty; the registry becomes `Fire` of the old one |
| JikenCjs.Jiken.Trigger | dist/jiken.cjs.js:145-148 | the same effect as `emit` |
| JikenCjs.Jiken.EventNames | dist/jiken.cjs.js:155-157 | each name once, exactly the names that have listeners |
| JikenCjs.Jiken.ListenerCount | dist/jiken.cjs.js:166-168 | the length of `listeners(name)`; 0 exactly for an absent name |
| JikenCjs.Jiken.Listeners | dist/jiken.cjs.js:177-186 | the entries in order with once-wrappers unwrapped; `[]` for an absent name |
| JikenCjs.Jiken.On | dist/jiken.cjs.js:199-207 | a TypeError and no change for a non-function; otherwise `Insert` at the back of a plain entry |
| JikenCjs.Jiken.PrependListener | dist/jiken.cjs.js:217-225 | a TypeError and no change for a non-function; otherwise `Insert` at the front of a plain entry |
| JikenCjs.Jiken.Once | dist/jiken.cjs.js:235-246 | a TypeError and no change for a non-function; otherwise `Insert` at the back of a once-entry |
| JikenCjs.Jiken.PrependOnceListener | dist/jiken.cjs.js:256-267 | a TypeError and no change for a non-function; otherwise `Insert` at the front of a once-entry |
| JikenCjs.Jiken.RemoveAllListeners | dist/jiken.cjs.js:276-280 | the registry becomes `RemoveAll` of the old one and stays compact |
| JikenCjs.Jiken.RemoveListener | dist/jiken.cjs.js:292-308 | a TypeError and no change for a non-function; otherwise the registry becomes `Unregister` of the old one and stays compact |
| JikenSrc.Jiken.constructor | src/jiken.js:10-14 | a new instance is empty |
| JikenSrc.Jiken.Apply | src/jiken.js:58 | exactly one call of the listener with the arguments is recorded |
| JikenSrc.Jiken.InitEventIf | src/jiken.js:32-36 | the registry becomes `Init` of the old one |
| JikenSrc.Jiken.Emit | src/jiken.js:45-64 | true exactly for a present name with a non-empty list; the registry becomes `FireLegacy` of the old one; every entry's function is called once, in order, with the arguments |
| JikenSrc.Jiken.FireList | src/jiken.js:50-59 | the loop over a list calls every entry's function once, in order, with the arguments, and leaves exactly the plain entries |
| JikenSrc.Jiken.ApplyEntry | src/jiken.js:51-58 | one loop pass calls the next original entry's function and keeps the loop state `Consumed` |
| JikenSrc.Jiken.WriteBack | src/jiken.js:61 | the list left is kept, or the key is deleted when it is empty |
| JikenSrc.Jiken.EventNames | src/jiken.js:71-73 | each present name once, including names whose list is empty |
| JikenSrc.Jiken.ListenerCount | src/jiken.js:82-84 | the number of stored entries; 0 for an absent name |
| JikenSrc.Jiken.Listeners | src/jiken.js:93-95 | the stored entries themselves, once-wrappers included; `[]` for an absent name |
| JikenSrc.Jiken.On | src/jiken.js:108-116 | a TypeError and no change for a non-function; otherwise `Insert` at the back of a plain entry |
| JikenSrc.Jiken.PrependListener | src/jiken.js:126-134 | a TypeError and no change for a non-function; otherwise `Insert` at the front of a plain entry |
| JikenSrc.Jiken.Once | src/jiken.js:144-155 | a TypeError and no change for a non-function; otherwise `Insert` at the back of a once-entry |
| JikenSrc.Jiken.PrependOnceListener | src/jiken.js:165-176 | a TypeError and no change for a non-function; otherwise `Insert` at the front of a once-entry |
| JikenSrc.Jiken.RemoveAllListeners | src/jiken.js:185-189 | the registry becomes `RemoveAll` of the old one |
| JikenSrc.Jiken.RemoveListener | src/jiken.js:201-216 | a TypeError and no change for a non-function; otherwise the registry becomes `UnregisterLegacy` of the old one |
| JikenUmd.Jiken.constructor | dist/jiken.js:61-68 | a new instance is empty and synchronous |
| JikenUmd.Jiken.Sync | dist/jiken.js:78-85 | listeners are called at once from now on |
| JikenUmd.Jiken.NotSync | dist/jiken.js:100-109 | listeners go to `setTimeout` with delay `timeout` or 0 from now on |
| JikenUmd.Jiken.InvokeListener | dist/jiken.js:78-109 | exactly one hand-off under the current strategy is recorded |
| JikenUmd.Jiken.InitEventIf | dist/jiken.js:133-137 | the registry becomes `Init` of the old one |
| JikenUmd.Jiken.Emit | dist/jiken.js:149-172 | true exactly for a present name with a non-empty list; the registry becomes `FireLegacy` of the old one; every entry's function is handed to the strategy once, in order, with the arguments |
| JikenUmd.Jiken.FireList | dist/jiken.js:158-167 | the loop over a list hands every entry's function to the strategy once, in order, with the arguments, and leaves exactly the plain entries |
| JikenUmd.Jiken.FireEntry | dist/jiken.js:159-166 | one loop pass hands over the next original entry's function and keeps the loop state `Consumed` |
| JikenUmd.Jiken.WriteBack | dist/jiken.js:169 | the list left is kept, or the key is deleted when it is empty |
| JikenUmd.Jiken.Trigger | dist/jiken.js:186-193 | the same effect as `emit` |
| JikenUmd.Jiken.EventNames | dist/jiken.js:203-205 | each present name once, including names whose list is empty |
| JikenUmd.Jiken.ListenerCount | dist/jiken.js:217-219 | the number of stored entries; 0 for an absent name |
| JikenUmd.Jiken.Listeners | dist/jiken.js:231-233 | the stored entries themselves, once-wrappers included; `[]` for an absent name |
| JikenUmd.Jiken.On | dist/jiken.js:249-257 | a TypeError and no change for a non-function; otherwise `Insert` at the back of a plain entry |
| JikenUmd.Jiken.PrependListener | dist/jiken.js:270-278 | a TypeError and no change for a non-function; otherwise `Insert` at the front of a plain entry |
| JikenUmd.Jiken.Once | dist/jiken.js:291-302 | a TypeError and no change for a non-function; otherwise `Insert` at the back of a once-entry |
| JikenUmd.Jiken.PrependOnceListener | dist/jiken.js:315-326 | a TypeError and no change for a non-function; otherwise `Insert` at the front of a once-entry |
| JikenUmd.Jiken.RemoveAllListeners | dist/jiken.js:338-342 | the registry becomes `RemoveAll` of the old one |
| JikenUmd.Jiken.RemoveListener | dist/jiken.js:357-372 | a TypeError and no change for a non-function; otherwise the registry becomes `UnregisterLegacy` of the old one |
| JikenUmd.RestArguments | dist/jiken.js:154-156 | the collected arguments are those after the name, in order; none when only the name is passed (`trigger`'s copy at lines 187-189 is the same loop) |

## Left out

- Listener bodies. Listeners are inert: they do not touch the emitter. With a
  listener that registers or removes entries during `emit`, the live-index
  behaviour of the loop is not modelled.
- Exceptions thrown by listeners, and the `this` binding of `apply`.
- When the host runs a `setTimeout` callback, and in what order. A deferred
  hand-off is recorded as a `Timer` with its delay.
- `not_sync`'s `timeout || 0` on values other than a non-negative integer or
  no value at all (negative numbers, `NaN`, strings). `DelayOf` takes an
  optional natural number.
- JavaScript key coercion, and the `Object.keys` order for integer-like keys,
  which come first. Keys are a generic type, and `names` keeps creation order.
- JikenCjs.Jiken.EventNames, JikenSrc.Jiken.EventNames and
  JikenUmd.Jiken.EventNames: the key type `K` stands for the registry
  object's own string keys that are not names found on `Object.prototype`.
  Symbol-named events are stored and fired by the source, but `Object.keys`
  never lists them. The model lists every key present, so for symbols its
  `eventNames` reports more than the source.
- Names inherited from `Object.prototype`, because `_events` is a plain `{}`.
  On a fresh emitter the source's `listenerCount("constructor")` is
  `Object.length`, which is 1, and `on("toString", f)` throws, because
  `_init_event_if` finds a defined value that has no `push`. The model
  treats such names like any other: 0 listeners, and a normal insertion.
- The `addListener` alias, which is the same function as `on`.
- The returned `this` used for chaining. Methods that return `this` return
  nothing here, or only their `Completion`.
- A function that itself carries a truthy `once` property, which the source
  would take for a wrapper.
- JikenCjs.Jiken.Emit: the spliced list is a local sequence written back once
  after the loop (`WriteBack`). In the source, `events[name]` is the same
  array that `splice` changes, and the key is deleted inside the loop. With
  inert listeners the final state is the same. `FireList` (the loop),
  `FireEntry` (one pass of it) and `WriteBack` (the write-back) are split
  out of `emit`.
- JikenSrc.Jiken.Emit and JikenUmd.Jiken.Emit: the same local copy and
  write-back. `FireList`, `ApplyEntry`/`FireEntry` and `WriteBack` are parts
  of `emit`.
- JikenSrc.Jiken.Listeners and JikenUmd.Jiken.Listeners: these return the
  stored entries as a value. The source returns the live array itself, so a
  caller could mutate the registry through it, and that aliasing is not
  modelled.
- JikenUmd.Jiken.Emit and JikenUmd.Jiken.Trigger take the arguments already
  collected. The copy loop is `JikenUmd.RestArguments`, and the JavaScript
  `arguments` object is a sequence there.
- The `createClass` helper and the UMD and CommonJS wrappers, which are
  module plumbing.

The repository's test file imports `src/jiken.js`. It expects unwrapped
`listeners`, `trigger`, `not_sync`, and key deletion by `removeListener`.
`dist/jiken.js` also has `trigger` and `not_sync`, but only
`dist/jiken.cjs.js` has all four. Each revision is modelled as
its own code is written.
