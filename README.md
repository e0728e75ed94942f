# typescript-storage, modelled in Dafny

This project models the core of the `typescript-storage` packages. They give
typed access to three stores:

- **WebStorage** wraps one Web Storage API instance (`localStorage` or
  `sessionStorage`). `setItem` writes the JSON text of a `{ value }`
  envelope. `getItem` reads it back through `parseRawValue`. Per-key listeners
  are wrapped in inner `storage` listeners on the window. An inner listener
  forwards an event only when the event is for its key and for this storage
  area.
- **CookieStorage** wraps a universal-cookie jar with the same typed API. Its
  per-key listeners are wrapped in inner change listeners of the jar. `clear`
  removes the listed cookies one by one.
- **Environment.getItem** reads a process environment variable. With a
  default, it converts the text to number, boolean or string, in that order,
  as the candidate types allow.

The modules are:

| module | file | what it holds |
|---|---|---|
| `Wrappers` | `wrappers.dfy` | `Option` and `Result` |
| `TypedStorage` | `typed_storage.dfy` | JSON values, `StoreValue`, the `{ value }` envelope |
| `JsonCodec` | `json_codec.dfy` | `JSON.stringify` / `JSON.parse` over tokens, and the round trip between them |
| `HostStore` | `host_store.dfy` | the host key/value store in insertion order: get, set, remove, key list |
| `Registry` | `registry.dfy` | the `_listeners` map and the host's list of inner listeners, with the invariant that ties them together |
| `WebStorage` | `web_storage.dfy` | `parseRawValue`, the inner `storage` listener, and the `WebStorage` class |
| `CookieStorage` | `cookie_storage.dfy` | `parseRawValue`, the inner change listener, `clear`'s loop, and the `CookieStorage` class |
| `Environment` | `environment.dfy` | `getItem` and its conversion rules |

Both adapters are classes whose methods update their fields in place. The
store, the `_listeners` registry and the host's listener list are all fields.
A listener's identity is a `ListenerId`. The identity of each fresh inner
closure is a counter, `nextId`.

The registry invariant `Registry.Valid` says three things:

- every registered pair is filed under its own key with its own inner listener;
- no key's map is empty;
- the host list holds exactly the registered inner listeners, each once.

Each adapter's `Valid` adds `Registry.Ascending`: the host list is in the
order the inner listeners were added, so after any adds and removes the host
still runs listeners in registration order.

Every listener operation keeps these invariants. Under it, a window `storage`
event calls a user listener exactly once when three things hold: the listener
is registered under the event's key, the event is for this storage area, and
both values decode. Otherwise the listener is not called; a value that fails
to decode makes the inner listener throw instead. A cookie change calls a user
listener exactly once when the listener is registered under the changed name
and the value decodes, and never otherwise.

## Model

| member | source | states |
|---|---|---|
| TypedStorage.FieldValue | packages/typescript-web-storage/src/TypedStorage.ts:45-47 | a property read finds a value iff some member has that name, and the value found belongs to a member of that name |
| TypedStorage.Envelope | packages/typescript-web-storage/src/WebStorage.ts:25 | the `{ value }` envelope is an object whose `value` property is the stored value; wrapping a well-formed value stays well-formed |
| JsonCodec.Put | packages/typescript-web-storage/src/WebStorage.ts:140 | a member with a new name is appended to the object being parsed |
| JsonCodec.Stringify | packages/typescript-web-storage/src/WebStorage.ts:25 | the JSON text of a value is never empty and never starts with a closing bracket or brace |
| JsonCodec.Parse | packages/typescript-web-storage/src/WebStorage.ts:140 | whenever `JSON.parse` succeeds, the value it yields is well-formed |
| JsonCodec.PutLookup | packages/typescript-web-storage/src/WebStorage.ts:140 | when an object repeats a name, `JSON.parse` keeps the last value for it; other names read as before |
| JsonCodec.PutDistinct | packages/typescript-web-storage/src/WebStorage.ts:140 | putting members keeps an object's names distinct |
| JsonCodec.ParseValueWellFormed | packages/typescript-web-storage/src/WebStorage.ts:140 | every value `JSON.parse` yields is well-formed: every nested object has distinct names |
| JsonCodec.ParseStringify | packages/typescript-web-storage/src/WebStorage.ts:25 | reading a value from the front of its stringified text, followed by any text, yields that value and leaves the following text untouched |
| JsonCodec.RoundTrip | packages/typescript-web-storage/src/WebStorage.ts:20-27 | `JSON.parse(JSON.stringify(v))` equals `v` for every well-formed value, nested arrays, objects and nulls included |
| HostStore.Get | packages/typescript-web-storage/src/WebStorage.ts:20-22 | a key reads a value iff it is present, and the value read is the one stored with it |
| HostStore.Set | packages/typescript-web-storage/src/TypedStorage.ts:19-25 | after set, the keys are the old keys plus this one; the pair count grows by one exactly when the key is new |
| HostStore.Remove | packages/typescript-web-storage/src/TypedStorage.ts:27-32 | after remove, the keys are the old keys minus this one |
| HostStore.KeyList | packages/typescript-cookie-storage/src/CookieStorage.ts:23-25 | the listed names are the store's keys, position by position |
| HostStore.SetAbsent | packages/typescript-web-storage/src/WebStorage.ts:39-41 | a new key is appended at the end, so `key(index)` lists keys in insertion order |
| HostStore.KeyAt | packages/typescript-web-storage/src/WebStorage.ts:39-41 | the key at every position is a key of the store |
| HostStore.GetSet | packages/typescript-web-storage/src/TypedStorage.ts:19-25 | after set, the key reads the new value and every other key reads what it read before |
| HostStore.GetRemove | packages/typescript-web-storage/src/TypedStorage.ts:27-32 | after remove, the key reads nothing and every other key reads what it read before |
| HostStore.SetDistinct | packages/typescript-web-storage/src/TypedStorage.ts:19-25 | set never creates a second pair for a key |
| HostStore.RemoveDistinct | packages/typescript-web-storage/src/TypedStorage.ts:27-32 | remove keeps the keys distinct |
| HostStore.LengthIsKeyCount | packages/typescript-web-storage/src/TypedStorage.ts:9-10 | `length` is the number of distinct keys present |
| HostStore.RemoveLength | packages/typescript-web-storage/src/TypedStorage.ts:27-32 | remove drops exactly one pair when the key exists and none otherwise |
| Registry.Add | packages/typescript-web-storage/src/WebStorage.ts:68-77 | after `addListener`, the pair is registered; the registered pairs are exactly the old ones plus this one |
| Registry.AddSteps | packages/typescript-web-storage/src/WebStorage.ts:68-77 | the two in-place steps compute `Add`: give the key an empty map if it has none, then file the listener if it is missing |
| Registry.AddValid | packages/typescript-web-storage/src/WebStorage.ts:55-80 | `addListener` keeps the registry invariant, whether or not the pair was already registered |
| Registry.AddHost | packages/typescript-web-storage/src/WebStorage.ts:74-77 | `addEventListener` (and `addChangeListener` in the cookie adapter) appends the new inner listener at the end of the host list exactly when the pair was not registered, and otherwise leaves the list as it was |
| Registry.AddHostAscending | packages/typescript-web-storage/src/WebStorage.ts:74-77 | under the invariant, the host list stays in the order the inner listeners were added after `addListener` |
| Registry.AddTwice | packages/typescript-cookie-storage/test/CookieStorage.test.ts:276-287 | adding the same listener for the same key again changes neither the registry nor the host list |
| Registry.RemovePair | packages/typescript-web-storage/src/WebStorage.ts:109-128 | after `removeListener(key, listener)`, the registered pairs are exactly the old ones minus this one |
| Registry.RemovePairSteps | packages/typescript-web-storage/src/WebStorage.ts:116-128 | deleting the pair and then dropping a key whose map is left empty computes `RemovePair` |
| Registry.RemovePairAbsent | packages/typescript-web-storage/src/WebStorage.ts:109-128 | removing a pair that is not registered leaves the registry unchanged |
| Registry.RemovePairValid | packages/typescript-web-storage/src/WebStorage.ts:109-128 | `removeListener(key, listener)` keeps the registry invariant |
| Registry.RemoveKeyValid | packages/typescript-web-storage/src/WebStorage.ts:119-128 | `removeListener(key)` keeps the registry invariant once the key and all its inner listeners are gone |
| Registry.Unsubscribe | packages/typescript-web-storage/src/WebStorage.ts:113 | `removeEventListener` removes one occurrence of the inner listener and keeps the rest |
| Registry.UnsubscribeAscending | packages/typescript-web-storage/src/WebStorage.ts:113 | `removeEventListener` keeps the remaining inner listeners in the order they were added |
| Registry.Without | packages/typescript-web-storage/src/WebStorage.ts:120-123 | the host list without a set of inner listeners holds exactly the others |
| Registry.WithoutAscending | packages/typescript-web-storage/src/WebStorage.ts:120-123 | removing all of a key's inner listeners keeps the others in the order they were added |
| Registry.UnsubscribeWithout | packages/typescript-web-storage/src/WebStorage.ts:120-123 | with distinct entries, unsubscribing one more inner listener is the same as filtering it out too |
| Registry.CountOwned | packages/typescript-web-storage/src/WebStorage.ts:74-77 | under the invariant, a registered pair has exactly one host entry and an unregistered pair has none |
| Registry.DeletePair | packages/typescript-web-storage/src/WebStorage.ts:109-128 | the single-listener path returns whether the pair was registered, computes `RemovePair`, and unsubscribes that pair's inner listener exactly when it existed |
| Registry.DeleteKey | packages/typescript-web-storage/src/WebStorage.ts:119-128 | the all-listeners path returns whether the key had any listener, drops the key, and unsubscribes all its inner listeners |
| Registry.Drain | packages/typescript-web-storage/src/WebStorage.ts:120-123 | the `forEach` loop empties the map, unsubscribes every inner listener in it, and reports whether any deletion succeeded |
| WebStorage.PropertyValue | packages/typescript-web-storage/src/WebStorage.ts:140 | reading `.value` throws a `TypeError` exactly on null; an object with a `value` property reads that property; every other value reads as undefined |
| WebStorage.ParseRawValue | packages/typescript-web-storage/src/WebStorage.ts:139-141 | a missing or empty raw string reads as null; any other text throws `JSON.parse`'s error when the parse fails, and otherwise reads the parsed value's `value` property, which throws exactly when the parse yields null |
| WebStorage.EnvelopeText | packages/typescript-web-storage/src/WebStorage.ts:25 | the text `setItem` stores parses back to the envelope `{ value }` for every well-formed value |
| WebStorage.ParseRawValueEnvelope | packages/typescript-web-storage/src/WebStorage.ts:20-27 | reading back the text `setItem` wrote yields the value that was written |
| WebStorage.Fire | packages/typescript-web-storage/src/WebStorage.ts:57-66 | an inner listener reacts iff the event is for its key and its storage area. When it reacts, it calls its own user listener iff both values decode, passing the key, the event's own `isTrusted` property and both decoded values; otherwise it throws the first decoding error |
| WebStorage.Dispatch | packages/typescript-web-storage/src/WebStorage.ts:57-66 | a window event yields at most one outcome per inner listener, and none at all when it is a `clear` event (no key) or is for another storage area |
| WebStorage.DispatchAppend | packages/typescript-web-storage/src/WebStorage.ts:76 | the window runs its `storage` listeners in the order they were added: a listener appended last runs after all the others |
| WebStorage.DispatchCalls | packages/typescript-web-storage/src/WebStorage.ts:57-66 | a window event calls a user listener once per host entry for the event's key, when the event is for this area and both values decode; otherwise never |
| WebStorage.CallsPerEvent | packages/typescript-web-storage/src/WebStorage.ts:55-80 | under the invariant, an event calls a user listener exactly once when it is registered under the event's key, the area matches and the values decode; otherwise never |
| WebStorage.WebStorage.constructor | packages/typescript-web-storage/src/WebStorage.ts:11-14 | an adapter starts with the given store and no listeners |
| WebStorage.WebStorage.Length | packages/typescript-web-storage/src/WebStorage.ts:16-18 | `length` is the number of keys present |
| WebStorage.WebStorage.GetItem | packages/typescript-web-storage/src/WebStorage.ts:20-22 | a missing key reads as null |
| WebStorage.WebStorage.EveryKeyListed | packages/typescript-web-storage/src/WebStorage.ts:34-41 | every key of the store is `key(n)` for some `n` below `length`, so the indexes `0 .. length - 1` list all keys |
| HostStore.KeyPosition | packages/typescript-web-storage/src/WebStorage.ts:39-41 | every key of the store sits at some position |
| WebStorage.WebStorage.Key | packages/typescript-web-storage/src/WebStorage.ts:39-41 | `key(index)` names a key iff the index, taken modulo 2^32, is below the pair count; the name is a key of the store |
| WebStorage.WebStorage.SetItem | packages/typescript-web-storage/src/WebStorage.ts:24-27 | the envelope text replaces the key's value or is appended; `length` grows by one exactly for a new key; `getItem(key)` then yields the value; other keys and the listeners are unchanged |
| WebStorage.WebStorage.RemoveItem | packages/typescript-web-storage/src/WebStorage.ts:29-32 | the pair is dropped; `getItem(key)` then yields null; `length` falls by one exactly when the key existed; other keys are unchanged |
| WebStorage.WebStorage.Clear | packages/typescript-web-storage/src/WebStorage.ts:43-46 | the store is empty, `length` is 0 and every key reads null; the listeners are unchanged |
| WebStorage.WebStorage.AddListener | packages/typescript-web-storage/src/WebStorage.ts:55-80 | the registry and the window list become `Add` and `AddHost` with a fresh inner listener; the invariant holds; the listener is returned |
| WebStorage.WebStorage.RemoveListener | packages/typescript-web-storage/src/WebStorage.ts:103-132 | with a listener: returns whether the pair was registered, removes it and unsubscribes its inner listener. Without one: returns whether the key had listeners, drops the key and unsubscribes all its inner listeners. The invariant holds |
| CookieStorage.ParseRawValue | packages/typescript-cookie-storage/src/CookieStorage.ts:144-146 | a raw object with a `value` property reads that property; a non-null result is always that property |
| CookieStorage.ParseRawValueEnvelope | packages/typescript-cookie-storage/src/CookieStorage.ts:27-34 | reading back the envelope `setItem` wrote yields the value that was written |
| CookieStorage.ParseRawValueForeign | packages/typescript-cookie-storage/src/CookieStorage.ts:144-146 | a missing raw value, a non-object, or an object without a `value` property reads as null |
| CookieStorage.Removals | packages/typescript-cookie-storage/src/CookieStorage.ts:42 | `clear` removes each listed key once, in order, without options |
| CookieStorage.Fire | packages/typescript-cookie-storage/src/CookieStorage.ts:54-62 | an inner change listener reacts iff the change is for its key; it calls its own user listener with the key, the options and the value decoded by `WebStorage.parseRawValue`, or throws that decoding's error |
| CookieStorage.Dispatch | packages/typescript-cookie-storage/src/CookieStorage.ts:54-62 | a change yields at most one delivery per inner listener, and none when no inner listener watches the changed name |
| CookieStorage.DispatchAll | packages/typescript-cookie-storage/src/CookieStorage.ts:41-44 | a run of changes delivers nothing when no inner listener watches any of the changed names |
| CookieStorage.DispatchAppend | packages/typescript-cookie-storage/src/CookieStorage.ts:72 | the jar runs its change listeners in the order they were added: a listener appended last runs after all the others |
| CookieStorage.RemovalDeliversNull | packages/typescript-cookie-storage/src/CookieStorage.ts:54-62 | a removal never throws in an inner listener, and every delivery it makes carries null |
| CookieStorage.DispatchDeliveries | packages/typescript-cookie-storage/src/CookieStorage.ts:54-62 | a change calls a user listener once per host entry for the changed key when the value decodes; otherwise never |
| CookieStorage.DeliveriesPerChange | packages/typescript-cookie-storage/src/CookieStorage.ts:52-76 | under the invariant, a change calls a user listener exactly once when it is registered under the changed key and the value decodes; otherwise never |
| CookieStorage.SetChangeDecodes | packages/typescript-cookie-storage/src/CookieStorage.ts:31-34 | the change `setItem` announces always decodes, to the value written |
| CookieStorage.ClearDeliveries | packages/typescript-cookie-storage/src/CookieStorage.ts:41-44 | the removals of `clear` call a user listener once for every cleared key it is registered under, and every delivery they make carries null |
| CookieStorage.ClearJar | packages/typescript-cookie-storage/src/CookieStorage.ts:41-44 | the `forEach` loop empties the jar and returns the deliveries of one removal per listed key, in the order the jar lists them |
| CookieStorage.CookieStorage.constructor | packages/typescript-cookie-storage/src/CookieStorage.ts:19-21 | an adapter starts with the given jar and no listeners |
| CookieStorage.CookieStorage.Length | packages/typescript-cookie-storage/src/CookieStorage.ts:23-25 | `length` is the number of names `getAll` lists, which is the number of cookies |
| CookieStorage.CookieStorage.GetItem | packages/typescript-cookie-storage/src/CookieStorage.ts:27-29 | a missing cookie reads as null |
| CookieStorage.CookieStorage.SetItem | packages/typescript-cookie-storage/src/CookieStorage.ts:31-34 | the envelope replaces the cookie's value or is appended; `length` grows by one exactly for a new key; `getItem(key)` then yields the value; the change listeners are run on the written text |
| CookieStorage.CookieStorage.RemoveItem | packages/typescript-cookie-storage/src/CookieStorage.ts:36-39 | the cookie is dropped; `getItem(key)` then yields null; `length` falls by one exactly when it existed; the change listeners are run with undefined |
| CookieStorage.CookieStorage.Clear | packages/typescript-cookie-storage/src/CookieStorage.ts:41-44 | the jar is empty, `length` is 0, every key reads null, and one removal per cookie listed at the start was announced, in the order the jar lists them |
| CookieStorage.CookieStorage.AddListener | packages/typescript-cookie-storage/src/CookieStorage.ts:52-76 | the registry and the change-listener list become `Add` and `AddHost` with a fresh inner listener; the invariant holds; the listener is returned |
| CookieStorage.CookieStorage.RemoveListener | packages/typescript-cookie-storage/src/CookieStorage.ts:107-137 | as for WebStorage, against the jar's change listeners |
| Environment.Lower | packages/typescript-env/src/Environment.ts:87 | lowercasing keeps the length and folds each letter |
| Environment.Candidates | packages/typescript-env/src/Environment.ts:74-76 | the candidate types are never empty: the caller's types when any are given, and otherwise only the default value's own type |
| Environment.GetItem | packages/typescript-env/src/Environment.ts:61-104 | without a default, the raw text is returned, or the name when the variable is unset; with a default, an unset variable yields the default |
| Environment.ResultType | packages/typescript-env/src/Environment.ts:74-103 | with a default, the result has a candidate type or is the raw text; without `'string'`, a number or boolean candidate always yields a value of a candidate type |
| Environment.NumberFirst | packages/typescript-env/src/Environment.ts:78-84 | a number candidate whose text is not NaN wins over every other candidate |
| Environment.NumberOnly | packages/typescript-env/src/Environment.ts:78-84 | with number and neither boolean nor string among the candidates, `Number(text)` is returned, NaN included |
| Environment.BooleanWords | packages/typescript-env/src/Environment.ts:86-94 | with a boolean candidate and no number candidate whose text parses, `true` or `false` in any letter case gives that boolean |
| Environment.BooleanTruthiness | packages/typescript-env/src/Environment.ts:96-98 | with a boolean candidate, no string candidate and no number candidate whose text parses, any text other than the two words gives the truthiness of `Number(text)` |
| Environment.RawTextFallback | packages/typescript-env/src/Environment.ts:78-103 | the raw text is returned iff no number parses, no boolean word matches, and `'string'` is a candidate or neither number nor boolean is |
| Environment.OrderIrrelevant | packages/typescript-env/src/Environment.ts:78-99 | two non-empty type lists with the same members give the same result |
| Environment.StringDefault | packages/typescript-env/src/Environment.ts:74-103 | a string default without types returns the text unchanged |
| Environment.NullDefault | packages/typescript-env/src/Environment.ts:74-103 | a null default without types returns the text unchanged |
| Environment.NoDefaultExamples | packages/typescript-env/test/Envitonment.test.ts:35-55 | the cases without a default: the name when unset, the text as it is when set |
| Environment.DefaultOnlyExamples | packages/typescript-env/test/Envitonment.test.ts:61-81 | the cases with a default and no types |
| Environment.BooleanDefaultExamples | packages/typescript-env/test/Envitonment.test.ts:83-101 | a boolean default: the words and the truthiness of `0` and `1` |
| Environment.BooleanNumberExamples | packages/typescript-env/test/Envitonment.test.ts:107-125 | `('boolean', 'number')`: words give booleans, digits give numbers |
| Environment.BooleanStringExamples | packages/typescript-env/test/Envitonment.test.ts:127-145 | `('boolean', 'string')`: words give booleans, digits stay text |
| Environment.NumberStringExamples | packages/typescript-env/test/Envitonment.test.ts:147-165 | `('number', 'string')`: words stay text, digits give numbers |
| Environment.AllTypesExamples | packages/typescript-env/test/Envitonment.test.ts:167-189 | all three types: words, then numbers, then the text as it is |

## Left out

- JSON text is modelled as a sequence of tokens. Whitespace, string escapes and the decimal form of numbers are not modelled. The only empty raw string is therefore the empty token sequence, and a raw string of whitespace alone (which `JSON.parse` rejects) has no counterpart.
- `JSON.stringify` of NaN, the infinities, `undefined` members and JavaScript's integer-key ordering of object members are not modelled. Values are the JSON values `StoreValue` admits, with members in the order they were written.
- The Web Storage `Storage` object and the universal-cookie jar are modelled as insertion-ordered pairs. Only the cookie jar runs its change listeners, in order, on `set` and `remove`; a Web Storage write runs no listener in the same window, since browsers fire `storage` events only in other windows. The cookie jar holds decoded values. A `set` is announced with the JSON text of the envelope, and a `remove` with undefined. universal-cookie's own code is not part of this model, and cookie options are opaque.
- The window's `storage` event delivery is a function of one event over the inner listeners, in the order they were added. Cross-tab delivery, asynchrony and who fires the event are not modelled.
- Host failures and limits are not modelled: every write succeeds and reads back. `Storage.setItem` throwing `QuotaExceededError` when the area is full, and a browser silently dropping a cookie over its size limit, are not modelled. The options a removal announces are the ones the caller passed (none for `clear`); universal-cookie's merging of `expires`/`maxAge` into them is not modelled.
- Each adapter holds its store as a field of its own. The host `Storage` object or cookie jar is shared in the program: a second adapter over the same instance, or code that writes the instance directly, changes what `getItem` reads. The model does not capture this aliasing; each adapter sees only its own writes.
- The inner `storage` listener passes on the event's own properties through an object rest. On a dispatched event, `url`, `type` and the other attributes are prototype accessors, so only `isTrusted` is copied. The model's forwarded event carries `isTrusted` and nothing else from the event beyond the key and the two values.
- CookieStorage.ClearJar: removes the cookies in the order the jar lists them. `Object.keys(getAll())` lists integer-like names first, in ascending numeric order, and the model does not capture that order. This changes only the order of the deliveries, not which cookies are removed. The jar's own listing order is universal-cookie's.
- Re-entrancy is not modelled: a user listener that adds or removes listeners, or writes to the store, while it is being called.
- `addEventListener` de-duplication is left out. It never applies here, because every inner listener is a fresh closure.
- WebStorage.WebStorage.Key: takes an integer index. The WebIDL conversion of fractional, negative-zero, NaN or infinite arguments to `unsigned long` is reduced to `index % 2^32`.
- Environment.GetItem: `Number(text)` is the parameter `toNumber`, because JavaScript's numeric-literal grammar is not part of this model. `toLocaleLowerCase` is reduced to ASCII lowercasing, because locale-specific case mapping is not modelled.
- Environment.GetItem: the caller's type list is checked for membership only, in the code's own order (number, then boolean, then string), whatever order the caller gives. `Environment.OrderIrrelevant` states this.
- `LocalStorage` and `SessionStorage` only choose the `Storage` instance. That instance is the constructor parameter of `WebStorage.WebStorage`.
- The test suites are not replayed call by call. The behaviours they pin down follow from the general contracts:
  - lengths after set, remove and clear: the `Length` clauses of `SetItem`, `RemoveItem` and `Clear`;
  - `key(1)`: `SetAbsent`, `Key` and `EveryKeyListed`;
  - repeated `addListener`: `Registry.AddTwice` and `CookieStorage.DeliveriesPerChange`;
  - `removeListener` results: the `RemoveListener` contracts.
  The environment test cases are restated as the `Environment.*Examples` lemmas.
