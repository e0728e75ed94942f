/**
 * `WebStorage` (packages/typescript-web-storage/src/WebStorage.ts): typed access
 * to one Web Storage API instance. Values are written as the JSON text of a
 * `{ value }` envelope and read back through `parseRawValue`; per-key listeners
 * are wrapped in inner listeners that the window calls for every `storage`
 * event and that forward only the events of their key and of this store.
 */
module WebStorage {

  import opened Wrappers
  import opened TypedStorage
  import opened JsonCodec
  import HostStore
  import opened Registry

  /** The identity of a Web Storage API instance (`localStorage`, `sessionStorage`), as `===` compares it. */
  type AreaId = nat

  /** What reading the `value` property yields: `undefined` when the object has no such property. */
  datatype Read = Undefined | Value(j: Json)

  /**
   * A window `storage` event: `key` is null when the whole area was cleared,
   * `storageArea` null for foreign areas. Of the event's own properties,
   * which are all an object rest copies, `isTrusted` is the only one beside
   * these; `url` and the other attributes live on the prototype.
   */
  datatype StorageEvent = StorageEvent(
    key: Option<string>,
    oldValue: Option<Text>,
    newValue: Option<Text>,
    storageArea: Option<AreaId>,
    isTrusted: bool)

  /** The object the inner listener passes on: the key, the rest of the event's own properties, and both values decoded. */
  datatype WebStorageEvent = WebStorageEvent(key: string, isTrusted: bool, oldValue: Read, newValue: Read)

  /** What one inner listener does with an event: call its user listener, or throw while decoding. */
  datatype Outcome = Called(listener: ListenerId, event: WebStorageEvent) | Threw(error: Error)

  /** `v.value`: a `TypeError` on null, the property of an object that has one, `undefined` otherwise. */
  function PropertyValue(v: Json): (r: Result<Read, Error>)
    ensures r.Failure? <==> v.Null?
    ensures r.Success? && r.value.Value? ==> v.Obj? && FieldValue(v.fields, "value") == Some(r.value.j)
    ensures v.Obj? && FieldValue(v.fields, "value").Some? ==> r == Success(Value(FieldValue(v.fields, "value").value))
    ensures !v.Null? && !(v.Obj? && FieldValue(v.fields, "value").Some?) ==> r == Success(Undefined)
  {
    match v
    case Null => Failure(TypeError)
    case Obj(fields) =>
      (match FieldValue(fields, "value") case Some(x) => Success(Value(x)) case None => Success(Undefined))
    case _ => Success(Undefined)
  }

  /**
   * `parseRawValue`: a missing or empty raw string reads as null; anything else
   * is parsed as JSON and its `value` property is read.
   */
  function ParseRawValue(raw: Option<Text>): (r: Result<Read, Error>)
    ensures raw.None? || raw.value == [] ==> r == Success(Value(Null))
    ensures raw.Some? && raw.value != [] ==> (r.Failure? <==> Parse(raw.value).Failure? || Parse(raw.value) == Success(Null))
    ensures raw.Some? && raw.value != [] && Parse(raw.value).Failure? ==> r == Failure(Parse(raw.value).error)
    ensures raw.Some? && raw.value != [] && Parse(raw.value).Success? ==> r == PropertyValue(Parse(raw.value).value)
  {
    if raw.None? || raw.value == [] then Success(Value(Null))
    else
      match Parse(raw.value)
      case Failure(e) => Failure(e)
      case Success(v) => PropertyValue(v)
  }

  /** The text `setItem` writes for `value`. */
  function EnvelopeText(value: Json): (t: Text)
    ensures WellFormed(value) ==> Parse(t) == Success(Envelope(value))
  {
    var t := Stringify(Envelope(value));
    if WellFormed(value) then RoundTrip(Envelope(value)); t else t
  }

  /** Reading back the text `setItem` wrote yields the value that was written. */
  lemma ParseRawValueEnvelope(value: Json)
    requires WellFormed(value)
    ensures ParseRawValue(Some(EnvelopeText(value))) == Success(Value(value))
  {
    RoundTrip(Envelope(value));
  }

  /** The inner listener for `i`, run on one event: forwards only events for its key in this storage area. */
  function Fire(i: Inner, area: AreaId, e: StorageEvent): (r: Option<Outcome>)
    ensures r.Some? <==> e.key == Some(i.key) && e.storageArea == Some(area)
    ensures r.Some? && r.value.Called? ==>
      r.value.listener == i.listener
      && ParseRawValue(e.oldValue) == Success(r.value.event.oldValue)
      && ParseRawValue(e.newValue) == Success(r.value.event.newValue)
      && r.value.event.key == i.key && r.value.event.isTrusted == e.isTrusted
    ensures r.Some? ==> (r.value.Called? <==> ParseRawValue(e.oldValue).Success? && ParseRawValue(e.newValue).Success?)
    ensures r.Some? && r.value.Threw? ==>
      r.value.error == (if ParseRawValue(e.oldValue).Failure? then ParseRawValue(e.oldValue).error else ParseRawValue(e.newValue).error)
  {
    if e.key == Some(i.key) && e.storageArea == Some(area) then
      match ParseRawValue(e.oldValue)
      case Failure(err) => Some(Threw(err))
      case Success(oldValue) =>
        match ParseRawValue(e.newValue)
        case Failure(err) => Some(Threw(err))
        case Success(newValue) => Some(Called(i.listener, WebStorageEvent(i.key, e.isTrusted, oldValue, newValue)))
    else None
  }

  /** The window running its `storage` listeners, in order, on one event. */
  function Dispatch(host: seq<Inner>, area: AreaId, e: StorageEvent): (r: seq<Outcome>)
    ensures |r| <= |host|
    ensures e.key.None? || e.storageArea != Some(area) ==> r == []
  {
    if host == [] then []
    else
      (match Fire(host[0], area, e) case Some(o) => [o] case None => [])
      + Dispatch(host[1..], area, e)
  }

  /** The window calls its listeners in the order they were added: a listener added last runs last. */
  lemma {:induction false} DispatchAppend(host: seq<Inner>, i: Inner, area: AreaId, e: StorageEvent)
    ensures Dispatch(host + [i], area, e) == Dispatch(host, area, e) + (match Fire(i, area, e) case Some(o) => [o] case None => [])
  {
    if host == [] {
      assert host + [i] == [i];
    } else {
      assert (host + [i])[0] == host[0] && (host + [i])[1..] == host[1..] + [i];
      DispatchAppend(host[1..], i, area, e);
    }
  }

  /** Both values of the event decode without throwing. */
  predicate Decodes(e: StorageEvent) {
    ParseRawValue(e.oldValue).Success? && ParseRawValue(e.newValue).Success?
  }

  /** How many times `listener` is called among the outcomes. */
  function CountCalls(outs: seq<Outcome>, listener: ListenerId): nat {
    if outs == [] then 0
    else (if outs[0].Called? && outs[0].listener == listener then 1 else 0) + CountCalls(outs[1..], listener)
  }

  lemma CountCallsAppend(a: seq<Outcome>, b: seq<Outcome>, listener: ListenerId)
    ensures CountCalls(a + b, listener) == CountCalls(a, listener) + CountCalls(b, listener)
  {
    if a == [] {
      assert a + b == b;
    } else {
      assert (a + b)[0] == a[0] && (a + b)[1..] == a[1..] + b;
      CountCallsAppend(a[1..], b, listener);
    }
  }

  /**
   * A user listener is called once for each of its host entries filed under the
   * event's key, provided the event is for this area and decodes; otherwise never.
   */
  lemma {:induction false} DispatchCalls(host: seq<Inner>, area: AreaId, e: StorageEvent, listener: ListenerId)
    ensures CountCalls(Dispatch(host, area, e), listener)
      == if e.key.Some? && e.storageArea == Some(area) && Decodes(e) then CountPair(host, e.key.value, listener) else 0
  {
    if host != [] {
      DispatchCalls(host[1..], area, e, listener);
      var first := match Fire(host[0], area, e) case Some(o) => [o] case None => [];
      CountCallsAppend(first, Dispatch(host[1..], area, e), listener);
    }
  }

  /**
   * With the registry invariant, one event calls a user listener exactly once when
   * it is registered under the event's key, the event is for this area and its
   * values decode, and never otherwise: listeners of other keys do not see it.
   */
  lemma CallsPerEvent(reg: Listeners, host: seq<Inner>, nextId: nat, area: AreaId, e: StorageEvent, listener: ListenerId)
    requires Registry.Valid(reg, host, nextId)
    ensures CountCalls(Dispatch(host, area, e), listener)
      == if e.key.Some? && e.storageArea == Some(area) && Decodes(e) && Registered(reg, e.key.value, listener) then 1 else 0
  {
    DispatchCalls(host, area, e, listener);
    if e.key.Some? {
      CountOwned(reg, host, nextId, e.key.value, listener);
    }
  }

  /** An adapter over one Web Storage API instance. */
  class WebStorage {
    /** The host `Storage` object's pairs, in the order `key(index)` lists them. */
    var store: seq<HostStore.Entry<Text>>
    /** The identity of `store`, compared with each event's `storageArea`. */
    const area: AreaId
    /** `_listeners`. */
    var listeners: Listeners
    /** The window `storage` listeners this adapter has added, in order. */
    var window: seq<Inner>
    /** Allocation counter standing for the identity of each new inner listener closure. */
    var nextId: nat

    /** The store's keys are distinct, the registry invariant holds, and the host runs the inner listeners in registration order. */
    ghost predicate Valid()
      reads this
    {
      HostStore.DistinctKeys(store) && Registry.Valid(listeners, window, nextId) && Ascending(window)
    }

    /** An adapter over the store `store` with identity `area`, with no listeners yet. */
    constructor (area: AreaId, store: seq<HostStore.Entry<Text>>)
      requires HostStore.DistinctKeys(store)
      ensures Valid()
      ensures this.area == area && this.store == store
      ensures listeners == map[] && window == [] && nextId == 0
    {
      this.area := area;
      this.store := store;
      listeners := map[];
      window := [];
      nextId := 0;
    }

    /** `length`: the number of key/value pairs in the store. */
    function Length(): (n: nat)
      reads this
      ensures HostStore.DistinctKeys(store) ==> n == |HostStore.Keys(store)|
    {
      if HostStore.DistinctKeys(store) then HostStore.LengthIsKeyCount(store); |store| else |store|
    }

    /** `getItem`: the decoded value of `key`, null when the key does not exist. */
    function GetItem(key: string): (r: Result<Read, Error>)
      reads this
      ensures key !in HostStore.Keys(store) ==> r == Success(Value(Null))
    {
      ParseRawValue(HostStore.Get(store, key))
    }

    /**
     * `key(index)`: the name of the key at `index`, or null past the end. The
     * index is converted as a WebIDL `unsigned long`, modulo 2^32.
     */
    function Key(index: int): (r: Option<string>)
      reads this
      ensures r.Some? <==> index % 0x1_0000_0000 < |store|
      ensures r.Some? ==> r.value in HostStore.Keys(store)
    {
      var n := index % 0x1_0000_0000;
      if n < |store| then
        HostStore.KeyAt(store, n);
        Some(store[n].key)
      else None
    }

    /**
     * `key(0)`, ..., `key(length - 1)` name every key of the store, as long as
     * there are no more pairs than an `unsigned long` index reaches.
     */
    lemma EveryKeyListed(key: string)
      requires key in HostStore.Keys(store) && |store| <= 0x1_0000_0000
      ensures exists n: nat :: n < Length() && Key(n) == Some(key)
    {
      var n := HostStore.KeyPosition(store, key);
      assert Key(n) == Some(key);
    }

    /** `setItem`: stores the `{ value }` envelope as JSON text; `getItem(key)` then reads `value` back. */
    method SetItem(key: string, value: StoreValue) returns (self: WebStorage)
      requires Valid()
      modifies this
      ensures Valid() && self == this
      ensures store == HostStore.Set(old(store), key, EnvelopeText(value))
      ensures key !in HostStore.Keys(old(store)) ==> store == old(store) + [HostStore.Entry(key, EnvelopeText(value))]
      ensures Length() == if key in HostStore.Keys(old(store)) then old(Length()) else old(Length()) + 1
      ensures GetItem(key) == Success(Value(value))
      ensures forall k | k != key :: GetItem(k) == old(GetItem(k))
      ensures listeners == old(listeners) && window == old(window) && nextId == old(nextId)
    {
      HostStore.SetDistinct(store, key, EnvelopeText(value));
      if key !in HostStore.Keys(store) {
        HostStore.SetAbsent(store, key, EnvelopeText(value));
      }
      forall k ensures HostStore.Get(HostStore.Set(store, key, EnvelopeText(value)), k)
        == if k == key then Some(EnvelopeText(value)) else HostStore.Get(store, k) {
        HostStore.GetSet(store, key, EnvelopeText(value), k);
      }
      ParseRawValueEnvelope(value);
      store := HostStore.Set(store, key, EnvelopeText(value));
      self := this;
    }

    /** `removeItem`: drops the pair of `key` if there is one; `getItem(key)` then reads null. */
    method RemoveItem(key: string) returns (self: WebStorage)
      requires Valid()
      modifies this
      ensures Valid() && self == this
      ensures store == HostStore.Remove(old(store), key)
      ensures GetItem(key) == Success(Value(Null))
      ensures forall k | k != key :: GetItem(k) == old(GetItem(k))
      ensures old(Length()) == if key in HostStore.Keys(old(store)) then Length() + 1 else Length()
      ensures listeners == old(listeners) && window == old(window) && nextId == old(nextId)
    {
      HostStore.RemoveDistinct(store, key);
      HostStore.RemoveLength(store, key);
      forall k ensures HostStore.Get(HostStore.Remove(store, key), k) == if k == key then None else HostStore.Get(store, k) {
        HostStore.GetRemove(store, key, k);
      }
      store := HostStore.Remove(store, key);
      self := this;
    }

    /** `clear`: empties the store; every key then reads null and `length` is 0. */
    method Clear() returns (self: WebStorage)
      requires Valid()
      modifies this
      ensures Valid() && self == this
      ensures store == [] && Length() == 0
      ensures forall k :: GetItem(k) == Success(Value(Null))
      ensures listeners == old(listeners) && window == old(window) && nextId == old(nextId)
    {
      store := [];
      self := this;
    }

    /**
     * `addListener`: creates a fresh inner listener; when `listener` is not yet
     * registered under `key` it is filed and added to the window, otherwise
     * nothing changes. Always returns `listener`.
     */
    method AddListener(key: string, listener: ListenerId) returns (r: ListenerId)
      requires Valid()
      modifies this
      ensures Valid() && r == listener
      ensures listeners == Add(old(listeners), key, listener, Inner(old(nextId), key, listener))
      ensures window == AddHost(old(listeners), old(window), key, listener, Inner(old(nextId), key, listener))
      ensures nextId == old(nextId) + 1 && store == old(store)
    {
      AddValid(listeners, window, nextId, key, listener);
      AddHostAscending(listeners, window, nextId, key, listener);
      AddSteps(listeners, key, listener, Inner(nextId, key, listener));
      var inner := Inner(nextId, key, listener);
      nextId := nextId + 1;
      if key !in listeners {
        listeners := listeners[key := map[]];
      }
      var forKey: map<ListenerId, Inner> := listeners[key];
      if listener !in forKey {
        listeners := listeners[key := forKey[listener := inner]];
        window := window + [inner];
      }
      r := listener;
    }

    /**
     * `removeListener(key, listener)` and `removeListener(key)`. With a listener,
     * its inner listener leaves the window and the pair leaves the registry; the
     * result says whether it was registered. Without one, every inner listener
     * of `key` leaves the window one at a time; the result says whether there
     * was any. A key left without listeners is dropped.
     */
    method RemoveListener(key: string, listener: Option<ListenerId>) returns (result: bool)
      requires Valid()
      modifies this
      ensures Valid()
      ensures listener.Some? ==>
        result == Registered(old(listeners), key, listener.value)
        && listeners == RemovePair(old(listeners), key, listener.value)
        && window == if result then Unsubscribe(old(window), old(listeners)[key][listener.value]) else old(window)
      ensures listener.None? ==>
        result == (key in old(listeners))
        && listeners == old(listeners) - {key}
        && window == if result then Without(old(window), old(listeners)[key].Values) else old(window)
      ensures nextId == old(nextId) && store == old(store)
    {
      result := false;
      if key in listeners {
        if listener.Some? {
          RemovePairValid(listeners, window, nextId, key, listener.value);
          if Registered(listeners, key, listener.value) {
            UnsubscribeAscending(window, listeners[key][listener.value]);
          }
          listeners, window, result := DeletePair(listeners, window, key, listener.value);
        } else {
          RemoveKeyValid(listeners, window, nextId, key);
          WithoutAscending(window, listeners[key].Values);
          assert FiledAt(listeners[key], key, nextId);
          listeners, window, result := DeleteKey(listeners, window, key);
        }
      }
    }
  }
}
