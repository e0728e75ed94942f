/**
 * `CookieStorage` (packages/typescript-cookie-storage/src/CookieStorage.ts):
 * typed access to a cookie jar through universal-cookie. Values are written as
 * a `{ value }` envelope and read back through `parseRawValue`; per-key listeners
 * are wrapped in inner change listeners that the jar calls, in order, on every
 * set and remove, and that forward only the changes of their key.
 *
 * The jar is held as the values universal-cookie's `get` returns (the object a
 * cookie's JSON text parses to), in the order `getAll` lists them.
 */
module CookieStorage {

  import opened Wrappers
  import opened TypedStorage
  import opened JsonCodec
  import HostStore
  import opened Registry
  import WebStorage

  /** `CookieSetOptions`: the cookie attributes passed through to the jar, undefined when omitted. */
  type Options = map<string, string>

  /** The change universal-cookie emits: the written text on `set`, undefined on `remove`. */
  datatype CookieChange = CookieChange(name: string, value: Option<Text>, options: Option<Options>)

  /** `CookieStorageEvent`: the change with its value decoded by `WebStorage.parseRawValue`. */
  datatype CookieStorageEvent = CookieStorageEvent(key: string, newValue: WebStorage.Read, options: Option<Options>)

  /** What one inner listener does with a change: call its user listener, or throw while decoding. */
  datatype Delivery = Delivered(listener: ListenerId, event: CookieStorageEvent) | Raised(error: Error)

  /** `parseRawValue`: the `value` property of the raw cookie value, null when there is none. */
  function ParseRawValue(raw: Option<Json>): (r: Json)
    ensures r != Null ==> raw.Some? && raw.value.Obj? && FieldValue(raw.value.fields, "value") == Some(r)
    ensures raw.Some? && raw.value.Obj? && FieldValue(raw.value.fields, "value").Some? ==> r == FieldValue(raw.value.fields, "value").value
  {
    match raw
    case Some(Obj(fields)) =>
      (match FieldValue(fields, "value") case Some(v) => v case None => Null)
    case _ => Null
  }

  /** Reading back the envelope `setItem` wrote yields the value that was written. */
  lemma ParseRawValueEnvelope(value: Json)
    ensures ParseRawValue(Some(Envelope(value))) == value
  {
  }

  /** Reading a value that is not an envelope, or no value at all, yields null. */
  lemma ParseRawValueForeign(raw: Option<Json>)
    requires raw.None? || !raw.value.Obj? || FieldValue(raw.value.fields, "value").None?
    ensures ParseRawValue(raw) == Null
  {
  }

  /** The inner change listener for `i`, run on one change: forwards only changes of its key. */
  function Fire(i: Inner, c: CookieChange): (r: Option<Delivery>)
    ensures r.Some? <==> c.name == i.key
    ensures r.Some? && r.value.Delivered? ==>
      r.value.listener == i.listener
      && r.value.event.key == c.name && r.value.event.options == c.options
      && WebStorage.ParseRawValue(c.value) == Success(r.value.event.newValue)
    ensures r.Some? && r.value.Raised? ==> WebStorage.ParseRawValue(c.value) == Failure(r.value.error)
  {
    if i.key == c.name then
      match WebStorage.ParseRawValue(c.value)
      case Failure(err) => Some(Raised(err))
      case Success(newValue) => Some(Delivered(i.listener, CookieStorageEvent(c.name, newValue, c.options)))
    else None
  }

  /** The jar running its change listeners, in order, on one change. */
  function Dispatch(host: seq<Inner>, c: CookieChange): (r: seq<Delivery>)
    ensures |r| <= |host|
    ensures (forall i | i in host :: i.key != c.name) ==> r == []
  {
    if host == [] then []
    else
      (match Fire(host[0], c) case Some(d) => [d] case None => [])
      + Dispatch(host[1..], c)
  }

  /** The jar calls its change listeners in the order they were added: a listener added last runs last. */
  lemma {:induction false} DispatchAppend(host: seq<Inner>, i: Inner, c: CookieChange)
    ensures Dispatch(host + [i], c) == Dispatch(host, c) + (match Fire(i, c) case Some(d) => [d] case None => [])
  {
    if host == [] {
      assert host + [i] == [i];
    } else {
      assert (host + [i])[0] == host[0] && (host + [i])[1..] == host[1..] + [i];
      DispatchAppend(host[1..], i, c);
    }
  }

  /** A removal reaches every listener of its key with null: undefined always decodes. */
  lemma {:induction false} RemovalDeliversNull(host: seq<Inner>, c: CookieChange)
    requires c.value.None?
    ensures forall d | d in Dispatch(host, c) :: d.Delivered? && d.event.newValue == WebStorage.Value(Null)
  {
    if host != [] {
      RemovalDeliversNull(host[1..], c);
    }
  }

  /** The jar running its change listeners on each change of `cs` in turn. */
  function DispatchAll(host: seq<Inner>, cs: seq<CookieChange>): (r: seq<Delivery>)
    ensures (forall a | 0 <= a < |cs| :: forall i | i in host :: i.key != cs[a].name) ==> r == []
  {
    if cs == [] then [] else DispatchAll(host, cs[..|cs| - 1]) + Dispatch(host, cs[|cs| - 1])
  }

  /** The changes `clear` makes: one `remove(key)`, without options, per key. */
  function Removals(keys: seq<string>): (cs: seq<CookieChange>)
    ensures |cs| == |keys|
    ensures forall a | 0 <= a < |keys| :: cs[a] == CookieChange(keys[a], None, None)
  {
    seq(|keys|, a requires 0 <= a < |keys| => CookieChange(keys[a], None, None))
  }

  /** How many times `listener` is called among the deliveries. */
  function CountDeliveries(ds: seq<Delivery>, listener: ListenerId): nat {
    if ds == [] then 0
    else (if ds[0].Delivered? && ds[0].listener == listener then 1 else 0) + CountDeliveries(ds[1..], listener)
  }

  lemma {:induction false} CountDeliveriesAppend(a: seq<Delivery>, b: seq<Delivery>, listener: ListenerId)
    ensures CountDeliveries(a + b, listener) == CountDeliveries(a, listener) + CountDeliveries(b, listener)
  {
    if a == [] {
      assert a + b == b;
    } else {
      assert (a + b)[0] == a[0] && (a + b)[1..] == a[1..] + b;
      CountDeliveriesAppend(a[1..], b, listener);
    }
  }

  /** The written text, or undefined, decodes without throwing. */
  predicate Decodes(c: CookieChange) {
    WebStorage.ParseRawValue(c.value).Success?
  }

  /**
   * A user listener is called once for each of its host entries filed under the
   * change's key, provided the change's value decodes; otherwise never.
   */
  lemma {:induction false} DispatchDeliveries(host: seq<Inner>, c: CookieChange, listener: ListenerId)
    ensures CountDeliveries(Dispatch(host, c), listener) == if Decodes(c) then CountPair(host, c.name, listener) else 0
  {
    if host != [] {
      DispatchDeliveries(host[1..], c, listener);
      var first := match Fire(host[0], c) case Some(d) => [d] case None => [];
      CountDeliveriesAppend(first, Dispatch(host[1..], c), listener);
    }
  }

  /**
   * With the registry invariant, one change calls a user listener exactly once
   * when it is registered under the changed key and the value decodes, and
   * never otherwise: listeners of other keys do not see it.
   */
  lemma DeliveriesPerChange(reg: Listeners, host: seq<Inner>, nextId: nat, c: CookieChange, listener: ListenerId)
    requires Registry.Valid(reg, host, nextId)
    ensures CountDeliveries(Dispatch(host, c), listener) == if Decodes(c) && Registered(reg, c.name, listener) then 1 else 0
  {
    DispatchDeliveries(host, c, listener);
    CountOwned(reg, host, nextId, c.name, listener);
  }

  /** What `setItem` emits always decodes, to the value that was written. */
  lemma SetChangeDecodes(key: string, value: StoreValue, options: Option<Options>)
    ensures WebStorage.ParseRawValue(CookieChange(key, Some(WebStorage.EnvelopeText(value)), options).value)
      == Success(WebStorage.Value(value))
  {
    WebStorage.ParseRawValueEnvelope(value);
  }

  /** The number of keys of `keys` under which `listener` is registered. */
  function CountRegistered(reg: Listeners, keys: seq<string>, listener: ListenerId): nat {
    if keys == [] then 0
    else CountRegistered(reg, keys[..|keys| - 1], listener) + (if Registered(reg, keys[|keys| - 1], listener) then 1 else 0)
  }

  /**
   * The removals of `clear` call a user listener once for every cleared key it
   * is registered under, each such call carrying null.
   */
  lemma {:induction false} ClearDeliveries(reg: Listeners, host: seq<Inner>, nextId: nat, keys: seq<string>, listener: ListenerId)
    requires Registry.Valid(reg, host, nextId)
    ensures CountDeliveries(DispatchAll(host, Removals(keys)), listener) == CountRegistered(reg, keys, listener)
    ensures forall d | d in DispatchAll(host, Removals(keys)) :: d.Delivered? && d.event.newValue == WebStorage.Value(Null)
  {
    var cs := Removals(keys);
    if keys != [] {
      var n := |keys| - 1;
      assert cs[..n] == Removals(keys[..n]);
      ClearDeliveries(reg, host, nextId, keys[..n], listener);
      CountDeliveriesAppend(DispatchAll(host, cs[..n]), Dispatch(host, cs[n]), listener);
      DeliveriesPerChange(reg, host, nextId, cs[n], listener);
      RemovalDeliversNull(host, cs[n]);
    }
  }

  /** Removing the first key of a store with distinct keys drops exactly the first pair. */
  lemma RemoveFirst<V>(s: seq<HostStore.Entry<V>>)
    requires s != [] && HostStore.DistinctKeys(s)
    ensures HostStore.Remove(s, s[0].key) == s[1..] && HostStore.DistinctKeys(s[1..])
  {
    RemoveAbsent(s[1..], s[0].key);
  }

  lemma {:induction false} RemoveAbsent<V>(s: seq<HostStore.Entry<V>>, key: string)
    requires key !in HostStore.Keys(s)
    ensures HostStore.Remove(s, key) == s
  {
    if s != [] {
      RemoveAbsent(s[1..], key);
    }
  }

  /** Removing the next listed cookie extends the deliveries by that one removal. */
  lemma ClearStep(host: seq<Inner>, keys: seq<string>, i: nat)
    requires i < |keys|
    ensures DispatchAll(host, Removals(keys[..i + 1]))
      == DispatchAll(host, Removals(keys[..i])) + Dispatch(host, CookieChange(keys[i], None, None))
  {
    assert Removals(keys[..i + 1])[..i] == Removals(keys[..i]);
  }

  /**
   * `Object.keys(store.getAll()).forEach((key) => store.remove(key))`: removes
   * every cookie listed when the loop began, in order, returning what the
   * removals deliver, in order.
   */
  method ClearJar(jar: seq<HostStore.Entry<Json>>, host: seq<Inner>)
    returns (rest: seq<HostStore.Entry<Json>>, ds: seq<Delivery>)
    requires HostStore.DistinctKeys(jar)
    ensures rest == []
    ensures ds == DispatchAll(host, Removals(HostStore.KeyList(jar)))
  {
    var keys := HostStore.KeyList(jar);
    rest, ds := jar, [];
    var i := 0;
    while i < |keys|
      invariant 0 <= i <= |keys|
      invariant rest == jar[i..]
      invariant HostStore.DistinctKeys(rest)
      invariant ds == DispatchAll(host, Removals(keys[..i]))
    {
      var next := Dispatch(host, CookieChange(keys[i], None, None));
      ClearStep(host, keys, i);
      RemoveFirst(rest);
      rest := HostStore.Remove(rest, keys[i]);
      ds := ds + next;
      i := i + 1;
    }
    assert keys[..i] == keys;
  }

  /** An adapter over one universal-cookie instance. */
  class CookieStorage {
    /** The jar's cookies, decoded, in the order `getAll` lists them. */
    var jar: seq<HostStore.Entry<Json>>
    /** `_listeners`. */
    var listeners: Listeners
    /** The jar's change listeners, in the order they were added. */
    var changeListeners: seq<Inner>
    /** Allocation counter standing for the identity of each new inner listener closure. */
    var nextId: nat
    /** Every call the inner listeners have made so far, in order. */
    ghost var delivered: seq<Delivery>

    /** The store's keys are distinct, the registry invariant holds, and the host runs the inner listeners in registration order. */
    ghost predicate Valid()
      reads this
    {
      HostStore.DistinctKeys(jar) && Registry.Valid(listeners, changeListeners, nextId) && Ascending(changeListeners)
    }

    /** An adapter over the jar `jar`, with no listeners yet. */
    constructor (jar: seq<HostStore.Entry<Json>>)
      requires HostStore.DistinctKeys(jar)
      ensures Valid()
      ensures this.jar == jar && listeners == map[] && changeListeners == [] && nextId == 0 && delivered == []
    {
      this.jar := jar;
      listeners := map[];
      changeListeners := [];
      nextId := 0;
      delivered := [];
    }

    /** `length`: the number of cookie names `getAll` lists. */
    function Length(): (n: nat)
      reads this
      ensures n == |HostStore.KeyList(jar)|
      ensures HostStore.DistinctKeys(jar) ==> n == |HostStore.Keys(jar)|
    {
      if HostStore.DistinctKeys(jar) then HostStore.LengthIsKeyCount(jar); |jar| else |jar|
    }

    /** `getItem`: the `value` of the cookie's envelope, null when the cookie does not exist. */
    function GetItem(key: string): (r: Json)
      reads this
      ensures key !in HostStore.Keys(jar) ==> r == Null
    {
      ParseRawValue(HostStore.Get(jar, key))
    }

    /**
     * `setItem`: writes the `{ value }` envelope, which the jar announces with
     * its JSON text to every change listener; `getItem(key)` then reads `value`.
     */
    method SetItem(key: string, value: StoreValue, options: Option<Options>) returns (self: CookieStorage)
      requires Valid()
      modifies this
      ensures Valid() && self == this
      ensures jar == HostStore.Set(old(jar), key, Envelope(value))
      ensures key !in HostStore.Keys(old(jar)) ==> jar == old(jar) + [HostStore.Entry(key, Envelope(value))]
      ensures Length() == if key in HostStore.Keys(old(jar)) then old(Length()) else old(Length()) + 1
      ensures GetItem(key) == value
      ensures forall k | k != key :: GetItem(k) == old(GetItem(k))
      ensures delivered == old(delivered) + Dispatch(changeListeners, CookieChange(key, Some(WebStorage.EnvelopeText(value)), options))
      ensures listeners == old(listeners) && changeListeners == old(changeListeners) && nextId == old(nextId)
    {
      HostStore.SetDistinct(jar, key, Envelope(value));
      if key !in HostStore.Keys(jar) {
        HostStore.SetAbsent(jar, key, Envelope(value));
      }
      forall k ensures HostStore.Get(HostStore.Set(jar, key, Envelope(value)), k)
        == if k == key then Some(Envelope(value)) else HostStore.Get(jar, k) {
        HostStore.GetSet(jar, key, Envelope(value), k);
      }
      jar := HostStore.Set(jar, key, Envelope(value));
      delivered := delivered + Dispatch(changeListeners, CookieChange(key, Some(WebStorage.EnvelopeText(value)), options));
      self := this;
    }

    /** `removeItem`: drops the cookie, which the jar announces as undefined; `getItem(key)` then reads null. */
    method RemoveItem(key: string, options: Option<Options>) returns (self: CookieStorage)
      requires Valid()
      modifies this
      ensures Valid() && self == this
      ensures jar == HostStore.Remove(old(jar), key)
      ensures GetItem(key) == Null
      ensures forall k | k != key :: GetItem(k) == old(GetItem(k))
      ensures old(Length()) == if key in HostStore.Keys(old(jar)) then Length() + 1 else Length()
      ensures delivered == old(delivered) + Dispatch(changeListeners, CookieChange(key, None, options))
      ensures listeners == old(listeners) && changeListeners == old(changeListeners) && nextId == old(nextId)
    {
      HostStore.RemoveDistinct(jar, key);
      HostStore.RemoveLength(jar, key);
      forall k ensures HostStore.Get(HostStore.Remove(jar, key), k) == if k == key then None else HostStore.Get(jar, k) {
        HostStore.GetRemove(jar, key, k);
      }
      jar := HostStore.Remove(jar, key);
      delivered := delivered + Dispatch(changeListeners, CookieChange(key, None, options));
      self := this;
    }

    /**
     * `clear`: removes, one by one and in `getAll` order, every cookie listed
     * when the call began; each removal is announced to the change listeners.
     */
    method Clear() returns (self: CookieStorage)
      requires Valid()
      modifies this
      ensures Valid() && self == this
      ensures jar == [] && Length() == 0
      ensures forall k :: GetItem(k) == Null
      ensures delivered == old(delivered) + DispatchAll(changeListeners, Removals(HostStore.KeyList(old(jar))))
      ensures listeners == old(listeners) && changeListeners == old(changeListeners) && nextId == old(nextId)
    {
      var ds;
      jar, ds := ClearJar(jar, changeListeners);
      delivered := delivered + ds;
      self := this;
    }

    /**
     * `addListener`: creates a fresh inner listener; when `listener` is not yet
     * registered under `key` it is filed and added to the jar's change
     * listeners, otherwise nothing changes. Always returns `listener`.
     */
    method AddListener(key: string, listener: ListenerId) returns (r: ListenerId)
      requires Valid()
      modifies this
      ensures Valid() && r == listener
      ensures listeners == Add(old(listeners), key, listener, Inner(old(nextId), key, listener))
      ensures changeListeners == AddHost(old(listeners), old(changeListeners), key, listener, Inner(old(nextId), key, listener))
      ensures nextId == old(nextId) + 1 && jar == old(jar) && delivered == old(delivered)
    {
      AddValid(listeners, changeListeners, nextId, key, listener);
      AddHostAscending(listeners, changeListeners, nextId, key, listener);
      AddSteps(listeners, key, listener, Inner(nextId, key, listener));
      var inner := Inner(nextId, key, listener);
      nextId := nextId + 1;
      if key !in listeners {
        listeners := listeners[key := map[]];
      }
      var forKey: map<ListenerId, Inner> := listeners[key];
      if listener !in forKey {
        listeners := listeners[key := forKey[listener := inner]];
        changeListeners := changeListeners + [inner];
      }
      r := listener;
    }

    /**
     * `removeListener(key, listener)` and `removeListener(key)`, as for
     * `WebStorage`, against the jar's change listeners.
     */
    method RemoveListener(key: string, listener: Option<ListenerId>) returns (result: bool)
      requires Valid()
      modifies this
      ensures Valid()
      ensures listener.Some? ==>
        result == Registered(old(listeners), key, listener.value)
        && listeners == RemovePair(old(listeners), key, listener.value)
        && changeListeners == if result then Unsubscribe(old(changeListeners), old(listeners)[key][listener.value]) else old(changeListeners)
      ensures listener.None? ==>
        result == (key in old(listeners))
        && listeners == old(listeners) - {key}
        && changeListeners == if result then Without(old(changeListeners), old(listeners)[key].Values) else old(changeListeners)
      ensures nextId == old(nextId) && jar == old(jar) && delivered == old(delivered)
    {
      result := false;
      if key in listeners {
        if listener.Some? {
          RemovePairValid(listeners, changeListeners, nextId, key, listener.value);
          if Registered(listeners, key, listener.value) {
            UnsubscribeAscending(changeListeners, listeners[key][listener.value]);
          }
          listeners, changeListeners, result := DeletePair(listeners, changeListeners, key, listener.value);
        } else {
          RemoveKeyValid(listeners, changeListeners, nextId, key);
          WithoutAscending(changeListeners, listeners[key].Values);
          assert FiledAt(listeners[key], key, nextId);
          listeners, changeListeners, result := DeleteKey(listeners, changeListeners, key);
        }
      }
    }
  }
}
