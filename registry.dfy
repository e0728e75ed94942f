/**
 * The per-key listener registry that `WebStorage` and `CookieStorage` both keep
 * in `_listeners` (a map from key to a map from user listener to the inner
 * listener wrapped around it), and the host listener list it is mirrored into
 * (the window's `storage` listeners, or the cookie jar's change listeners).
 *
 * This module holds what the two classes share: the shape of the registry, the
 * invariant that ties it to the host list, the functions that describe one
 * `addListener` or `removeListener` call, and the lemmas proving that each of
 * them keeps the invariant.
 */
module Registry {

  import opened Wrappers

  /** The identity of a user listener (a JavaScript function object). */
  type ListenerId = nat

  /**
   * The closure `addListener` creates around a user listener: a fresh identity,
   * the key it filters on and the user listener it forwards to.
   */
  datatype Inner = Inner(id: nat, key: string, listener: ListenerId)

  /** `_listeners`: key to (user listener to inner listener). */
  type Listeners = map<string, map<ListenerId, Inner>>

  /** `_listeners.get(key)?.has(listener)`. */
  predicate Registered(reg: Listeners, key: string, listener: ListenerId) {
    key in reg && listener in reg[key]
  }

  /** `i` is the inner listener the registry holds for its own key and user listener. */
  predicate Owns(reg: Listeners, i: Inner) {
    Registered(reg, i.key, i.listener) && reg[i.key][i.listener] == i
  }

  predicate Distinct<T(==)>(s: seq<T>) {
    forall a, b | 0 <= a < b < |s| :: s[a] != s[b]
  }

  /**
   * The registry invariant: a key is present only with a non-empty listener map;
   * every inner listener records the key and user listener it is filed under and
   * was allocated before `nextId`; and the host list holds, once each, exactly
   * the inner listeners of the registry.
   */
  ghost predicate Valid(reg: Listeners, host: seq<Inner>, nextId: nat) {
    Filed(reg, nextId) && Distinct(host) && Mirrors(reg, host)
  }

  /** Every key's listener map is filed correctly. */
  predicate Filed(reg: Listeners, nextId: nat) {
    forall k | k in reg :: FiledAt(reg[k], k, nextId)
  }

  /**
   * The listener map of `key` is non-empty, and each of its inner listeners
   * records `key` and the user listener it is filed under and was allocated
   * before `nextId`.
   */
  predicate FiledAt(m: map<ListenerId, Inner>, key: string, nextId: nat) {
    |m| > 0 && forall l | l in m :: m[l].key == key && m[l].listener == l && m[l].id < nextId
  }

  /** The host list holds exactly the inner listeners of the registry. */
  ghost predicate Mirrors(reg: Listeners, host: seq<Inner>) {
    forall i :: i in host <==> Owns(reg, i)
  }

  /** The registry after `addListener(key, listener)` with the freshly created inner listener `i`. */
  function Add(reg: Listeners, key: string, listener: ListenerId, i: Inner): (r: Listeners)
    ensures Registered(r, key, listener)
    ensures forall k, l :: Registered(r, k, l) <==> Registered(reg, k, l) || (k == key && l == listener)
  {
    if Registered(reg, key, listener) then reg
    else reg[key := (if key in reg then reg[key] else map[])[listener := i]]
  }

  /**
   * The two in-place steps of `addListener` (give the key an empty map if it has
   * none; file the listener if it is missing) compute `Add`.
   */
  lemma AddSteps(reg: Listeners, key: string, listener: ListenerId, i: Inner)
    ensures var withKey := if key in reg then reg else reg[key := map[]];
      listener in withKey[key] <==> Registered(reg, key, listener)
    ensures var withKey := if key in reg then reg else reg[key := map[]];
      Add(reg, key, listener, i) == if listener in withKey[key] then withKey else withKey[key := withKey[key][listener := i]]
  {
  }

  /** The three in-place steps of `removeListener(key, listener)` on a present key compute `RemovePair`. */
  lemma RemovePairSteps(reg: Listeners, key: string, listener: ListenerId)
    requires key in reg
    ensures var forKey := reg[key] - {listener};
      RemovePair(reg, key, listener) == if |forKey| <= 0 then reg[key := forKey] - {key} else reg[key := forKey]
  {
    var forKey := reg[key] - {listener};
    assert reg[key := forKey] - {key} == reg - {key};
  }

  /** Deleting one entry of a listener map whose entries are filed by listener drops exactly its inner listener. */
  lemma ValuesRemove(m: map<ListenerId, Inner>, l: ListenerId)
    requires l in m
    requires forall k | k in m :: m[k].listener == k
    ensures (m - {l}).Values == m.Values - {m[l]}
  {
    var r := m - {l};
    forall x | x in m.Values - {m[l]} ensures x in r.Values {
      var k :| k in m && m[k] == x;
      assert k != l;
      assert r[k] == x;
    }
  }

  /** Deleting one more entry of a sub-map of `m` adds its inner listener to those already deleted. */
  lemma DrainStep(m: map<ListenerId, Inner>, left: map<ListenerId, Inner>, l: ListenerId)
    requires l in left
    requires forall k | k in left :: k in m && left[k] == m[k]
    requires forall k | k in m :: m[k].listener == k
    ensures m.Values - (left - {l}).Values == (m.Values - left.Values) + {left[l]}
  {
    ValuesRemove(left, l);
    assert left[l] in m.Values by { assert m[l] == left[l]; }
  }

  /** The host list after `addListener`: the inner listener is subscribed only when the pair was new. */
  function AddHost(reg: Listeners, host: seq<Inner>, key: string, listener: ListenerId, i: Inner): (r: seq<Inner>)
    ensures |host| <= |r| <= |host| + 1 && r[..|host|] == host
    ensures |r| > |host| <==> !Registered(reg, key, listener)
    ensures |r| > |host| ==> r[|host|] == i
  {
    if Registered(reg, key, listener) then host else host + [i]
  }

  /** The registry after `removeListener(key, listener)`: the pair is gone, and so is a key left empty. */
  function RemovePair(reg: Listeners, key: string, listener: ListenerId): (r: Listeners)
    ensures forall k, l :: Registered(r, k, l) <==> Registered(reg, k, l) && !(k == key && l == listener)
  {
    if key !in reg then reg
    else
      var inner := reg[key] - {listener};
      if |inner| <= 0 then reg - {key} else reg[key := inner]
  }

  /** `removeEventListener` / `removeChangeListener`: unsubscribes the first occurrence of `i`, if any. */
  function Unsubscribe(host: seq<Inner>, i: Inner): (r: seq<Inner>)
    ensures multiset(r) == multiset(host) - multiset{i}
  {
    if host == [] then []
    else
      assert host == [host[0]] + host[1..];
      if host[0] == i then host[1..]
      else [host[0]] + Unsubscribe(host[1..], i)
  }

  /** The host list with every listener of `gone` unsubscribed. */
  function Without(host: seq<Inner>, gone: set<Inner>): (r: seq<Inner>)
    ensures forall i :: i in r <==> i in host && i !in gone
  {
    if host == [] then []
    else if host[0] in gone then Without(host[1..], gone)
    else [host[0]] + Without(host[1..], gone)
  }

  /** How many entries of the host list forward events for `key` to `listener`. */
  function CountPair(host: seq<Inner>, key: string, listener: ListenerId): nat {
    if host == [] then 0
    else (if host[0].key == key && host[0].listener == listener then 1 else 0) + CountPair(host[1..], key, listener)
  }

  /** `addListener` keeps the invariant, whether or not the pair was registered before. */
  lemma AddValid(reg: Listeners, host: seq<Inner>, nextId: nat, key: string, listener: ListenerId)
    requires Valid(reg, host, nextId)
    ensures var i := Inner(nextId, key, listener);
      Valid(Add(reg, key, listener, i), AddHost(reg, host, key, listener, i), nextId + 1)
  {
    var i := Inner(nextId, key, listener);
    if !Registered(reg, key, listener) {
      var r := Add(reg, key, listener, i);
      var h := host + [i];
      assert i !in host;
      forall x ensures x in h <==> Owns(r, x) {
        if x != i && Owns(r, x) {
          assert Owns(reg, x);
        }
      }
    }
  }

  /** Adding the same listener for the same key a second time changes neither the registry nor the host list. */
  lemma AddTwice(reg: Listeners, host: seq<Inner>, key: string, listener: ListenerId, i: Inner, j: Inner)
    ensures Add(Add(reg, key, listener, i), key, listener, j) == Add(reg, key, listener, i)
    ensures AddHost(Add(reg, key, listener, i), AddHost(reg, host, key, listener, i), key, listener, j)
      == AddHost(reg, host, key, listener, i)
  {
    assert Registered(Add(reg, key, listener, i), key, listener);
  }

  /** `removeListener(key, listener)` keeps the invariant. */
  lemma RemovePairValid(reg: Listeners, host: seq<Inner>, nextId: nat, key: string, listener: ListenerId)
    requires Valid(reg, host, nextId)
    ensures Valid(RemovePair(reg, key, listener),
      if Registered(reg, key, listener) then Unsubscribe(host, reg[key][listener]) else host, nextId)
  {
    RemovePairFiled(reg, nextId, key, listener);
    if Registered(reg, key, listener) {
      var gone := reg[key][listener];
      UnsubscribeWithout(host, {}, gone);
      WithoutNothing(host);
      WithoutDistinct(host, {gone});
      RemovePairMirrors(reg, host, nextId, key, listener);
    } else {
      RemovePairAbsent(reg, key, listener);
    }
  }

  /** After `removeListener(key, listener)` the host list, less the one inner listener, still mirrors the registry. */
  lemma RemovePairMirrors(reg: Listeners, host: seq<Inner>, nextId: nat, key: string, listener: ListenerId)
    requires Filed(reg, nextId) && Mirrors(reg, host) && Registered(reg, key, listener)
    ensures Mirrors(RemovePair(reg, key, listener), Without(host, {reg[key][listener]}))
  {
    var gone := reg[key][listener];
    var r := RemovePair(reg, key, listener);
    var h := Without(host, {gone});
    RemovePairFiled(reg, nextId, key, listener);
    forall x ensures x in h <==> Owns(r, x) {
      if Owns(reg, x) && x != gone {
        assert FiledAt(reg[x.key], x.key, nextId);
      }
    }
  }

  /** Removing a pair that is not registered leaves the registry as it was. */
  lemma RemovePairAbsent(reg: Listeners, key: string, listener: ListenerId)
    requires !Registered(reg, key, listener)
    requires key in reg ==> |reg[key]| > 0
    ensures RemovePair(reg, key, listener) == reg
  {
    if key in reg {
      assert reg[key] - {listener} == reg[key];
      assert reg[key := reg[key]] == reg;
    }
  }

  /** `RemovePair` keeps every remaining inner listener where it was. */
  lemma RemovePairFiled(reg: Listeners, nextId: nat, key: string, listener: ListenerId)
    requires Filed(reg, nextId)
    ensures Filed(RemovePair(reg, key, listener), nextId)
    ensures forall k, l | Registered(RemovePair(reg, key, listener), k, l) :: RemovePair(reg, key, listener)[k][l] == reg[k][l]
  {
    if key in reg {
      var inner := reg[key] - {listener};
      assert FiledAt(reg[key], key, nextId);
      if |inner| > 0 {
        assert FiledAt(inner, key, nextId);
      }
    }
  }

  /** `removeListener(key)` keeps the invariant: the key and all its inner listeners are gone. */
  lemma RemoveKeyValid(reg: Listeners, host: seq<Inner>, nextId: nat, key: string)
    requires Valid(reg, host, nextId) && key in reg
    ensures Valid(reg - {key}, Without(host, reg[key].Values), nextId)
  {
    var r := reg - {key};
    var h := Without(host, reg[key].Values);
    WithoutDistinct(host, reg[key].Values);
    forall x ensures x in h <==> Owns(r, x) {
      if x in host && x.key == key {
        assert x == reg[key][x.listener];
      }
    }
  }

  /** With distinct entries, unsubscribing one more listener from a filtered list is filtering it out as well. */
  lemma {:induction false} UnsubscribeWithout(host: seq<Inner>, gone: set<Inner>, i: Inner)
    requires Distinct(host)
    ensures Unsubscribe(Without(host, gone), i) == Without(host, gone + {i})
  {
    if host != [] {
      DistinctTail(host);
      UnsubscribeWithout(host[1..], gone, i);
      if host[0] !in gone && host[0] == i {
        HeadNotInTail(host);
        WithoutIrrelevant(host[1..], gone, i);
      }
    }
  }

  /** Filtering out a listener that is not in the list changes nothing. */
  lemma {:induction false} WithoutIrrelevant(host: seq<Inner>, gone: set<Inner>, i: Inner)
    requires i !in host
    ensures Without(host, gone + {i}) == Without(host, gone)
  {
    if host != [] {
      WithoutIrrelevant(host[1..], gone, i);
    }
  }

  lemma {:induction false} WithoutNothing(host: seq<Inner>)
    ensures Without(host, {}) == host
  {
    if host != [] {
      WithoutNothing(host[1..]);
      assert host == [host[0]] + host[1..];
    }
  }

  lemma {:induction false} WithoutDistinct(host: seq<Inner>, gone: set<Inner>)
    requires Distinct(host)
    ensures Distinct(Without(host, gone))
  {
    if host != [] {
      DistinctTail(host);
      WithoutDistinct(host[1..], gone);
      if host[0] !in gone {
        var t := Without(host[1..], gone);
        HeadNotInTail(host);
        var r := [host[0]] + t;
        forall a, b | 0 <= a < b < |r| ensures r[a] != r[b] {
          if a > 0 {
            assert r[a] == t[a - 1] && r[b] == t[b - 1];
          } else {
            assert r[b] == t[b - 1];
          }
        }
      }
    }
  }

  lemma HeadNotInTail<T>(s: seq<T>)
    requires s != [] && Distinct(s)
    ensures s[0] !in s[1..]
  {
    forall b | 0 <= b < |s[1..]| ensures s[1..][b] != s[0] {
      assert s[1..][b] == s[b + 1];
    }
  }

  lemma DistinctTail<T>(s: seq<T>)
    requires s != [] && Distinct(s)
    ensures Distinct(s[1..])
  {
    forall a, b | 0 <= a < b < |s[1..]| ensures s[1..][a] != s[1..][b] {
      assert s[1..][a] == s[a + 1] && s[1..][b] == s[b + 1];
    }
  }

  /**
   * The host list is in allocation order: an inner listener created earlier
   * stands before one created later, so the host runs them in the order they
   * were registered.
   */
  predicate Ascending(host: seq<Inner>) {
    forall a, b | 0 <= a < b < |host| :: host[a].id < host[b].id
  }

  /** A listener allocated before everything in an ascending list can go in front of it. */
  lemma AscendingCons(x: Inner, s: seq<Inner>)
    requires Ascending(s) && forall y | y in s :: x.id < y.id
    ensures Ascending([x] + s)
  {
    forall a, b | 0 <= a < b < |[x] + s| ensures ([x] + s)[a].id < ([x] + s)[b].id {
      if a == 0 {
        assert ([x] + s)[b] == s[b - 1];
      } else {
        assert ([x] + s)[a] == s[a - 1] && ([x] + s)[b] == s[b - 1];
      }
    }
  }

  /** In an ascending list, the head was allocated before everything after it. */
  lemma AscendingHead(s: seq<Inner>)
    requires s != [] && Ascending(s)
    ensures Ascending(s[1..]) && forall y | y in s[1..] :: s[0].id < y.id
  {
    forall y | y in s[1..] ensures s[0].id < y.id {
      var b :| 0 <= b < |s[1..]| && s[1..][b] == y;
      assert s[b + 1] == y;
    }
  }

  /** `addListener` subscribes its fresh inner listener at the end, after every older one. */
  lemma AddHostAscending(reg: Listeners, host: seq<Inner>, nextId: nat, key: string, listener: ListenerId)
    requires Valid(reg, host, nextId) && Ascending(host)
    ensures Ascending(AddHost(reg, host, key, listener, Inner(nextId, key, listener)))
  {
    var h := host + [Inner(nextId, key, listener)];
    forall a, b | 0 <= a < b < |h| ensures h[a].id < h[b].id {
      if b == |host| {
        assert Owns(reg, host[a]);
        assert FiledAt(reg[host[a].key], host[a].key, nextId);
      }
    }
  }

  /** Unsubscribing one inner listener keeps the others in their order. */
  lemma {:induction false} UnsubscribeAscending(host: seq<Inner>, i: Inner)
    requires Ascending(host)
    ensures Ascending(Unsubscribe(host, i))
  {
    if host != [] {
      AscendingHead(host);
      if host[0] != i {
        UnsubscribeAscending(host[1..], i);
        forall y | y in Unsubscribe(host[1..], i) ensures host[0].id < y.id {
          assert y in multiset(Unsubscribe(host[1..], i));
        }
        AscendingCons(host[0], Unsubscribe(host[1..], i));
      }
    }
  }

  /** Unsubscribing a set of inner listeners keeps the others in their order. */
  lemma {:induction false} WithoutAscending(host: seq<Inner>, gone: set<Inner>)
    requires Ascending(host)
    ensures Ascending(Without(host, gone))
  {
    if host != [] {
      AscendingHead(host);
      WithoutAscending(host[1..], gone);
      if host[0] !in gone {
        AscendingCons(host[0], Without(host[1..], gone));
      }
    }
  }

  /**
   * Every registered pair owns exactly one host registration and an unregistered
   * pair owns none: so the user listener is called at most once per event.
   */
  lemma CountOwned(reg: Listeners, host: seq<Inner>, nextId: nat, key: string, listener: ListenerId)
    requires Valid(reg, host, nextId)
    ensures CountPair(host, key, listener) == if Registered(reg, key, listener) then 1 else 0
  {
    if Registered(reg, key, listener) {
      var x := reg[key][listener];
      forall a | 0 <= a < |host| && host[a].key == x.key && host[a].listener == x.listener ensures host[a] == x {
        assert Owns(reg, host[a]);
      }
      CountOnly(host, x);
    } else {
      CountNone(host, key, listener);
    }
  }

  /** A distinct list whose only entry for `x`'s key and listener is `x` counts it once. */
  lemma {:induction false} CountOnly(host: seq<Inner>, x: Inner)
    requires Distinct(host) && x in host
    requires forall a | 0 <= a < |host| && host[a].key == x.key && host[a].listener == x.listener :: host[a] == x
    ensures CountPair(host, x.key, x.listener) == 1
  {
    DistinctTail(host);
    if host[0] == x {
      HeadNotInTail(host);
      CountNone(host[1..], x.key, x.listener);
    } else {
      assert forall a | 0 <= a < |host[1..]| :: host[1..][a] == host[a + 1];
      CountOnly(host[1..], x);
    }
  }

  /** A list with no entry for a pair counts it zero times. */
  lemma {:induction false} CountNone(host: seq<Inner>, key: string, listener: ListenerId)
    requires forall i | i in host :: !(i.key == key && i.listener == listener)
    ensures CountPair(host, key, listener) == 0
  {
    if host != [] {
      CountNone(host[1..], key, listener);
    }
  }

  /**
   * `removeListener(key, listener)` on a key present in the registry, step by
   * step: unsubscribe the inner listener filed for `listener`, delete the pair,
   * and drop the key when its map is left empty.
   */
  method DeletePair(reg: Listeners, host: seq<Inner>, key: string, listener: ListenerId)
    returns (r: Listeners, h: seq<Inner>, deleted: bool)
    requires key in reg
    ensures deleted == Registered(reg, key, listener)
    ensures r == RemovePair(reg, key, listener)
    ensures h == if deleted then Unsubscribe(host, reg[key][listener]) else host
  {
    RemovePairSteps(reg, key, listener);
    var forKey: map<ListenerId, Inner> := reg[key];
    h := host;
    if listener in forKey {
      h := Unsubscribe(host, forKey[listener]);
    }
    deleted := listener in forKey;
    forKey := forKey - {listener};
    r := reg[key := forKey];
    if |forKey| <= 0 {
      r := r - {key};
    }
  }

  /**
   * `removeListener(key)` on a key present in the registry: drain its map with
   * the `forEach`, then drop the key, whose map is now empty.
   */
  method DeleteKey(reg: Listeners, host: seq<Inner>, key: string)
    returns (r: Listeners, h: seq<Inner>, deleted: bool)
    requires key in reg
    requires Distinct(host)
    requires forall l | l in reg[key] :: reg[key][l].listener == l
    ensures deleted == (reg[key] != map[])
    ensures r == reg - {key}
    ensures h == Without(host, reg[key].Values)
  {
    var forKey: map<ListenerId, Inner>;
    forKey, h, deleted := Drain(reg[key], host);
    r := reg[key := forKey];
    if |forKey| <= 0 {
      r := r - {key};
    }
    assert reg[key := map[]] - {key} == reg - {key};
  }

  /**
   * The `forEach` of `removeListener(key)`: unsubscribes each inner listener of
   * `forKey` from the window list `host` and deletes its entry, accumulating
   * whether any deletion succeeded.
   */
  method Drain(forKey: map<ListenerId, Inner>, host: seq<Inner>) returns (left: map<ListenerId, Inner>, h: seq<Inner>, deleted: bool)
    requires Distinct(host)
    requires forall l | l in forKey :: forKey[l].listener == l
    ensures left == map[]
    ensures deleted == (forKey != map[])
    ensures h == Without(host, forKey.Values)
  {
    left, h, deleted := forKey, host, false;
    ghost var done: set<Inner> := {};
    WithoutNothing(host);
    while left != map[]
      invariant forall l | l in left :: l in forKey && left[l] == forKey[l]
      invariant done == forKey.Values - left.Values
      invariant h == Without(host, done)
      invariant deleted == (left != forKey)
      decreases left.Keys
    {
      var l :| l in left;
      var inner := left[l];
      UnsubscribeWithout(host, done, inner);
      DrainStep(forKey, left, l);
      h := Unsubscribe(h, inner);
      var gone := l in left;
      left := left - {l};
      deleted := gone || deleted;
      done := done + {inner};
    }
    assert left.Values == {};
    assert done == forKey.Values;
  }
}
