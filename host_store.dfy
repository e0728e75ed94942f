/**
 * The host key/value stores the adapters write to: the Web Storage `Storage`
 * object behind `WebStorage.store`, and the cookie jar behind
 * `CookieStorage.store`. Both keep their pairs in insertion order: a new key is
 * appended, an existing key keeps its position and takes the new value, and a
 * removed key drops out with the later pairs moving up.
 */
module HostStore {

  import opened Wrappers

  /** One key/value pair of a host store. */
  datatype Entry<V> = Entry(key: string, value: V)

  /** The keys present in `s`. */
  function Keys<V>(s: seq<Entry<V>>): set<string> {
    if s == [] then {} else {s[0].key} + Keys(s[1..])
  }

  /** No key occurs twice: what every host store maintains. */
  predicate DistinctKeys<V>(s: seq<Entry<V>>) {
    s == [] || (s[0].key !in Keys(s[1..]) && DistinctKeys(s[1..]))
  }

  /** `Storage.getItem` / `Cookie.get`: the value stored under `key`, `None` (null) when there is none. */
  function Get<V>(s: seq<Entry<V>>, key: string): (r: Option<V>)
    ensures r.Some? <==> key in Keys(s)
    ensures r.Some? ==> Entry(key, r.value) in s
  {
    if s == [] then None
    else if s[0].key == key then Some(s[0].value)
    else Get(s[1..], key)
  }

  /** `Storage.setItem` / `Cookie.set`: replaces the value of an existing key in place, else appends the pair. */
  function Set<V>(s: seq<Entry<V>>, key: string, value: V): (r: seq<Entry<V>>)
    ensures Keys(r) == Keys(s) + {key}
    ensures |r| == if key in Keys(s) then |s| else |s| + 1
  {
    if s == [] then [Entry(key, value)]
    else if s[0].key == key then [Entry(key, value)] + s[1..]
    else [s[0]] + Set(s[1..], key, value)
  }

  /** `Storage.removeItem` / `Cookie.remove`: drops the pair of `key`, if there is one. */
  function Remove<V>(s: seq<Entry<V>>, key: string): (r: seq<Entry<V>>)
    ensures Keys(r) == Keys(s) - {key}
    ensures |r| <= |s|
  {
    if s == [] then []
    else if s[0].key == key then Remove(s[1..], key)
    else [s[0]] + Remove(s[1..], key)
  }

  /** The keys of `s` in order, as `Object.keys(cookies.getAll())` lists them. */
  function KeyList<V>(s: seq<Entry<V>>): (ks: seq<string>)
    ensures |ks| == |s|
    ensures forall a | 0 <= a < |s| :: ks[a] == s[a].key
  {
    if s == [] then [] else [s[0].key] + KeyList(s[1..])
  }

  /** A new key goes to the end: the store keeps insertion order. */
  lemma {:induction false} SetAbsent<V>(s: seq<Entry<V>>, key: string, value: V)
    requires key !in Keys(s)
    ensures Set(s, key, value) == s + [Entry(key, value)]
  {
    if s != [] {
      SetAbsent(s[1..], key, value);
      assert s == [s[0]] + s[1..];
    }
  }

  /** Every key of the store sits at some position: listing positions `0 .. |s| - 1` reaches every key. */
  lemma {:induction false} KeyPosition<V>(s: seq<Entry<V>>, key: string) returns (n: nat)
    requires key in Keys(s)
    ensures n < |s| && s[n].key == key
  {
    if s[0].key == key {
      n := 0;
    } else {
      var m := KeyPosition(s[1..], key);
      n := m + 1;
    }
  }

  /** The key at each position is one of the store's keys. */
  lemma {:induction false} KeyAt<V>(s: seq<Entry<V>>, n: nat)
    requires n < |s|
    ensures s[n].key in Keys(s)
  {
    if n > 0 {
      KeyAt(s[1..], n - 1);
    }
  }

  /** After `Set`, the key reads the new value and every other key reads what it read before. */
  lemma {:induction false} GetSet<V>(s: seq<Entry<V>>, key: string, value: V, other: string)
    ensures Get(Set(s, key, value), other) == if other == key then Some(value) else Get(s, other)
  {
    if s != [] && s[0].key != key {
      GetSet(s[1..], key, value, other);
      assert Set(s, key, value)[1..] == Set(s[1..], key, value);
    } else if s != [] {
      assert Set(s, key, value)[1..] == s[1..];
    }
  }

  /** After `Remove`, the key reads nothing and every other key reads what it read before. */
  lemma {:induction false} GetRemove<V>(s: seq<Entry<V>>, key: string, other: string)
    ensures Get(Remove(s, key), other) == if other == key then None else Get(s, other)
  {
    if s != [] {
      GetRemove(s[1..], key, other);
      if s[0].key != key {
        assert Remove(s, key)[1..] == Remove(s[1..], key);
      }
    }
  }

  /** `Set` keeps the keys distinct. */
  lemma {:induction false} SetDistinct<V>(s: seq<Entry<V>>, key: string, value: V)
    requires DistinctKeys(s)
    ensures DistinctKeys(Set(s, key, value))
  {
    if s != [] && s[0].key != key {
      SetDistinct(s[1..], key, value);
      assert Set(s, key, value)[1..] == Set(s[1..], key, value);
    } else if s != [] {
      assert Set(s, key, value)[1..] == s[1..];
    }
  }

  /** `Remove` keeps the keys distinct. */
  lemma {:induction false} RemoveDistinct<V>(s: seq<Entry<V>>, key: string)
    requires DistinctKeys(s)
    ensures DistinctKeys(Remove(s, key))
  {
    if s != [] {
      RemoveDistinct(s[1..], key);
      if s[0].key != key {
        assert Remove(s, key)[1..] == Remove(s[1..], key);
      }
    }
  }

  /** With distinct keys, the number of pairs is the number of keys: `length` counts key/value pairs. */
  lemma {:induction false} LengthIsKeyCount<V>(s: seq<Entry<V>>)
    requires DistinctKeys(s)
    ensures |s| == |Keys(s)|
  {
    if s != [] {
      LengthIsKeyCount(s[1..]);
    }
  }

  /** With distinct keys, `Remove` drops exactly one pair when the key is present and none otherwise. */
  lemma RemoveLength<V>(s: seq<Entry<V>>, key: string)
    requires DistinctKeys(s)
    ensures |Remove(s, key)| == if key in Keys(s) then |s| - 1 else |s|
  {
    RemoveDistinct(s, key);
    LengthIsKeyCount(s);
    LengthIsKeyCount(Remove(s, key));
  }
}
