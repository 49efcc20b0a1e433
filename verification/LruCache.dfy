/**
 The least-recently-used cache with a time to live: the cache object, the same
 operations on a list of entries ordered from least to most recently touched, and
 what every history of operations guarantees.
 */
module LruCache {
  import opened Sequences

  type Key = string
  type Time = int

  datatype Entry<V> = Entry(key: Key, value: V, stamp: Time)

  datatype Event<V> = Get(key: Key, now: Time) | Set(key: Key, value: V, now: Time) | Clear

  // ---------------------------------------------------------------- operations on entry lists

  ghost function KeysOf<V>(c: seq<Entry<V>>): (ks: seq<Key>)
    ensures |ks| == |c| && forall i | 0 <= i < |c| :: ks[i] == c[i].key
  {
    if c == [] then [] else [c[0].key] + KeysOf(c[1..])
  }

  ghost function Find<V>(c: seq<Entry<V>>, k: Key): (e: Option<Entry<V>>)
    ensures e.Some? ==> e.value in c && e.value.key == k
    ensures e.Some? <==> k in KeysOf(c)
  {
    if c == [] then None
    else if c[0].key == k then Some(c[0])
    else Find(c[1..], k)
  }

  ghost function Drop<V>(c: seq<Entry<V>>, k: Key): seq<Entry<V>> {
    if c == [] then []
    else if c[0].key == k then Drop(c[1..], k)
    else [c[0]] + Drop(c[1..], k)
  }

  ghost predicate Fresh<V>(e: Entry<V>, now: Time, ttl: Time) {
    now - e.stamp <= ttl
  }

  ghost predicate Hit<V>(c: seq<Entry<V>>, k: Key, now: Time, ttl: Time) {
    Find(c, k).Some? && Fresh(Find(c, k).value, now, ttl)
  }

  /** A lookup: an expired entry is dropped, a live one moves to the recent end. */
  ghost function Looked<V>(c: seq<Entry<V>>, k: Key, now: Time, ttl: Time): seq<Entry<V>> {
    if Hit(c, k, now, ttl) then Drop(c, k) + [Find(c, k).value] else Drop(c, k)
  }

  ghost function Answer<V>(c: seq<Entry<V>>, k: Key, now: Time, ttl: Time): Option<V> {
    if Hit(c, k, now, ttl) then Some(Find(c, k).value.value) else None
  }

  /** A store: the entry goes to the recent end, and one old entry goes if that is one too many. */
  ghost function Stored<V>(c: seq<Entry<V>>, k: Key, v: V, now: Time, maxSize: int): seq<Entry<V>> {
    var c' := Drop(c, k) + [Entry(k, v, now)];
    if |c'| > maxSize then c'[1..] else c'
  }

  lemma {:induction false} DropKeys<V>(c: seq<Entry<V>>, k: Key)
    ensures KeysOf(Drop(c, k)) == RemovedFrom(KeysOf(c), k)
    ensures forall e :: e in Drop(c, k) <==> e in c && e.key != k
  {
    if c != [] {
      DropKeys(c[1..], k);
      assert KeysOf(c)[1..] == KeysOf(c[1..]);
      if c[0].key != k {
        assert KeysOf([c[0]] + Drop(c[1..], k))[1..] == KeysOf(Drop(c[1..], k));
      }
      assert forall e :: e in c <==> e == c[0] || e in c[1..];
    }
  }

  lemma {:induction false} DropMembers<V>(c: seq<Entry<V>>, k: Key)
    ensures forall e | e in Drop(c, k) :: e.key != k && e in c
  {
    if c != [] {
      DropMembers(c[1..], k);
    }
  }

  lemma {:induction false} DropAbsent<V>(c: seq<Entry<V>>, k: Key)
    requires k !in KeysOf(c)
    ensures Drop(c, k) == c
  {
    if c != [] {
      assert KeysOf(c)[1..] == KeysOf(c[1..]);
      assert c[0].key == KeysOf(c)[0];
      DropAbsent(c[1..], k);
    }
  }

  // ---------------------------------------------------------------- the object

  class LRUCache<V> {
    const maxSize: int
    const ttl: Time
    var order: seq<Key>
    var cache: map<Key, V>
    var timestamps: map<Key, Time>
    var hits: nat
    var misses: nat

    ghost predicate Aligned()
      reads this
    {
      AlignedOf(order, cache, timestamps)
    }

    ghost predicate Valid()
      reads this
    {
      Aligned() && |order| <= if maxSize < 0 then 0 else maxSize
    }

    ghost function Entries(): (c: seq<Entry<V>>)
      requires Aligned()
      ensures |c| == |order|
      reads this
    {
      EntriesOf(order, cache, timestamps)
    }

    constructor (maxSize: int, ttl: Time)
      ensures Valid() && Entries() == [] && this.maxSize == maxSize && this.ttl == ttl
    {
      this.maxSize, this.ttl := maxSize, ttl;
      order, cache, timestamps, hits, misses := [], map[], map[], 0, 0;
    }

    method Get(key: Key, now: Time) returns (r: Option<V>)
      requires Valid()
      modifies this
      ensures Valid()
      ensures r == Answer(old(Entries()), key, now, ttl) && Entries() == Looked(old(Entries()), key, now, ttl)
      ensures hits == old(hits) + (if r.Some? then 1 else 0) && misses == old(misses) + (if r.Some? then 0 else 1)
    {
      FindAligned(order, cache, timestamps, key);
      if key !in cache || now - timestamps[key] > ttl {
        if key in cache {
          Delete(key);
        }
        misses := misses + 1;
        return None;
      }
      MoveToEnd(key);
      hits := hits + 1;
      r := Some(cache[key]);
    }

    /** Deletes a key that is present. */
    method Delete(key: Key)
      requires Aligned() && key in cache
      modifies `order, `cache, `timestamps
      ensures Aligned() && Entries() == Drop(old(Entries()), key) && |order| < old(|order|)
    {
      DeleteAligned(order, cache, timestamps, key);
      order, cache, timestamps := RemovedFrom(order, key), cache - {key}, timestamps - {key};
    }

    /** Makes a present key the most recently used one. */
    method MoveToEnd(key: Key)
      requires Aligned() && key in cache
      modifies `order
      ensures Aligned() && |order| == old(|order|)
      ensures Entries() == Drop(old(Entries()), key) + [Entry(key, cache[key], timestamps[key])]
    {
      PutAligned(order, cache, timestamps, key, cache[key], timestamps[key]);
      assert cache[key := cache[key]] == cache && timestamps[key := timestamps[key]] == timestamps;
      order := RemovedFrom(order, key) + [key];
    }

    /** Stores at the recent end, then evicts the oldest key if there is one too many. */
    method Set(key: Key, value: V, now: Time)
      requires Valid()
      modifies `order, `cache, `timestamps
      ensures Valid()
      ensures Entries() == Stored(old(Entries()), key, value, now, maxSize)
    {
      Put(key, value, now);
      if |order| > maxSize {
        EvictOldest();
      }
    }

    method Put(key: Key, value: V, now: Time)
      requires Aligned()
      modifies `order, `cache, `timestamps
      ensures Aligned() && |order| <= old(|order|) + 1
      ensures Entries() == Drop(old(Entries()), key) + [Entry(key, value, now)]
    {
      PutAligned(order, cache, timestamps, key, value, now);
      order := (if key in cache then RemovedFrom(order, key) else order) + [key];
      cache, timestamps := cache[key := value], timestamps[key := now];
    }

    method EvictOldest()
      requires order != [] && Aligned()
      modifies `order, `cache, `timestamps
      ensures Aligned() && Entries() == old(Entries())[1..] && |order| == old(|order|) - 1
    {
      EvictAligned(order, cache, timestamps);
      order, cache, timestamps := order[1..], cache - {order[0]}, timestamps - {order[0]};
    }

    method Empty()
      requires Valid()
      modifies `order, `cache, `timestamps
      ensures Valid() && Entries() == []
    {
      order, cache, timestamps := [], map[], map[];
    }
  }

  function RemovedFrom(order: seq<Key>, key: Key): (r: seq<Key>)
    ensures forall k :: k in r <==> k in order && k != key
  {
    if order == [] then []
    else if order[0] == key then RemovedFrom(order[1..], key)
    else [order[0]] + RemovedFrom(order[1..], key)
  }

  lemma {:induction false} RemovedAbsent(order: seq<Key>, key: Key)
    requires key !in order
    ensures RemovedFrom(order, key) == order
  {
    if order != [] {
      RemovedAbsent(order[1..], key);
    }
  }

  ghost predicate Stocked<V>(order: seq<Key>, cache: map<Key, V>, timestamps: map<Key, Time>) {
    forall k | k in order :: k in cache && k in timestamps
  }

  ghost function EntriesOf<V>(order: seq<Key>, cache: map<Key, V>, timestamps: map<Key, Time>): (c: seq<Entry<V>>)
    requires Stocked(order, cache, timestamps)
    ensures |c| == |order|
  {
    if order == [] then []
    else [Entry(order[0], cache[order[0]], timestamps[order[0]])] + EntriesOf(order[1..], cache, timestamps)
  }

  /** Equal contents for the listed keys give equal entry lists. */
  lemma {:induction false} EntriesAgree<V>(
    order: seq<Key>, a: map<Key, V>, s: map<Key, Time>, b: map<Key, V>, t: map<Key, Time>)
    requires Stocked(order, a, s) && Stocked(order, b, t)
    requires forall k | k in order :: a[k] == b[k] && s[k] == t[k]
    ensures EntriesOf(order, a, s) == EntriesOf(order, b, t)
  {
    if order != [] {
      EntriesAgree(order[1..], a, s, b, t);
    }
  }

  lemma {:induction false} EntriesAppended<V>(order: seq<Key>, k: Key, cache: map<Key, V>, timestamps: map<Key, Time>)
    requires Stocked(order + [k], cache, timestamps)
    ensures Stocked(order, cache, timestamps)
    ensures EntriesOf(order + [k], cache, timestamps) ==
      EntriesOf(order, cache, timestamps) + [Entry(k, cache[k], timestamps[k])]
  {
    if order == [] {
    } else {
      assert (order + [k])[1..] == order[1..] + [k];
      EntriesAppended(order[1..], k, cache, timestamps);
    }
  }

  lemma {:induction false} RemovedDistinct(order: seq<Key>, key: Key)
    requires Distinct(order)
    ensures Distinct(RemovedFrom(order, key))
    ensures |RemovedFrom(order, key)| == if key in order then |order| - 1 else |order|
  {
    if order != [] {
      assert order[0] !in order[1..];
      RemovedDistinct(order[1..], key);
    }
  }

  lemma {:induction false} EntriesRemoved<V>(order: seq<Key>, cache: map<Key, V>, timestamps: map<Key, Time>, key: Key)
    requires Stocked(order, cache, timestamps)
    ensures Stocked(RemovedFrom(order, key), cache, timestamps)
    ensures EntriesOf(RemovedFrom(order, key), cache, timestamps) == Drop(EntriesOf(order, cache, timestamps), key)
    ensures Find(EntriesOf(order, cache, timestamps), key) ==
      if key in order then Some(Entry(key, cache[key], timestamps[key])) else None
  {
    if order != [] {
      EntriesRemoved(order[1..], cache, timestamps, key);
      assert EntriesOf(order, cache, timestamps)[1..] == EntriesOf(order[1..], cache, timestamps);
    }
  }

  lemma StoredEntries<V>(
    order: seq<Key>, cache: map<Key, V>, timestamps: map<Key, Time>, key: Key, value: V, now: Time)
    requires Stocked(order, cache, timestamps)
    ensures
      var order', cache', timestamps' := RemovedFrom(order, key) + [key], cache[key := value], timestamps[key := now];
      && Stocked(order', cache', timestamps')
      && EntriesOf(order', cache', timestamps') ==
           Drop(EntriesOf(order, cache, timestamps), key) + [Entry(key, value, now)]
  {
    var kept := RemovedFrom(order, key);
    EntriesRemoved(order, cache, timestamps, key);
    EntriesAgree(kept, cache, timestamps, cache[key := value], timestamps[key := now]);
    EntriesAppended(kept, key, cache[key := value], timestamps[key := now]);
  }

  /** The three structures list the same keys. */
  ghost predicate AlignedOf<V>(order: seq<Key>, cache: map<Key, V>, timestamps: map<Key, Time>) {
    && Distinct(order) && ToSet(order) == cache.Keys && cache.Keys == timestamps.Keys
    && Stocked(order, cache, timestamps)
  }

  lemma FindAligned<V>(order: seq<Key>, cache: map<Key, V>, timestamps: map<Key, Time>, key: Key)
    requires AlignedOf(order, cache, timestamps)
    ensures
      var c := EntriesOf(order, cache, timestamps);
      if key in cache then Find(c, key) == Some(Entry(key, cache[key], timestamps[key]))
      else Find(c, key).None? && Drop(c, key) == c
  {
    assert key in cache <==> key in ToSet(order);
    EntriesRemoved(order, cache, timestamps, key);
    if key !in cache {
      DropAbsent(EntriesOf(order, cache, timestamps), key);
    }
  }

  lemma DeleteAligned<V>(order: seq<Key>, cache: map<Key, V>, timestamps: map<Key, Time>, key: Key)
    requires AlignedOf(order, cache, timestamps) && key in cache
    ensures var kept := RemovedFrom(order, key);
      && |kept| < |order|
      && AlignedOf(kept, cache - {key}, timestamps - {key})
      && EntriesOf(kept, cache - {key}, timestamps - {key}) == Drop(EntriesOf(order, cache, timestamps), key)
  {
    assert key in ToSet(order);
    EntriesRemoved(order, cache, timestamps, key);
    RemovedDistinct(order, key);
    EntriesAgree(RemovedFrom(order, key), cache, timestamps, cache - {key}, timestamps - {key});
  }

  lemma PutAligned<V>(
    order: seq<Key>, cache: map<Key, V>, timestamps: map<Key, Time>, key: Key, value: V, now: Time)
    requires AlignedOf(order, cache, timestamps)
    ensures
      var kept := RemovedFrom(order, key);
      var cache', timestamps' := cache[key := value], timestamps[key := now];
      && (key !in cache ==> kept == order)
      && |kept| == (if key in cache then |order| - 1 else |order|)
      && AlignedOf(kept + [key], cache', timestamps')
      && EntriesOf(kept + [key], cache', timestamps') ==
           Drop(EntriesOf(order, cache, timestamps), key) + [Entry(key, value, now)]
  {
    KeysAfterPut(order, key);
    StoredEntries(order, cache, timestamps, key, value, now);
  }

  lemma KeysAfterPut(order: seq<Key>, key: Key)
    requires Distinct(order)
    ensures var kept := RemovedFrom(order, key);
      && (key !in ToSet(order) ==> kept == order)
      && |kept| == (if key in ToSet(order) then |order| - 1 else |order|)
      && Distinct(kept + [key]) && ToSet(kept + [key]) == ToSet(order) + {key}
  {
    RemovedDistinct(order, key);
    if key !in order {
      RemovedAbsent(order, key);
    }
  }

  lemma EvictAligned<V>(order: seq<Key>, cache: map<Key, V>, timestamps: map<Key, Time>)
    requires AlignedOf(order, cache, timestamps) && order != []
    ensures
      var cache', timestamps' := cache - {order[0]}, timestamps - {order[0]};
      && AlignedOf(order[1..], cache', timestamps')
      && EntriesOf(order[1..], cache', timestamps') == EntriesOf(order, cache, timestamps)[1..]
  {
    var oldest := order[0];
    assert order == [oldest] + order[1..] && oldest !in order[1..];
    EntriesAgree(order[1..], cache, timestamps, cache - {oldest}, timestamps - {oldest});
  }
}
