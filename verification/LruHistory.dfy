/** What any history of cache operations guarantees about the next lookup. */
module LruHistory {
  import opened Sequences
  import opened LruCache

  ghost function After<V>(c: seq<Entry<V>>, e: Event<V>, maxSize: int, ttl: Time): seq<Entry<V>> {
    match e
    case Get(k, now) => Looked(c, k, now, ttl)
    case Set(k, v, now) => Stored(c, k, v, now, maxSize)
    case Clear => []
  }

  /** The cache a history leads to, starting empty. */
  ghost function Replay<V>(h: seq<Event<V>>, maxSize: int, ttl: Time): seq<Entry<V>> {
    if h == [] then [] else After(Replay(h[..|h| - 1], maxSize, ttl), h[|h| - 1], maxSize, ttl)
  }

  /** The value last stored for a key and when, unless a clear came after. */
  ghost function LastSet<V>(h: seq<Event<V>>, k: Key): Option<(V, Time)> {
    if h == [] then None
    else
      match h[|h| - 1]
      case Set(key, v, now) => if key == k then Some((v, now)) else LastSet(h[..|h| - 1], k)
      case Get(_, _) => LastSet(h[..|h| - 1], k)
      case Clear => None
  }

  /** An event touches a key by storing it or by finding it. */
  ghost predicate Touches<V>(c: seq<Entry<V>>, e: Event<V>, k: Key, ttl: Time) {
    match e
    case Get(key, now) => key == k && Hit(c, k, now, ttl)
    case Set(key, _, _) => key == k
    case Clear => false
  }

  /** One more than the position of the last event that touched the key. */
  ghost function LastTouch<V>(h: seq<Event<V>>, k: Key, maxSize: int, ttl: Time): (t: nat)
    ensures t <= |h|
  {
    if h == [] then 0
    else if Touches(Replay(h[..|h| - 1], maxSize, ttl), h[|h| - 1], k, ttl) then |h|
    else LastTouch(h[..|h| - 1], k, maxSize, ttl)
  }

  // ---------------------------------------------------------------- what the entries are

  ghost predicate FromHistory<V>(h: seq<Event<V>>, c: seq<Entry<V>>) {
    forall e | e in c :: LastSet(h, e.key) == Some((e.value, e.stamp))
  }

  /** Ranks rise strictly along the entries. */
  ghost predicate Rising<V>(c: seq<Entry<V>>, rank: Key -> int) {
    c == [] || (Rising(c[1..], rank) && forall e | e in c[1..] :: rank(c[0].key) < rank(e.key))
  }

  ghost predicate ByTouch<V>(h: seq<Event<V>>, c: seq<Entry<V>>, maxSize: int, ttl: Time) {
    Rising(c, k => LastTouch(h, k, maxSize, ttl))
  }

  /** Distinct keys, within the bound, holding what was last stored, in order of last touch. */
  ghost predicate Faithful<V>(h: seq<Event<V>>, c: seq<Entry<V>>, maxSize: int, ttl: Time) {
    && Distinct(KeysOf(c))
    && |c| <= (if maxSize < 0 then 0 else maxSize)
    && FromHistory(h, c)
    && ByTouch(h, c, maxSize, ttl)
  }

  lemma {:induction false} RisingDrop<V>(c: seq<Entry<V>>, k: Key, rank: Key -> int)
    requires Rising(c, rank)
    ensures Rising(Drop(c, k), rank)
  {
    if c != [] {
      RisingDrop(c[1..], k, rank);
      DropKeys(c[1..], k);
      if c[0].key != k {
        assert Drop(c, k)[1..] == Drop(c[1..], k);
      }
    }
  }

  lemma {:induction false} RisingAppend<V>(c: seq<Entry<V>>, x: Entry<V>, rank: Key -> int, rank': Key -> int)
    requires Rising(c, rank)
    requires forall e | e in c :: rank'(e.key) == rank(e.key) && rank(e.key) < rank'(x.key)
    ensures Rising(c + [x], rank')
  {
    if c != [] {
      RisingAppend(c[1..], x, rank, rank');
      assert (c + [x])[1..] == c[1..] + [x];
    } else {
      assert ([x] + c)[1..] == [] && c + [x] == [x];
    }
  }

  lemma {:induction false} RisingAgree<V>(c: seq<Entry<V>>, rank: Key -> int, rank': Key -> int)
    requires Rising(c, rank) && forall e | e in c :: rank'(e.key) == rank(e.key)
    ensures Rising(c, rank')
  {
    if c != [] {
      RisingAgree(c[1..], rank, rank');
    }
  }

  lemma OthersUntouched<V>(h: seq<Event<V>>, e: Event<V>, maxSize: int, ttl: Time, x: Entry<V>)
    requires !e.Clear? && x in Drop(Replay(h, maxSize, ttl), e.key)
    ensures LastTouch(h + [e], x.key, maxSize, ttl) == LastTouch(h, x.key, maxSize, ttl)
  {
    DropKeys(Replay(h, maxSize, ttl), e.key);
  }

  lemma TouchTimes<V>(h: seq<Event<V>>, e: Event<V>, maxSize: int, ttl: Time)
    requires !e.Clear?
    ensures forall x | x in Drop(Replay(h, maxSize, ttl), e.key) ::
      LastTouch(h + [e], x.key, maxSize, ttl) == LastTouch(h, x.key, maxSize, ttl) <= |h|
    ensures e.Set? || Hit(Replay(h, maxSize, ttl), e.key, e.now, ttl) ==>
      LastTouch(h + [e], e.key, maxSize, ttl) == |h| + 1
  {
    forall x | x in Drop(Replay(h, maxSize, ttl), e.key)
      ensures LastTouch(h + [e], x.key, maxSize, ttl) == LastTouch(h, x.key, maxSize, ttl)
    {
      OthersUntouched(h, e, maxSize, ttl, x);
    }
  }

  lemma StepByTouch<V>(h: seq<Event<V>>, e: Event<V>, maxSize: int, ttl: Time)
    requires ByTouch(h, Replay(h, maxSize, ttl), maxSize, ttl)
    ensures ByTouch(h + [e], After(Replay(h, maxSize, ttl), e, maxSize, ttl), maxSize, ttl)
  {
    if !e.Clear? {
      var c := Replay(h, maxSize, ttl);
      var rank := k => LastTouch(h, k, maxSize, ttl);
      var rank' := k => LastTouch(h + [e], k, maxSize, ttl);
      RisingDrop(c, e.key, rank);
      TouchTimes(h, e, maxSize, ttl);
      StepRising(c, e, maxSize, ttl, rank, rank');
    }
  }

  lemma StepRising<V>(
    c: seq<Entry<V>>, e: Event<V>, maxSize: int, ttl: Time, rank: Key -> int, rank': Key -> int)
    requires !e.Clear? && Rising(Drop(c, e.key), rank)
    requires forall x | x in Drop(c, e.key) :: rank'(x.key) == rank(x.key)
    requires e.Set? || Hit(c, e.key, e.now, ttl) ==> forall x | x in Drop(c, e.key) :: rank(x.key) < rank'(e.key)
    ensures Rising(After(c, e, maxSize, ttl), rank')
  {
    if e.Set? {
      RisingAppend(Drop(c, e.key), Entry(e.key, e.value, e.now), rank, rank');
    } else if Hit(c, e.key, e.now, ttl) {
      RisingAppend(Drop(c, e.key), Find(c, e.key).value, rank, rank');
    } else {
      RisingAgree(Drop(c, e.key), rank, rank');
    }
  }

  lemma StepFaithful<V>(h: seq<Event<V>>, e: Event<V>, maxSize: int, ttl: Time)
    requires Faithful(h, Replay(h, maxSize, ttl), maxSize, ttl)
    ensures Faithful(h + [e], After(Replay(h, maxSize, ttl), e, maxSize, ttl), maxSize, ttl)
  {
    StepByTouch(h, e, maxSize, ttl);
    StepFromHistory(h, e, maxSize, ttl);
    StepKeys(Replay(h, maxSize, ttl), e, maxSize, ttl);
  }

  /** An event leaves other keys' entries alone, or drops them. */
  lemma AfterEntries<V>(c: seq<Entry<V>>, e: Event<V>, maxSize: int, ttl: Time, x: Entry<V>)
    requires x in After(c, e, maxSize, ttl)
    ensures !e.Clear?
    ensures x.key != e.key ==> x in c
    ensures x.key == e.key && e.Set? ==> x == Entry(e.key, e.value, e.now)
    ensures x.key == e.key && e.Get? ==> x in c
  {
    DropKeys(c, e.key);
  }

  lemma StepFromHistory<V>(h: seq<Event<V>>, e: Event<V>, maxSize: int, ttl: Time)
    requires FromHistory(h, Replay(h, maxSize, ttl))
    ensures FromHistory(h + [e], After(Replay(h, maxSize, ttl), e, maxSize, ttl))
  {
    var c := Replay(h, maxSize, ttl);
    assert (h + [e])[..|h|] == h;
    forall x | x in After(c, e, maxSize, ttl) ensures LastSet(h + [e], x.key) == Some((x.value, x.stamp)) {
      AfterEntries(c, e, maxSize, ttl, x);
    }
  }

  lemma StepKeys<V>(c: seq<Entry<V>>, e: Event<V>, maxSize: int, ttl: Time)
    requires Distinct(KeysOf(c)) && |c| <= if maxSize < 0 then 0 else maxSize
    ensures var c' := After(c, e, maxSize, ttl);
      Distinct(KeysOf(c')) && |c'| <= if maxSize < 0 then 0 else maxSize
  {
    hide KeysOf, RemovedFrom;
    if !e.Clear? {
      DropKeys(c, e.key);
      KeysAfterPut(KeysOf(c), e.key);
      KeysAppend(c, e.key);
      RemovedDistinct(KeysOf(c), e.key);
    }
  }

  /** Appending the key's entry, and dropping the oldest, in terms of keys. */
  lemma KeysAppend<V>(c: seq<Entry<V>>, k: Key)
    ensures forall x: Entry<V> | x.key == k :: KeysOf(Drop(c, k) + [x]) == RemovedFrom(KeysOf(c), k) + [k]
    ensures forall x: Entry<V> | x.key == k :: KeysOf((Drop(c, k) + [x])[1..]) == (RemovedFrom(KeysOf(c), k) + [k])[1..]
  {
    DropKeys(c, k);
  }

  lemma FaithfulFromTheStart<V>(maxSize: int, ttl: Time)
    ensures Faithful<V>([], [], maxSize, ttl)
  {
  }

  /** Whatever the history, the cache holds only what was last stored, ordered by last touch. */
  lemma {:induction false} EveryHistory<V>(h: seq<Event<V>>, maxSize: int, ttl: Time)
    ensures Faithful(h, Replay(h, maxSize, ttl), maxSize, ttl)
  {
    hide Faithful, After;
    if h == [] {
      FaithfulFromTheStart<V>(maxSize, ttl);
    } else {
      EveryHistory(h[..|h| - 1], maxSize, ttl);
      StepFaithful(h[..|h| - 1], h[|h| - 1], maxSize, ttl);
      assert h == h[..|h| - 1] + [h[|h| - 1]];
    }
  }

  /** A lookup never answers with a stale or superseded value. */
  lemma AnswersAreCurrent<V>(h: seq<Event<V>>, k: Key, now: Time, maxSize: int, ttl: Time)
    ensures var r := Answer(Replay(h, maxSize, ttl), k, now, ttl);
      r.Some? ==> LastSet(h, k).Some? && r.value == LastSet(h, k).value.0 && now - LastSet(h, k).value.1 <= ttl
  {
    EveryHistory(h, maxSize, ttl);
  }

  /** A lookup that finds nothing leaves nothing under the key, so an expired entry takes up no room. */
  lemma MissLeavesNothing<V>(h: seq<Event<V>>, k: Key, now: Time, maxSize: int, ttl: Time)
    ensures
      var c, c' := Replay(h, maxSize, ttl), Replay(h + [Get(k, now)], maxSize, ttl);
      Answer(c, k, now, ttl).None? <==> forall e | e in c' :: e.key != k
  {
    var c := Replay(h, maxSize, ttl);
    assert (h + [Get(k, now)])[..|h|] == h;
    DropKeys(c, k);
    if Answer(c, k, now, ttl).Some? {
      var e := Find(c, k).value;
      assert (Drop(c, k) + [e])[|Drop(c, k)|] == e;
    }
  }

  // ---------------------------------------------------------------- the stack property

  ghost function TouchedBy<V>(c: seq<Entry<V>>, e: Event<V>, ttl: Time): set<Key> {
    if !e.Clear? && Touches(c, e, e.key, ttl) then {e.key} else {}
  }

  /** The keys that later events touch. */
  ghost function Touched<V>(c: seq<Entry<V>>, later: seq<Event<V>>, maxSize: int, ttl: Time): set<Key>
    decreases |later|
  {
    if later == [] then {}
    else TouchedBy(c, later[0], ttl) + Touched(After(c, later[0], maxSize, ttl), later[1..], maxSize, ttl)
  }

  ghost function Onward<V>(c: seq<Entry<V>>, later: seq<Event<V>>, maxSize: int, ttl: Time): seq<Entry<V>>
    decreases |later|
  {
    if later == [] then c else Onward(After(c, later[0], maxSize, ttl), later[1..], maxSize, ttl)
  }

  lemma {:induction false} ReplayOnward<V>(h: seq<Event<V>>, later: seq<Event<V>>, maxSize: int, ttl: Time)
    ensures Replay(h + later, maxSize, ttl) == Onward(Replay(h, maxSize, ttl), later, maxSize, ttl)
    decreases |later|
  {
    if later == [] {
      assert h + later == h;
    } else {
      assert (h + [later[0]])[..|h|] == h;
      assert h + later == (h + [later[0]]) + later[1..];
      ReplayOnward(h + [later[0]], later[1..], maxSize, ttl);
    }
  }

  /** The entries more recently used than the one under `k`. */
  ghost function Behind<V>(c: seq<Entry<V>>, k: Key): seq<Entry<V>> {
    if c == [] then [] else if c[0].key == k then c[1..] else Behind(c[1..], k)
  }

  ghost predicate KeysIn<V>(c: seq<Entry<V>>, keys: set<Key>) {
    forall y | y in c :: y.key in keys
  }

  lemma {:induction false} BehindDrop<V>(c: seq<Entry<V>>, k: Key, other: Key)
    requires k != other
    ensures Find(Drop(c, other), k) == Find(c, k)
    ensures Behind(Drop(c, other), k) == Drop(Behind(c, k), other)
  {
    if c != [] {
      BehindDrop(c[1..], k, other);
      if c[0].key != other {
        assert Drop(c, other)[1..] == Drop(c[1..], other);
      }
    }
  }

  lemma {:induction false} BehindAppend<V>(c: seq<Entry<V>>, k: Key, n: Entry<V>)
    requires Find(c, k).Some?
    ensures Find(c + [n], k) == Find(c, k)
    ensures Behind(c + [n], k) == Behind(c, k) + [n]
  {
    assert (c + [n])[1..] == c[1..] + [n];
    if c[0].key != k {
      BehindAppend(c[1..], k, n);
    }
  }

  lemma {:induction false} DistinctKeysFit<V>(c: seq<Entry<V>>, keys: set<Key>)
    requires Distinct(KeysOf(c)) && KeysIn(c, keys)
    ensures |c| <= |keys|
  {
    if c != [] {
      DistinctKeysFit(c[1..], keys - {c[0].key});
    }
  }

  /** With fewer than `maxSize` distinct keys behind it, an entry is not the one a full cache evicts. */
  lemma SurvivesEviction<V>(c: seq<Entry<V>>, k: Key, keys: set<Key>, maxSize: int)
    requires Distinct(KeysOf(c)) && Find(c, k).Some? && KeysIn(Behind(c, k), keys) && |keys| < maxSize
    ensures |c| > maxSize ==> Find(c[1..], k) == Find(c, k) && Behind(c[1..], k) == Behind(c, k)
  {
    if c[0].key == k {
      DistinctKeysFit(c[1..], keys);
    }
  }

  lemma SurvivesStep<V>(c: seq<Entry<V>>, k: Key, e: Event<V>, keys: set<Key>, maxSize: int, ttl: Time)
    requires Distinct(KeysOf(c)) && !e.Clear? && e.key != k
    requires Find(c, k).Some? && KeysIn(Behind(c, k), keys) && |keys + TouchedBy(c, e, ttl)| < maxSize
    ensures var c' := After(c, e, maxSize, ttl);
      Find(c', k) == Find(c, k) && KeysIn(Behind(c', k), keys + TouchedBy(c, e, ttl))
  {
    hide KeysOf, Find, Behind, Drop;
    var kept, now := Drop(c, e.key), TouchedBy(c, e, ttl);
    BehindDrop(c, k, e.key);
    assert KeysIn(Behind(kept, k), keys) by {
      DropKeys(Behind(c, k), e.key);
    }
    if now != {} {
      var n := if e.Set? then Entry(e.key, e.value, e.now) else Find(c, e.key).value;
      BehindAppend(kept, k, n);
      if e.Set? {
        assert Distinct(KeysOf(kept + [n])) by {
          KeysAppend(c, e.key);
          KeysAfterPut(KeysOf(c), e.key);
        }
        SurvivesEviction(kept + [n], k, keys + now, maxSize);
      }
    }
  }

  lemma {:induction false} Survives<V>(
    c: seq<Entry<V>>, k: Key, later: seq<Event<V>>, keys: set<Key>, maxSize: int, ttl: Time)
    requires Distinct(KeysOf(c)) && |c| <= maxSize
    requires forall i | 0 <= i < |later| :: !later[i].Clear? && later[i].key != k
    requires Find(c, k).Some? && KeysIn(Behind(c, k), keys)
    requires |keys + Touched(c, later, maxSize, ttl)| < maxSize
    ensures Find(Onward(c, later, maxSize, ttl), k) == Find(c, k)
    decreases |later|
  {
    if later != [] {
      var e := later[0];
      var now, rest := TouchedBy(c, e, ttl), Touched(After(c, e, maxSize, ttl), later[1..], maxSize, ttl);
      UnionSplits(keys, now, rest);
      StepKeys(c, e, maxSize, ttl);
      SurvivesStep(c, k, e, keys, maxSize, ttl);
      Survives(After(c, e, maxSize, ttl), k, later[1..], keys + now, maxSize, ttl);
    }
  }

  lemma UnionSplits(a: set<Key>, b: set<Key>, c: set<Key>)
    ensures a + (b + c) == (a + b) + c && |a + b| <= |(a + b) + c|
  {
    assert (a + b) + c == (a + b) + (c - (a + b));
  }

  /** What a touch leaves behind: the key's entry with its last stored value, at the recent end. */
  lemma TouchedIsNewest<V>(h: seq<Event<V>>, e: Event<V>, maxSize: int, ttl: Time)
    requires !e.Clear? && Touches(Replay(h, maxSize, ttl), e, e.key, ttl) && maxSize > 0
    ensures var c := Replay(h + [e], maxSize, ttl);
      Find(c, e.key).Some? && Behind(c, e.key) == []
  {
    var c := Replay(h, maxSize, ttl);
    assert (h + [e])[..|h|] == h;
    if e.Get? {
      AtRecentEnd(c, Find(c, e.key).value, |c| + 1);
    } else {
      AtRecentEnd(c, Entry(e.key, e.value, e.now), maxSize);
    }
  }

  lemma AtRecentEnd<V>(c: seq<Entry<V>>, n: Entry<V>, maxSize: int)
    requires maxSize > 0
    ensures var c' := Drop(c, n.key) + [n];
      && Find(c', n.key) == Some(n) && Behind(c', n.key) == []
      && (|c'| > maxSize ==> Find(c'[1..], n.key) == Some(n) && Behind(c'[1..], n.key) == [])
  {
    var kept := Drop(c, n.key);
    DropMembers(c, n.key);
    BehindNewest(kept, n);
    if |kept + [n]| > maxSize {
      assert (kept + [n])[0] == kept[0] && kept[0] in kept;
    }
  }

  lemma {:induction false} BehindNewest<V>(c: seq<Entry<V>>, n: Entry<V>)
    requires forall y | y in c :: y.key != n.key
    ensures Find(c + [n], n.key) == Some(n) && Behind(c + [n], n.key) == []
  {
    if c == [] {
      assert c + [n] == [n];
    } else {
      assert (c + [n])[1..] == c[1..] + [n];
      BehindNewest(c[1..], n);
    }
  }

  /** The stack property behind the last event on the key. */
  lemma LastStretch<V>(
    h: seq<Event<V>>, e: Event<V>, later: seq<Event<V>>, now: Time, maxSize: int, ttl: Time)
    requires !e.Clear? && Touches(Replay(h, maxSize, ttl), e, e.key, ttl)
    requires forall i | 0 <= i < |later| :: !later[i].Clear? && later[i].key != e.key
    requires |Touched(Replay(h + [e], maxSize, ttl), later, maxSize, ttl)| < maxSize
    requires LastSet(h + [e], e.key).Some? ==> now - LastSet(h + [e], e.key).value.1 <= ttl
    ensures LastSet(h + [e], e.key).Some?
    ensures Answer(Replay(h + [e] + later, maxSize, ttl), e.key, now, ttl) == Some(LastSet(h + [e], e.key).value.0)
  {
    var c := Replay(h + [e], maxSize, ttl);
    EveryHistory(h + [e], maxSize, ttl);
    TouchedIsNewest(h, e, maxSize, ttl);
    var touched := Touched(c, later, maxSize, ttl);
    assert {} + touched == touched;
    Survives(c, e.key, later, {}, maxSize, ttl);
    ReplayOnward(h + [e], later, maxSize, ttl);
  }

  /** The position of the last event on the key, or the length. */
  ghost function LastNaming<V>(later: seq<Event<V>>, k: Key): (i: nat)
    requires forall j | 0 <= j < |later| :: !later[j].Clear?
    ensures i <= |later| && (i < |later| ==> later[i].key == k)
    ensures forall j | 0 <= j < |later| && (i == |later| || i < j) :: later[j].key != k
  {
    if later == [] then 0
    else if later[|later| - 1].key == k then |later| - 1
    else
      var i := LastNaming(later[..|later| - 1], k);
      if i == |later| - 1 then |later| else i
  }

  lemma {:induction false} LastSetStays<V>(h: seq<Event<V>>, later: seq<Event<V>>, k: Key)
    requires forall i | 0 <= i < |later| :: later[i].Get? || (later[i].Set? && later[i].key != k)
    ensures LastSet(h + later, k) == LastSet(h, k)
    decreases |later|
  {
    if later == [] {
      assert h + later == h;
    } else {
      var front := later[..|later| - 1];
      assert (h + later)[..|h + later| - 1] == h + front;
      LastSetStays(h, front, k);
    }
  }

  lemma {:induction false} TouchedSplits<V>(
    c: seq<Entry<V>>, a: seq<Event<V>>, b: seq<Event<V>>, maxSize: int, ttl: Time)
    ensures Touched(c, a + b, maxSize, ttl) ==
      Touched(c, a, maxSize, ttl) + Touched(Onward(c, a, maxSize, ttl), b, maxSize, ttl)
    decreases |a|
  {
    if a == [] {
      assert a + b == b;
    } else {
      assert (a + b)[1..] == a[1..] + b;
      TouchedSplits(After(c, a[0], maxSize, ttl), a[1..], b, maxSize, ttl);
    }
  }

  lemma {:induction false} TouchesNamed<V>(c: seq<Entry<V>>, later: seq<Event<V>>, k: Key, maxSize: int, ttl: Time)
    requires forall i | 0 <= i < |later| :: !later[i].Clear? && later[i].key != k
    ensures k !in Touched(c, later, maxSize, ttl)
    decreases |later|
  {
    if later != [] {
      TouchesNamed(After(c, later[0], maxSize, ttl), later[1..], k, maxSize, ttl);
    }
  }

  lemma Fewer(a: set<Key>, b: set<Key>)
    requires a <= b
    ensures |a| <= |b|
  {
    assert b == a + (b - a);
  }

  /** No clear, and a clock that does not run backwards. */
  ghost predicate Monotone<V>(later: seq<Event<V>>, now: Time) {
    && (forall i | 0 <= i < |later| :: !later[i].Clear? && later[i].now <= now)
    && forall i, j | 0 <= i < j < |later| :: later[i].now <= later[j].now
  }

  /** The other keys touched before a later event on the key are touched in the whole as well. */
  lemma TouchedAround<V>(
    c: seq<Entry<V>>, before: seq<Event<V>>, e: Event<V>, after: seq<Event<V>>, k: Key, maxSize: int, ttl: Time)
    requires |Touched(c, before + [e] + after, maxSize, ttl) - {k}| < maxSize
    requires forall i | 0 <= i < |after| :: !after[i].Clear? && after[i].key != k
    ensures |Touched(c, before, maxSize, ttl) - {k}| < maxSize
    ensures |Touched(Onward(c, before + [e], maxSize, ttl), after, maxSize, ttl)| < maxSize
  {
    var first, whole := Touched(c, before, maxSize, ttl), Touched(c, before + [e] + after, maxSize, ttl);
    var last := Touched(Onward(c, before + [e], maxSize, ttl), after, maxSize, ttl);
    TouchedSplits(c, before + [e], after, maxSize, ttl);
    TouchedSplits(c, before, [e], maxSize, ttl);
    TouchesNamed(Onward(c, before + [e], maxSize, ttl), after, k, maxSize, ttl);
    Fewer(first - {k}, whole - {k});
    Fewer(last, whole - {k});
  }

  /**
   The stack property: a key that was touched, and since then fewer than `maxSize` other keys
   were, is found with its last stored value while that has not expired, whatever happened to
   the key itself, if the clock does not run backwards.
   */
  lemma {:induction false} StackProperty<V>(
    h: seq<Event<V>>, e: Event<V>, later: seq<Event<V>>, now: Time, maxSize: int, ttl: Time)
    requires !e.Clear? && Touches(Replay(h, maxSize, ttl), e, e.key, ttl) && Monotone(later, now)
    requires |Touched(Replay(h + [e], maxSize, ttl), later, maxSize, ttl) - {e.key}| < maxSize
    requires var last := LastSet(h + [e] + later, e.key); last.Some? ==> now - last.value.1 <= ttl
    ensures LastSet(h + [e] + later, e.key).Some?
    ensures Answer(Replay(h + [e] + later, maxSize, ttl), e.key, now, ttl) ==
      Some(LastSet(h + [e] + later, e.key).value.0)
    decreases |later|
  {
    hide Replay, Touched, LastSet, Answer, Hit, Onward;
    var k, i := e.key, LastNaming(later, e.key);
    if i == |later| {
      var touched := Touched(Replay(h + [e], maxSize, ttl), later, maxSize, ttl);
      TouchesNamed(Replay(h + [e], maxSize, ttl), later, k, maxSize, ttl);
      assert touched - {k} == touched;
      LastSetStays(h + [e], later, k);
      LastStretch(h, e, later, now, maxSize, ttl);
    } else {
      var before, e', after := later[..i], later[i], later[i + 1..];
      Around(later, i);
      AppendAssociates(h + [e], before + [e'], after);
      AppendAssociates(h + [e], before, [e']);
      var h' := h + [e] + before;
      assert h + [e] + later == h' + [e'] + after;
      TouchedAround(Replay(h + [e], maxSize, ttl), before, e', after, k, maxSize, ttl);
      ReplayOnward(h + [e], before + [e'], maxSize, ttl);
      LastSetStays(h' + [e'], after, k);
      if e'.Get? {
        LastSetStays(h', [e'], k);
        StackProperty(h, e, before, e'.now, maxSize, ttl);
        AnswerIsHit(Replay(h', maxSize, ttl), k, e'.now, ttl);
      }
      LastStretch(h', e', after, now, maxSize, ttl);
    }
  }

  lemma AnswerIsHit<V>(c: seq<Entry<V>>, k: Key, now: Time, ttl: Time)
    ensures Answer(c, k, now, ttl).Some? <==> Hit(c, k, now, ttl)
  {
  }

  // ---------------------------------------------------------------- the converse

  /** No lookup among the events drops an expired entry. */
  ghost predicate Undropped<V>(c: seq<Entry<V>>, later: seq<Event<V>>, maxSize: int, ttl: Time)
    decreases |later|
  {
    later == [] ||
    ((later[0].Get? && Find(c, later[0].key).Some? ==> Hit(c, later[0].key, later[0].now, ttl))
      && Undropped(After(c, later[0], maxSize, ttl), later[1..], maxSize, ttl))
  }

  lemma {:induction false} KeysNeedEntries<V>(keys: set<Key>, c: seq<Entry<V>>)
    requires forall x | x in keys :: x in KeysOf(c)
    ensures |keys| <= |c|
  {
    if c == [] {
      assert keys == {};
    } else {
      KeysNeedEntries(keys - {c[0].key}, c[1..]);
    }
  }

  lemma {:induction false} BehindShorter<V>(c: seq<Entry<V>>, k: Key)
    requires Find(c, k).Some?
    ensures |Behind(c, k)| < |c|
    ensures forall x | x in KeysOf(Behind(c, k)) :: x in KeysOf(c)
  {
    if c[0].key != k {
      BehindShorter(c[1..], k);
    }
  }

  /** The keys stand behind `k`, if `k` is there. */
  ghost predicate StandBehind<V>(c: seq<Entry<V>>, k: Key, keys: set<Key>) {
    Find(c, k).Some? ==> forall x | x in keys :: x in KeysOf(Behind(c, k))
  }

  lemma {:induction false} KeysWithout<V>(c: seq<Entry<V>>, k: Key, x: Key)
    requires x in KeysOf(c) && x != k
    ensures x in KeysOf(Drop(c, k))
  {
    if c[0].key != x {
      KeysWithout(c[1..], k, x);
    }
  }

  lemma {:induction false} KeysOfAppend<V>(c: seq<Entry<V>>, n: Entry<V>)
    ensures KeysOf(c + [n]) == KeysOf(c) + [n.key]
  {
    if c == [] {
      assert c + [n] == [n];
    } else {
      assert (c + [n])[1..] == c[1..] + [n];
      KeysOfAppend(c[1..], n);
    }
  }

  lemma EvictedOrBehind<V>(c: seq<Entry<V>>, k: Key, keys: set<Key>)
    requires c != [] && Distinct(KeysOf(c)) && StandBehind(c, k, keys)
    ensures StandBehind(c[1..], k, keys)
  {
  }

  /** Moving or storing another key puts it behind. */
  lemma PutBehind<V>(c: seq<Entry<V>>, k: Key, n: Entry<V>, keys: set<Key>)
    requires n.key != k && StandBehind(c, k, keys)
    ensures StandBehind(Drop(c, n.key) + [n], k, keys + {n.key})
  {
    hide KeysOf, Find, Behind, Drop;
    var kept := Drop(c, n.key);
    BehindDrop(c, k, n.key);
    KeysOfAppend(kept, n);
    KeyFound(kept + [n], k);
    KeyFound(kept, k);
    if Find(kept + [n], k).Some? {
      assert Find(c, k).Some?;
      BehindAppend(kept, k, n);
      KeysOfAppend(Behind(kept, k), n);
      forall x | x in keys + {n.key} ensures x in KeysOf(Behind(kept + [n], k)) {
        if x != n.key {
          KeysWithout(Behind(c, k), n.key, x);
        }
      }
    }
  }

  lemma KeyFound<V>(c: seq<Entry<V>>, k: Key)
    ensures Find(c, k).Some? <==> k in KeysOf(c)
  {
  }

  lemma NothingDropped<V>(c: seq<Entry<V>>, k: Key, other: Key, keys: set<Key>)
    requires other != k && Find(c, other).None? && StandBehind(c, k, keys)
    ensures StandBehind(Drop(c, other), k, keys)
  {
    BehindDrop(c, k, other);
    if Find(c, k).Some? {
      BehindShorter(c, k);
      forall x | x in keys ensures x in KeysOf(Drop(Behind(c, k), other)) {
        KeysWithout(Behind(c, k), other, x);
      }
    }
  }

  lemma StandBehindStep<V>(c: seq<Entry<V>>, k: Key, e: Event<V>, keys: set<Key>, maxSize: int, ttl: Time)
    requires Distinct(KeysOf(c)) && StandBehind(c, k, keys) && !e.Clear? && e.key != k
    requires e.Get? && Find(c, e.key).Some? ==> Hit(c, e.key, e.now, ttl)
    ensures StandBehind(After(c, e, maxSize, ttl), k, keys + TouchedBy(c, e, ttl))
  {
    hide KeysOf, Behind, Drop, StandBehind;
    if e.Get? && Find(c, e.key).None? {
      NothingDropped(c, k, e.key, keys);
      assert keys + {} == keys;
    } else {
      var n := if e.Set? then Entry(e.key, e.value, e.now) else Find(c, e.key).value;
      PutBehind(c, k, n, keys);
      if e.Set? {
        KeysAppend(c, e.key);
        KeysAfterPut(KeysOf(c), e.key);
        EvictedOrBehind(Drop(c, e.key) + [n], k, keys + {e.key});
      }
    }
  }

  lemma {:induction false} TouchedStandBehind<V>(
    c: seq<Entry<V>>, k: Key, later: seq<Event<V>>, keys: set<Key>, maxSize: int, ttl: Time)
    requires Distinct(KeysOf(c)) && |c| <= (if maxSize < 0 then 0 else maxSize) && StandBehind(c, k, keys)
    requires forall i | 0 <= i < |later| :: !later[i].Clear? && later[i].key != k
    requires Undropped(c, later, maxSize, ttl)
    ensures StandBehind(Onward(c, later, maxSize, ttl), k, keys + Touched(c, later, maxSize, ttl))
    decreases |later|
  {
    hide KeysOf, StandBehind, After, TouchedBy, Hit, Find;
    if later == [] {
      assert keys + {} == keys;
    } else {
      var e, c' := later[0], After(c, later[0], maxSize, ttl);
      var now, rest := TouchedBy(c, e, ttl), Touched(c', later[1..], maxSize, ttl);
      assert (keys + now) + rest == keys + (now + rest);
      StandBehindStep(c, k, e, keys, maxSize, ttl);
      StepKeys(c, e, maxSize, ttl);
      TouchedStandBehind(c', k, later[1..], keys + now, maxSize, ttl);
    }
  }

  /** With `maxSize` keys or more behind it a key is not there. */
  lemma CrowdedOut<V>(c: seq<Entry<V>>, k: Key, keys: set<Key>, maxSize: int)
    requires |c| <= (if maxSize < 0 then 0 else maxSize) && StandBehind(c, k, keys) && |keys| >= maxSize
    ensures Find(c, k).None?
  {
    if Find(c, k).Some? {
      BehindShorter(c, k);
      KeysNeedEntries(keys, Behind(c, k));
    }
  }

  /**
   Behind the last event on a key, and as long as no lookup drops an expired entry, the key
   is found exactly if fewer than `maxSize` other keys were touched.
   */
  lemma StackExactly<V>(
    h: seq<Event<V>>, e: Event<V>, later: seq<Event<V>>, now: Time, maxSize: int, ttl: Time)
    requires !e.Clear? && Touches(Replay(h, maxSize, ttl), e, e.key, ttl)
    requires forall i | 0 <= i < |later| :: !later[i].Clear? && later[i].key != e.key
    requires Undropped(Replay(h + [e], maxSize, ttl), later, maxSize, ttl)
    requires LastSet(h + [e], e.key).Some? ==> now - LastSet(h + [e], e.key).value.1 <= ttl
    ensures Answer(Replay(h + [e] + later, maxSize, ttl), e.key, now, ttl).Some? <==>
      |Touched(Replay(h + [e], maxSize, ttl), later, maxSize, ttl)| < maxSize
  {
    hide Touched, Undropped, Replay, Touches, KeysOf, LastSet, StandBehind;
    var c := Replay(h + [e], maxSize, ttl);
    var touched := Touched(c, later, maxSize, ttl);
    if |touched| < maxSize {
      LastStretch(h, e, later, now, maxSize, ttl);
    } else {
      EveryHistory(h + [e], maxSize, ttl);
      EveryHistory(h + [e] + later, maxSize, ttl);
      NoneBehind(c, e.key);
      TouchedStandBehind(c, e.key, later, {}, maxSize, ttl);
      assert {} + touched == touched;
      ReplayOnward(h + [e], later, maxSize, ttl);
      CrowdedOut(Replay(h + [e] + later, maxSize, ttl), e.key, touched, maxSize);
    }
  }

  lemma NoneBehind<V>(c: seq<Entry<V>>, k: Key)
    ensures StandBehind(c, k, {})
  {
  }
}
