/**
 The cycle-safe serializer over an arbitrary finite object heap: containers may be
 shared and may contain themselves. The set of containers on the current path is
 one mutable object that every recursive call adds to and removes from.
 */
module SafeSerialize {
  import opened Sequences

  type Ref = nat

  /** Leaves serialize as themselves or as their text; a dictionary's keys are already texts. */
  datatype Obj =
    | Atom(value: string)
    | Other(text: string)
    | Items(items: seq<Ref>)
    | Entries(entries: seq<(string, Ref)>)

  type Heap = map<Ref, Obj>

  datatype Out = Plain(value: string) | Text(text: string) | List(items: seq<Out>) | Dict(entries: map<string, Out>)

  const CIRCULAR := Text("<circular_ref>")

  ghost predicate Closed(h: Heap) {
    && (forall r, i | r in h && h[r].Items? && 0 <= i < |h[r].items| :: h[r].items[i] in h)
    && (forall r, i | r in h && h[r].Entries? && 0 <= i < |h[r].entries| :: h[r].entries[i].1 in h)
  }

  /** What the serializer computes when the containers in `seen` are on the path. */
  ghost function Serialized(h: Heap, r: Ref, seen: set<Ref>): Out
    requires Closed(h) && r in h
    decreases h.Keys - seen, 1, 0
  {
    if r in seen then CIRCULAR
    else match h[r]
      case Atom(value) => Plain(value)
      case Other(text) => Text(text)
      case Items(items) => List(SerializedItems(h, r, items, seen))
      case Entries(entries) => Dict(SerializedEntries(h, r, entries, seen))
  }

  ghost function SerializedItems(h: Heap, r: Ref, items: seq<Ref>, seen: set<Ref>): (outs: seq<Out>)
    requires Closed(h) && r in h && r !in seen && forall i | 0 <= i < |items| :: items[i] in h
    ensures |outs| == |items|
    decreases h.Keys - seen, 0, |items|
  {
    if items == [] then []
    else
      SerializedItems(h, r, items[..|items| - 1], seen) + [Serialized(h, items[|items| - 1], seen + {r})]
  }

  /** A repeated key keeps its last value. */
  ghost function SerializedEntries(h: Heap, r: Ref, entries: seq<(string, Ref)>, seen: set<Ref>): map<string, Out>
    requires Closed(h) && r in h && r !in seen && forall i | 0 <= i < |entries| :: entries[i].1 in h
    decreases h.Keys - seen, 0, |entries|
  {
    if entries == [] then map[]
    else
      var last := entries[|entries| - 1];
      SerializedEntries(h, r, entries[..|entries| - 1], seen)[last.0 := Serialized(h, last.1, seen + {r})]
  }

  class PathSet {
    var refs: set<Ref>
    constructor () ensures refs == {} { refs := {}; }
  }

  /** The recursion; whatever it adds to the path it removes again. */
  method Serialize(h: Heap, r: Ref, seen: PathSet) returns (out: Out)
    requires Closed(h) && r in h
    modifies seen
    ensures seen.refs == old(seen.refs)
    ensures out == Serialized(h, r, old(seen.refs))
    decreases h.Keys - seen.refs
  {
    if r in seen.refs {
      return CIRCULAR;
    }
    ghost var above := seen.refs;
    match h[r] {
      case Atom(value) => out := Plain(value);
      case Other(text) => out := Text(text);
      case Items(items) =>
        seen.refs := seen.refs + {r};
        var outs := [];
        for i := 0 to |items|
          invariant seen.refs == above + {r}
          invariant outs == SerializedItems(h, r, items[..i], above)
        {
          assert items[..i + 1][..i] == items[..i];
          var o := Serialize(h, items[i], seen);
          outs := outs + [o];
        }
        assert items[..|items|] == items;
        seen.refs := seen.refs - {r};
        out := List(outs);
      case Entries(entries) =>
        seen.refs := seen.refs + {r};
        var outs := map[];
        for i := 0 to |entries|
          invariant seen.refs == above + {r}
          invariant outs == SerializedEntries(h, r, entries[..i], above)
        {
          assert entries[..i + 1][..i] == entries[..i];
          var o := Serialize(h, entries[i].1, seen);
          outs := outs[entries[i].0 := o];
        }
        assert entries[..|entries|] == entries;
        seen.refs := seen.refs - {r};
        out := Dict(outs);
    }
  }

  /** The entry point, with nothing on the path. */
  method SerializeFresh(h: Heap, r: Ref) returns (out: Out)
    requires Closed(h) && r in h
    ensures out == Serialized(h, r, {})
  {
    var seen := new PathSet();
    out := Serialize(h, r, seen);
  }

  // ---------------------------------------------------------------- paths

  datatype Step = Index(i: nat) | Key(k: string)

  /** The child of an object: the i-th item, or the last entry under a key. */
  ghost function Child(o: Obj, s: Step): Option<Ref> {
    match (o, s)
    case (Items(items), Index(i)) => if i < |items| then Some(items[i]) else None
    case (Entries(entries), Key(k)) => LastUnder(entries, k)
    case _ => None
  }

  ghost function LastUnder(entries: seq<(string, Ref)>, k: string): (c: Option<Ref>)
    ensures c.Some? <==> exists i :: 0 <= i < |entries| && entries[i].0 == k
  {
    if entries == [] then None
    else if entries[|entries| - 1].0 == k then Some(entries[|entries| - 1].1)
    else LastUnder(entries[..|entries| - 1], k)
  }

  ghost function OutChild(o: Out, s: Step): Option<Out> {
    match (o, s)
    case (List(items), Index(i)) => if i < |items| then Some(items[i]) else None
    case (Dict(entries), Key(k)) => if k in entries then Some(entries[k]) else None
    case _ => None
  }

  /** The objects visited from `r` along a path, the last one included. */
  ghost function Trail(h: Heap, r: Ref, path: seq<Step>): (t: Option<seq<Ref>>)
    requires Closed(h) && r in h
    ensures t.Some? ==> |t.value| == |path| + 1 && forall x | x in t.value :: x in h
    decreases |path|
  {
    if path == [] then Some([r])
    else
      match Child(h[r], path[0])
      case None => None
      case Some(c) =>
        if c !in h then None
        else
          match Trail(h, c, path[1..])
          case None => None
          case Some(rest) => Some([r] + rest)
  }

  ghost function Lookup(o: Out, path: seq<Step>): Option<Out> {
    if path == [] then Some(o)
    else
      match OutChild(o, path[0])
      case None => None
      case Some(c) => Lookup(c, path[1..])
  }

  lemma {:induction false} ChildOfItems(h: Heap, r: Ref, items: seq<Ref>, seen: set<Ref>, i: nat)
    requires Closed(h) && r in h && r !in seen && forall j | 0 <= j < |items| :: items[j] in h
    requires i < |items|
    ensures SerializedItems(h, r, items, seen)[i] == Serialized(h, items[i], seen + {r})
  {
    if i < |items| - 1 {
      ChildOfItems(h, r, items[..|items| - 1], seen, i);
    }
  }

  lemma {:induction false} ChildOfEntries(h: Heap, r: Ref, entries: seq<(string, Ref)>, seen: set<Ref>, k: string)
    requires Closed(h) && r in h && r !in seen && forall j | 0 <= j < |entries| :: entries[j].1 in h
    ensures
      var outs, c := SerializedEntries(h, r, entries, seen), LastUnder(entries, k);
      && (k in outs <==> c.Some?)
      && (c.Some? ==> c.value in h && outs[k] == Serialized(h, c.value, seen + {r}))
  {
    if entries != [] {
      ChildOfEntries(h, r, entries[..|entries| - 1], seen, k);
    }
  }

  lemma ChildSerialized(h: Heap, r: Ref, seen: set<Ref>, s: Step)
    requires Closed(h) && r in h && r !in seen
    ensures
      var o, c := OutChild(Serialized(h, r, seen), s), Child(h[r], s);
      && (o.Some? <==> c.Some?)
      && (c.Some? ==> c.value in h && o.value == Serialized(h, c.value, seen + {r}))
  {
    match (h[r], s) {
      case (Items(items), Index(i)) =>
        if i < |items| {
          ChildOfItems(h, r, items, seen, i);
        }
      case (Entries(entries), Key(k)) => ChildOfEntries(h, r, entries, seen, k);
      case _ =>
    }
  }

  /** A path may be followed through the output: no object on it is met again before its end. */
  ghost predicate Open(seen: set<Ref>, t: seq<Ref>)
    requires |t| > 0
  {
    Distinct(t[..|t| - 1]) && forall x | x in t[..|t| - 1] :: x !in seen
  }

  /**
   The output has exactly the heap's paths that do not pass through an object
   twice, and at the end of each it holds the last object serialized with the
   objects before it on the path.
   */
  lemma {:induction false} PathsOfOutput(h: Heap, r: Ref, seen: set<Ref>, path: seq<Step>)
    requires Closed(h) && r in h
    ensures
      var found, trail := Lookup(Serialized(h, r, seen), path), Trail(h, r, path);
      && (found.Some? <==> trail.Some? && Open(seen, trail.value))
      && (found.Some? ==>
            found.value == Serialized(h, trail.value[|path|], seen + ToSet(trail.value[..|path|])))
    decreases |path|
  {
    if path == [] {
      assert seen + ToSet<Ref>([]) == seen;
    } else if r in seen {
      assert Trail(h, r, path).Some? ==> Trail(h, r, path).value[..|path|][0] == r;
    } else {
      ChildSerialized(h, r, seen, path[0]);
      var c := Child(h[r], path[0]);
      if c.Some? {
        PathsOfOutput(h, c.value, seen + {r}, path[1..]);
        var rest := Trail(h, c.value, path[1..]);
        if rest.Some? {
          var t := [r] + rest.value;
          assert t[..|path|] == [r] + rest.value[..|path| - 1];
          OpenSplits(seen, r, rest.value);
          assert seen + ToSet(t[..|path|]) == (seen + {r}) + ToSet(rest.value[..|path| - 1]);
        }
      }
    }
  }

  lemma OpenSplits(seen: set<Ref>, r: Ref, rest: seq<Ref>)
    requires |rest| > 0 && r !in seen
    ensures Open(seen, [r] + rest) <==> Open(seen + {r}, rest)
  {
    var inner := rest[..|rest| - 1];
    assert ([r] + rest)[..|rest|] == [r] + inner;
    if Open(seen, [r] + rest) {
      forall i, j | 0 <= i < j < |inner| ensures inner[i] != inner[j] {
        assert ([r] + inner)[i + 1] == inner[i] && ([r] + inner)[j + 1] == inner[j];
      }
      forall x | x in inner ensures x !in seen + {r} {
        var i :| 0 <= i < |inner| && inner[i] == x;
        assert ([r] + inner)[0] == r && ([r] + inner)[i + 1] == x;
      }
    }
  }

  /**
   The marker stands exactly where a path returns to an object on it; everywhere
   else the output has the object's own shape.
   */
  lemma MarkerExactlyAtCycles(h: Heap, r: Ref, path: seq<Step>)
    requires Closed(h) && r in h && Lookup(Serialized(h, r, {}), path).Some?
    ensures Trail(h, r, path).Some?
    ensures
      var out, t := Lookup(Serialized(h, r, {}), path).value, Trail(h, r, path).value;
      var last, before := t[|path|], t[..|path|];
      if last in before then out == CIRCULAR
      else match h[last]
        case Atom(value) => out == Plain(value)
        case Other(text) => out == Text(text)
        case Items(items) => out.List? && |out.items| == |items|
        case Entries(entries) => out.Dict? && forall k :: k in out.entries <==> LastUnder(entries, k).Some?
  {
    PathsOfOutput(h, r, {}, path);
    var t := Trail(h, r, path).value;
    var last, seen := t[|path|], {} + ToSet(t[..|path|]);
    if last !in t[..|path|] && h[last].Entries? {
      forall k ensures k in Serialized(h, last, seen).entries <==> LastUnder(h[last].entries, k).Some? {
        ChildOfEntries(h, last, h[last].entries, seen, k);
      }
    }
  }

  // ---------------------------------------------------------------- acyclic objects

  /** Objects rank above everything they contain; what has no rank does not matter. */
  ghost predicate Ranked(h: Heap, rank: map<Ref, nat>) {
    && Closed(h) && rank.Keys <= h.Keys
    && forall r, s | r in rank && Child(h[r], s).Some? ::
         Child(h[r], s).value in rank && rank[Child(h[r], s).value] < rank[r]
  }

  ghost function Keys(entries: seq<(string, Ref)>): set<string> {
    set e | e in entries :: e.0
  }

  lemma KeysFound(entries: seq<(string, Ref)>, k: string)
    ensures k in Keys(entries) <==> LastUnder(entries, k).Some?
  {
    if LastUnder(entries, k).Some? {
      var i :| 0 <= i < |entries| && entries[i].0 == k;
      assert entries[i] in entries;
    }
  }

  /** The plain tree an acyclic object stands for. */
  ghost function Unfolded(h: Heap, rank: map<Ref, nat>, r: Ref): Out
    requires Ranked(h, rank) && r in rank
    decreases rank[r]
  {
    match h[r]
    case Atom(value) => Plain(value)
    case Other(text) => Text(text)
    case Items(items) =>
      List(seq(|items|, i requires 0 <= i < |items| =>
        assert Child(h[r], Index(i)) == Some(items[i]);
        Unfolded(h, rank, items[i])))
    case Entries(entries) =>
      Dict(map k | k in Keys(entries) && Child(h[r], Key(k)).Some? :: Unfolded(h, rank, Child(h[r], Key(k)).value))
  }

  /** An object with a rank, however much it shares, is serialized as the plain tree. */
  lemma {:induction false} RankedUnfolds(h: Heap, rank: map<Ref, nat>, r: Ref, seen: set<Ref>)
    requires Ranked(h, rank) && r in rank && forall s | s in seen :: s in rank && rank[r] < rank[s]
    ensures Serialized(h, r, seen) == Unfolded(h, rank, r)
    decreases rank[r]
  {
    forall s | Child(h[r], s).Some?
      ensures Serialized(h, Child(h[r], s).value, seen + {r}) == Unfolded(h, rank, Child(h[r], s).value)
    {
      RankedUnfolds(h, rank, Child(h[r], s).value, seen + {r});
    }
    match h[r] {
      case Items(items) =>
        forall i | 0 <= i < |items|
          ensures SerializedItems(h, r, items, seen)[i] == Unfolded(h, rank, r).items[i]
        {
          assert Child(h[r], Index(i)) == Some(items[i]);
          ChildOfItems(h, r, items, seen, i);
        }
      case Entries(entries) =>
        forall k
          ensures var outs, tree := SerializedEntries(h, r, entries, seen), Unfolded(h, rank, r).entries;
            (k in outs <==> k in tree) && (k in outs ==> outs[k] == tree[k])
        {
          assert Child(h[r], Key(k)) == LastUnder(entries, k);
          KeysFound(entries, k);
          ChildOfEntries(h, r, entries, seen, k);
        }
      case _ =>
    }
  }

  // ---------------------------------------------------------------- where ranks come from

  /** No path from the object meets an object twice. */
  ghost predicate Acyclic(h: Heap, r: Ref)
    requires Closed(h) && r in h
  {
    forall path | Trail(h, r, path).Some? :: Distinct(Trail(h, r, path).value)
  }

  lemma TrailStep(h: Heap, r: Ref, s: Step, path: seq<Step>)
    requires Closed(h) && r in h && Child(h[r], s).Some? && Child(h[r], s).value in h
    ensures var below := Trail(h, Child(h[r], s).value, path);
      Trail(h, r, [s] + path) == if below.Some? then Some([r] + below.value) else None
  {
    assert ([s] + path)[1..] == path;
  }

  lemma ChildAcyclic(h: Heap, r: Ref, s: Step)
    requires Closed(h) && r in h && Acyclic(h, r) && Child(h[r], s).Some?
    ensures Child(h[r], s).value in h && Acyclic(h, Child(h[r], s).value)
  {
    var c := Child(h[r], s).value;
    ChildSerialized(h, r, {}, s);
    forall path | Trail(h, c, path).Some? ensures Distinct(Trail(h, c, path).value) {
      TrailStep(h, r, s, path);
      var below := Trail(h, c, path).value;
      var whole := [r] + below;
      assert Distinct(whole);
      assert forall i | 0 <= i < |below| :: whole[i + 1] == below[i];
    }
  }

  /** The length of the longest path from an object. */
  ghost predicate Deep(h: Heap, r: Ref, n: nat)
    requires Closed(h) && r in h
  {
    && (exists path :: |path| == n && Trail(h, r, path).Some?)
    && (forall path | Trail(h, r, path).Some? :: |path| <= n)
  }

  lemma {:induction false} Deepest(h: Heap, r: Ref, bound: nat)
    requires Closed(h) && r in h && forall path | Trail(h, r, path).Some? :: |path| <= bound
    ensures exists n: nat :: Deep(h, r, n)
  {
    if path :| |path| == bound && Trail(h, r, path).Some? {
      assert Deep(h, r, bound);
    } else {
      assert Trail(h, r, []).Some?;
      assert bound > 0;
      Deepest(h, r, bound - 1);
    }
  }

  lemma AcyclicIsDeep(h: Heap, r: Ref)
    requires Closed(h) && r in h && Acyclic(h, r)
    ensures exists n: nat :: Deep(h, r, n)
  {
    forall path | Trail(h, r, path).Some? ensures |path| <= |h| {
      var t := Trail(h, r, path).value;
      DistinctExhausts(t, h.Keys);
    }
    Deepest(h, r, |h|);
  }

  ghost function Depth(h: Heap, r: Ref): nat
    requires Closed(h) && r in h
  {
    if exists n: nat :: Deep(h, r, n) then (var n: nat :| Deep(h, r, n); n) else 0
  }

  lemma ChildIsShallower(h: Heap, r: Ref, s: Step)
    requires Closed(h) && r in h && Acyclic(h, r) && Child(h[r], s).Some?
    requires Child(h[r], s).value in h && Acyclic(h, Child(h[r], s).value)
    ensures Depth(h, Child(h[r], s).value) < Depth(h, r)
  {
    var c := Child(h[r], s).value;
    AcyclicIsDeep(h, r);
    AcyclicIsDeep(h, c);
    var path :| |path| == Depth(h, c) && Trail(h, c, path).Some?;
    TrailStep(h, r, s, path);
  }

  /** Ranks fall along a path, so it repeats no object. */
  lemma {:induction false} RanksFall(h: Heap, rank: map<Ref, nat>, r: Ref, path: seq<Step>)
    requires Ranked(h, rank) && r in rank && Trail(h, r, path).Some?
    ensures var t := Trail(h, r, path).value;
      Distinct(t) && forall i | 0 <= i < |t| :: t[i] in rank && rank[t[i]] <= rank[r]
    decreases |path|
  {
    if path != [] {
      RanksFall(h, rank, Child(h[r], path[0]).value, path[1..]);
    }
  }

  /** Exactly the objects from which no path repeats an object can be ranked. */
  lemma AcyclicExactly(h: Heap, r: Ref)
    requires Closed(h) && r in h
    ensures Acyclic(h, r) <==> exists rank :: Ranked(h, rank) && r in rank
  {
    if Acyclic(h, r) {
      var rank := map x | x in h && Acyclic(h, x) :: Depth(h, x);
      forall x, s | x in rank && Child(h[x], s).Some?
        ensures Child(h[x], s).value in rank && rank[Child(h[x], s).value] < rank[x]
      {
        ChildAcyclic(h, x, s);
        ChildIsShallower(h, x, s);
      }
      assert Ranked(h, rank) && r in rank;
    }
    forall rank, path | Ranked(h, rank) && r in rank && Trail(h, r, path).Some?
      ensures Distinct(Trail(h, r, path).value)
    {
      RanksFall(h, rank, r, path);
    }
  }

  /** If no path from the root repeats an object, the output is the plain tree, whatever else the heap holds. */
  lemma AcyclicUnfolds(h: Heap, r: Ref) returns (rank: map<Ref, nat>)
    requires Closed(h) && r in h && Acyclic(h, r)
    ensures Ranked(h, rank) && r in rank && Serialized(h, r, {}) == Unfolded(h, rank, r)
  {
    AcyclicExactly(h, r);
    rank :| Ranked(h, rank) && r in rank;
    RankedUnfolds(h, rank, r, {});
  }
}
