/**
 Kahn's algorithm over a dependency table: in-degrees and adjacency lists are
 built with multiplicity, and a first-in first-out queue releases nodes.
 */
module TopologicalSort {
  import opened Sequences
  import opened DependencyGraph

  datatype SortResult =
    | Sorted(order: seq<Id>)
    | MissingDependency(node: Id, dependency: Id)
    | CycleDetected

  type Adjacency = map<Id, seq<Id>>

  /** A lookup in the defaulting adjacency table: an absent node has no dependents. */
  function Dependents(adj: Adjacency, n: Id): seq<Id> {
    if n in adj then adj[n] else []
  }

  /** How many dependency entries, counted with repetition, are not done yet. */
  ghost function Unmet(deps: seq<Id>, done: set<Id>): nat {
    if deps == [] then 0 else (if deps[0] in done then 0 else 1) + Unmet(deps[1..], done)
  }

  lemma {:induction false} UnmetInitially(deps: seq<Id>)
    ensures Unmet(deps, {}) == |deps|
  {
    if deps != [] {
      UnmetInitially(deps[1..]);
    }
  }

  lemma {:induction false} UnmetZero(deps: seq<Id>, done: set<Id>)
    ensures Unmet(deps, done) == 0 <==> forall d | d in deps :: d in done
  {
    if deps != [] {
      UnmetZero(deps[1..], done);
      assert forall d :: d in deps <==> d == deps[0] || d in deps[1..];
    }
  }

  /** Finishing one node settles exactly as many entries as name it. */
  lemma {:induction false} UnmetAfter(deps: seq<Id>, done: set<Id>, c: Id)
    requires c !in done
    ensures Unmet(deps, done) == Unmet(deps, done + {c}) + multiset(deps)[c]
  {
    if deps != [] {
      UnmetAfter(deps[1..], done, c);
      assert deps == [deps[0]] + deps[1..];
      assert multiset(deps) == multiset([deps[0]]) + multiset(deps[1..]);
    }
  }

  ghost predicate SortedByLevel(level: map<Id, nat>, s: seq<Id>) {
    && (forall n | n in s :: n in level)
    && forall i, j | 0 <= i < j < |s| :: level[s[i]] <= level[s[j]]
  }

  /** `node`'s entry `dependency` is the first one, in table order, that names no node. */
  ghost predicate FirstMissing(ids: seq<Id>, g: Graph, node: Id, dependency: Id) {
    exists i, k ::
      && 0 <= i < |ids| && ids[i] == node && node in g
      && 0 <= k < |g[node]| && g[node][k] == dependency && dependency !in g
      && EntriesKnown(g, ids[..i])
      && (forall d | d in g[node][..k] :: d in g)
  }

  ghost predicate EntriesKnown(g: Graph, ids: seq<Id>) {
    forall m, d | m in ids && m in g && d in g[m] :: d in g
  }

  /** `inDegree` and `adj` describe the entries of `g`, with repetition. */
  ghost predicate DegreesOf(g: Graph, inDegree: map<Id, int>, adj: Adjacency) {
    && inDegree.Keys == g.Keys
    && (forall n | n in g :: inDegree[n] == |g[n]|)
    && AdjacencyOf(g, adj)
  }

  /** `adj` lists every node once per entry of its that names the key. */
  ghost predicate AdjacencyOf(g: Graph, adj: Adjacency) {
    forall d, n :: Count(Dependents(adj, d), n) == if n in g then Count(g[n], d) else 0
  }

  /** How often `x` occurs in `s`. */
  ghost function Count(s: seq<Id>, x: Id): nat {
    multiset(s)[x]
  }

  /** The part of the table read when the first `i` nodes are done. */
  ghost function ReadNodes(ids: seq<Id>, g: Graph, i: nat): Graph
    requires i <= |ids|
  {
    map n | n in g :: if n in ids[..i] then g[n] else []
  }

  lemma ReadingAdvances(ids: seq<Id>, g: Graph, i: nat)
    requires Distinct(ids) && i < |ids| && ids[i] in g
    ensures ReadNodes(ids, g, i)[ids[i]] == []
    ensures ReadNodes(ids, g, i + 1) == ReadNodes(ids, g, i)[ids[i] := g[ids[i]]]
  {
    assert ids[..i + 1] == ids[..i] + [ids[i]];
    assert ids[i] !in ids[..i];
  }

  lemma ReadingAll(ids: seq<Id>, g: Graph)
    requires ToSet(ids) == g.Keys
    ensures ReadNodes(ids, g, |ids|) == g
    ensures EntriesKnown(g, ids[..|ids|]) ==> Closed(g)
  {
    assert ids[..|ids|] == ids;
    assert forall n | n in g :: n in ToSet(ids);
  }

  lemma EntryCountedAt(g: Graph, adj: Adjacency, n: Id, d: Id, e: Id, m: Id)
    requires n in g && Count(Dependents(adj, e), m) == if m in g then Count(g[m], e) else 0
    ensures var g', adj' := g[n := g[n] + [d]], adj[d := Dependents(adj, d) + [n]];
      Count(Dependents(adj', e), m) == if m in g' then Count(g'[m], e) else 0
  {
  }

  lemma EntryCounted(g: Graph, inDegree: map<Id, int>, adj: Adjacency, n: Id, d: Id)
    requires DegreesOf(g, inDegree, adj) && n in g
    ensures DegreesOf(g[n := g[n] + [d]], inDegree[n := inDegree[n] + 1], adj[d := Dependents(adj, d) + [n]])
  {
    hide Count, Dependents;
    var g', adj' := g[n := g[n] + [d]], adj[d := Dependents(adj, d) + [n]];
    forall e, m ensures Count(Dependents(adj', e), m) == if m in g' then Count(g'[m], e) else 0 {
      EntryCountedAt(g, adj, n, d, e, m);
    }
  }

  /** The inner counting loop: the entries of one node, up to the first that names no node. */
  method CountEntries(nid: Id, deps: seq<Id>, known: set<Id>, inDegree: map<Id, int>, adj: Adjacency, ghost read: Graph)
    returns (missing: Option<Id>, inDegree': map<Id, int>, adj': Adjacency)
    requires nid in read && read[nid] == [] && DegreesOf(read, inDegree, adj)
    ensures missing.None? ==> DegreesOf(read[nid := deps], inDegree', adj') && forall d | d in deps :: d in known
    ensures missing.Some? ==>
      exists k :: 0 <= k < |deps| && deps[k] == missing.value && missing.value !in known
        && forall d | d in deps[..k] :: d in known
  {
    inDegree', adj' := inDegree, adj;
    for k := 0 to |deps|
      invariant DegreesOf(read[nid := deps[..k]], inDegree', adj')
      invariant forall d | d in deps[..k] :: d in known
    {
      var dep := deps[k];
      if dep !in known {
        return Some(dep), inDegree', adj';
      }
      EntryCounted(read[nid := deps[..k]], inDegree', adj', nid, dep);
      TakeOneMore(deps, k);
      assert read[nid := deps[..k + 1]] == read[nid := deps[..k]][nid := deps[..k] + [dep]];
      adj' := adj'[dep := Dependents(adj', dep) + [nid]];
      inDegree' := inDegree'[nid := inDegree'[nid] + 1];
    }
    TakeAll(deps);
    missing := None;
  }

  /** The outer counting loop; a missing dependency is reported at the first entry naming it. */
  method CountDegrees(ids: seq<Id>, g: Graph)
    returns (missing: Option<(Id, Id)>, inDegree: map<Id, int>, adj: Adjacency)
    requires Distinct(ids) && ToSet(ids) == g.Keys
    ensures missing.None? ==> Closed(g) && DegreesOf(g, inDegree, adj)
    ensures missing.Some? ==> FirstMissing(ids, g, missing.value.0, missing.value.1)
  {
    inDegree := map n | n in g :: 0;
    adj := map[];
    assert DegreesOf(ReadNodes(ids, g, 0), inDegree, adj);
    for i := 0 to |ids|
      invariant DegreesOf(ReadNodes(ids, g, i), inDegree, adj)
      invariant EntriesKnown(g, ids[..i])
    {
      var nid := ids[i];
      assert nid in ToSet(ids);
      ReadingAdvances(ids, g, i);
      var bad;
      bad, inDegree, adj := CountEntries(nid, g[nid], g.Keys, inDegree, adj, ReadNodes(ids, g, i));
      if bad.Some? {
        return Some((nid, bad.value)), inDegree, adj;
      }
      TakeOneMore(ids, i);
    }
    ReadingAll(ids, g);
    missing := None;
  }

  // ---------------------------------------------------------------- the queue

  /**
   Nodes are on the way out (`ordered`, then `queue`) exactly when their in-degree
   reached zero; `rest` holds the dependents of the last ordered node that are
   still to be decremented.
   */
  ghost predicate Frontier(g: Graph, inDegree: map<Id, int>, ordered: seq<Id>, queue: seq<Id>, rest: seq<Id>) {
    && inDegree.Keys == g.Keys
    && Distinct(ordered + queue)
    && (forall n :: n in ordered + queue <==> n in g && inDegree[n] == 0)
    && (forall n | n in g :: inDegree[n] == Unmet(g[n], ToSet(ordered)) + Count(rest, n))
    && (forall n | n in rest :: n in g)
  }

  lemma FrontierStart(ids: seq<Id>, g: Graph, inDegree: map<Id, int>, adj: Adjacency, queue: seq<Id>)
    requires Distinct(ids) && ToSet(ids) == g.Keys && DegreesOf(g, inDegree, adj)
    requires Distinct(queue) && forall n :: n in queue <==> n in g && inDegree[n] == 0
    ensures Frontier(g, inDegree, [], queue, [])
  {
    assert [] + queue == queue;
    forall n | n in g ensures Unmet(g[n], ToSet<Id>([])) == |g[n]| {
      UnmetInitially(g[n]);
      assert ToSet<Id>([]) == {};
    }
  }

  lemma HeadIsNew(ordered: seq<Id>, queue: seq<Id>)
    requires Distinct(ordered + queue) && queue != []
    ensures queue[0] !in ordered
  {
    var s := ordered + queue;
    assert s[|ordered|] == queue[0];
    assert forall i | 0 <= i < |ordered| :: s[i] == ordered[i];
  }

  /** Taking the head of the queue leaves its dependents to be decremented. */
  lemma FrontierPop(g: Graph, inDegree: map<Id, int>, adj: Adjacency, ordered: seq<Id>, queue: seq<Id>)
    requires Frontier(g, inDegree, ordered, queue, []) && AdjacencyOf(g, adj) && queue != []
    ensures Frontier(g, inDegree, ordered + [queue[0]], queue[1..], Dependents(adj, queue[0]))
    ensures queue[0] in g && forall d | d in g[queue[0]] :: d in ordered
  {
    var c := queue[0];
    assert (ordered + [c]) + queue[1..] == ordered + queue;
    assert c in ordered + queue;
    HeadIsNew(ordered, queue);
    assert ToSet(ordered + [c]) == ToSet(ordered) + {c};
    forall n | n in g
      ensures inDegree[n] == Unmet(g[n], ToSet(ordered + [c])) + Count(Dependents(adj, c), n)
    {
      UnmetAfter(g[n], ToSet(ordered), c);
      assert Count(Dependents(adj, c), n) == Count(g[n], c);
    }
    forall n | n in Dependents(adj, c) ensures n in g {
      assert Count(Dependents(adj, c), n) > 0;
    }
    UnmetZero(g[c], ToSet(ordered));
  }

  lemma CountTail(s: seq<Id>, m: Id)
    requires s != []
    ensures Count(s, m) == Count(s[1..], m) + if m == s[0] then 1 else 0
  {
    assert s == [s[0]] + s[1..];
    assert multiset(s) == multiset([s[0]]) + multiset(s[1..]);
  }

  /** Decrementing one dependent, and queueing it if that was its last unmet entry. */
  lemma FrontierRelease(g: Graph, inDegree: map<Id, int>, ordered: seq<Id>, queue: seq<Id>, rest: seq<Id>)
    requires Frontier(g, inDegree, ordered, queue, rest) && rest != []
    ensures rest[0] in g && inDegree[rest[0]] > 0
    ensures
      var n := rest[0];
      Frontier(g, inDegree[n := inDegree[n] - 1], ordered, if inDegree[n] == 1 then queue + [n] else queue, rest[1..])
  {
    hide Unmet, Count;
    var n := rest[0];
    var queue' := if inDegree[n] == 1 then queue + [n] else queue;
    forall m ensures Count(rest, m) == Count(rest[1..], m) + if m == n then 1 else 0 {
      CountTail(rest, m);
    }
    assert forall m :: m in rest <==> m == n || m in rest[1..];
    assert inDegree[n] > 0;
    assert n !in ordered + queue;
    assert ordered + (queue + [n]) == (ordered + queue) + [n];
  }

  // ---------------------------------------------------------------- levels along the queue

  /** Whatever the levels are, the sort emits them in order and queues nothing too deep. */
  ghost predicate LevelOrdered(g: Graph, ordered: seq<Id>, queue: seq<Id>) {
    forall level | IsLevelling(g, level) :: LevelBound(level, ordered, queue)
  }

  ghost predicate LevelBound(level: map<Id, nat>, ordered: seq<Id>, queue: seq<Id>) {
    && SortedByLevel(level, ordered + queue)
    && forall n | n in queue :: level[n] <= if ordered == [] then 0 else level[ordered[|ordered| - 1]] + 1
  }

  lemma LevelsStart(g: Graph, queue: seq<Id>)
    requires forall n | n in queue :: n in g && g[n] == []
    ensures LevelOrdered(g, [], queue)
  {
    assert [] + queue == queue;
    forall level, n | IsLevelling(g, level) && n in queue ensures level[n] == 0 {
      assert level[n] > 0 ==> RestsOn(g, level, n);
    }
  }

  lemma LevelsPop(g: Graph, ordered: seq<Id>, queue: seq<Id>)
    requires LevelOrdered(g, ordered, queue) && queue != []
    ensures LevelOrdered(g, ordered + [queue[0]], queue[1..])
  {
    var c := queue[0];
    assert (ordered + [c]) + queue[1..] == ordered + queue;
    forall level | IsLevelling(g, level) ensures LevelBound(level, ordered + [c], queue[1..]) {
      assert LevelBound(level, ordered, queue);
      var s := ordered + queue;
      assert s[|ordered|] == c;
      assert ordered != [] ==> s[|ordered| - 1] == ordered[|ordered| - 1];
    }
  }

  /** A node released by the last ordered node sits exactly one level above it. */
  lemma LevelsRelease(g: Graph, ordered: seq<Id>, queue: seq<Id>, n: Id)
    requires LevelOrdered(g, ordered, queue) && ordered != []
    requires n in g && ordered[|ordered| - 1] in g[n] && forall d | d in g[n] :: d in ordered
    ensures LevelOrdered(g, ordered, queue + [n])
  {
    var c := ordered[|ordered| - 1];
    var s := ordered + queue;
    assert ordered + (queue + [n]) == s + [n];
    forall level | IsLevelling(g, level) ensures LevelBound(level, ordered, queue + [n]) {
      assert LevelBound(level, ordered, queue);
      assert RestsOn(g, level, n);
      var d :| d in g[n] && d in g && level[d] + 1 == level[n];
      var i :| 0 <= i < |ordered| && ordered[i] == d;
      assert s[i] == d && s[|ordered| - 1] == c;
      assert level[n] == level[c] + 1;
      forall j | 0 <= j < |s| ensures level[s[j]] <= level[n] {
        assert j >= |ordered| ==> s[j] in queue;
      }
    }
  }

  // ---------------------------------------------------------------- the sort

  lemma ReleaseStep(g: Graph, inDegree: map<Id, int>, ordered: seq<Id>, queue: seq<Id>, rest: seq<Id>)
    requires Frontier(g, inDegree, ordered, queue, rest) && LevelOrdered(g, ordered, queue) && rest != []
    requires ordered != [] && rest[0] in g && ordered[|ordered| - 1] in g[rest[0]]
    ensures rest[0] in inDegree
    ensures var n := rest[0];
      var queue' := if inDegree[n] == 1 then queue + [n] else queue;
      Frontier(g, inDegree[n := inDegree[n] - 1], ordered, queue', rest[1..]) && LevelOrdered(g, ordered, queue')
  {
    hide LevelOrdered, Unmet, Count;
    var n := rest[0];
    FrontierRelease(g, inDegree, ordered, queue, rest);
    if inDegree[n] == 1 {
      CountTail(rest, n);
      UnmetZero(g[n], ToSet(ordered));
      LevelsRelease(g, ordered, queue, n);
    }
  }

  /** The inner loop: one dequeued node's dependents are decremented and queued as they reach zero. */
  method Release(g: Graph, inDegree: map<Id, int>, ghost ordered: seq<Id>, queue: seq<Id>, dependents: seq<Id>)
    returns (inDegree': map<Id, int>, queue': seq<Id>)
    requires Frontier(g, inDegree, ordered, queue, dependents) && LevelOrdered(g, ordered, queue)
    requires ordered != [] && forall n | n in dependents :: n in g && ordered[|ordered| - 1] in g[n]
    ensures Frontier(g, inDegree', ordered, queue', []) && LevelOrdered(g, ordered, queue')
  {
    hide Frontier, LevelOrdered;
    inDegree', queue' := inDegree, queue;
    for j := 0 to |dependents|
      invariant Frontier(g, inDegree', ordered, queue', dependents[j..]) && LevelOrdered(g, ordered, queue')
    {
      var n := dependents[j];
      ReleaseStep(g, inDegree', ordered, queue', dependents[j..]);
      assert dependents[j..][1..] == dependents[j + 1..];
      inDegree' := inDegree'[n := inDegree'[n] - 1];
      if inDegree'[n] == 0 {
        queue' := queue' + [n];
      }
    }
  }

  /** The initial queue: nodes without dependencies, in table order. */
  method Roots(ids: seq<Id>, inDegree: map<Id, int>) returns (queue: seq<Id>)
    requires Distinct(ids) && ToSet(ids) == inDegree.Keys
    ensures Distinct(queue) && forall n :: n in queue <==> n in inDegree && inDegree[n] == 0
  {
    queue := [];
    for i := 0 to |ids|
      invariant Distinct(queue)
      invariant forall n :: n in queue <==> n in ids[..i] && n in inDegree && inDegree[n] == 0
    {
      assert ids[i] in ToSet(ids) && ids[i] !in ids[..i];
      TakeOneMore(ids, i);
      if inDegree[ids[i]] == 0 {
        queue := queue + [ids[i]];
      }
    }
    TakeAll(ids);
    assert forall n | n in inDegree :: n in ToSet(ids);
  }

  /** Everything that moving the head of the queue to the output keeps. */
  lemma HeadLeaves(g: Graph, inDegree: map<Id, int>, adj: Adjacency, ordered: seq<Id>, queue: seq<Id>)
    requires AdjacencyOf(g, adj) && queue != []
    requires Frontier(g, inDegree, ordered, queue, []) && LevelOrdered(g, ordered, queue)
    requires DependenciesFirst(g, ordered)
    ensures Frontier(g, inDegree, ordered + [queue[0]], queue[1..], Dependents(adj, queue[0]))
    ensures LevelOrdered(g, ordered + [queue[0]], queue[1..])
    ensures DependenciesFirst(g, ordered + [queue[0]])
    ensures forall n | n in Dependents(adj, queue[0]) :: n in g && queue[0] in g[n]
    ensures |ordered| < |g|
  {
    FrontierPop(g, inDegree, adj, ordered, queue);
    LevelsPop(g, ordered, queue);
    DependenciesFirstGrows(g, ordered, queue[0]);
    DistinctExhausts(ordered + queue, g.Keys);
    forall n | n in Dependents(adj, queue[0]) ensures n in g && queue[0] in g[n] {
      assert Count(Dependents(adj, queue[0]), n) == Count(g[n], queue[0]);
    }
  }

  /** The draining loop: dequeue a node, emit it, release its dependents. */
  method Drain(g: Graph, adj: Adjacency, degrees: map<Id, int>, roots: seq<Id>)
    returns (ordered: seq<Id>, ghost inDegree: map<Id, int>)
    requires AdjacencyOf(g, adj) && Frontier(g, degrees, [], roots, []) && LevelOrdered(g, [], roots)
    ensures Frontier(g, inDegree, ordered, [], []) && LevelOrdered(g, ordered, [])
    ensures DependenciesFirst(g, ordered)
  {
    var queue, remaining := roots, degrees;
    ordered := [];
    while queue != []
      invariant Frontier(g, remaining, ordered, queue, []) && LevelOrdered(g, ordered, queue)
      invariant DependenciesFirst(g, ordered)
      decreases |g| - |ordered|
    {
      var curr := queue[0];
      HeadLeaves(g, remaining, adj, ordered, queue);
      queue, ordered := queue[1..], ordered + [curr];
      remaining, queue := Release(g, remaining, ordered, queue, Dependents(adj, curr));
    }
    inDegree := remaining;
  }

  /** Nodes left over with positive in-degree wait behind a cycle. */
  lemma StuckBehindCycle(g: Graph, inDegree: map<Id, int>, ordered: seq<Id>)
    requires Closed(g) && Frontier(g, inDegree, ordered, [], []) && |ordered| < |g|
    ensures !Acyclic(g)
  {
    assert ordered + [] == ordered;
    var stuck := g.Keys - ToSet(ordered);
    ShortLeavesRest(ordered, g.Keys);
    forall m | m in stuck ensures Waits(g, stuck, m) {
      assert m !in ordered + [];
      UnmetZero(g[m], ToSet(ordered));
      var d :| d in g[m] && d !in ToSet(ordered);
      assert d in stuck;
    }
    var cycle := StuckNodesHoldCycle(g, stuck);
  }

  /**
   The whole sort. It orders exactly the closed acyclic graphs, level by level; it
   names the first missing dependency of a graph that is not closed, and reports
   a cycle exactly when the graph is closed and has one.
   */
  method Sort(ids: seq<Id>, g: Graph) returns (r: SortResult)
    requires Distinct(ids) && ToSet(ids) == g.Keys
    ensures r.Sorted? ==> IsTopological(g, r.order)
    ensures r.Sorted? ==> exists level :: IsLevelling(g, level) && SortedByLevel(level, r.order)
    ensures r.Sorted? <==> Closed(g) && Acyclic(g)
    ensures r.CycleDetected? <==> Closed(g) && !Acyclic(g)
    ensures r.MissingDependency? ==> FirstMissing(ids, g, r.node, r.dependency)
  {
    var missing, inDegree, adj := CountDegrees(ids, g);
    if missing.Some? {
      return MissingDependency(missing.value.0, missing.value.1);
    }
    var queue := Roots(ids, inDegree);
    FrontierStart(ids, g, inDegree, adj, queue);
    LevelsStart(g, queue);
    var ordered, left := Drain(g, adj, inDegree, queue);
    assert ordered + [] == ordered;
    DistinctExhausts(ordered, g.Keys);
    DistinctCardinality(ids);
    if |ordered| != |ids| {
      StuckBehindCycle(g, left, ordered);
      return CycleDetected;
    }
    assert forall n :: n in ordered <==> n in ToSet(ordered);
    TopologicalExcludesCycle(g, ordered);
    ghost var level := TopologicalGivesLevelling(g, ordered);
    assert LevelBound(level, ordered, []);
    return Sorted(ordered);
  }
}
