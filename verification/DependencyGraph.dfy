/**
 Dependency graphs: what it means for an order to respect them, for a cycle to
 exist, and for a node to sit at a given depth.
 */
module DependencyGraph {
  import opened Sequences

  type Id = string

  /** Maps a node to its dependency list; a list may name a node twice. */
  type Graph = map<Id, seq<Id>>

  ghost predicate Closed(g: Graph) {
    forall n, d | n in g && d in g[n] :: d in g
  }

  /** Consecutive elements of `w` are dependency edges: each node depends on its successor. */
  ghost predicate IsWalk(g: Graph, w: seq<Id>) {
    && |w| > 0
    && w[|w| - 1] in g
    && forall i | 0 <= i < |w| - 1 :: w[i] in g && w[i + 1] in g[w[i]]
  }

  ghost predicate IsCycle(g: Graph, w: seq<Id>) {
    |w| > 1 && IsWalk(g, w) && w[0] == w[|w| - 1]
  }

  ghost predicate Acyclic(g: Graph) {
    forall w :: !IsCycle(g, w)
  }

  ghost predicate DependenciesFirst(g: Graph, order: seq<Id>) {
    forall i, d | 0 <= i < |order| && order[i] in g && d in g[order[i]] :: d in order[..i]
  }

  lemma DependenciesFirstGrows(g: Graph, order: seq<Id>, n: Id)
    requires DependenciesFirst(g, order) && n in g && forall d | d in g[n] :: d in order
    ensures DependenciesFirst(g, order + [n])
  {
    var order' := order + [n];
    forall i, d | 0 <= i < |order'| && order'[i] in g && d in g[order'[i]] ensures d in order'[..i] {
      assert order'[..i] == order[..i];
    }
  }

  ghost predicate IsTopological(g: Graph, order: seq<Id>) {
    && Distinct(order)
    && (forall n :: n in order <==> n in g)
    && DependenciesFirst(g, order)
  }

  /** `level` gives every node the length of its longest dependency chain. */
  ghost predicate IsLevelling(g: Graph, level: map<Id, nat>) {
    && level.Keys == g.Keys
    && (forall n, d | n in g && d in g[n] :: d in g && level[d] < level[n])
    && (forall n {:trigger RestsOn(g, level, n)} | n in g && level[n] > 0 :: RestsOn(g, level, n))
  }

  /** Some dependency of `n` sits exactly one level below it. */
  ghost predicate RestsOn(g: Graph, level: map<Id, nat>, n: Id)
    requires level.Keys == g.Keys && n in g
  {
    exists d :: d in g[n] && d in g && level[d] + 1 == level[n]
  }

  // ---------------------------------------------------------------- order versus cycle

  /** Along a walk, positions in a topological order go strictly down. */
  lemma {:induction false} WalkDescends(g: Graph, order: seq<Id>, w: seq<Id>, p: nat, q: nat)
    requires IsTopological(g, order) && IsWalk(g, w) && |w| > 1
    requires p < |order| && order[p] == w[0]
    requires q < |order| && order[q] == w[|w| - 1]
    ensures q < p
    decreases |w|
  {
    assert w[1] in g[w[0]];
    assert w[1] in order[..p];
    var r :| 0 <= r < p && order[r] == w[1];
    if |w| > 2 {
      assert IsWalk(g, w[1..]);
      WalkDescends(g, order, w[1..], r, q);
    }
  }

  lemma TopologicalExcludesCycle(g: Graph, order: seq<Id>)
    requires IsTopological(g, order)
    ensures Acyclic(g)
  {
    forall w ensures !IsCycle(g, w) {
      if IsCycle(g, w) {
        assert w[0] in order;
        var p :| 0 <= p < |order| && order[p] == w[0];
        WalkDescends(g, order, w, p, p);
      }
    }
  }

  /** Within `stuck`, node `m` still has a dependency to wait for. */
  ghost predicate Waits(g: Graph, stuck: set<Id>, m: Id)
    requires m in g
  {
    exists d :: d in g[m] && d in stuck
  }

  /** A walk of the given number of edges that never leaves a set in which every node has a dependency. */
  lemma {:induction false} StuckWalk(g: Graph, stuck: set<Id>, n: Id, edges: nat) returns (w: seq<Id>)
    requires stuck <= g.Keys && n in stuck
    requires forall m {:trigger Waits(g, stuck, m)} | m in stuck :: Waits(g, stuck, m)
    ensures IsWalk(g, w) && |w| == edges + 1 && w[0] == n
    ensures forall m | m in w :: m in stuck
    decreases edges
  {
    if edges == 0 {
      w := [n];
    } else {
      assert Waits(g, stuck, n);
      var d :| d in g[n] && d in stuck;
      var rest := StuckWalk(g, stuck, d, edges - 1);
      w := [n] + rest;
    }
  }

  /** From each node of a group in which every node waits for another, a walk leads into a cycle inside the group. */
  lemma WalkIntoCycle(g: Graph, stuck: set<Id>, n: Id) returns (w: seq<Id>, cycle: seq<Id>)
    requires n in stuck && stuck <= g.Keys
    requires forall m {:trigger Waits(g, stuck, m)} | m in stuck :: Waits(g, stuck, m)
    ensures IsWalk(g, w) && w[0] == n && IsCycle(g, cycle) && w[|w| - 1] == cycle[0]
    ensures forall m | m in cycle :: m in stuck
  {
    hide Waits;
    var walk := StuckWalk(g, stuck, n, |stuck|);
    Pigeonhole(walk, stuck);
    var i, j :| 0 <= i < j < |walk| && walk[i] == walk[j];
    w, cycle := walk[..i + 1], walk[i..j + 1];
    assert forall m | m in cycle :: m in walk;
  }

  /** Nodes that each wait for another of the group lie behind a genuine cycle inside the group. */
  lemma StuckNodesHoldCycle(g: Graph, stuck: set<Id>) returns (cycle: seq<Id>)
    requires stuck != {} && stuck <= g.Keys
    requires forall m {:trigger Waits(g, stuck, m)} | m in stuck :: Waits(g, stuck, m)
    ensures IsCycle(g, cycle) && forall m | m in cycle :: m in stuck
  {
    var n :| n in stuck;
    var w;
    w, cycle := WalkIntoCycle(g, stuck, n);
  }

  // ---------------------------------------------------------------- levels

  /** The levelling of a graph is unique, so "the depth of a node" is well defined. */
  lemma LevellingUnique(g: Graph, a: map<Id, nat>, b: map<Id, nat>)
    requires IsLevelling(g, a) && IsLevelling(g, b)
    ensures a == b
  {
    forall n | n in g ensures a[n] == b[n] {
      LevelAtMost(g, a, b, n);
      LevelAtMost(g, b, a, n);
    }
  }

  lemma {:induction false} LevelAtMost(g: Graph, a: map<Id, nat>, b: map<Id, nat>, n: Id)
    requires IsLevelling(g, a) && IsLevelling(g, b) && n in g
    ensures a[n] <= b[n]
    decreases a[n]
  {
    if a[n] > 0 {
      assert RestsOn(g, a, n);
      var d :| d in g[n] && d in g && a[d] + 1 == a[n];
      LevelAtMost(g, a, b, d);
    }
  }

  /** The highest level among the dependencies of a node, plus one. */
  ghost function LevelAbove(deps: seq<Id>, level: map<Id, nat>): (r: nat)
    requires forall d | d in deps :: d in level
    ensures forall d | d in deps :: level[d] < r
    ensures r > 0 ==> exists d :: d in deps && level[d] + 1 == r
  {
    if deps == [] then 0
    else
      var rest := LevelAbove(deps[1..], level);
      if level[deps[0]] < rest then rest else level[deps[0]] + 1
  }

  lemma RestsOnNew(g: Graph, level: map<Id, nat>, n: Id, deps: seq<Id>, top: nat)
    requires level.Keys == g.Keys && n !in g && forall d | d in deps :: d in g
    requires exists d :: d in deps && level[d] + 1 == top
    ensures RestsOn(g[n := deps], level[n := top], n)
  {
    var d :| d in deps && level[d] + 1 == top;
    assert d in g[n := deps][n];
  }

  lemma RestsOnStays(g: Graph, level: map<Id, nat>, n: Id, deps: seq<Id>, top: nat, m: Id)
    requires level.Keys == g.Keys && n !in g && m in g && RestsOn(g, level, m)
    ensures RestsOn(g[n := deps], level[n := top], m)
  {
    var d :| d in g[m] && d in g && level[d] + 1 == level[m];
    assert d in g[n := deps][m];
  }

  /** Adding a node whose dependencies are all present extends a levelling. */
  lemma LevellingExtends(g: Graph, level: map<Id, nat>, n: Id, deps: seq<Id>)
    requires IsLevelling(g, level) && n !in g
    requires forall d | d in deps :: d in g
    ensures IsLevelling(g[n := deps], level[n := LevelAbove(deps, level)])
  {
    hide LevelAbove, RestsOn;
    var top := LevelAbove(deps, level);
    var g', level' := g[n := deps], level[n := top];
    forall m, d | m in g' && d in g'[m] ensures d in g' && level'[d] < level'[m] {
      if m != n {
        assert d in g[m];
      }
    }
    forall m | m in g' && level'[m] > 0 ensures RestsOn(g', level', m) {
      if m == n {
        RestsOnNew(g, level, n, deps, top);
      } else {
        RestsOnStays(g, level, n, deps, top, m);
      }
    }
  }

  ghost function Induced(g: Graph, order: seq<Id>): Graph {
    map n | n in g && n in order :: g[n]
  }

  lemma InducedGrows(g: Graph, order: seq<Id>, k: nat)
    requires IsTopological(g, order) && k < |order|
    ensures order[k] in g && order[k] !in Induced(g, order[..k])
    ensures forall d | d in g[order[k]] :: d in Induced(g, order[..k])
    ensures Induced(g, order[..k + 1]) == Induced(g, order[..k])[order[k] := g[order[k]]]
  {
    var n := order[k];
    assert n in order;
    assert n in g;
    forall d | d in g[n] ensures d in Induced(g, order[..k]) {
      assert d in order[..k];
      assert d in order;
    }
    assert order[..k + 1] == order[..k] + [n];
  }

  lemma {:induction false} LevellingOfPrefix(g: Graph, order: seq<Id>, k: nat) returns (level: map<Id, nat>)
    requires IsTopological(g, order) && k <= |order|
    ensures IsLevelling(Induced(g, order[..k]), level)
    decreases k
  {
    if k == 0 {
      level := map[];
    } else {
      var below := LevellingOfPrefix(g, order, k - 1);
      var n := order[k - 1];
      InducedGrows(g, order, k - 1);
      LevellingExtends(Induced(g, order[..k - 1]), below, n, g[n]);
      level := below[n := LevelAbove(g[n], below)];
    }
  }

  /** Every graph with a topological order has a levelling. */
  lemma TopologicalGivesLevelling(g: Graph, order: seq<Id>) returns (level: map<Id, nat>)
    requires IsTopological(g, order)
    ensures IsLevelling(g, level)
  {
    level := LevellingOfPrefix(g, order, |order|);
    assert order[..|order|] == order;
    assert Induced(g, order) == g;
  }

  // ---------------------------------------------------------------- existence of an order

  /** In a closed acyclic graph some node outside `done` depends only on `done`. */
  lemma SomeoneIsFree(g: Graph, done: set<Id>) returns (n: Id)
    requires Closed(g) && Acyclic(g) && g.Keys - done != {}
    ensures n in g && n !in done && forall d | d in g[n] :: d in done
  {
    var stuck := g.Keys - done;
    if forall m {:trigger Waits(g, stuck, m)} | m in stuck :: Waits(g, stuck, m) {
      var cycle := StuckNodesHoldCycle(g, stuck);
      assert false;
    }
    n :| n in stuck && !Waits(g, stuck, n);
  }

  lemma {:induction false} OrderGrows(g: Graph, start: seq<Id>) returns (order: seq<Id>)
    requires Closed(g) && Acyclic(g)
    requires Distinct(start) && DependenciesFirst(g, start) && forall n | n in start :: n in g
    ensures IsTopological(g, order)
    decreases |g.Keys - ToSet(start)|
  {
    if g.Keys - ToSet(start) == {} {
      order := start;
      assert forall n | n in g :: n in ToSet(start);
    } else {
      var n := SomeoneIsFree(g, ToSet(start));
      DependenciesFirstGrows(g, start, n);
      var start' := start + [n];
      assert ToSet(start') == ToSet(start) + {n};
      assert g.Keys - ToSet(start') == (g.Keys - ToSet(start)) - {n};
      order := OrderGrows(g, start');
    }
  }

  lemma AcyclicHasLevelling(g: Graph) returns (level: map<Id, nat>)
    requires Closed(g) && Acyclic(g)
    ensures IsLevelling(g, level)
  {
    var order := OrderGrows(g, []);
    level := TopologicalGivesLevelling(g, order);
  }
}
