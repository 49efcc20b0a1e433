/** What the executor guarantees over whole runs. */
module DagGuarantees {
  import opened Sequences
  import opened DependencyGraph
  import opened DagExecution

  // ---------------------------------------------------------------- retries and termination

  /** Remaining executor calls over the whole table. */
  ghost function Budget(dag: Dag, ids: seq<Id>): nat {
    if ids == [] then 0
    else (if ids[0] in dag then Attempts(dag[ids[0]]) else 0) + Budget(dag, ids[1..])
  }

  lemma {:induction false} BudgetMonotone(a: Dag, b: Dag, ids: seq<Id>)
    requires forall n | n in ids :: n in a && n in b && Attempts(b[n]) <= Attempts(a[n])
    ensures Budget(b, ids) <= Budget(a, ids)
  {
    if ids != [] {
      BudgetMonotone(a, b, ids[1..]);
    }
  }

  /** Spending one attempt of one node lowers the budget. */
  lemma {:induction false} BudgetSpent(a: Dag, b: Dag, ids: seq<Id>, n: Id)
    requires forall m | m in ids :: m in a && m in b && Attempts(b[m]) <= Attempts(a[m])
    requires n in ids && Attempts(b[n]) < Attempts(a[n])
    ensures Budget(b, ids) < Budget(a, ids)
  {
    if ids[0] == n {
      BudgetMonotone(a, b, ids[1..]);
    } else {
      BudgetSpent(a, b, ids[1..], n);
    }
  }

  lemma {:induction false} ExecuteAllBudget(run: Run, ns: seq<Id>, f: Executor, ids: seq<Id>)
    requires Sound(run.dag) && ToSet(ids) == run.dag.Keys && Distinct(ns)
    requires forall n | n in ns :: n in run.dag && Runs(run.dag, n)
    ensures Sound(ExecuteAll(run, ns, f).dag)
    ensures Budget(ExecuteAll(run, ns, f).dag, ids) + |ns| <= Budget(run.dag, ids)
    decreases ns
  {
    hide Sound, Budget;
    assert forall n | n in ids :: n in ToSet(ids);
    if ns != [] {
      var n := ns[0];
      var next := Execute(run, n, f);
      ExecuteKeeps(run, n, f);
      assert n in ToSet(ids);
      BudgetSpent(run.dag, next.dag, ids, n);
      assert forall m | m in ns[1..] :: m in ns && m != n;
      ExecuteAllBudget(next, ns[1..], f, ids);
    }
  }

  /** Every round costs at least one attempt per node it runs. */
  lemma RoundBudget(run: Run, ids: seq<Id>, f: Executor)
    requires Sound(run.dag) && Distinct(ids) && ToSet(ids) == run.dag.Keys
    ensures Sound(Round(run, ids, f).dag)
    ensures Budget(Round(run, ids, f).dag, ids) + |ReadyNodes(run.dag, ids)| <= Budget(run.dag, ids)
  {
    assert forall n | n in ids :: n in ToSet(ids);
    RefreshKeeps(run.dag);
    ReadyDistinct(run.dag, ids);
    var ready := ReadyNodes(run.dag, ids);
    forall n | n in ready ensures n in run.dag && Runs(Refresh(run.dag), n) {
      RunsAfterRefresh(run.dag, n);
    }
    BudgetMonotone(run.dag, Refresh(run.dag), ids);
    ExecuteAllBudget(Run(Refresh(run.dag), run.log), ready, f, ids);
  }

  /** Nothing is left to run and a readiness pass would change nothing. */
  ghost predicate Quiescent(dag: Dag) {
    forall n {:trigger Idle(dag, n)} | n in dag :: Idle(dag, n)
  }

  ghost predicate Idle(dag: Dag, n: Id)
    requires n in dag
  {
    !Runs(dag, n) && Refreshed(dag, n) == dag[n]
  }

  lemma IdlePassQuiesces(dag: Dag, ids: seq<Id>)
    requires Sound(dag) && ToSet(ids) == dag.Keys && ReadyNodes(dag, ids) == []
    ensures Quiescent(Refresh(dag))
  {
    var dag' := Refresh(dag);
    RefreshKeeps(dag);
    forall n | n in dag' ensures Idle(dag', n) {
      assert n in ToSet(ids);
      assert !(n in ReadyNodes(dag, ids));
      assert !Runs(dag, n);
      if UpstreamBroken(dag', n) {
        var d :| d in dag'[n].dependencies && d in dag' && Broken(dag'[d]);
        assert d in dag[n].dependencies && Broken(dag[d]);
      }
    }
  }

  /** The loop ends by itself once its round limit exceeds the attempts there are. */
  lemma {:induction false} RunsToQuiescence(run: Run, ids: seq<Id>, f: Executor, limit: nat)
    requires Sound(run.dag) && Distinct(ids) && ToSet(ids) == run.dag.Keys
    requires limit > Budget(run.dag, ids)
    ensures Quiescent(Rounds(run, ids, f, limit).dag)
    decreases limit
  {
    hide Sound, Quiescent, Round, Refresh, ReadyNodes, Budget;
    if ReadyNodes(run.dag, ids) == [] {
      IdlePassQuiesces(run.dag, ids);
    } else {
      RoundBudget(run, ids, f);
      RunsToQuiescence(Round(run, ids, f), ids, f, limit - 1);
    }
  }

  /**
   No node is ever executed more often than its retry limit allows, finished nodes
   never change again, and every executor call saw its dependencies completed and
   received exactly their outputs.
   */
  lemma EveryRun(start: Dag, ids: seq<Id>, f: Executor, limit: nat, n: Id)
    requires Sound(start) && Distinct(ids) && n in start
    ensures var end := Rounds(Run(start, []), ids, f, limit);
      && Executions(end.log, n) <= Attempts(start[n])
      && (!Unfinished(start[n]) ==> end.dag[n] == start[n] && Executions(end.log, n) == 0)
      && WellSuppliedLog(start, end.log)
      && Sound(end.dag)
  {
    StartLegal(start);
    RoundsLegal(start, Run(start, []), ids, f, limit);
    assert NodeHistory(start, Rounds(Run(start, []), ids, f, limit).dag, Rounds(Run(start, []), ids, f, limit).log, n);
  }

  // ---------------------------------------------------------------- quiescence

  /** Following dependencies from `n` leads to a failed or blocked node (possibly `n` itself). */
  ghost predicate LeadsToBroken(dag: Dag, n: Id, w: seq<Id>) {
    && IsWalk(Dependencies(dag), w)
    && w[0] == n
    && w[|w| - 1] in dag && Broken(dag[w[|w| - 1]])
  }

  /** A cycle that is not completed as a whole; a table that was built here has no other. */
  ghost predicate OpenCycle(dag: Dag, cycle: seq<Id>) {
    IsCycle(Dependencies(dag), cycle) && exists m :: m in cycle && m in dag && !dag[m].status.Completed?
  }

  /** Following dependencies from `n` leads into such a cycle. */
  ghost predicate LeadsToCycle(dag: Dag, n: Id, w: seq<Id>, cycle: seq<Id>) {
    IsWalk(Dependencies(dag), w) && OpenCycle(dag, cycle) && w[0] == n && w[|w| - 1] == cycle[0]
  }

  /** Nodes that are not completed and lead to nothing broken. */
  ghost predicate Stuck(dag: Dag, m: Id) {
    m in dag && !dag[m].status.Completed? && forall w :: !LeadsToBroken(dag, m, w)
  }

  ghost function StuckNodes(dag: Dag): set<Id> {
    set m | m in dag && Stuck(dag, m)
  }

  lemma BrokenHere(dag: Dag, m: Id)
    requires m in dag && Broken(dag[m])
    ensures LeadsToBroken(dag, m, [m])
  {
  }

  lemma BrokenFurther(dag: Dag, m: Id, d: Id, w: seq<Id>)
    requires m in dag && d in dag[m].dependencies && LeadsToBroken(dag, d, w)
    ensures LeadsToBroken(dag, m, [m] + w)
  {
    assert d in Dependencies(dag)[m];
  }

  /** In a quiet table such a node waits for another one. */
  lemma StuckWaits(dag: Dag, m: Id)
    requires Sound(dag) && Quiescent(dag) && Stuck(dag, m)
    ensures Waits(Dependencies(dag), StuckNodes(dag), m)
  {
    hide LeadsToBroken;
    assert SoundNode(dag, m) && Idle(dag, m);
    if Broken(dag[m]) {
      BrokenHere(dag, m);
      assert false;
    }
    if d :| d in dag[m].dependencies && d in dag && Broken(dag[d]) {
      BrokenHere(dag, d);
      BrokenFurther(dag, m, d, [d]);
      assert false;
    }
    var d :| d in dag[m].dependencies && d in dag && !dag[d].status.Completed?;
    forall w ensures !LeadsToBroken(dag, d, w) {
      if LeadsToBroken(dag, d, w) {
        BrokenFurther(dag, m, d, w);
        assert false;
      }
    }
    assert d in Dependencies(dag)[m] && d in StuckNodes(dag);
  }

  lemma OpenInside(dag: Dag, cycle: seq<Id>, stuck: set<Id>)
    requires IsCycle(Dependencies(dag), cycle) && stuck == StuckNodes(dag) && forall m | m in cycle :: m in stuck
    ensures OpenCycle(dag, cycle)
  {
    assert cycle[0] in cycle;
  }

  /** A node that is not completed once the run is quiet has a broken node to blame, or a cycle. */
  lemma SomeoneToBlame(dag: Dag, n: Id) returns (w: seq<Id>, cycle: seq<Id>)
    requires Sound(dag) && Quiescent(dag) && n in dag && !dag[n].status.Completed?
    ensures LeadsToBroken(dag, n, w) || LeadsToCycle(dag, n, w, cycle)
  {
    hide Sound, Quiescent, LeadsToBroken, Waits, IsWalk, IsCycle;
    if w' :| LeadsToBroken(dag, n, w') {
      w, cycle := w', [];
    } else {
      var g, stuck := Dependencies(dag), StuckNodes(dag);
      forall m | m in stuck ensures Waits(g, stuck, m) {
        StuckWaits(dag, m);
      }
      w, cycle := WalkIntoCycle(g, stuck, n);
      OpenInside(dag, cycle, stuck);
    }
  }

  lemma {:induction false} CompletedAllTheWay(dag: Dag, w: seq<Id>)
    requires Sound(dag) && IsWalk(Dependencies(dag), w)
    requires dag[w[0]].status.Completed?
    ensures dag[w[|w| - 1]].status.Completed?
    decreases |w|
  {
    if |w| > 1 {
      assert SoundNode(dag, w[0]);
      assert w[1] in Dependencies(dag)[w[0]];
      CompletedAllTheWay(dag, w[1..]);
    }
  }

  lemma CompletedReachesNone(dag: Dag, n: Id, w: seq<Id>, cycle: seq<Id>)
    requires Sound(dag) && n in dag && dag[n].status.Completed?
    ensures !LeadsToCycle(dag, n, w, cycle)
  {
    if LeadsToCycle(dag, n, w, cycle) {
      CompletedAllTheWay(dag, w);
      var m :| m in cycle && m in dag && !dag[m].status.Completed?;
      var i :| 0 <= i < |cycle| && cycle[i] == m;
      assert IsWalk(Dependencies(dag), cycle[..i + 1]);
      CompletedAllTheWay(dag, cycle[..i + 1]);
    }
  }

  /**
   The quiescence theorem: when a run has gone quiet, a node is completed exactly when
   neither a failed or blocked node nor a cycle can be reached from it, at any distance.
   */
  lemma QuiescenceVerdict(dag: Dag, n: Id)
    requires Sound(dag) && Quiescent(dag) && n in dag
    ensures dag[n].status.Completed? <==>
      (forall w :: !LeadsToBroken(dag, n, w)) && (forall w, cycle :: !LeadsToCycle(dag, n, w, cycle))
  {
    hide Sound, Quiescent, LeadsToCycle;
    if dag[n].status.Completed? {
      forall w ensures !LeadsToBroken(dag, n, w) {
        if LeadsToBroken(dag, n, w) {
          CompletedAllTheWay(dag, w);
        }
      }
      forall w, cycle ensures !LeadsToCycle(dag, n, w, cycle) {
        CompletedReachesNone(dag, n, w, cycle);
      }
    } else {
      var w, cycle := SomeoneToBlame(dag, n);
    }
  }

  /** A walk from one completion of a run to another leads from a later to an earlier one. */
  lemma {:induction false} CompletionsDescend(start: Dag, done: seq<Id>, w: seq<Id>, p: nat, q: nat)
    requires Sound(start) && OrderlyCompletions(start, done) && IsWalk(Dependencies(start), w) && |w| > 1
    requires p < |done| && done[p] == w[0] && q < |done| && done[q] == w[|w| - 1]
    ensures q < p
    decreases |w|
  {
    assert w[1] in Dependencies(start)[w[0]];
    assert IsWalk(Dependencies(start), w[1..]);
    assert done[q] in done;
    if start[w[1]].status.Completed? {
      CompletedAllTheWay(start, w[1..]);
      assert false;
    } else {
      assert w[1] in done[..p];
      var r :| 0 <= r < p && done[r] == w[1];
      if |w| > 2 {
        CompletionsDescend(start, done, w[1..], r, q);
      }
    }
  }

  /** No run completes a cycle that is open at first, and none comes up. */
  lemma CyclesStayOpen(start: Dag, run: Run, cycle: seq<Id>)
    requires Sound(start) && Legal(start, run)
    ensures OpenCycle(run.dag, cycle) <==> OpenCycle(start, cycle)
  {
    hide Sound, WellSuppliedLog, OrderlyCompletions;
    EvolvedGraph(start, run.dag);
    var done := Completions(run.log);
    if OpenCycle(start, cycle) {
      var n :| n in cycle && n in start && !start[n].status.Completed?;
      assert NodeHistory(start, run.dag, run.log, n);
      if n in done {
        var p :| 0 <= p < |done| && done[p] == n;
        var turned := Turned(Dependencies(start), cycle, n);
        CompletionsDescend(start, done, turned, p, p);
        assert false;
      }
    }
  }

  lemma EvolvedGraph(a: Dag, b: Dag)
    requires Evolves(a, b)
    ensures Dependencies(b) == Dependencies(a)
  {
    SameShapeSameGraph(a, b);
  }

  /** A cycle can be started at any of its nodes. */
  lemma Turned(g: Graph, w: seq<Id>, n: Id) returns (turned: seq<Id>)
    requires IsCycle(g, w) && n in w
    ensures IsCycle(g, turned) && turned[0] == n
  {
    var i :| 0 <= i < |w| && w[i] == n;
    if i == 0 {
      turned := w;
    } else {
      turned := w[i..] + w[1..i + 1];
      assert turned[|turned| - 1] == w[i];
    }
  }

  /**
   Every run with enough rounds, cycles or not: a node ends completed exactly when
   neither a failed or blocked node nor a cycle can be reached from it; so in an acyclic
   table all nodes complete unless something failed or was blocked.
   */
  lemma EveryLongRun(start: Dag, ids: seq<Id>, f: Executor, limit: nat, n: Id)
    requires WellFormed(start, ids) && Sound(start) && limit > Budget(start, ids) && n in start
    ensures var end := Rounds(Run(start, []), ids, f, limit).dag;
      && Dependencies(end) == Dependencies(start)
      && (end[n].status.Completed? <==>
            (forall w :: !LeadsToBroken(end, n, w)) && (forall w, cycle :: !LeadsToCycle(start, n, w, cycle)))
      && ((forall m | m in end :: !Broken(end[m])) && Acyclic(Dependencies(start)) ==> end[n].status.Completed?)
  {
    hide Rounds, Sound, Evolves, History, Quiescent, Budget;
    var run := Rounds(Run(start, []), ids, f, limit);
    StartLegal(start);
    RoundsLegal(start, Run(start, []), ids, f, limit);
    EvolvedGraph(start, run.dag);
    RunsToQuiescence(Run(start, []), ids, f, limit);
    QuiescenceVerdict(run.dag, n);
    forall w, cycle ensures LeadsToCycle(run.dag, n, w, cycle) == LeadsToCycle(start, n, w, cycle) {
      CyclesStayOpen(start, run, cycle);
    }
  }

  lemma OrderlyIsDependenciesFirst(start: Dag, done: seq<Id>)
    requires OrderlyCompletions(start, done) && forall n | n in start :: !start[n].status.Completed?
    ensures Distinct(done) && DependenciesFirst(Dependencies(start), done) && forall n | n in done :: n in start
  {
    var g := Dependencies(start);
    forall i, d | 0 <= i < |done| && done[i] in g && d in g[done[i]] ensures d in done[..i] {
      var n := done[i];
      assert g[n] == start[n].dependencies;
      assert d in start[done[i]].dependencies;
      assert d in start;
    }
  }

  /** A run that completes everything has completed it in a topological order. */
  lemma CompletionOrder(start: Dag, ids: seq<Id>, f: Executor, limit: nat)
    requires WellFormed(start, ids) && Sound(start) && forall n | n in start :: !start[n].status.Completed?
    ensures
      var end := Rounds(Run(start, []), ids, f, limit);
      var done := Completions(end.log);
      && Distinct(done) && DependenciesFirst(Dependencies(start), done)
      && (forall n :: n in done <==> n in start && end.dag[n].status.Completed?)
      && ((forall n | n in start :: end.dag[n].status.Completed?) ==> IsTopological(Dependencies(start), done))
  {
    hide Rounds, Sound, Evolves, Completions, OrderlyCompletions, DependenciesFirst, WellSuppliedLog;
    var end := Rounds(Run(start, []), ids, f, limit);
    StartLegal(start);
    RoundsLegal(start, Run(start, []), ids, f, limit);
    forall n | n in start ensures n in Completions(end.log) <==> end.dag[n].status.Completed? {
      assert NodeHistory(start, end.dag, end.log, n);
    }
    OrderlyIsDependenciesFirst(start, Completions(end.log));
  }

  // ---------------------------------------------------------------- levels

  /** An executor that always reports success. */
  ghost predicate AlwaysSucceeds(f: Executor) {
    forall n, context, log :: Completes(f(n, context, log))
  }

  /** Exactly the nodes below level `k` are completed; the others still wait. */
  ghost predicate CompletedBelow(dag: Dag, level: map<Id, nat>, k: nat) {
    && level.Keys == dag.Keys
    && forall n {:trigger CompletedIffBelow(dag, level, k, n)} | n in dag :: CompletedIffBelow(dag, level, k, n)
  }

  ghost predicate CompletedIffBelow(dag: Dag, level: map<Id, nat>, k: nat, n: Id)
    requires level.Keys == dag.Keys && n in dag
  {
    if level[n] < k then dag[n].status.Completed? else Unfinished(dag[n])
  }

  lemma RunsAtLevel(dag: Dag, level: map<Id, nat>, k: nat, n: Id)
    requires IsLevelling(Dependencies(dag), level) && CompletedBelow(dag, level, k)
    ensures Runs(dag, n) <==> n in dag && level[n] == k
  {
    var g := Dependencies(dag);
    if n in dag {
      assert CompletedIffBelow(dag, level, k, n);
      forall d | d in dag[n].dependencies
        ensures d in dag && level[d] < level[n] && CompletedIffBelow(dag, level, k, d)
      {
        assert d in g[n];
      }
      if Runs(dag, n) && level[n] > 0 {
        assert RestsOn(g, level, n);
        var d :| d in g[n] && d in g && level[d] + 1 == level[n];
        assert CompletedIffBelow(dag, level, k, d);
      }
    }
  }

  /** Levels have no gaps: an empty level is followed by empty levels only. */
  lemma {:induction false} NoGap(g: Graph, level: map<Id, nat>, k: nat, n: Id)
    requires IsLevelling(g, level) && n in g && forall m | m in g :: level[m] != k
    ensures level[n] < k
    decreases level[n]
  {
    if level[n] > k {
      assert RestsOn(g, level, n);
      var d :| d in g[n] && d in g && level[d] + 1 == level[n];
      NoGap(g, level, k, d);
    }
  }

  lemma {:induction false} ExecuteAllCompletes(run: Run, ns: seq<Id>, f: Executor)
    requires AlwaysSucceeds(f) && forall n | n in ns :: n in run.dag
    ensures var dag := ExecuteAll(run, ns, f).dag; forall n | n in run.dag ::
      if n in ns then dag[n].status.Completed? else dag[n] == run.dag[n]
    decreases ns
  {
    if ns != [] {
      var next := Execute(run, ns[0], f);
      assert next.dag[ns[0]].status.Completed?;
      ExecuteAllCompletes(next, ns[1..], f);
      assert forall n :: n in ns <==> n == ns[0] || n in ns[1..];
    }
  }

  lemma NeverSkipped(dag: Dag, level: map<Id, nat>, k: nat, n: Id)
    requires CompletedBelow(dag, level, k) && n in dag
    ensures !UpstreamBroken(dag, n)
  {
    forall d | d in dag[n].dependencies && d in dag ensures !Broken(dag[d]) {
      assert CompletedIffBelow(dag, level, k, d);
    }
  }

  lemma RoundClimbs(run: Run, ids: seq<Id>, f: Executor, level: map<Id, nat>, k: nat)
    requires WellFormed(run.dag, ids) && AlwaysSucceeds(f)
    requires IsLevelling(Dependencies(run.dag), level) && CompletedBelow(run.dag, level, k)
    ensures CompletedBelow(Round(run, ids, f).dag, level, k + 1)
  {
    var ready, dag := ReadyNodes(run.dag, ids), Refresh(run.dag);
    ExecuteAllCompletes(Run(dag, run.log), ready, f);
    var end := Round(run, ids, f).dag;
    forall n | n in end ensures CompletedIffBelow(end, level, k + 1, n) {
      RunsAtLevel(run.dag, level, k, n);
      assert CompletedIffBelow(run.dag, level, k, n);
      assert n in ready <==> n in ToSet(ids) && Runs(run.dag, n);
      NeverSkipped(run.dag, level, k, n);
    }
  }

  lemma {:induction false} ExecuteAllShape(run: Run, ns: seq<Id>, f: Executor)
    requires forall n | n in ns :: n in run.dag
    ensures SameShape(run.dag, ExecuteAll(run, ns, f).dag)
    decreases ns
  {
    if ns != [] {
      ExecuteAllShape(Execute(run, ns[0], f), ns[1..], f);
    }
  }

  lemma RoundKeepsTable(run: Run, ids: seq<Id>, f: Executor)
    requires WellFormed(run.dag, ids)
    ensures WellFormed(Round(run, ids, f).dag, ids)
    ensures Dependencies(Round(run, ids, f).dag) == Dependencies(run.dag)
  {
    ExecuteAllShape(Run(Refresh(run.dag), run.log), ReadyNodes(run.dag, ids), f);
    SameShapeSameGraph(run.dag, Round(run, ids, f).dag);
  }

  /**
   Level progress: with an executor that always succeeds, `rounds` more rounds
   complete exactly `rounds` more levels.
   */
  lemma {:induction false} LevelProgress(
    run: Run, ids: seq<Id>, f: Executor, level: map<Id, nat>, k: nat, rounds: nat, top: nat)
    requires WellFormed(run.dag, ids) && AlwaysSucceeds(f)
    requires IsLevelling(Dependencies(run.dag), level) && CompletedBelow(run.dag, level, k)
    requires top == k + rounds
    ensures CompletedBelow(Rounds(run, ids, f, rounds).dag, level, top)
    decreases rounds
  {
    hide WellFormed, AlwaysSucceeds, IsLevelling, CompletedBelow, Round, ReadyNodes, Dependencies, Refresh;
    if rounds > 0 && ReadyNodes(run.dag, ids) == [] {
      assert CompletedBelow(Rounds(run, ids, f, rounds).dag, level, top) by {
        NothingReadyMeansDone(run.dag, ids, level, k, top);
      }
    } else if rounds > 0 {
      assert CompletedBelow(Rounds(run, ids, f, rounds).dag, level, top) by {
        RoundClimbs(run, ids, f, level, k);
        RoundKeepsTable(run, ids, f);
        LevelProgress(Round(run, ids, f), ids, f, level, k + 1, rounds - 1, top);
      }
    }
  }

  lemma NothingReadyMeansDone(dag: Dag, ids: seq<Id>, level: map<Id, nat>, k: nat, k': nat)
    requires WellFormed(dag, ids) && ReadyNodes(dag, ids) == []
    requires IsLevelling(Dependencies(dag), level) && CompletedBelow(dag, level, k) && k <= k'
    ensures CompletedBelow(Refresh(dag), level, k')
  {
    forall n | n in dag ensures level[n] != k {
      RunsAtLevel(dag, level, k, n);
      assert n in ToSet(ids);
      assert n !in ReadyNodes(dag, ids);
    }
    forall n | n in dag ensures CompletedIffBelow(Refresh(dag), level, k', n) {
      NoGap(Dependencies(dag), level, k, n);
      assert CompletedIffBelow(dag, level, k, n);
    }
  }

  /**
   With an always successful executor, a valid table of waiting nodes is completed
   as soon as the round limit reaches its number of levels, and not before.
   */
  lemma SuccessNeedsItsLevels(start: Dag, ids: seq<Id>, f: Executor, level: map<Id, nat>, limit: nat)
    requires WellFormed(start, ids) && AlwaysSucceeds(f) && IsLevelling(Dependencies(start), level)
    requires forall n | n in start :: Unfinished(start[n])
    ensures
      var end := Rounds(Run(start, []), ids, f, limit).dag;
      (forall n | n in start :: end[n].status.Completed?) <==> (forall n | n in start :: level[n] < limit)
  {
    forall n | n in start ensures CompletedIffBelow(start, level, 0, n) {
    }
    LevelProgress(Run(start, []), ids, f, level, 0, limit, limit);
    var end := Rounds(Run(start, []), ids, f, limit).dag;
    assert forall n | n in end :: CompletedIffBelow(end, level, limit, n);
  }
}
