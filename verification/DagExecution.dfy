/**
 The round-based executor as a function on node tables. A run is a node table plus
 the log of executor calls; the executor is any function of the node it is called
 on, the outputs handed to it, and everything that happened before.
 */
module DagExecution {
  import opened Sequences
  import opened DependencyGraph

  datatype Status = Pending | Ready | Running | Completed | Failed | Blocked | Skipped

  type Value = string

  datatype Node = Node(dependencies: seq<Id>, status: Status, retries: int, maxRetries: int, outputs: Value)

  type Dag = map<Id, Node>

  /**
   What one executor call came to: it raised (before or after returning), or it
   returned a report with its `blocked`, `success` and `error` entries and the
   value the branch taken stores as the node's outputs.
   */
  datatype Outcome = Raised | Returned(blocked: bool, success: bool, error: bool, outputs: Value)

  datatype Event = Event(node: Id, context: map<Id, Value>, outcome: Outcome)

  type Executor = (Id, map<Id, Value>, seq<Event>) -> Outcome

  datatype Run = Run(dag: Dag, log: seq<Event>)

  function Dependencies(dag: Dag): Graph {
    map n | n in dag :: dag[n].dependencies
  }

  predicate KnownDependencies(dag: Dag) {
    forall n, d | n in dag && d in dag[n].dependencies :: d in dag
  }

  ghost predicate WellFormed(dag: Dag, ids: seq<Id>) {
    Distinct(ids) && ToSet(ids) == dag.Keys && KnownDependencies(dag)
  }

  predicate Unfinished(node: Node) {
    node.status.Pending? || node.status.Ready?
  }

  predicate Broken(node: Node) {
    node.status.Failed? || node.status.Blocked?
  }

  predicate UpstreamBroken(dag: Dag, n: Id)
    requires n in dag
  {
    exists d | d in dag[n].dependencies :: d in dag && Broken(dag[d])
  }

  predicate UpstreamCompleted(dag: Dag, n: Id)
    requires n in dag
  {
    forall d | d in dag[n].dependencies :: d in dag && dag[d].status.Completed?
  }

  /** One node under the readiness pass. */
  function Refreshed(dag: Dag, n: Id): Node
    requires n in dag
  {
    if !Unfinished(dag[n]) then dag[n]
    else if UpstreamBroken(dag, n) then dag[n].(status := Skipped)
    else if UpstreamCompleted(dag, n) then dag[n].(status := Ready)
    else dag[n]
  }

  function Refresh(dag: Dag): Dag {
    map n | n in dag :: Refreshed(dag, n)
  }

  predicate Runs(dag: Dag, n: Id) {
    n in dag && Unfinished(dag[n]) && !UpstreamBroken(dag, n) && UpstreamCompleted(dag, n)
  }

  /** The dependency at `k` names no node, and none before it does so or is broken. */
  predicate TripsAt(dag: Dag, n: Id, k: nat)
    requires n in dag
  {
    && k < |dag[n].dependencies| && dag[n].dependencies[k] !in dag
    && forall j | 0 <= j < k :: dag[n].dependencies[j] in dag && !Broken(dag[dag[n].dependencies[j]])
  }

  /** The readiness pass raises a key error at such a node. */
  predicate Stops(dag: Dag, n: Id) {
    n in dag && Unfinished(dag[n]) && exists k | 0 <= k < |dag[n].dependencies| :: TripsAt(dag, n, k)
  }

  ghost predicate NothingStops(dag: Dag) {
    forall n | n in dag :: !Stops(dag, n)
  }

  predicate Supplied(dag: Dag, n: Id) {
    n in dag && forall d | d in dag[n].dependencies :: d in dag
  }

  /** Every node that may still run has nodes for all its dependencies. */
  ghost predicate UnfinishedSupplied(dag: Dag) {
    forall n | n in dag && Unfinished(dag[n]) :: Supplied(dag, n)
  }

  lemma SuppliedNeverStops(dag: Dag)
    requires UnfinishedSupplied(dag)
    ensures NothingStops(dag)
  {
  }

  /** A node without a broken dependency but with a missing one trips on the first such. */
  lemma {:induction false} FirstTrip(dag: Dag, n: Id, upto: nat)
    requires n in dag && upto <= |dag[n].dependencies| && !UpstreamBroken(dag, n)
    requires exists k | 0 <= k < upto :: dag[n].dependencies[k] !in dag
    ensures exists k | 0 <= k < |dag[n].dependencies| :: TripsAt(dag, n, k)
    decreases upto
  {
    var k :| 0 <= k < upto && dag[n].dependencies[k] !in dag;
    if exists j | 0 <= j < k :: dag[n].dependencies[j] !in dag {
      FirstTrip(dag, n, k);
    } else {
      assert TripsAt(dag, n, k);
    }
  }

  /** If the pass raises nowhere, it leaves no node to run that has a missing dependency. */
  lemma PassedIsSupplied(dag: Dag)
    requires NothingStops(dag)
    ensures UnfinishedSupplied(Refresh(dag))
  {
    var dag' := Refresh(dag);
    forall n | n in dag' && Unfinished(dag'[n]) ensures Supplied(dag', n) {
      if d :| d in dag[n].dependencies && d !in dag {
        var k :| 0 <= k < |dag[n].dependencies| && dag[n].dependencies[k] == d;
        FirstTrip(dag, n, |dag[n].dependencies|);
        assert Stops(dag, n);
      }
    }
  }

  lemma ExecuteSuppliedStill(run: Run, n: Id, f: Executor)
    requires UnfinishedSupplied(run.dag) && Supplied(run.dag, n)
    ensures UnfinishedSupplied(Execute(run, n, f).dag)
    ensures forall m | Supplied(run.dag, m) :: Supplied(Execute(run, n, f).dag, m)
  {
    var dag' := Execute(run, n, f).dag;
    assert SameShape(run.dag, dag');
    forall m | Supplied(run.dag, m) ensures Supplied(dag', m) {
    }
    forall m | m in dag' && Unfinished(dag'[m]) ensures Supplied(dag', m) {
      assert Supplied(run.dag, m);
    }
  }

  /** The nodes a readiness pass hands to the executor, in table order. */
  function ReadyNodes(dag: Dag, ids: seq<Id>): (ready: seq<Id>)
    ensures forall n {:trigger n in ready} :: n in ready <==> n in ids && Runs(dag, n)
  {
    if ids == [] then []
    else
      var front := ReadyNodes(dag, ids[..|ids| - 1]);
      assert ids == ids[..|ids| - 1] + [ids[|ids| - 1]];
      if Runs(dag, ids[|ids| - 1]) then front + [ids[|ids| - 1]] else front
  }

  function Retry(node: Node): Node {
    if node.retries < node.maxRetries then node.(retries := node.retries + 1, status := Ready)
    else node.(status := Failed)
  }

  function Settle(node: Node, outcome: Outcome): Node {
    match outcome
    case Raised => Retry(node)
    case Returned(blocked, success, error, outputs) =>
      if blocked then node.(status := Blocked, outputs := outputs)
      else if success && !error then node.(status := Completed, outputs := outputs)
      else Retry(node.(outputs := outputs))
  }

  predicate Completes(outcome: Outcome) {
    outcome.Returned? && !outcome.blocked && outcome.success && !outcome.error
  }

  /** What the parents of a node hand to it. */
  function ContextOf(dag: Dag, n: Id): map<Id, Value>
    requires n in dag
  {
    map d | d in dag[n].dependencies && d in dag :: dag[d].outputs
  }

  function Execute(run: Run, n: Id, f: Executor): Run
    requires n in run.dag
  {
    var context := ContextOf(run.dag, n);
    var outcome := f(n, context, run.log);
    Run(run.dag[n := Settle(run.dag[n], outcome)], run.log + [Event(n, context, outcome)])
  }

  /** Same nodes with the same dependencies and retry limits. */
  ghost predicate SameShape(a: Dag, b: Dag) {
    && a.Keys == b.Keys
    && (forall n {:trigger b[n].dependencies} | n in a :: a[n].dependencies == b[n].dependencies)
    && (forall n {:trigger b[n].maxRetries} | n in a :: a[n].maxRetries == b[n].maxRetries)
  }

  lemma SameShapeSameGraph(a: Dag, b: Dag)
    requires SameShape(a, b)
    ensures Dependencies(a) == Dependencies(b)
    ensures KnownDependencies(a) ==> KnownDependencies(b)
  {
    forall n, d | n in b && d in b[n].dependencies && KnownDependencies(a) ensures d in b {
      assert d in a[n].dependencies;
    }
  }

  function ExecuteAll(run: Run, ns: seq<Id>, f: Executor): (r: Run)
    requires forall n | n in ns :: n in run.dag
    ensures r.dag.Keys == run.dag.Keys
    decreases ns
  {
    if ns == [] then run else ExecuteAll(Execute(run, ns[0], f), ns[1..], f)
  }

  function Round(run: Run, ids: seq<Id>, f: Executor): (r: Run)
    ensures r.dag.Keys == run.dag.Keys
  {
    ExecuteAll(Run(Refresh(run.dag), run.log), ReadyNodes(run.dag, ids), f)
  }

  /** At most `limit` rounds, stopping early when a readiness pass finds nothing to run. */
  function Rounds(run: Run, ids: seq<Id>, f: Executor, limit: nat): (r: Run)
    ensures r.dag.Keys == run.dag.Keys
    decreases limit
  {
    if limit == 0 then run
    else if ReadyNodes(run.dag, ids) == [] then Run(Refresh(run.dag), run.log)
    else Rounds(Round(run, ids, f), ids, f, limit - 1)
  }

  // ---------------------------------------------------------------- what every step keeps

  /**
   The invariant of a run: nothing is mid-execution, a completed node had all its
   dependencies completed, a skipped node has a failed or blocked direct dependency.
   */
  ghost predicate Sound(dag: Dag) {
    && KnownDependencies(dag)
    && forall n {:trigger SoundNode(dag, n)} | n in dag :: SoundNode(dag, n)
  }

  ghost predicate SoundNode(dag: Dag, n: Id)
    requires n in dag
  {
    && !dag[n].status.Running?
    && (dag[n].status.Completed? ==> UpstreamCompleted(dag, n))
    && (dag[n].status.Skipped? ==> UpstreamBroken(dag, n))
  }

  /** Finished nodes stay exactly as they are. */
  ghost predicate Evolves(a: Dag, b: Dag) {
    SameShape(a, b) && forall n | n in a && !Unfinished(a[n]) :: b[n] == a[n]
  }

  lemma RefreshKeeps(dag: Dag)
    requires Sound(dag)
    ensures Sound(Refresh(dag)) && Evolves(dag, Refresh(dag))
  {
    var dag' := Refresh(dag);
    SameShapeSameGraph(dag, dag');
    forall n | n in dag ensures SoundNode(dag', n) {
      assert SoundNode(dag, n);
      if UpstreamBroken(dag, n) {
        var d :| d in dag[n].dependencies && d in dag && Broken(dag[d]);
        assert dag'[d] == dag[d];
      }
    }
  }

  lemma ExecuteKeeps(run: Run, n: Id, f: Executor)
    requires Sound(run.dag) && Runs(run.dag, n)
    ensures var run' := Execute(run, n, f); Sound(run'.dag) && Evolves(run.dag, run'.dag)
    ensures forall m | m != n && Runs(run.dag, m) :: Runs(Execute(run, n, f).dag, m)
  {
    var dag, dag' := run.dag, Execute(run, n, f).dag;
    SameShapeSameGraph(dag, dag');
    forall m | m in dag
      ensures SoundNode(dag', m)
      ensures UpstreamCompleted(dag, m) ==> UpstreamCompleted(dag', m)
    {
      assert SoundNode(dag, m);
      if UpstreamBroken(dag, m) {
        var d :| d in dag[m].dependencies && d in dag && Broken(dag[d]);
        assert dag'[d] == dag[d];
      }
    }
  }

  // ---------------------------------------------------------------- history

  /** The nodes completed by the logged calls, in order. */
  ghost function Completions(log: seq<Event>): seq<Id> {
    if log == [] then []
    else
      var last := log[|log| - 1];
      Completions(log[..|log| - 1]) + if Completes(last.outcome) then [last.node] else []
  }

  ghost function Executions(log: seq<Event>, n: Id): nat {
    if log == [] then 0
    else Executions(log[..|log| - 1], n) + if log[|log| - 1].node == n then 1 else 0
  }

  /** The outputs `n` last completed with, or those it had to begin with. */
  ghost function Delivered(start: Dag, log: seq<Event>, n: Id): Value
    requires n in start
  {
    if log == [] then start[n].outputs
    else
      var last := log[|log| - 1];
      if last.node == n && Completes(last.outcome) then last.outcome.outputs
      else Delivered(start, log[..|log| - 1], n)
  }

  /** How often the executor may still be called for a node. */
  ghost function Attempts(node: Node): nat {
    if !Unfinished(node) then 0 else if node.retries < node.maxRetries then node.maxRetries - node.retries + 1 else 1
  }

  ghost predicate CompletedBy(start: Dag, log: seq<Event>, n: Id) {
    n in start && (start[n].status.Completed? || n in Completions(log))
  }

  /** A call was made with every dependency completed, and was handed exactly the outputs they completed with. */
  ghost predicate WellSupplied(start: Dag, before: seq<Event>, e: Event) {
    && e.node in start
    && e.context.Keys == ToSet(start[e.node].dependencies)
    && forall d | d in start[e.node].dependencies ::
      CompletedBy(start, before, d) && e.context[d] == Delivered(start, before, d)
  }

  /** Completions never repeat and follow the dependencies. */
  ghost predicate OrderlyCompletions(start: Dag, done: seq<Id>) {
    && Distinct(done)
    && (forall n | n in done :: n in start && !start[n].status.Completed?)
    && forall i, d | 0 <= i < |done| && d in start[done[i]].dependencies ::
      d in start && (d in done[..i] || start[d].status.Completed?)
  }

  /** What the log says about one node of the table it led to. */
  ghost predicate NodeHistory(start: Dag, dag: Dag, log: seq<Event>, n: Id)
    requires n in start && n in dag
  {
    && (dag[n].status.Completed? <==> CompletedBy(start, log, n))
    && (dag[n].status.Completed? ==> dag[n].outputs == Delivered(start, log, n))
    && Executions(log, n) + Attempts(dag[n]) <= Attempts(start[n])
  }

  ghost predicate WellSuppliedLog(start: Dag, log: seq<Event>) {
    forall i | 0 <= i < |log| :: WellSupplied(start, log[..i], log[i])
  }

  ghost predicate History(start: Dag, run: Run) {
    && start.Keys == run.dag.Keys
    && (forall n | n in start :: NodeHistory(start, run.dag, run.log, n))
    && OrderlyCompletions(start, Completions(run.log))
    && WellSuppliedLog(start, run.log)
  }

  /** Every state of every run satisfies this. */
  ghost predicate Legal(start: Dag, run: Run) {
    Sound(run.dag) && Evolves(start, run.dag) && History(start, run)
  }

  lemma EvolvesTransitive(a: Dag, b: Dag, c: Dag)
    requires Evolves(a, b) && Evolves(b, c)
    ensures Evolves(a, c)
  {
  }

  lemma RefreshLegal(start: Dag, run: Run)
    requires Legal(start, run)
    ensures Legal(start, Run(Refresh(run.dag), run.log))
  {
    RefreshKeeps(run.dag);
    EvolvesTransitive(start, run.dag, Refresh(run.dag));
    RefreshHistory(start, run);
  }

  lemma RefreshHistory(start: Dag, run: Run)
    requires History(start, run)
    ensures History(start, Run(Refresh(run.dag), run.log))
  {
    forall n | n in start ensures NodeHistory(start, Refresh(run.dag), run.log, n) {
      assert NodeHistory(start, run.dag, run.log, n);
    }
  }

  lemma OrderlyGrows(start: Dag, done: seq<Id>, n: Id)
    requires OrderlyCompletions(start, done)
    requires n in start && n !in done && !start[n].status.Completed?
    requires forall d | d in start[n].dependencies :: d in start && (d in done || start[d].status.Completed?)
    ensures OrderlyCompletions(start, done + [n])
  {
    var done' := done + [n];
    forall i, d | 0 <= i < |done'| && d in start[done'[i]].dependencies
      ensures d in start && (d in done'[..i] || start[d].status.Completed?)
    {
      assert done'[..i] == done[..i];
    }
  }

  lemma WellSuppliedGrows(start: Dag, log: seq<Event>, e: Event)
    requires WellSuppliedLog(start, log) && WellSupplied(start, log, e)
    ensures WellSuppliedLog(start, log + [e])
  {
    var log' := log + [e];
    forall i | 0 <= i < |log'| ensures WellSupplied(start, log'[..i], log'[i]) {
      assert log'[..i] == log[..i];
      if i == |log| {
        assert log[..i] == log;
      }
    }
  }

  lemma ExecuteNodeHistory(start: Dag, run: Run, n: Id, f: Executor, m: Id)
    requires KnownDependencies(run.dag) && n in run.dag && Unfinished(run.dag[n])
    requires m in start && m in run.dag && NodeHistory(start, run.dag, run.log, m)
    ensures NodeHistory(start, Execute(run, n, f).dag, Execute(run, n, f).log, m)
  {
    var run' := Execute(run, n, f);
    assert run'.log[..|run.log|] == run.log;
    var e := run'.log[|run.log|];
    assert run'.log[|run'.log| - 1] == e;
    assert m in Completions(run'.log) <==> m in Completions(run.log) || (m == n && Completes(e.outcome));
  }

  lemma ExecuteSupplied(start: Dag, run: Run, n: Id, f: Executor)
    requires Legal(start, run) && Runs(run.dag, n)
    ensures WellSupplied(start, run.log, Execute(run, n, f).log[|run.log|])
  {
    forall d | d in start[n].dependencies
      ensures d in run.dag && CompletedBy(start, run.log, d) && run.dag[d].outputs == Delivered(start, run.log, d)
    {
      assert d in run.dag[n].dependencies;
      assert NodeHistory(start, run.dag, run.log, d);
    }
  }

  lemma ExecuteLegal(start: Dag, run: Run, n: Id, f: Executor)
    requires Legal(start, run) && Runs(run.dag, n)
    ensures Legal(start, Execute(run, n, f))
  {
    var run' := Execute(run, n, f);
    ExecuteKeeps(run, n, f);
    EvolvesTransitive(start, run.dag, run'.dag);
    forall m | m in start ensures NodeHistory(start, run'.dag, run'.log, m) {
      ExecuteNodeHistory(start, run, n, f, m);
    }
    ExecuteSupplied(start, run, n, f);
    WellSuppliedGrows(start, run.log, run'.log[|run.log|]);
    assert NodeHistory(start, run.dag, run.log, n);
    OrderlyAppend(start, run.log, run'.log[|run.log|]);
  }

  lemma OrderlyAppend(start: Dag, log: seq<Event>, e: Event)
    requires OrderlyCompletions(start, Completions(log)) && WellSupplied(start, log, e)
    requires !CompletedBy(start, log, e.node)
    ensures OrderlyCompletions(start, Completions(log + [e]))
  {
    var done := Completions(log);
    assert (log + [e])[..|log|] == log;
    if Completes(e.outcome) {
      OrderlyGrows(start, done, e.node);
      assert Completions(log + [e]) == done + [e.node];
    } else {
      assert Completions(log + [e]) == done + [] == done;
    }
  }

  lemma {:induction false} ExecuteAllLegal(start: Dag, run: Run, ns: seq<Id>, f: Executor)
    requires Legal(start, run) && Distinct(ns) && forall n | n in ns :: n in run.dag && Runs(run.dag, n)
    ensures Legal(start, ExecuteAll(run, ns, f))
    decreases ns
  {
    if ns != [] {
      ExecuteKeeps(run, ns[0], f);
      ExecuteLegal(start, run, ns[0], f);
      assert forall n | n in ns[1..] :: n in ns && n != ns[0];
      ExecuteAllLegal(start, Execute(run, ns[0], f), ns[1..], f);
    }
  }

  lemma {:induction false} ReadyDistinct(dag: Dag, ids: seq<Id>)
    requires Distinct(ids)
    ensures Distinct(ReadyNodes(dag, ids))
  {
    if ids != [] {
      var front := ReadyNodes(dag, ids[..|ids| - 1]);
      ReadyDistinct(dag, ids[..|ids| - 1]);
      assert ids[|ids| - 1] !in front;
    }
  }

  lemma RunsAfterRefresh(dag: Dag, n: Id)
    requires Runs(dag, n)
    ensures Runs(Refresh(dag), n) && Refresh(dag)[n].status.Ready?
  {
  }

  lemma RoundLegal(start: Dag, run: Run, ids: seq<Id>, f: Executor)
    requires Legal(start, run) && Distinct(ids)
    ensures Legal(start, Round(run, ids, f))
  {
    hide Legal, ReadyNodes;
    RefreshLegal(start, run);
    ReadyDistinct(run.dag, ids);
    var ready := ReadyNodes(run.dag, ids);
    forall n | n in ready ensures Runs(Refresh(run.dag), n) {
      RunsAfterRefresh(run.dag, n);
    }
    ExecuteAllLegal(start, Run(Refresh(run.dag), run.log), ready, f);
  }

  /** Every run keeps the invariant, whatever the executor does. */
  lemma {:induction false} RoundsLegal(start: Dag, run: Run, ids: seq<Id>, f: Executor, limit: nat)
    requires Legal(start, run) && Distinct(ids)
    ensures Legal(start, Rounds(run, ids, f, limit))
    decreases limit
  {
    hide Legal, Round, Refresh, ReadyNodes;
    if limit > 0 {
      if ReadyNodes(run.dag, ids) == [] {
        RefreshLegal(start, run);
      } else {
        RoundLegal(start, run, ids, f);
        RoundsLegal(start, Round(run, ids, f), ids, f, limit - 1);
      }
    }
  }

  lemma StartLegal(start: Dag)
    requires Sound(start)
    ensures Legal(start, Run(start, []))
  {
  }
}
