/** The DAG object: nodes updated in place, sorted, and executed round by round. */
module AgentDag {
  import opened Sequences
  import opened DependencyGraph
  import opened DagExecution
  import Kahn = TopologicalSort

  class DagNode {
    const id: Id
    var dependencies: seq<Id>
    var status: Status
    var retries: int
    var maxRetries: int
    var outputs: Value

    constructor (id: Id, dependencies: seq<Id>, maxRetries: int)
      ensures this.id == id
      ensures State() == Node(dependencies, if dependencies == [] then Ready else Pending, 0, maxRetries, "")
    {
      this.id, this.dependencies, this.maxRetries := id, dependencies, maxRetries;
      status := if dependencies == [] then Ready else Pending;
      retries, outputs := 0, "";
    }

    function State(): Node
      reads this
    {
      Node(dependencies, status, retries, maxRetries, outputs)
    }

    /** Books one executor outcome on the node that is running. */
    method Book(outcome: Outcome)
      modifies this
      ensures State() == Settle(old(State()), outcome)
    {
      match outcome {
        case Raised =>
          if retries < maxRetries {
            retries, status := retries + 1, Ready;
          } else {
            status := Failed;
          }
        case Returned(blocked, success, error, value) =>
          outputs := value;
          if blocked {
            status := Blocked;
          } else if success && !error {
            status := Completed;
          } else if retries < maxRetries {
            retries, status := retries + 1, Ready;
          } else {
            status := Failed;
          }
      }
    }
  }

  datatype EdgeResult = Added | NoSuchParent | NoSuchChild

  datatype Summary = Summary(success: bool, total: nat, completed: nat, failed: nat, blocked: nat)

  datatype Execution = Finished(summary: Summary) | KeyError(dependency: Id)

  class AgentDAG {
    var nodes: map<Id, DagNode>
    var order: seq<Id>  // insertion order of the node dictionary

    ghost predicate Valid()
      reads this
    {
      && Distinct(order) && ToSet(order) == nodes.Keys
      && forall m, n | m in nodes && n in nodes && m != n :: nodes[m] != nodes[n]
    }

    function Table(): (t: Dag)
      reads this, nodes.Values
      ensures t.Keys == nodes.Keys
      ensures forall n | n in nodes :: t[n] == nodes[n].State()
    {
      map n | n in nodes :: nodes[n].State()
    }

    constructor ()
      ensures Valid() && nodes == map[] && order == []
    {
      nodes, order := map[], [];
    }

    method AddNode(id: Id, dependencies: seq<Id>, maxRetries: int) returns (node: DagNode)
      requires Valid()
      modifies this
      ensures Valid() && fresh(node) && nodes == old(nodes)[id := node]
      ensures order == if id in old(nodes) then old(order) else old(order) + [id]
      ensures node.State() == Node(dependencies, if dependencies == [] then Ready else Pending, 0, maxRetries, "")
    {
      node := new DagNode(id, dependencies, maxRetries);
      if id !in nodes {
        order := order + [id];
      }
      nodes := nodes[id := node];
    }

    /** Adds a dependency of `child` on `parent` once; statuses are left alone. */
    method AddEdge(parent: Id, child: Id) returns (r: EdgeResult)
      requires Valid()
      modifies nodes.Values
      ensures r.NoSuchParent? <==> parent !in nodes
      ensures r.NoSuchChild? <==> parent in nodes && child !in nodes
      ensures !r.Added? ==> Table() == old(Table())
      ensures r.Added? ==>
        var was := old(Table())[child];
        Table() == old(Table())[child := was.(dependencies :=
          if parent in was.dependencies then was.dependencies else was.dependencies + [parent])]
    {
      if parent !in nodes {
        return NoSuchParent;
      }
      if child !in nodes {
        return NoSuchChild;
      }
      if parent !in nodes[child].dependencies {
        nodes[child].dependencies := nodes[child].dependencies + [parent];
      }
      r := Added;
    }

    /** Orders the nodes level by level, or says which dependency is missing or that there is a cycle. */
    method TopologicalSort() returns (r: Kahn.SortResult)
      requires Valid()
      ensures var g := Dependencies(Table());
        && (r.Sorted? <==> Closed(g) && Acyclic(g))
        && (r.CycleDetected? <==> Closed(g) && !Acyclic(g))
        && (r.Sorted? ==> IsTopological(g, r.order))
        && (r.Sorted? ==> exists level :: IsLevelling(g, level) && Kahn.SortedByLevel(level, r.order))
        && (r.MissingDependency? ==> Kahn.FirstMissing(order, g, r.node, r.dependency))
    {
      r := Kahn.Sort(order, Dependencies(Table()));
    }

    method Validate() returns (ok: bool)
      requires Valid()
      ensures ok <==> Closed(Dependencies(Table())) && Acyclic(Dependencies(Table()))
    {
      var r := TopologicalSort();
      ok := r.Sorted?;
    }

    method SetStatus(id: Id, status: Status)
      requires Valid() && id in nodes
      modifies nodes[id]
      ensures Table() == old(Table())[id := old(Table())[id].(status := status)]
    {
      nodes[id].status := status;
    }

    /** Whether every dependency is completed, looked at in order up to the first that is not. */
    method AllCompleted(id: Id) returns (missing: Option<Id>, satisfied: bool)
      requires Valid() && id in nodes
      ensures missing.Some? ==> MissingAt(Table(), id, missing.value)
      ensures missing.None? ==> satisfied == UpstreamCompleted(Table(), id)
    {
      var deps := nodes[id].dependencies;
      for k := 0 to |deps|
        invariant forall j | 0 <= j < k :: deps[j] in nodes && nodes[deps[j]].status.Completed?
      {
        if deps[k] !in nodes {
          assert TripsAt(Table(), id, k);
          return Some(deps[k]), false;
        }
        if !nodes[deps[k]].status.Completed? {
          assert !Table()[deps[k]].status.Completed?;
          return None, false;
        }
      }
      missing, satisfied := None, true;
    }

    /** Whether some dependency is broken, looked at in order up to the first that is. */
    method AnyBroken(id: Id) returns (missing: Option<Id>, broken: bool)
      requires Valid() && id in nodes
      ensures missing.Some? ==> MissingAt(Table(), id, missing.value)
      ensures missing.None? ==> broken == UpstreamBroken(Table(), id)
      ensures missing.None? ==> forall k: nat :: !TripsAt(Table(), id, k)
    {
      var deps := nodes[id].dependencies;
      for k := 0 to |deps|
        invariant forall j | 0 <= j < k ::
          deps[j] in nodes && !nodes[deps[j]].status.Failed? && !nodes[deps[j]].status.Blocked?
      {
        if deps[k] !in nodes {
          assert TripsAt(Table(), id, k);
          return Some(deps[k]), false;
        }
        if nodes[deps[k]].status.Failed? || nodes[deps[k]].status.Blocked? {
          assert Broken(Table()[deps[k]]);
          return None, true;
        }
      }
      missing, broken := None, false;
    }

    /** One step of the readiness pass; `done` are the nodes it has visited. */
    method Visit(id: Id, ghost was: Dag, ghost done: seq<Id>) returns (missing: Option<Id>, runs: bool)
      requires Valid() && id in nodes && id !in done && Table() == PartlyRefreshed(was, done)
      modifies nodes[id]
      ensures missing.Some? <==> Stops(was, id)
      ensures missing.Some? ==> MissingAt(was, id, missing.value) && Table() == old(Table())
      ensures missing.None? ==> Table() == PartlyRefreshed(was, done)[id := Refreshed(was, id)] && runs == Runs(was, id)
    {
      hide TripsAt, UpstreamBroken, UpstreamCompleted, MissingAt;
      PassIsOrderFree(was, done, id);
      var node := nodes[id];
      assert node.State() == was[id];
      missing, runs := None, false;
      if node.status.Pending? || node.status.Ready? {
        var satisfied, broken;
        missing, satisfied := AllCompleted(id);
        if missing.Some? {
          MissingStops(was, done, id, missing.value);
          return;
        }
        missing, broken := AnyBroken(id);
        if missing.Some? {
          MissingStops(was, done, id, missing.value);
          return;
        }
        if broken {
          SetStatus(id, Skipped);
        } else if satisfied {
          SetStatus(id, Ready);
          runs := true;
        }
      }
    }

    /**
     The readiness pass: marks nodes in place and returns the ids of those to run, in table
     order. A dependency without a node can stop it on the way.
     */
    method GetReadyNodes() returns (missing: Option<Id>, ready: seq<Id>)
      requires Valid()
      modifies nodes.Values
      ensures missing.None? <==> NothingStops(old(Table()))
      ensures missing.None? ==> Table() == Refresh(old(Table())) && ready == ReadyNodes(old(Table()), order)
      ensures missing.Some? ==> StoppedPass(old(Table()), order, Table(), missing.value)
    {
      hide PartlyRefreshed, ReadyNodes, Refresh, Refreshed, Runs, ToSet, Distinct;
      hide Stops, MissingAt, NothingStops, StoppedPass;
      ghost var was := Table();
      PassBegins(was, order);
      ready := [];
      for i := 0 to |order|
        invariant Table() == PartlyRefreshed(was, order[..i])
        invariant ready == ReadyNodes(was, order[..i])
        invariant forall j | 0 <= j < i :: !Stops(was, order[j])
      {
        InTableOrder(order, i, nodes.Keys);
        var runs;
        missing, runs := Visit(order[i], was, order[..i]);
        if missing.Some? {
          StopsThere(was, order, i, missing.value);
          return;
        }
        assert Table() == PartlyRefreshed(was, order[..i + 1]) by {
          PassAdvances(was, order, i);
        }
        ReadyAdvances(was, order, i);
        if runs {
          ready := ready + [order[i]];
        }
      }
      missing := None;
      PassEnds(was, order);
    }

    /** Gathers what the parents hand over, dependency by dependency. */
    method ParentContext(id: Id) returns (context: map<Id, Value>)
      requires id in nodes && forall d | d in nodes[id].dependencies :: d in nodes
      ensures context == ContextOf(Table(), id)
    {
      var deps := nodes[id].dependencies;
      context := map[];
      for k := 0 to |deps|
        invariant context == map d | d in deps[..k] && d in nodes :: nodes[d].outputs
      {
        TakeOneMore(deps, k);
        context := context[deps[k] := nodes[deps[k]].outputs];
      }
      TakeAll(deps);
    }

    /** Executes one node and books the outcome; `was` is the run so far. */
    method RunNode(id: Id, f: Executor, log: seq<Event>, ghost was: Run) returns (log': seq<Event>)
      requires Valid() && Supplied(was.dag, id) && Table() == was.dag && log == was.log
      modifies nodes[id]
      ensures Table() == Execute(was, id, f).dag && log' == Execute(was, id, f).log
    {
      hide Execute, Settle, ContextOf;
      assert nodes[id].State() == was.dag[id];
      RunningIsTransient(was, id, f);
      SetStatus(id, Running);
      ghost var running := was.dag[id := was.dag[id].(status := Running)];
      assert Table() == running;
      var context := ParentContext(id);
      assert context == ContextOf(running, id);
      var outcome := f(id, context, log);
      assert Table() == running;
      BookOutcome(id, outcome);
      log' := log + [Event(id, context, outcome)];
    }

    method BookOutcome(id: Id, outcome: Outcome)
      requires Valid() && id in nodes
      modifies nodes[id]
      ensures Table() == old(Table())[id := Settle(old(Table())[id], outcome)]
    {
      nodes[id].Book(outcome);
    }

    /** The body of one round. */
    method RunReady(ready: seq<Id>, f: Executor, log: seq<Event>, ghost was: Run) returns (log': seq<Event>)
      requires Valid() && UnfinishedSupplied(was.dag) && Table() == was.dag && log == was.log
      requires forall n | n in ready :: n in was.dag && Supplied(was.dag, n)
      modifies nodes.Values
      ensures Table() == ExecuteAll(was, ready, f).dag && log' == ExecuteAll(was, ready, f).log
      ensures UnfinishedSupplied(ExecuteAll(was, ready, f).dag)
    {
      hide Execute, UnfinishedSupplied;
      log' := log;
      ghost var run := was;
      for i := 0 to |ready|
        invariant UnfinishedSupplied(run.dag) && run.dag.Keys == was.dag.Keys
        invariant forall n | n in ready :: n in run.dag && Supplied(run.dag, n)
        invariant Table() == run.dag && log' == run.log
        invariant ExecuteAll(run, ready[i..], f) == ExecuteAll(was, ready, f)
      {
        assert ready[i..][0] == ready[i] && ready[i..][1..] == ready[i + 1..];
        log' := RunNode(ready[i], f, log', run);
        ExecuteSuppliedStill(run, ready[i], f);
        run := Execute(run, ready[i], f);
      }
    }

    /**
     The executor loop; `start` is the run it starts from. Only its first pass can be stopped
     by a dependency without a node, and then nothing was executed.
     */
    method ExecuteRounds(f: Executor, maxRounds: int, ghost start: Run) returns (missing: Option<Id>, log: seq<Event>)
      requires Valid() && Table() == start.dag && start.log == []
      modifies nodes.Values
      ensures missing.None? <==> maxRounds <= 0 || NothingStops(start.dag)
      ensures missing.None? ==>
        var end := Rounds(start, order, f, Limit(maxRounds)); Table() == end.dag && log == end.log
      ensures missing.Some? ==> log == [] && StoppedPass(start.dag, order, Table(), missing.value)
    {
      hide EndsIn, Rounds, Round, ExecuteAll, Refresh, ReadyNodes, UnfinishedSupplied, NothingStops, StoppedPass;
      ghost var left, end := Limit(maxRounds), Rounds(start, order, f, Limit(maxRounds));
      LoopStarts(start, order, f, left);
      log := [];
      ghost var run := start;
      var rounds := 0;
      while rounds < maxRounds
        invariant 0 <= rounds && rounds + left == Limit(maxRounds)
        invariant if rounds == 0 then run == start else NothingStops(start.dag) && UnfinishedSupplied(run.dag)
        invariant Table() == run.dag && log == run.log
        invariant EndsIn(run, order, f, left, end)
      {
        LoopUnfolds(run, order, f, left, end);
        if rounds > 0 {
          SuppliedNeverStops(run.dag);
        }
        rounds, left := rounds + 1, left - 1;
        var ready;
        missing, ready := GetReadyNodes();
        if missing.Some? {
          return;
        }
        PassedIsSupplied(run.dag);
        if ready == [] {
          return;
        }
        ghost var refreshed := Run(Refresh(run.dag), run.log);
        ReadySupplied(run.dag, order);
        log := RunReady(ready, f, log, refreshed);
        RoundIs(run, order, f);
        run := ExecuteAll(refreshed, ready, f);
      }
      missing := None;
      LoopEnds(run, order, f, end);
    }

    /**
     The whole execution. The final table and the log of calls are those of `Rounds`;
     the summary counts the final statuses. A key error ends it before the first call.
     */
    method ExecuteDag(f: Executor, maxRounds: int) returns (r: Execution, log: seq<Event>)
      requires Valid()
      modifies nodes.Values
      ensures r.KeyError? <==> maxRounds > 0 && !NothingStops(old(Table()))
      ensures r.Finished? ==>
        var end := Rounds(Run(old(Table()), []), order, f, Limit(maxRounds));
        Table() == end.dag && log == end.log && r.summary == Summarize(Table())
      ensures r.KeyError? ==> log == [] && StoppedPass(old(Table()), order, Table(), r.dependency)
    {
      hide Rounds, NothingStops, StoppedPass, Summarize;
      var missing;
      missing, log := ExecuteRounds(f, maxRounds, Run(Table(), []));
      if missing.Some? {
        return KeyError(missing.value), log;
      }
      var summary := Count();
      r := Finished(summary);
    }

    method Count() returns (summary: Summary)
      requires Valid()
      ensures summary == Summarize(Table())
    {
      hide WithStatus, Summarize;
      ghost var table := Table();
      var completed := CountStatus(Completed);
      assert Table() == table;
      var failed := CountStatus(Failed);
      assert Table() == table;
      var blocked := CountStatus(Blocked);
      assert Table() == table;
      summary := Summary(completed == |nodes.Keys| && |nodes.Keys| > 0, |nodes.Keys|, completed, failed, blocked);
      SummaryByCounts(table);
    }

    method CountStatus(status: Status) returns (count: nat)
      requires Valid()
      ensures count == |WithStatus(Table(), status)|
    {
      count := 0;
      ghost var found: set<Id> := {};
      for i := 0 to |order|
        invariant found == FoundIn(Table(), order[..i], status) && count == |found|
      {
        FoundAdvances(Table(), order, i, status);
        if nodes[order[i]].status == status {
          count, found := count + 1, found + {order[i]};
        }
      }
      FoundAll(Table(), order, status);
    }
  }

  ghost function Limit(maxRounds: int): nat {
    if maxRounds < 0 then 0 else maxRounds
  }

  ghost function FoundIn(dag: Dag, ids: seq<Id>, status: Status): set<Id> {
    set n | n in ids && n in dag && dag[n].status == status
  }

  lemma FoundAdvances(dag: Dag, ids: seq<Id>, i: nat, status: Status)
    requires i < |ids| && ids[i] in dag && ids[i] !in ids[..i]
    ensures ids[i] !in FoundIn(dag, ids[..i], status)
    ensures FoundIn(dag, ids[..i + 1], status) ==
      FoundIn(dag, ids[..i], status) + if dag[ids[i]].status == status then {ids[i]} else {}
  {
    assert ids[..i + 1] == ids[..i] + [ids[i]];
  }

  lemma FoundAll(dag: Dag, ids: seq<Id>, status: Status)
    requires ToSet(ids) == dag.Keys
    ensures FoundIn(dag, ids[..|ids|], status) == WithStatus(dag, status)
  {
    assert ids[..|ids|] == ids;
    assert forall n | n in dag :: n in ToSet(ids);
  }

  /** Being marked as running while the executor works leaves no trace. */
  lemma RunningIsTransient(run: Run, n: Id, f: Executor)
    requires n in run.dag
    ensures
      var running := run.dag[n := run.dag[n].(status := Running)];
      var context := ContextOf(running, n);
      var outcome := f(n, context, run.log);
      && Execute(run, n, f).dag == running[n := Settle(running[n], outcome)]
      && Execute(run, n, f).log == run.log + [Event(n, context, outcome)]
  {
    var running := run.dag[n := run.dag[n].(status := Running)];
    assert ContextOf(running, n) == ContextOf(run.dag, n);
  }

  /** The loop, started from `run` with `left` rounds to go, ends in `end`. */
  ghost predicate EndsIn(run: Run, ids: seq<Id>, f: Executor, left: nat, end: Run) {
    Rounds(run, ids, f, left) == end
  }

  lemma LoopStarts(run: Run, ids: seq<Id>, f: Executor, left: nat)
    ensures EndsIn(run, ids, f, left, Rounds(run, ids, f, left))
  {
  }

  lemma RoundIs(run: Run, ids: seq<Id>, f: Executor)
    ensures Round(run, ids, f) == ExecuteAll(Run(Refresh(run.dag), run.log), ReadyNodes(run.dag, ids), f)
  {
  }

  lemma LoopEnds(run: Run, ids: seq<Id>, f: Executor, end: Run)
    requires EndsIn(run, ids, f, 0, end)
    ensures end == run
  {
  }

  lemma LoopUnfolds(run: Run, ids: seq<Id>, f: Executor, left: nat, end: Run)
    requires left > 0 && EndsIn(run, ids, f, left, end)
    ensures ReadyNodes(run.dag, ids) == [] ==> end.dag == Refresh(run.dag) && end.log == run.log
    ensures ReadyNodes(run.dag, ids) != [] ==> EndsIn(Round(run, ids, f), ids, f, left - 1, end)
  {
  }

  ghost function WithStatus(dag: Dag, status: Status): set<Id> {
    set n | n in dag && dag[n].status == status
  }

  /** The report on a table: success means there are nodes and all of them completed. */
  ghost function Summarize(dag: Dag): Summary {
    Summary(
      |dag.Keys| > 0 && forall n | n in dag :: dag[n].status.Completed?,
      |dag.Keys|, |WithStatus(dag, Completed)|, |WithStatus(dag, Failed)|, |WithStatus(dag, Blocked)|)
  }

  lemma AllCompletedByCount(dag: Dag)
    ensures |WithStatus(dag, Completed)| == |dag.Keys| <==> forall n | n in dag :: dag[n].status.Completed?
  {
    var done := WithStatus(dag, Completed);
    assert dag.Keys == done + (dag.Keys - done);
    assert |dag.Keys| == |done| + |dag.Keys - done|;
    if |done| == |dag.Keys| {
      assert forall n | n in dag :: n !in dag.Keys - done;
    }
    if forall n | n in dag :: dag[n].status.Completed? {
      assert done == dag.Keys;
    }
  }

  lemma SummaryByCounts(dag: Dag)
    ensures var completed := |WithStatus(dag, Completed)|;
      Summary(completed == |dag.Keys| && |dag.Keys| > 0, |dag.Keys|, completed,
              |WithStatus(dag, Failed)|, |WithStatus(dag, Blocked)|) == Summarize(dag)
  {
    hide WithStatus;
    AllCompletedByCount(dag);
  }

  lemma ReadySupplied(dag: Dag, ids: seq<Id>)
    ensures forall n | n in ReadyNodes(dag, ids) :: n in Refresh(dag) && Supplied(Refresh(dag), n)
  {
    forall n | n in ReadyNodes(dag, ids) ensures Supplied(Refresh(dag), n) {
      assert Runs(dag, n);
    }
  }

  lemma PassEnds(dag: Dag, order: seq<Id>)
    requires ToSet(order) == dag.Keys
    ensures order[..|order|] == order && PartlyRefreshed(dag, order) == Refresh(dag)
    ensures (forall j | 0 <= j < |order| :: !Stops(dag, order[j])) ==> NothingStops(dag)
  {
    assert forall n | n in dag :: n in ToSet(order);
  }

  lemma InTableOrder(order: seq<Id>, i: nat, ids: set<Id>)
    requires Distinct(order) && ToSet(order) == ids && i < |order|
    ensures order[i] in ids && order[i] !in order[..i]
  {
    assert order[i] in ToSet(order);
  }

  lemma StopsThere(dag: Dag, order: seq<Id>, i: nat, d: Id)
    requires i < |order| && order[i] in dag && Stops(dag, order[i]) && MissingAt(dag, order[i], d)
    requires forall j | 0 <= j < i :: !Stops(dag, order[j])
    ensures StoppedPass(dag, order, PartlyRefreshed(dag, order[..i]), d) && !NothingStops(dag)
  {
    assert StoppedAt(dag, order, i, PartlyRefreshed(dag, order[..i]), d);
  }

  lemma MissingStops(dag: Dag, done: seq<Id>, n: Id, d: Id)
    requires n in dag && Unfinished(dag[n]) && MissingAt(PartlyRefreshed(dag, done), n, d)
    ensures Stops(dag, n) && MissingAt(dag, n, d)
  {
    var partly := PartlyRefreshed(dag, done);
    var k: nat :| TripsAt(partly, n, k) && partly[n].dependencies[k] == d;
    PassIsOrderFree(dag, done, n);
    assert TripsAt(dag, n, k);
  }

  lemma PassBegins(dag: Dag, order: seq<Id>)
    ensures PartlyRefreshed(dag, order[..0]) == dag && ReadyNodes(dag, order[..0]) == []
  {
  }

  lemma PassAdvances(dag: Dag, order: seq<Id>, i: nat)
    requires i < |order| && order[i] in dag
    ensures PartlyRefreshed(dag, order[..i + 1]) ==
      PartlyRefreshed(dag, order[..i])[order[i] := Refreshed(dag, order[i])]
  {
    assert order[..i + 1] == order[..i] + [order[i]];
  }

  lemma ReadyAdvances(dag: Dag, order: seq<Id>, i: nat)
    requires i < |order|
    ensures ReadyNodes(dag, order[..i + 1]) ==
      if Runs(dag, order[i]) then ReadyNodes(dag, order[..i]) + [order[i]] else ReadyNodes(dag, order[..i])
  {
    assert order[..i + 1][..i] == order[..i];
  }

  /** The table when the readiness pass has visited `done`. */
  ghost function PartlyRefreshed(dag: Dag, done: seq<Id>): Dag {
    map n | n in dag :: if n in done then Refreshed(dag, n) else dag[n]
  }

  /** `d` is the dependency without a node that the pass meets first at `n`. */
  ghost predicate MissingAt(dag: Dag, n: Id, d: Id) {
    n in dag && exists k: nat :: TripsAt(dag, n, k) && dag[n].dependencies[k] == d
  }

  ghost predicate StoppedAt(was: Dag, order: seq<Id>, i: nat, now: Dag, d: Id) {
    && i < |order| && Stops(was, order[i]) && MissingAt(was, order[i], d)
    && (forall j | 0 <= j < i :: !Stops(was, order[j]))
    && now == PartlyRefreshed(was, order[..i])
  }

  /** The pass marked the nodes before the first at which it has to stop. */
  ghost predicate StoppedPass(was: Dag, order: seq<Id>, now: Dag, d: Id) {
    exists i: nat :: StoppedAt(was, order, i, now, d)
  }

  /** The marks a pass leaves behind do not affect what it decides about later nodes. */
  lemma PassIsOrderFree(dag: Dag, done: seq<Id>, n: Id)
    requires n in dag
    ensures UpstreamBroken(PartlyRefreshed(dag, done), n) == UpstreamBroken(dag, n)
    ensures UpstreamCompleted(PartlyRefreshed(dag, done), n) == UpstreamCompleted(dag, n)
    ensures forall k: nat :: TripsAt(PartlyRefreshed(dag, done), n, k) == TripsAt(dag, n, k)
  {
    var partly := PartlyRefreshed(dag, done);
    assert forall d | d in dag :: Broken(partly[d]) == Broken(dag[d]);
    assert partly[n].dependencies == dag[n].dependencies;
  }
}
