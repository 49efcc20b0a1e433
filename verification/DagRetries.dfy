/** What a run makes of each node, told from the log of executor calls alone. */
module DagRetries {
  import opened Sequences
  import opened DependencyGraph
  import opened DagExecution
  import opened DagGuarantees

  /** How the last call for a node ended. */
  ghost function LastOutcome(log: seq<Event>, n: Id): Option<Outcome> {
    if log == [] then None
    else if log[|log| - 1].node == n then Some(log[|log| - 1].outcome)
    else LastOutcome(log[..|log| - 1], n)
  }

  ghost predicate EndedWell(last: Option<Outcome>) {
    last.Some? && last.value.Returned? && !last.value.blocked && last.value.success && !last.value.error
  }

  ghost predicate EndedBlocked(last: Option<Outcome>) {
    last.Some? && last.value.Returned? && last.value.blocked
  }

  /** The last call raised, or reported no success or an error. */
  ghost predicate EndedBadly(last: Option<Outcome>) {
    last.Some? &&
    (last.value.Raised? || (!last.value.blocked && (!last.value.success || last.value.error)))
  }

  /** How often a node may fail and be called again. */
  function Slack(node: Node): nat {
    if node.retries < node.maxRetries then node.maxRetries - node.retries else 0
  }

  /** The outputs last reported, or those the node had to begin with. */
  ghost function Reported(log: seq<Event>, n: Id, first: Value): Value {
    if log == [] then first
    else
      var last := log[|log| - 1];
      if last.node == n && last.outcome.Returned? then last.outcome.outputs
      else Reported(log[..|log| - 1], n, first)
  }

  /** The status of a node that was unfinished at the start follows from its calls. */
  ghost predicate Told(start: Dag, run: Run, n: Id)
    requires n in start && n in run.dag
  {
    var last, node, calls := LastOutcome(run.log, n), run.dag[n], Executions(run.log, n);
    Unfinished(start[n]) ==>
      && (node.status.Completed? <==> EndedWell(last))
      && (node.status.Blocked? <==> EndedBlocked(last))
      && (node.status.Failed? ==> EndedBadly(last) && calls == Slack(start[n]) + 1)
      && (node.status.Skipped? ==> calls == 0)
      && (Unfinished(node) ==> calls + Slack(node) == Slack(start[n]))
      && (last.None? <==> calls == 0)
      && node.outputs == Reported(run.log, n, start[n].outputs)
      && node.retries == start[n].retries + (if Unfinished(node) then calls else if calls > 0 then calls - 1 else 0)
  }

  /** Every logged outcome is what the executor answered then. */
  ghost predicate LoggedBy(f: Executor, log: seq<Event>) {
    forall i | 0 <= i < |log| :: log[i].outcome == f(log[i].node, log[i].context, log[..i])
  }

  ghost predicate AllTold(start: Dag, run: Run, f: Executor) {
    Legal(start, run) && LoggedBy(f, run.log) && forall n | n in start :: Told(start, run, n)
  }

  /** A node that was called had its dependencies completed, so none of them is broken. */
  lemma CalledIsSupplied(start: Dag, run: Run, n: Id)
    requires Legal(start, run) && n in start && Executions(run.log, n) > 0
    ensures UpstreamCompleted(run.dag, n) && !UpstreamBroken(run.dag, n)
  {
    var i := SomeCall(run.log, n);
    assert WellSupplied(start, run.log[..i], run.log[i]);
    forall d | d in run.dag[n].dependencies ensures d in run.dag && run.dag[d].status.Completed? {
      assert d in start[n].dependencies;
      if d in Completions(run.log[..i]) {
        CompletionsGrow(run.log, i, d);
      }
      assert NodeHistory(start, run.dag, run.log, d);
    }
  }

  lemma {:induction false} SomeCall(log: seq<Event>, n: Id) returns (i: nat)
    requires Executions(log, n) > 0
    ensures i < |log| && log[i].node == n
  {
    if log[|log| - 1].node == n {
      i := |log| - 1;
    } else {
      i := SomeCall(log[..|log| - 1], n);
    }
  }

  lemma {:induction false} CompletionsGrow(log: seq<Event>, i: nat, d: Id)
    requires i <= |log| && d in Completions(log[..i])
    ensures d in Completions(log)
  {
    if i < |log| {
      assert log[..|log| - 1][..i] == log[..i];
      CompletionsGrow(log[..|log| - 1], i, d);
    } else {
      TakeAll(log);
    }
  }

  /** What a readiness pass marks: an unfinished node is skipped if a dependency failed or was blocked, otherwise
      ready if all are completed, otherwise left alone, as every other node is. */
  lemma PassMarks(dag: Dag, n: Id)
    requires KnownDependencies(dag) && n in dag
    ensures
      var node, deps := dag[n], dag[n].dependencies;
      Refresh(dag)[n] ==
        if node.status != Pending && node.status != Ready then node
        else if exists d :: d in deps && (dag[d].status == Failed || dag[d].status == Blocked)
        then node.(status := Skipped)
        else if forall d | d in deps :: dag[d].status == Completed then node.(status := Ready)
        else node
  {
  }

  /** The nodes to run stand in the order of the table. */
  lemma {:induction false} ReadyInTableOrder(dag: Dag, ids: seq<Id>, i: nat, j: nat)
    requires i < j < |ReadyNodes(dag, ids)|
    ensures exists a, b :: 0 <= a < b < |ids| && ids[a] == ReadyNodes(dag, ids)[i] && ids[b] == ReadyNodes(dag, ids)[j]
  {
    var n := |ids| - 1;
    var front, ready := ReadyNodes(dag, ids[..n]), ReadyNodes(dag, ids);
    if j < |front| {
      ReadyInTableOrder(dag, ids[..n], i, j);
      var a, b :| 0 <= a < b < n && ids[..n][a] == front[i] && ids[..n][b] == front[j];
      assert ids[a] == ready[i] && ids[b] == ready[j];
    } else {
      assert ready == front + [ids[n]] && ready[i] == front[i];
      assert front[i] in front;
      var a :| 0 <= a < n && ids[..n][a] == front[i];
      assert ids[a] == ready[i] && ids[n] == ready[j];
    }
  }

  lemma {:induction false} CallsInOrder(run: Run, ns: seq<Id>, f: Executor)
    requires forall n | n in ns :: n in run.dag
    ensures var log := ExecuteAll(run, ns, f).log;
      |log| == |run.log| + |ns| && run.log <= log && forall i | 0 <= i < |ns| :: log[|run.log| + i].node == ns[i]
    decreases ns
  {
    if ns != [] {
      var next := Execute(run, ns[0], f);
      assert next.log[|run.log|].node == ns[0];
      CallsInOrder(next, ns[1..], f);
      var log := ExecuteAll(run, ns, f).log;
      assert log[|run.log|] == next.log[|run.log|];
      forall i | 0 < i < |ns| ensures log[|run.log| + i].node == ns[i] {
        assert log[|next.log| + (i - 1)].node == ns[1..][i - 1];
      }
    }
  }

  /** A round calls the executor once for each node that is ready, in the order of the table. */
  lemma RoundCallsInOrder(run: Run, ids: seq<Id>, f: Executor, i: nat, j: nat)
    requires i < j < |Round(run, ids, f).log| - |run.log|
    ensures
      var log := Round(run, ids, f).log;
      && run.log <= log && |log| == |run.log| + |ReadyNodes(run.dag, ids)|
      && exists a, b :: 0 <= a < b < |ids| && ids[a] == log[|run.log| + i].node && ids[b] == log[|run.log| + j].node
  {
    var ready := ReadyNodes(run.dag, ids);
    CallsInOrder(Run(Refresh(run.dag), run.log), ready, f);
    ReadyInTableOrder(run.dag, ids, i, j);
  }

  // ---------------------------------------------------------------- every step

  lemma RefreshTold(start: Dag, run: Run, f: Executor)
    requires AllTold(start, run, f)
    ensures AllTold(start, Run(Refresh(run.dag), run.log), f)
  {
    hide Legal, LoggedBy;
    var next := Run(Refresh(run.dag), run.log);
    RefreshLegal(start, run);
    LegalKeys(start, run);
    forall n | n in start ensures Told(start, next, n) {
      assert Told(start, run, n);
      if Executions(run.log, n) > 0 {
        CalledIsSupplied(start, run, n);
      }
    }
  }

  lemma LegalKeys(start: Dag, run: Run)
    requires Legal(start, run)
    ensures run.dag.Keys == start.Keys
  {
  }

  lemma LastAppended(log: seq<Event>, e: Event, n: Id)
    ensures LastOutcome(log + [e], n) == if e.node == n then Some(e.outcome) else LastOutcome(log, n)
    ensures Executions(log + [e], n) == Executions(log, n) + if e.node == n then 1 else 0
    ensures forall first ::
      Reported(log + [e], n, first) ==
      (if e.node == n && e.outcome.Returned? then e.outcome.outputs else Reported(log, n, first))
  {
    assert (log + [e])[..|log|] == log;
  }

  lemma ExecuteTold(start: Dag, run: Run, n: Id, f: Executor)
    requires AllTold(start, run, f) && Runs(run.dag, n)
    ensures AllTold(start, Execute(run, n, f), f)
  {
    hide Legal, LastOutcome, Executions, Reported, UpstreamCompleted, UpstreamBroken;
    var next := Execute(run, n, f);
    var e := next.log[|run.log|];
    ExecuteLegal(start, run, n, f);
    LegalKeys(start, run);
    StaysUnfinished(start, run, n);
    assert next.log == run.log + [e] && next.log[..|run.log|] == run.log;
    assert LoggedBy(f, next.log) by {
      forall i | 0 <= i < |next.log|
        ensures next.log[i].outcome == f(next.log[i].node, next.log[i].context, next.log[..i])
      {
        assert i < |run.log| ==> next.log[..i] == run.log[..i];
      }
    }
    forall m | m in start ensures Told(start, next, m) {
      assert Told(start, run, m);
      LastAppended(run.log, e, m);
    }
  }

  /** What runs now was unfinished from the start, with the same retry limit. */
  lemma StaysUnfinished(start: Dag, run: Run, n: Id)
    requires Legal(start, run) && Runs(run.dag, n)
    ensures n in start && Unfinished(start[n]) && Unfinished(run.dag[n])
  {
  }

  lemma {:induction false} ExecuteAllTold(start: Dag, run: Run, ns: seq<Id>, f: Executor)
    requires AllTold(start, run, f) && Distinct(ns) && forall n | n in ns :: n in run.dag && Runs(run.dag, n)
    ensures AllTold(start, ExecuteAll(run, ns, f), f)
    decreases ns
  {
    hide Told, LoggedBy, Runs, Execute;
    if ns != [] {
      ExecuteKeeps(run, ns[0], f);
      ExecuteTold(start, run, ns[0], f);
      assert forall n | n in ns[1..] :: n in ns && n != ns[0];
      ExecutedKeys(run, ns[0], f);
      ExecuteAllTold(start, Execute(run, ns[0], f), ns[1..], f);
    }
  }

  lemma ExecutedKeys(run: Run, n: Id, f: Executor)
    requires n in run.dag
    ensures Execute(run, n, f).dag.Keys == run.dag.Keys
  {
  }

  lemma RoundTold(start: Dag, run: Run, ids: seq<Id>, f: Executor)
    requires AllTold(start, run, f) && Distinct(ids)
    ensures AllTold(start, Round(run, ids, f), f)
  {
    hide AllTold, ReadyNodes;
    RefreshTold(start, run, f);
    ReadyDistinct(run.dag, ids);
    var ready := ReadyNodes(run.dag, ids);
    forall n | n in ready ensures Runs(Refresh(run.dag), n) {
      RunsAfterRefresh(run.dag, n);
    }
    ExecuteAllTold(start, Run(Refresh(run.dag), run.log), ready, f);
  }

  lemma {:induction false} RoundsTold(start: Dag, run: Run, ids: seq<Id>, f: Executor, limit: nat)
    requires AllTold(start, run, f) && Distinct(ids)
    ensures AllTold(start, Rounds(run, ids, f, limit), f)
    decreases limit
  {
    hide AllTold, Round, Refresh, ReadyNodes;
    if limit > 0 {
      if ReadyNodes(run.dag, ids) == [] {
        RefreshTold(start, run, f);
      } else {
        RoundTold(start, run, ids, f);
        RoundsTold(start, Round(run, ids, f), ids, f, limit - 1);
      }
    }
  }

  lemma StartTold(start: Dag, f: Executor)
    requires Sound(start)
    ensures AllTold(start, Run(start, []), f)
  {
    StartLegal(start);
  }

  // ---------------------------------------------------------------- whole runs

  /**
   At the end of every run, a node that was unfinished at the start is completed exactly if its
   last call ended well, blocked exactly if it reported a blocker, and failed exactly if it was
   called once more than it may be retried and the last call ended badly; while it is unfinished
   it has a call left. Its outputs are those last reported, and every call but one that settled
   it counts as a retry.
   */
  lemma OutcomeDecides(start: Dag, ids: seq<Id>, f: Executor, limit: nat, n: Id)
    requires Sound(start) && Distinct(ids) && n in start && Unfinished(start[n])
    ensures
      var end := Rounds(Run(start, []), ids, f, limit);
      var last, node, calls := LastOutcome(end.log, n), end.dag[n], Executions(end.log, n);
      && (node.status.Completed? <==> EndedWell(last))
      && (node.status.Blocked? <==> EndedBlocked(last))
      && (node.status.Failed? <==> EndedBadly(last) && calls == Slack(start[n]) + 1)
      && (node.status.Skipped? ==> calls == 0)
      && (node.status.Pending? || node.status.Ready? ==>
            calls + Slack(node) == Slack(start[n]) && node.retries == start[n].retries + calls)
      && (node.status.Completed? || node.status.Blocked? || node.status.Failed? ==>
            node.retries == start[n].retries + calls - 1)
      && node.outputs == Reported(end.log, n, start[n].outputs)
  {
    hide Rounds, Legal, LoggedBy, LastOutcome, Executions, Reported;
    var end := Rounds(Run(start, []), ids, f, limit);
    StartTold(start, f);
    RoundsTold(start, Run(start, []), ids, f, limit);
    assert Told(start, end, n);
    NotRunning(start, end, n);
  }

  lemma NotRunning(start: Dag, run: Run, n: Id)
    requires Legal(start, run) && n in run.dag
    ensures !run.dag[n].status.Running?
  {
    assert SoundNode(run.dag, n);
  }

  /** In a quiet table, what was unfinished at the start is skipped exactly if a direct dependency failed or was
      blocked. */
  lemma SkippedExactly(start: Dag, ids: seq<Id>, f: Executor, limit: nat, n: Id)
    requires WellFormed(start, ids) && Sound(start) && limit > Budget(start, ids) && n in start && Unfinished(start[n])
    ensures
      var end := Rounds(Run(start, []), ids, f, limit).dag;
      end[n].status.Skipped? <==>
      exists d :: d in start[n].dependencies && d in end && (end[d].status.Failed? || end[d].status.Blocked?)
  {
    hide Rounds, Budget, LoggedBy, LastOutcome, Executions, History;
    var end := Rounds(Run(start, []), ids, f, limit);
    StartTold(start, f);
    RoundsTold(start, Run(start, []), ids, f, limit);
    RunsToQuiescence(Run(start, []), ids, f, limit);
    assert SoundNode(end.dag, n) && Idle(end.dag, n) && Told(start, end, n);
    assert end.dag[n].dependencies == start[n].dependencies;
    if Executions(end.log, n) > 0 {
      CalledIsSupplied(start, end, n);
    }
  }

  /** The executor reports no blocker, and fails each node no more often than it may be retried. */
  ghost predicate Recovers(f: Executor, start: Dag) {
    forall n, context, log | n in start :: Recovered(f(n, context, log), Executions(log, n), Slack(start[n]))
  }

  ghost predicate Recovered(o: Outcome, calls: nat, slack: nat) {
    && (o.Returned? ==> !o.blocked)
    && (calls >= slack ==> o.Returned? && o.success && !o.error)
  }

  lemma {:induction false} LastCall(log: seq<Event>, n: Id) returns (i: nat)
    requires LastOutcome(log, n).Some?
    ensures i < |log| && log[i].node == n && Some(log[i].outcome) == LastOutcome(log, n)
    ensures Executions(log[..i], n) + 1 == Executions(log, n)
  {
    var front := log[..|log| - 1];
    if log[|log| - 1].node == n {
      i := |log| - 1;
    } else {
      i := LastCall(front, n);
      assert front[..i] == log[..i];
    }
  }

  lemma NothingBreaks(start: Dag, run: Run, f: Executor, n: Id)
    requires AllTold(start, run, f) && Recovers(f, start) && n in start && !Broken(start[n])
    ensures n in run.dag && !Broken(run.dag[n])
  {
    LegalKeys(start, run);
    assert Told(start, run, n);
    if Unfinished(start[n]) && LastOutcome(run.log, n).Some? {
      var i := LastCall(run.log, n);
      assert run.log[i].outcome == f(n, run.log[i].context, run.log[..i]);
      assert Recovered(run.log[i].outcome, Executions(run.log[..i], n), Slack(start[n]));
    }
  }

  /** Retries are given: in an acyclic table every node completes if none fails more often than it may be retried. */
  lemma RetriesSuffice(start: Dag, ids: seq<Id>, f: Executor, limit: nat, n: Id)
    requires WellFormed(start, ids) && Sound(start) && Acyclic(Dependencies(start)) && limit > Budget(start, ids)
    requires Recovers(f, start) && (forall m | m in start :: !Broken(start[m])) && n in start
    ensures Rounds(Run(start, []), ids, f, limit).dag[n].status.Completed?
  {
    hide Rounds, AllTold, Budget, Recovers, Sound, Acyclic, Broken;
    var end := Rounds(Run(start, []), ids, f, limit);
    StartTold(start, f);
    RoundsTold(start, Run(start, []), ids, f, limit);
    forall m | m in end.dag ensures !Broken(end.dag[m]) {
      NothingBreaks(start, end, f, m);
    }
    EveryLongRun(start, ids, f, limit, n);
  }
}
