/**
 The control plane over whole runs: a registry in memory, its last saved copy, a
 monotone clock, and the history of every (node, fencing token) pair handed out.
 */
module Fencing {
  import opened Sequences
  import opened Coordination

  datatype Grant = Grant(assignment: Id, node: Id, token: nat)

  datatype System = System(memory: Registry, disk: Registry, clock: Time, grants: seq<Grant>, retired: set<Id>)

  /**
   One locked section, or a restart. `saved` says whether the file write of the
   section succeeded; a request made of several sections is several operations, so
   sections of different requests interleave freely.
   */
  datatype Op =
    | OpRegister(id: Id, capabilities: set<string>, now: Time, saved: bool)
    | OpHeartbeat(id: Id, status: string, reported: Option<set<string>>, now: Time, saved: bool)
    | OpUnregister(id: Id, saved: bool)
    | OpMarkStale(now: Time, saved: bool)
    | OpAssign(job: Id, capability: string, node: Id, newId: Id, now: Time, saved: bool)
    | OpRenew(assignment: Id, node: Id, token: int, now: Time, saved: bool)
    | OpFailover(assignment: Id, now: Time, later: Time, saved: bool)
    | OpComplete(assignment: Id, success: bool, credential: Option<Id>, presented: Option<int>, saved: bool)
    | OpRestart

  const NOTHING := Registry(map[], [], map[], [])

  const BOOT := System(NOTHING, NOTHING, 0, [], {})

  function EffectOf(g: Registry, op: Op, timeout: Time): Effect
    requires !op.OpRestart?
  {
    match op
    case OpRegister(id, capabilities, now, _) => Register(g, id, capabilities, now)
    case OpHeartbeat(id, status, reported, now, _) => Heartbeat(g, id, status, reported, now)
    case OpUnregister(id, _) => Unregister(g, id)
    case OpMarkStale(now, _) => MarkStale(g, now, timeout)
    case OpAssign(job, capability, node, newId, now, _) => Assign(g, job, capability, node, newId, now, timeout)
    case OpRenew(assignment, node, token, now, _) => Renew(g, assignment, node, token, now, timeout)
    case OpFailover(assignment, now, later, _) => Failover(g, assignment, now, later, timeout)
    case OpComplete(assignment, success, credential, presented, _) =>
      Complete(g, assignment, success, credential, presented)
  }

  function Instant(op: Op, clock: Time): Time {
    match op
    case OpFailover(_, _, later, _) => later
    case OpUnregister(_, _) => clock
    case OpMarkStale(_, _) => clock
    case OpComplete(_, _, _, _, _) => clock
    case OpRestart => clock
    case _ => op.now
  }

  function Step(s: System, op: Op, timeout: Time): System {
    if op.OpRestart? then s.(memory := s.disk)
    else
      var e := EffectOf(s.memory, op, timeout);
      System(
        e.registry,
        if e.saves && op.saved then Persisted(e.registry) else s.disk,
        Instant(op, s.clock),
        if e.reply.Granted? then s.grants + [Grant(e.reply.assignment, e.reply.node, e.reply.token)] else s.grants,
        if op.OpUnregister? && op.id in s.memory.nodes then s.retired + {op.id} else s.retired)
  }

  function Execute(s: System, ops: seq<Op>, timeout: Time): System
    decreases |ops|
  {
    if ops == [] then s else Execute(Step(s, ops[0], timeout), ops[1..], timeout)
  }

  /** Clocks do not run backwards, where they are read under the lock, and generated assignment ids are new. */
  ghost predicate Feasible(s: System, op: Op) {
    && (op.OpFailover? ==> s.clock <= op.now <= op.later)
    && (op.OpRegister? || op.OpHeartbeat? || op.OpAssign? || op.OpRenew? ==> s.clock <= op.now)
    && (op.OpAssign? ==> op.newId !in s.memory.assignments)
    && (op.OpAssign? ==> forall g | g in s.grants :: g.assignment != op.newId)
  }

  /** The operating conditions of fencing: saves succeed, and a removed node id never comes back. */
  ghost predicate Durable(s: System, op: Op) {
    && (!op.OpRestart? ==> op.saved)
    && (op.OpRegister? ==> op.id !in s.retired)
  }

  ghost predicate DurableRun(s: System, ops: seq<Op>, timeout: Time)
    decreases |ops|
  {
    ops == [] || (Feasible(s, ops[0]) && Durable(s, ops[0]) && DurableRun(Step(s, ops[0], timeout), ops[1..], timeout))
  }

  // ---------------------------------------------------------------- unique pairs

  ghost predicate UniquePairs(grants: seq<Grant>) {
    forall i, j | 0 <= i < j < |grants| :: grants[i].node != grants[j].node || grants[i].token != grants[j].token
  }

  /** Every pair handed out lies at or below the counter of its node, unless the node is gone for good. */
  ghost predicate Counted(s: System, g: Grant) {
    g.token >= 1 && (g.node in s.retired || (g.node in s.memory.nodes && g.token <= s.memory.nodes[g.node].token))
  }

  ghost predicate Fenced(s: System) {
    && s.disk == Persisted(s.memory)
    && (forall n | n in s.retired :: n !in s.memory.nodes)
    && (forall g {:trigger Counted(s, g)} | g in s.grants :: Counted(s, g))
    && UniquePairs(s.grants)
    && forall a {:trigger HolderGranted(s, a)} | a in s.memory.assignments :: HolderGranted(s, a)
  }

  /** Whoever holds an assignment was granted it. */
  ghost predicate HolderGranted(s: System, a: Id)
    requires a in s.memory.assignments
  {
    Grant(a, s.memory.assignments[a].node, s.memory.assignments[a].token) in s.grants
  }

  lemma CountersNeverDrop(g: Registry, op: Op, timeout: Time, n: Id)
    requires !op.OpRestart? && n in g.nodes && !(op.OpUnregister? && op.id == n)
    ensures var e := EffectOf(g, op, timeout);
      n in e.registry.nodes && e.registry.nodes[n].token >= g.nodes[n].token
    ensures var e := EffectOf(g, op, timeout);
      e.reply.Granted? && e.reply.node == n ==>
        e.reply.token == g.nodes[n].token + 1 && e.registry.nodes[n].token == e.reply.token
  {
  }

  /** A node outside the table stays outside unless it registers. */
  lemma GoneStays(g: Registry, op: Op, timeout: Time, n: Id)
    requires !op.OpRestart?
    requires (op.OpUnregister? && op.id == n) || (n !in g.nodes && !(op.OpRegister? && op.id == n))
    ensures n !in EffectOf(g, op, timeout).registry.nodes
  {
  }

  /** A holder is the one from before, or was just granted the assignment. */
  lemma HolderOrGrant(g: Registry, op: Op, timeout: Time, a: Id)
    requires !op.OpRestart? && a in EffectOf(g, op, timeout).registry.assignments
    ensures
      var e := EffectOf(g, op, timeout);
      var now := e.registry.assignments[a];
      e.reply == Granted(a, now.node, now.token)
      || (a in g.assignments && now.node == g.assignments[a].node && now.token == g.assignments[a].token)
  {
  }

  lemma GrantedIsKnown(g: Registry, op: Op, timeout: Time)
    requires !op.OpRestart? && EffectOf(g, op, timeout).reply.Granted?
    ensures EffectOf(g, op, timeout).reply.node in g.nodes && !op.OpUnregister?
  {
  }

  /** Persisting keeps holders. */
  lemma PersistedHolder(g: Registry, a: Id)
    requires a in Persisted(g).assignments
    ensures a in g.assignments && Persisted(g).assignments[a] == g.assignments[a]
    ensures Persisted(g).nodes == g.nodes
  {
  }

  lemma RestartFenced(s: System, timeout: Time)
    requires Fenced(s)
    ensures Fenced(Step(s, OpRestart, timeout))
  {
    hide Persisted;
    var s' := Step(s, OpRestart, timeout);
    PersistTwice(s.memory);
    assert s'.memory.nodes == s.memory.nodes by {
      PersistedNodes(s.memory);
    }
    forall g | g in s'.grants ensures Counted(s', g) {
      assert Counted(s, g);
    }
    forall a | a in s'.memory.assignments ensures HolderGranted(s', a) {
      PersistedHolder(s.memory, a);
      assert HolderGranted(s, a);
    }
  }

  lemma PersistedNodes(g: Registry)
    ensures Persisted(g).nodes == g.nodes
  {
  }

  lemma StepCounted(s: System, op: Op, timeout: Time, g: Grant)
    requires Fenced(s) && Durable(s, op) && !op.OpRestart? && g in Step(s, op, timeout).grants
    ensures Counted(Step(s, op, timeout), g)
  {
    hide EffectOf, Persisted, UniquePairs;
    var e := EffectOf(s.memory, op, timeout);
    if g in s.grants {
      assert Counted(s, g);
      if g.node in s.memory.nodes && !(op.OpUnregister? && op.id == g.node) {
        CountersNeverDrop(s.memory, op, timeout, g.node);
      }
    } else {
      assert e.reply == Granted(g.assignment, g.node, g.token);
      GrantedIsKnown(s.memory, op, timeout);
      CountersNeverDrop(s.memory, op, timeout, g.node);
    }
  }

  lemma StepUnique(s: System, op: Op, timeout: Time)
    requires Fenced(s) && Durable(s, op) && !op.OpRestart?
    ensures UniquePairs(Step(s, op, timeout).grants)
  {
    hide EffectOf, Persisted;
    var e := EffectOf(s.memory, op, timeout);
    if e.reply.Granted? {
      GrantedIsKnown(s.memory, op, timeout);
      CountersNeverDrop(s.memory, op, timeout, e.reply.node);
      forall i | 0 <= i < |s.grants| ensures s.grants[i].node != e.reply.node || s.grants[i].token != e.reply.token {
        assert Counted(s, s.grants[i]);
      }
    }
  }

  lemma StepHolder(s: System, op: Op, timeout: Time, a: Id)
    requires Fenced(s) && !op.OpRestart? && a in Step(s, op, timeout).memory.assignments
    ensures HolderGranted(Step(s, op, timeout), a)
  {
    hide EffectOf, Persisted, UniquePairs;
    HolderOrGrant(s.memory, op, timeout, a);
    if a in s.memory.assignments {
      assert HolderGranted(s, a);
    }
  }

  lemma StepFenced(s: System, op: Op, timeout: Time)
    requires Fenced(s) && Feasible(s, op) && Durable(s, op)
    ensures Fenced(Step(s, op, timeout))
  {
    hide EffectOf, Persisted, Counted, HolderGranted, UniquePairs;
    if op.OpRestart? {
      RestartFenced(s, timeout);
    } else {
      var s' := Step(s, op, timeout);
      SavesWhenChanged(s.memory, op, timeout);
      forall g | g in s'.grants ensures Counted(s', g) {
        StepCounted(s, op, timeout, g);
      }
      StepUnique(s, op, timeout);
      forall a | a in s'.memory.assignments ensures HolderGranted(s', a) {
        StepHolder(s, op, timeout, a);
      }
      forall n | n in s'.retired ensures n !in s'.memory.nodes {
        GoneStays(s.memory, op, timeout, n);
      }
    }
  }

  lemma RecentTwice(queue: seq<Id>)
    ensures Recent(Recent(queue)) == Recent(queue)
  {
  }

  lemma OnlyTwice(assignments: map<Id, Assignment>, ids: seq<Id>)
    ensures Only(Only(assignments, ids), ids) == Only(assignments, ids)
  {
  }

  /** Saving is idempotent, so a restart leaves the saved copy in step with memory. */
  lemma PersistTwice(g: Registry)
    ensures Persisted(Persisted(g)) == Persisted(g)
  {
    hide Only, Recent;
    RecentTwice(g.queue);
    OnlyTwice(g.assignments, Recent(g.queue));
  }

  lemma SavesWhenChanged(g: Registry, op: Op, timeout: Time)
    requires !op.OpRestart?
    ensures var e := EffectOf(g, op, timeout); e.saves || e.registry == g
  {
  }

  lemma {:induction false} RunFenced(s: System, ops: seq<Op>, timeout: Time)
    requires Fenced(s) && DurableRun(s, ops, timeout)
    ensures Fenced(Execute(s, ops, timeout))
    decreases |ops|
  {
    if ops != [] {
      StepFenced(s, ops[0], timeout);
      RunFenced(Step(s, ops[0], timeout), ops[1..], timeout);
    }
  }

  /** From an empty registry, no two grants of any durable run carry the same node and token. */
  lemma NoPairTwice(ops: seq<Op>, timeout: Time)
    requires DurableRun(BOOT, ops, timeout)
    ensures UniquePairs(Execute(BOOT, ops, timeout).grants)
  {
    BootFenced();
    RunFenced(BOOT, ops, timeout);
  }

  lemma BootFenced()
    ensures Fenced(BOOT) && FirstTokens(BOOT)
  {
    assert Persisted(NOTHING) == NOTHING;
  }

  // ---------------------------------------------------------------- superseded holders

  /** Saves may fail and restarts may read an old file; only, a removed node id never comes back. */
  ghost predicate NoReturnRun(s: System, ops: seq<Op>, timeout: Time)
    decreases |ops|
  {
    ops == [] ||
    (Feasible(s, ops[0]) && (ops[0].OpRegister? ==> ops[0].id !in s.retired)
      && NoReturnRun(Step(s, ops[0], timeout), ops[1..], timeout))
  }

  /** The counter of the node has reached the token, or the node is gone for good. */
  ghost predicate Reached(g: Registry, retired: set<Id>, node: Id, token: nat) {
    (node in g.nodes || node in retired) && (node in g.nodes ==> token <= g.nodes[node].token)
  }

  lemma EffectReached(g: Registry, op: Op, timeout: Time, retired: set<Id>, node: Id, token: nat)
    requires !op.OpRestart? && Reached(g, retired, node, token) && (op.OpRegister? ==> op.id !in retired)
    ensures
      var after := if op.OpUnregister? && op.id in g.nodes then retired + {op.id} else retired;
      Reached(EffectOf(g, op, timeout).registry, after, node, token)
  {
    hide EffectOf;
    if node in g.nodes && !(op.OpUnregister? && op.id == node) {
      CountersNeverDrop(g, op, timeout, node);
    } else {
      GoneStays(g, op, timeout, node);
    }
  }

  /** In memory and in the file, holders' tokens have been reached. */
  ghost predicate Backed(s: System) {
    && (forall a | a in s.memory.assignments ::
          Reached(s.memory, s.retired, s.memory.assignments[a].node, s.memory.assignments[a].token))
    && (forall a | a in s.disk.assignments ::
          Reached(s.disk, s.retired, s.disk.assignments[a].node, s.disk.assignments[a].token))
  }

  lemma EffectBacked(s: System, op: Op, timeout: Time, a: Id)
    requires !op.OpRestart? && Backed(s) && (op.OpRegister? ==> op.id !in s.retired)
    requires a in EffectOf(s.memory, op, timeout).registry.assignments
    ensures
      var g := EffectOf(s.memory, op, timeout).registry;
      Reached(g, Step(s, op, timeout).retired, g.assignments[a].node, g.assignments[a].token)
  {
    hide EffectOf, Persisted;
    var e := EffectOf(s.memory, op, timeout);
    HolderOrGrant(s.memory, op, timeout, a);
    if e.reply == Granted(a, e.registry.assignments[a].node, e.registry.assignments[a].token) {
      GrantedIsKnown(s.memory, op, timeout);
      CountersNeverDrop(s.memory, op, timeout, e.reply.node);
    } else {
      var was := s.memory.assignments[a];
      EffectReached(s.memory, op, timeout, s.retired, was.node, was.token);
    }
  }

  lemma BackedStep(s: System, op: Op, timeout: Time)
    requires Backed(s) && (op.OpRegister? ==> op.id !in s.retired)
    ensures Backed(Step(s, op, timeout))
  {
    hide EffectOf, Persisted, Reached;
    if !op.OpRestart? {
      var s', g := Step(s, op, timeout), EffectOf(s.memory, op, timeout).registry;
      forall a | a in g.assignments ensures Reached(g, s'.retired, g.assignments[a].node, g.assignments[a].token) {
        EffectBacked(s, op, timeout, a);
      }
      forall a | a in s'.disk.assignments
        ensures Reached(s'.disk, s'.retired, s'.disk.assignments[a].node, s'.disk.assignments[a].token)
      {
        FileReached(s, op, timeout, a);
      }
    }
  }

  lemma FileReached(s: System, op: Op, timeout: Time, a: Id)
    requires !op.OpRestart? && Backed(s) && (op.OpRegister? ==> op.id !in s.retired)
    requires a in Step(s, op, timeout).disk.assignments
    ensures var s' := Step(s, op, timeout);
      Reached(s'.disk, s'.retired, s'.disk.assignments[a].node, s'.disk.assignments[a].token)
  {
    hide EffectOf, Persisted;
    var g := EffectOf(s.memory, op, timeout).registry;
    if Step(s, op, timeout).disk == Persisted(g) {
      PersistedHolder(g, a);
      EffectBacked(s, op, timeout, a);
    }
  }

  lemma {:induction false} BackedRun(s: System, ops: seq<Op>, timeout: Time)
    requires Backed(s) && NoReturnRun(s, ops, timeout)
    ensures Backed(Execute(s, ops, timeout))
    decreases |ops|
  {
    hide Backed, Step, Feasible;
    if ops != [] {
      BackedStep(s, ops[0], timeout);
      BackedRun(Step(s, ops[0], timeout), ops[1..], timeout);
    }
  }

  /** Another pair holds `a`, if any does, and the old pair cannot be granted again. */
  ghost predicate TakenFrom(g: Registry, retired: set<Id>, a: Id, node: Id, token: nat) {
    && Reached(g, retired, node, token)
    && (a in g.assignments ==> g.assignments[a].node != node || g.assignments[a].token != token)
  }

  ghost predicate Superseded(s: System, a: Id, node: Id, token: nat) {
    TakenFrom(s.memory, s.retired, a, node, token) && TakenFrom(s.disk, s.retired, a, node, token)
  }

  lemma EffectTakenFrom(s: System, op: Op, timeout: Time, a: Id, node: Id, token: nat)
    requires !op.OpRestart? && TakenFrom(s.memory, s.retired, a, node, token)
    requires op.OpRegister? ==> op.id !in s.retired
    ensures TakenFrom(EffectOf(s.memory, op, timeout).registry, Step(s, op, timeout).retired, a, node, token)
  {
    hide EffectOf, Persisted;
    var e := EffectOf(s.memory, op, timeout);
    EffectReached(s.memory, op, timeout, s.retired, node, token);
    if a in e.registry.assignments {
      HolderOrGrant(s.memory, op, timeout, a);
      if e.reply.Granted? {
        GrantedIsKnown(s.memory, op, timeout);
        CountersNeverDrop(s.memory, op, timeout, e.reply.node);
      }
    }
  }

  lemma PersistedTakenFrom(g: Registry, retired: set<Id>, a: Id, node: Id, token: nat)
    requires TakenFrom(g, retired, a, node, token)
    ensures TakenFrom(Persisted(g), retired, a, node, token)
  {
    hide Persisted;
    PersistedNodes(g);
    if a in Persisted(g).assignments {
      PersistedHolder(g, a);
    }
  }

  lemma StepSuperseded(s: System, op: Op, timeout: Time, a: Id, node: Id, token: nat)
    requires Superseded(s, a, node, token) && (op.OpRegister? ==> op.id !in s.retired)
    ensures Superseded(Step(s, op, timeout), a, node, token)
  {
    hide EffectOf, Persisted;
    if !op.OpRestart? {
      EffectTakenFrom(s, op, timeout, a, node, token);
      PersistedTakenFrom(EffectOf(s.memory, op, timeout).registry, Step(s, op, timeout).retired, a, node, token);
    }
  }

  lemma {:induction false} RunSuperseded(s: System, ops: seq<Op>, timeout: Time, a: Id, node: Id, token: nat)
    requires NoReturnRun(s, ops, timeout) && Superseded(s, a, node, token)
    ensures Superseded(Execute(s, ops, timeout), a, node, token)
    decreases |ops|
  {
    hide Superseded, Step, Feasible;
    if ops != [] {
      StepSuperseded(s, ops[0], timeout, a, node, token);
      RunSuperseded(Step(s, ops[0], timeout), ops[1..], timeout, a, node, token);
    }
  }

  lemma FailoverSupersedes(s: System, a: Id, now: Time, later: Time, timeout: Time)
    requires Backed(s) && a in s.memory.assignments && Failover(s.memory, a, now, later, timeout).reply.Granted?
    ensures var was := s.memory.assignments[a];
      Superseded(Step(s, OpFailover(a, now, later, true), timeout), a, was.node, was.token)
  {
    hide Persisted;
    var was, op := s.memory.assignments[a], OpFailover(a, now, later, true);
    EffectReached(s.memory, op, timeout, s.retired, was.node, was.token);
    PersistedTakenFrom(EffectOf(s.memory, op, timeout).registry, s.retired, a, was.node, was.token);
  }

  /**
   Once a saved failover took an assignment away, the old holder's pair is refused by
   renewal and by credentialed completion in every later state, whatever saves fail
   before or after and whenever the plane restarts, if removed ids do not come back.
   */
  lemma OldHolderLockedOut(
    past: seq<Op>, a: Id, now: Time, later: Time, ops: seq<Op>, timeout: Time, at: Time, success: bool)
    requires NoReturnRun(BOOT, past, timeout)
    requires var s := Execute(BOOT, past, timeout);
      a in s.memory.assignments && Failover(s.memory, a, now, later, timeout).reply.Granted?
      && NoReturnRun(Step(s, OpFailover(a, now, later, true), timeout), ops, timeout)
    ensures
      var s := Execute(BOOT, past, timeout);
      var was := s.memory.assignments[a];
      var g := Execute(Step(s, OpFailover(a, now, later, true), timeout), ops, timeout).memory;
      var renewal := Renew(g, a, was.node, was.token, at, timeout);
      var completion := Complete(g, a, success, Some(was.node), Some(was.token));
      && !renewal.saves && (renewal.reply.StaleFencingToken? || renewal.reply.NotFound?)
      && !completion.saves && (completion.reply.StaleFencingToken? || completion.reply.NotFound?)
  {
    hide Step, Execute, NoReturnRun, Failover, Reached;
    var s := Execute(BOOT, past, timeout);
    var was := s.memory.assignments[a];
    BackedRun(BOOT, past, timeout);
    FailoverSupersedes(s, a, now, later, timeout);
    RunSuperseded(Step(s, OpFailover(a, now, later, true), timeout), ops, timeout, a, was.node, was.token);
  }

  // ---------------------------------------------------------------- leases

  /** The file holds `a` active for another pair than memory does. */
  ghost predicate FileDisagrees(s: System, a: Id)
    requires a in s.memory.assignments
  {
    var held := s.memory.assignments[a];
    a in s.disk.assignments && Active(s.disk.assignments[a])
    && (s.disk.assignments[a].node != held.node || s.disk.assignments[a].token != held.token)
  }

  /** An assignment that is active has the given holder. */
  ghost predicate HeldBy(g: Registry, a: Id, node: Id, token: nat) {
    a in g.assignments && Active(g.assignments[a]) ==> g.assignments[a].node == node && g.assignments[a].token == token
  }

  /** Before a lease ends, one thing alone can change the holder: a restart from a file that names another. */
  lemma HolderKeptExactly(s: System, op: Op, timeout: Time, a: Id)
    requires a in s.memory.assignments && Active(s.memory.assignments[a])
    requires Feasible(s, op) && Instant(op, s.clock) < s.memory.assignments[a].leaseUntil
    ensures
      var held := s.memory.assignments[a];
      HeldBy(Step(s, op, timeout).memory, a, held.node, held.token) <==> !(op.OpRestart? && FileDisagrees(s, a))
  {
  }

  /** Held by the given pair at least until `until`, or finished, or dropped from the file's tail. */
  ghost predicate StillHeld(g: Registry, a: Id, node: Id, token: nat, until: Time) {
    HeldBy(g, a, node, token)
    && (a in g.assignments && Active(g.assignments[a]) ==> g.assignments[a].leaseUntil >= until)
  }

  ghost predicate LeasesWithin(g: Registry, end: Time) {
    forall a | a in g.assignments && Active(g.assignments[a]) :: g.assignments[a].leaseUntil <= end
  }

  /** No lease, in memory or in the file, reaches further than one granted now. */
  ghost predicate LeaseBounded(s: System, timeout: Time) {
    LeasesWithin(s.memory, s.clock + timeout) && LeasesWithin(s.disk, s.clock + timeout)
  }

  /** A failover request names an active assignment (or none at all). */
  ghost predicate Careful(g: Registry, op: Op) {
    op.OpFailover? && op.assignment in g.assignments ==> Active(g.assignments[op.assignment])
  }

  /** Steps before the instant `until`; saves may fail, restarts may happen, and `a` is not failed over once it
      is finished. */
  ghost predicate QuietRun(s: System, ops: seq<Op>, timeout: Time, a: Id, until: Time)
    decreases |ops|
  {
    ops == [] ||
    (Feasible(s, ops[0]) && Instant(ops[0], s.clock) < until
      && (ops[0].OpFailover? && ops[0].assignment == a ==> Careful(s.memory, ops[0]))
      && QuietRun(Step(s, ops[0], timeout), ops[1..], timeout, a, until))
  }

  ghost predicate EverGranted(s: System, a: Id) {
    exists g :: g in s.grants && g.assignment == a
  }

  ghost predicate AllGranted(s: System) {
    forall a {:trigger EverGranted(s, a)} | a in s.memory.assignments || a in s.disk.assignments :: EverGranted(s, a)
  }

  lemma GrantsStay(s: System, op: Op, timeout: Time, a: Id)
    requires EverGranted(s, a)
    ensures EverGranted(Step(s, op, timeout), a)
  {
    hide EffectOf, Persisted;
    var g :| g in s.grants && g.assignment == a;
    assert g in Step(s, op, timeout).grants;
  }

  lemma AllGrantedStep(s: System, op: Op, timeout: Time)
    requires AllGranted(s)
    ensures AllGranted(Step(s, op, timeout))
  {
    hide EffectOf, Persisted, EverGranted;
    var s' := Step(s, op, timeout);
    forall a | a in s'.memory.assignments || a in s'.disk.assignments ensures EverGranted(s', a) {
      if a in s.memory.assignments || a in s.disk.assignments {
        assert EverGranted(s, a);
        GrantsStay(s, op, timeout, a);
      } else {
        NewIsGranted(s, op, timeout, a);
      }
    }
  }

  lemma NewIsGranted(s: System, op: Op, timeout: Time, a: Id)
    requires a !in s.memory.assignments && a !in s.disk.assignments
    requires a in Step(s, op, timeout).memory.assignments || a in Step(s, op, timeout).disk.assignments
    ensures EverGranted(Step(s, op, timeout), a)
  {
    hide EffectOf, Persisted;
    var s' := Step(s, op, timeout);
    var e := EffectOf(s.memory, op, timeout);
    if a in Persisted(e.registry).assignments {
      PersistedHolder(e.registry, a);
    }
    HolderOrGrant(s.memory, op, timeout, a);
    assert s'.grants[|s.grants|].assignment == a;
  }

  /** An operation leaves a lease as it was or grants one from its own instant. */
  lemma EffectLeases(g: Registry, op: Op, timeout: Time, clock: Time, a: Id)
    requires !op.OpRestart? && a in EffectOf(g, op, timeout).registry.assignments
    requires Active(EffectOf(g, op, timeout).registry.assignments[a])
    ensures
      var lease := EffectOf(g, op, timeout).registry.assignments[a].leaseUntil;
      lease == Instant(op, clock) + timeout
      || (a in g.assignments && Active(g.assignments[a]) && lease == g.assignments[a].leaseUntil)
  {
  }

  lemma LeaseBoundedStep(s: System, op: Op, timeout: Time)
    requires LeaseBounded(s, timeout) && Feasible(s, op)
    ensures LeaseBounded(Step(s, op, timeout), timeout)
  {
    hide EffectOf, Persisted, Active;
    if !op.OpRestart? {
      var g' := EffectOf(s.memory, op, timeout).registry;
      var end := Instant(op, s.clock) + timeout;
      forall a | a in g'.assignments && Active(g'.assignments[a]) ensures g'.assignments[a].leaseUntil <= end {
        EffectLeases(s.memory, op, timeout, s.clock, a);
      }
      forall a | a in Persisted(g').assignments && Active(Persisted(g').assignments[a])
        ensures Persisted(g').assignments[a].leaseUntil <= end
      {
        PersistedHolder(g', a);
      }
    }
  }

  lemma StillHeldStep(s: System, op: Op, timeout: Time, a: Id, node: Id, token: nat, until: Time)
    requires LeaseBounded(s, timeout) && Feasible(s, op) && Instant(op, s.clock) < until
    requires StillHeld(s.memory, a, node, token, until) && StillHeld(s.disk, a, node, token, until)
    requires op.OpFailover? && op.assignment == a ==> Careful(s.memory, op)
    requires EverGranted(s, a)
    ensures StillHeld(Step(s, op, timeout).memory, a, node, token, until)
    ensures StillHeld(Step(s, op, timeout).disk, a, node, token, until)
  {
  }

  lemma {:induction false} LeaseExclusion(
    s: System, ops: seq<Op>, timeout: Time, a: Id, node: Id, token: nat, until: Time)
    requires LeaseBounded(s, timeout) && QuietRun(s, ops, timeout, a, until)
    requires StillHeld(s.memory, a, node, token, until) && StillHeld(s.disk, a, node, token, until)
    requires EverGranted(s, a)
    ensures StillHeld(Execute(s, ops, timeout).memory, a, node, token, until)
    decreases |ops|
  {
    hide LeaseBounded, StillHeld, Careful, Feasible, HeldBy;
    if ops != [] {
      var s' := Step(s, ops[0], timeout);
      LeaseBoundedStep(s, ops[0], timeout);
      GrantsStay(s, ops[0], timeout, a);
      StillHeldStep(s, ops[0], timeout, a, node, token, until);
      LeaseExclusion(s', ops[1..], timeout, a, node, token, until);
    }
  }

  ghost predicate FeasibleRun(s: System, ops: seq<Op>, timeout: Time)
    decreases |ops|
  {
    ops == [] || (Feasible(s, ops[0]) && FeasibleRun(Step(s, ops[0], timeout), ops[1..], timeout))
  }

  lemma {:induction false} LeasesOfRun(s: System, ops: seq<Op>, timeout: Time)
    requires LeaseBounded(s, timeout) && AllGranted(s) && FeasibleRun(s, ops, timeout)
    ensures LeaseBounded(Execute(s, ops, timeout), timeout) && AllGranted(Execute(s, ops, timeout))
    decreases |ops|
  {
    hide LeaseBounded, Feasible, AllGranted, Step;
    if ops != [] {
      LeaseBoundedStep(s, ops[0], timeout);
      AllGrantedStep(s, ops[0], timeout);
      LeasesOfRun(Step(s, ops[0], timeout), ops[1..], timeout);
    }
  }

  /**
   Wherever a run has come to, saves failed or not: every continuation keeps the holder
   of a running lease exactly when the file does not name another or a shorter lease.
   */
  lemma LeaseExclusionExactly(past: seq<Op>, timeout: Time, a: Id)
    requires FeasibleRun(BOOT, past, timeout)
    requires var s := Execute(BOOT, past, timeout);
      a in s.memory.assignments && Active(s.memory.assignments[a]) && s.clock < s.memory.assignments[a].leaseUntil
    ensures
      var s := Execute(BOOT, past, timeout);
      var held := s.memory.assignments[a];
      (forall ops | QuietRun(s, ops, timeout, a, held.leaseUntil) ::
        StillHeld(Execute(s, ops, timeout).memory, a, held.node, held.token, held.leaseUntil))
      <==> StillHeld(s.disk, a, held.node, held.token, held.leaseUntil)
  {
    var s := Execute(BOOT, past, timeout);
    var held := s.memory.assignments[a];
    var until := held.leaseUntil;
    LeasesOfRun(BOOT, past, timeout);
    assert EverGranted(s, a);
    if StillHeld(s.disk, a, held.node, held.token, until) {
      forall ops | QuietRun(s, ops, timeout, a, until)
        ensures StillHeld(Execute(s, ops, timeout).memory, a, held.node, held.token, until)
      {
        LeaseExclusion(s, ops, timeout, a, held.node, held.token, until);
      }
    } else {
      RestartRun(s, timeout, a, until);
    }
  }

  lemma RestartRun(s: System, timeout: Time, a: Id, until: Time)
    requires s.clock < until
    ensures QuietRun(s, [OpRestart], timeout, a, until) && Execute(s, [OpRestart], timeout).memory == s.disk
  {
    var restart := [OpRestart];
    assert restart[1..] == [];
    assert Execute(s, restart, timeout) == Step(s, OpRestart, timeout);
  }

  /** After a failover and a restart the old holder is back, its lease superseded, exactly when the save failed. */
  lemma LostFailoverRevives(s: System, a: Id, now: Time, later: Time, saved: bool, timeout: Time)
    requires Fenced(s) && a in s.disk.assignments
    requires Failover(s.memory, a, now, later, timeout).reply.Granted?
    ensures
      var was := s.memory.assignments[a];
      var s1 := Step(s, OpFailover(a, now, later, saved), timeout);
      var s2 := Step(s1, OpRestart, timeout);
      a in s2.memory.assignments
      && (s2.memory.assignments[a] == s1.memory.assignments[a] <==> saved)
      && (s2.memory.assignments[a] == was <==> !saved)
  {
    var was := s.memory.assignments[a];
    assert HolderGranted(s, a);
    assert Counted(s, Grant(a, was.node, was.token));
  }

  // ---------------------------------------------------------------- single ownership

  /** No job has two active assignments. */
  ghost predicate SingleOwner(g: Registry) {
    forall a, b | a in g.assignments && b in g.assignments && Active(g.assignments[a]) && Active(g.assignments[b])
      && g.assignments[a].job == g.assignments[b].job :: a == b
  }

  ghost predicate Queued(g: Registry) {
    forall a | a in g.assignments :: a in g.queue
  }

  /** Holds of memory and of the saved copy, so even a restart from an outdated file keeps it. */
  ghost predicate Owned(s: System) {
    SingleOwner(s.memory) && Queued(s.memory) && SingleOwner(s.disk) && Queued(s.disk)
  }

  ghost predicate CarefulRun(s: System, ops: seq<Op>, timeout: Time)
    decreases |ops|
  {
    ops == [] ||
    (Feasible(s, ops[0]) && Careful(s.memory, ops[0]) && CarefulRun(Step(s, ops[0], timeout), ops[1..], timeout))
  }

  lemma EffectOwned(g: Registry, op: Op, timeout: Time)
    requires !op.OpRestart? && SingleOwner(g) && Queued(g) && Careful(g, op)
    requires op.OpAssign? ==> op.newId !in g.assignments
    ensures var g' := EffectOf(g, op, timeout).registry; SingleOwner(g') && Queued(g')
  {
  }

  lemma {:induction false} RunOwned(s: System, ops: seq<Op>, timeout: Time)
    requires Owned(s) && CarefulRun(s, ops, timeout)
    ensures Owned(Execute(s, ops, timeout))
    decreases |ops|
  {
    if ops != [] {
      if !ops[0].OpRestart? {
        EffectOwned(s.memory, ops[0], timeout);
      }
      RunOwned(Step(s, ops[0], timeout), ops[1..], timeout);
    }
  }

  /** In every careful run, whatever saves fail and whenever it restarts, a job has one owner at most. */
  lemma OneOwnerPerJob(ops: seq<Op>, timeout: Time)
    requires CarefulRun(BOOT, ops, timeout)
    ensures SingleOwner(Execute(BOOT, ops, timeout).memory)
  {
    RunOwned(BOOT, ops, timeout);
  }

  // ---------------------------------------------------------------- where the guarantees end

  /**
   Failover ignores the status. Applied to a finished assignment it keeps single
   ownership exactly when no other assignment of the job is active.
   */
  lemma FailoverOfAny(g: Registry, a: Id, now: Time, later: Time, timeout: Time)
    requires SingleOwner(g) && a in g.assignments && Failover(g, a, now, later, timeout).reply.Granted?
    ensures
      SingleOwner(Failover(g, a, now, later, timeout).registry) <==>
      forall b | b in g.assignments && b != a && Active(g.assignments[b]) ::
        g.assignments[b].job != g.assignments[a].job
  {
    var g' := Failover(g, a, now, later, timeout).registry;
    if b :| b in g.assignments && b != a && Active(g.assignments[b]) && g.assignments[b].job == g.assignments[a].job {
      assert g'.assignments[b] == g.assignments[b] && Active(g'.assignments[a]);
    }
  }

  /** The state of a one-node plane after the given assignments were made in order. */
  ghost function OneNode(token: nat, lease: Time, assignments: map<Id, Assignment>, queue: seq<Id>): Registry {
    Registry(map["n" := NodeRecord({}, ONLINE, 1, lease, token)], ["n"], assignments, queue)
  }

  lemma AssignOnOneNode(token: nat, lease: Time, made: map<Id, Assignment>, queue: seq<Id>, id: Id, now: Time)
    requires ActiveFor(OneNode(token, lease, made, queue), queue, "job").None?
    ensures Assign(OneNode(token, lease, made, queue), "job", "", "n", id, now, 90).registry ==
      OneNode(token + 1, now + 90, made[id := Assignment("job", "n", "", Assigned, now + 90, token + 1)], queue + [id])
  {
    hide ActiveFor;
  }

  lemma FailoverOnOneNode(token: nat, lease: Time, made: map<Id, Assignment>, queue: seq<Id>, id: Id, now: Time)
    requires id in made && made[id].capability == "" && made[id].leaseUntil <= now
    ensures Failover(OneNode(token, lease, made, queue), id, now, now, 90).registry.assignments ==
      made[id := made[id].(node := "n", token := token + 1, leaseUntil := now + 90, status := Assigned)]
  {
    var g := OneNode(token, lease, made, queue);
    assert Candidate(g, "n", "");
    assert Select(g, "") == Some("n");
  }

  /**
   Such a state is reached by ordinary requests: a job is assigned and completed,
   assigned again, and then its finished first assignment is failed over.
   */
  lemma FinishedAssignmentRevived()
    ensures
      var g1 := Register(NOTHING, "n", {}, 1).registry;
      var g2 := Assign(g1, "job", "", "n", "first", 2, 90).registry;
      var g3 := Complete(g2, "first", true, None, None).registry;
      var g4 := Assign(g3, "job", "", "n", "second", 3, 90).registry;
      var g5 := Failover(g4, "first", 4, 4, 90).registry;
      SingleOwner(g4) && !SingleOwner(g5)
  {
    hide Assign, Failover;
    var g1 := Register(NOTHING, "n", {}, 1).registry;
    assert g1 == OneNode(0, 0, map[], []);
    var first := Assignment("job", "n", "", Assigned, 92, 1);
    AssignOnOneNode(0, 0, map[], [], "first", 2);
    var g2 := Assign(g1, "job", "", "n", "first", 2, 90).registry;
    assert [] + ["first"] == ["first"];
    assert g2 == OneNode(1, 92, map["first" := first], ["first"]);
    var done := first.(status := Succeeded, leaseUntil := 0);
    var g3 := Complete(g2, "first", true, None, None).registry;
    assert g3 == OneNode(1, 92, map["first" := done], ["first"]);
    var second := Assignment("job", "n", "", Assigned, 93, 2);
    AssignOnOneNode(1, 92, map["first" := done], ["first"], "second", 3);
    var g4 := Assign(g3, "job", "", "n", "second", 3, 90).registry;
    assert g4 == OneNode(2, 93, map["first" := done, "second" := second], ["first", "second"]);
    FailoverOnOneNode(2, 93, map["first" := done, "second" := second], ["first", "second"], "first", 4);
    var g5 := Failover(g4, "first", 4, 4, 90).registry;
    assert g5.assignments["second"] == second && Active(g5.assignments["first"]);
    assert "first" != "second";
  }

  /** Completion by anyone but the holder succeeds exactly when no node id is given. */
  lemma StrangerCompletes(g: Registry, a: Id, success: bool, node: Option<Id>, token: Option<int>)
    requires a in g.assignments
    requires node.Some? ==> node.value != g.assignments[a].node || token != Some(g.assignments[a].token as int)
    requires token.None? ==> g.assignments[a].token != 0
    ensures Complete(g, a, success, node, token).reply.Done? <==> node.None?
    ensures node.None? ==> !Active(Complete(g, a, success, node, token).registry.assignments[a])
  {
  }

  /** Some first token was handed out for every node that ever got one. */
  ghost predicate FirstTokenGiven(s: System, n: Id) {
    exists g :: g in s.grants && g.node == n && g.token == 1
  }

  ghost predicate FirstTokens(s: System) {
    && (forall n {:trigger FirstTokenGiven(s, n)} | n in s.memory.nodes && s.memory.nodes[n].token > 0 ::
          FirstTokenGiven(s, n))
    && (forall g {:trigger FirstTokenGiven(s, g.node)} | g in s.grants :: FirstTokenGiven(s, g.node))
  }

  /** A counter that leaves zero does so by a grant of the first token. */
  lemma TokenByGrant(g: Registry, op: Op, timeout: Time, n: Id)
    requires !op.OpRestart? && n in EffectOf(g, op, timeout).registry.nodes
    requires n !in g.nodes || g.nodes[n].token == 0
    ensures
      var e := EffectOf(g, op, timeout);
      e.registry.nodes[n].token == 0 || (e.reply.Granted? && e.reply.node == n && e.reply.token == 1)
  {
  }

  lemma FirstTokenReached(s: System, op: Op, timeout: Time, n: Id)
    requires Fenced(s) && FirstTokens(s)
    requires n in Step(s, op, timeout).memory.nodes && Step(s, op, timeout).memory.nodes[n].token > 0
    ensures FirstTokenGiven(Step(s, op, timeout), n)
  {
    hide EffectOf, Persisted, UniquePairs;
    var s' := Step(s, op, timeout);
    if op.OpRestart? {
      PersistedNodes(s.memory);
    }
    if n in s.memory.nodes && s.memory.nodes[n].token > 0 {
      assert FirstTokenGiven(s, n);
      var g :| g in s.grants && g.node == n && g.token == 1;
      assert g in s'.grants;
    } else {
      TokenByGrant(s.memory, op, timeout, n);
      assert s'.grants[|s.grants|].token == 1;
    }
  }

  lemma StepFirstTokens(s: System, op: Op, timeout: Time)
    requires Fenced(s) && FirstTokens(s) && Feasible(s, op) && Durable(s, op)
    ensures FirstTokens(Step(s, op, timeout))
  {
    hide EffectOf, Persisted, UniquePairs, Fenced;
    var s' := Step(s, op, timeout);
    forall n | FirstTokenGiven(s, n) ensures FirstTokenGiven(s', n) {
      var g :| g in s.grants && g.node == n && g.token == 1;
      assert g in s'.grants;
    }
    forall n | n in s'.memory.nodes && s'.memory.nodes[n].token > 0 ensures FirstTokenGiven(s', n) {
      FirstTokenReached(s, op, timeout, n);
    }
    forall g | g in s'.grants ensures FirstTokenGiven(s', g.node) {
      if g in s.grants {
        assert FirstTokenGiven(s, g.node);
      } else {
        GrantedIsKnown(s.memory, op, timeout);
        CountersNeverDrop(s.memory, op, timeout, g.node);
        FirstTokenReached(s, op, timeout, g.node);
      }
    }
  }

  lemma {:induction false} RunFirstTokens(s: System, ops: seq<Op>, timeout: Time)
    requires Fenced(s) && FirstTokens(s) && DurableRun(s, ops, timeout)
    ensures Fenced(Execute(s, ops, timeout)) && FirstTokens(Execute(s, ops, timeout))
    decreases |ops|
  {
    hide Step, Fenced, FirstTokens;
    if ops != [] {
      StepFenced(s, ops[0], timeout);
      StepFirstTokens(s, ops[0], timeout);
      RunFirstTokens(Step(s, ops[0], timeout), ops[1..], timeout);
    }
  }

  /**
   Unregistering forgets the counter: after an unknown id registers, its next grant
   repeats an old pair exactly when the id had been granted something before.
   */
  lemma ReturningNode(
    ops: seq<Op>, n: Id, capabilities: set<string>, job: Id, newId: Id, now: Time, timeout: Time)
    requires DurableRun(BOOT, ops, timeout)
    requires var g := Execute(BOOT, ops, timeout).memory;
      n !in g.nodes && n != "" && ActiveFor(g, g.queue, job).None?
    ensures
      var s := Execute(BOOT, ops, timeout);
      var s1 := Step(s, OpRegister(n, capabilities, now, true), timeout);
      var s2 := Step(s1, OpAssign(job, "", n, newId, now, true), timeout);
      && s2.grants == s.grants + [Grant(newId, n, 1)]
      && (UniquePairs(s2.grants) <==> forall g | g in s.grants :: g.node != n)
  {
    hide Persisted, ActiveFor, Execute, DurableRun;
    var s := Execute(BOOT, ops, timeout);
    BootFenced();
    RunFirstTokens(BOOT, ops, timeout);
    var s1 := Step(s, OpRegister(n, capabilities, now, true), timeout);
    SameActive(s.memory, s1.memory, s.memory.queue, job);
    var s2 := Step(s1, OpAssign(job, "", n, newId, now, true), timeout);
    if g :| g in s.grants && g.node == n {
      assert FirstTokenGiven(s, g.node);
      var first :| first in s.grants && first.node == n && first.token == 1;
      var i :| 0 <= i < |s.grants| && s.grants[i] == first;
      assert s2.grants[i] == first && s2.grants[|s.grants|] == Grant(newId, n, 1);
    }
  }

  lemma {:induction false} SameActive(g: Registry, h: Registry, ids: seq<Id>, job: Id)
    requires g.assignments == h.assignments
    ensures ActiveFor(g, ids, job) == ActiveFor(h, ids, job)
  {
    if ids != [] {
      SameActive(g, h, ids[1..], job);
    }
  }

  /** After a restart, the same job asked for again repeats the pair exactly when the save of its grant failed. */
  lemma LostSaveRepeatsPair(
    s: System, job: Id, n: Id, first: Id, second: Id, now: Time, later: Time, saved: bool, timeout: Time)
    requires Fenced(s) && n in s.memory.nodes && n != ""
    requires ActiveFor(s.memory, s.memory.queue, job).None?
    ensures
      var s1 := Step(s, OpAssign(job, "", n, first, now, saved), timeout);
      var s2 := Step(s1, OpRestart, timeout);
      var s3 := Step(s2, OpAssign(job, "", n, second, later, true), timeout);
      UniquePairs(s3.grants) <==> saved
  {
    hide ActiveFor, Persisted;
    var token := s.memory.nodes[n].token + 1;
    var s1 := Step(s, OpAssign(job, "", n, first, now, saved), timeout);
    var s2 := Step(s1, OpRestart, timeout);
    var s3 := Step(s2, OpAssign(job, "", n, second, later, true), timeout);
    PersistedNodes(s.memory);
    PersistedNodes(s1.memory);
    if saved {
      LatestKept(s1.memory, first);
      StepUnique(s, OpAssign(job, "", n, first, now, saved), timeout);
    } else {
      NoneActiveInTail(s.memory, job);
      assert s3.grants[|s.grants|] == Grant(first, n, token) && s3.grants[|s.grants| + 1] == Grant(second, n, token);
    }
  }

  lemma LatestKept(g: Registry, a: Id)
    requires g.queue != [] && g.queue[|g.queue| - 1] == a && a in g.assignments
    ensures a in Persisted(g).queue && a in Persisted(g).assignments && Persisted(g).assignments[a] == g.assignments[a]
  {
    var kept := Persisted(g).queue;
    assert kept[|kept| - 1] == a;
  }

  lemma NoneActiveInTail(g: Registry, job: Id)
    requires ActiveFor(g, g.queue, job).None?
    ensures ActiveFor(Persisted(g), Persisted(g).queue, job).None?
  {
  }
}
