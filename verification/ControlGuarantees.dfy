/** What each request to the control plane does for the one who makes it. */
module ControlGuarantees {
  import opened Sequences
  import opened Coordination
  import opened Fencing

  // ---------------------------------------------------------------- renewal

  /** A renewal is accepted exactly from the holder of an unfinished assignment that is still registered. */
  lemma RenewExactly(g: Registry, a: Id, node: Id, token: int, now: Time, timeout: Time)
    ensures Renew(g, a, node, token, now, timeout).reply.Done? <==>
      && a in g.assignments && node in g.nodes
      && g.assignments[a].node == node && g.assignments[a].token == token
      && (g.assignments[a].status == Assigned || g.assignments[a].status == Running)
  {
  }

  /** It moves the lease of the assignment and of its node to a timeout from now, and nothing else. */
  lemma RenewalRecords(g: Registry, a: Id, node: Id, token: int, now: Time, timeout: Time)
    requires Renew(g, a, node, token, now, timeout).reply.Done?
    ensures
      var h := Renew(g, a, node, token, now, timeout).registry;
      && h.assignments.Keys == g.assignments.Keys && h.nodes.Keys == g.nodes.Keys
      && h.order == g.order && h.queue == g.queue
      && h.assignments[a] == g.assignments[a].(status := Running, leaseUntil := now + timeout)
      && (forall b | b in g.assignments && b != a :: h.assignments[b] == g.assignments[b])
      && h.nodes[node] == g.nodes[node].(leaseUntil := now + timeout)
      && forall m | m in g.nodes && m != node :: h.nodes[m] == g.nodes[m]
  {
  }

  predicate Ends(op: Op, a: Id) {
    op.OpRestart? || (op.OpComplete? && op.assignment == a)
  }

  lemma StaysActive(s: System, op: Op, timeout: Time, a: Id)
    requires a in s.memory.assignments && Active(s.memory.assignments[a]) && !Ends(op, a)
    requires op.OpAssign? ==> op.newId !in s.memory.assignments
    ensures var g := Step(s, op, timeout).memory; a in g.assignments && Active(g.assignments[a])
  {
  }

  lemma {:induction false} RunStaysActive(s: System, ops: seq<Op>, timeout: Time, a: Id, until: Time)
    requires QuietRun(s, ops, timeout, a, until) && forall i | 0 <= i < |ops| :: !Ends(ops[i], a)
    requires a in s.memory.assignments && Active(s.memory.assignments[a])
    ensures var g := Execute(s, ops, timeout).memory; a in g.assignments && Active(g.assignments[a])
    decreases |ops|
  {
    hide Step, Active;
    if ops != [] {
      StaysActive(s, ops[0], timeout, a);
      RunStaysActive(Step(s, ops[0], timeout), ops[1..], timeout, a, until);
    }
  }

  lemma AfterRenewal(s: System, a: Id, node: Id, token: int, now: Time, timeout: Time)
    requires Renew(s.memory, a, node, token, now, timeout).reply.Done?
    ensures
      var t := Step(s, OpRenew(a, node, token, now, true), timeout);
      && token >= 0 && a in t.memory.assignments && Active(t.memory.assignments[a])
      && StillHeld(t.memory, a, node, token, now + timeout) && StillHeld(t.disk, a, node, token, now + timeout)
  {
  }

  /**
   A renewal buys a whole timeout: until then, in whatever follows, the holder keeps the
   assignment as long as it is unfinished, every failover of it is refused, and it ends or
   is forgotten only by a completion or a restart.
   */
  lemma RenewalProtects(
    past: seq<Op>, a: Id, node: Id, token: int, now: Time, ops: seq<Op>, timeout: Time, at: Time, later: Time)
    requires FeasibleRun(BOOT, past, timeout) && at < now + timeout
    requires var s := Execute(BOOT, past, timeout);
      && s.clock <= now && Renew(s.memory, a, node, token, now, timeout).reply.Done?
      && QuietRun(Step(s, OpRenew(a, node, token, now, true), timeout), ops, timeout, a, now + timeout)
    ensures
      var s := Execute(BOOT, past, timeout);
      var g := Execute(Step(s, OpRenew(a, node, token, now, true), timeout), ops, timeout).memory;
      && (a in g.assignments && (g.assignments[a].status.Assigned? || g.assignments[a].status.Running?) ==>
            && g.assignments[a].node == node && g.assignments[a].token == token
            && Failover(g, a, at, later, timeout).reply.LeaseStillActive?)
      && ((forall i | 0 <= i < |ops| :: !Ends(ops[i], a)) ==>
            a in g.assignments && (g.assignments[a].status.Assigned? || g.assignments[a].status.Running?))
  {
    hide Step, QuietRun, Execute, FeasibleRun, LeaseBounded, AllGranted;
    var s, op := Execute(BOOT, past, timeout), OpRenew(a, node, token, now, true);
    var t := Step(s, op, timeout);
    NoLeasesAtBoot(timeout);
    LeasesOfRun(BOOT, past, timeout);
    LeaseBoundedStep(s, op, timeout);
    GrantedBefore(s, a);
    GrantsStay(s, op, timeout, a);
    AfterRenewal(s, a, node, token, now, timeout);
    LeaseExclusion(t, ops, timeout, a, node, token, now + timeout);
    if forall i | 0 <= i < |ops| :: !Ends(ops[i], a) {
      RunStaysActive(t, ops, timeout, a, now + timeout);
    }
  }

  lemma NoLeasesAtBoot(timeout: Time)
    ensures LeaseBounded(BOOT, timeout) && AllGranted(BOOT)
  {
  }

  lemma GrantedBefore(s: System, a: Id)
    requires AllGranted(s) && a in s.memory.assignments
    ensures EverGranted(s, a)
  {
  }

  // ---------------------------------------------------------------- completion

  /**
   A completion is accepted exactly if the assignment exists and, where a node id is given, it
   is the holder's with its token; it records the outcome reported, changes nothing else, and
   ends the holder's right to renew.
   */
  lemma CompletionExactly(
    g: Registry, a: Id, success: bool, node: Option<Id>, token: Option<int>, at: Time, timeout: Time)
    ensures
      var e := Complete(g, a, success, node, token);
      && (e.reply.Done? <==>
            a in g.assignments &&
            (node.Some? ==>
              && g.assignments[a].node == node.value
              && g.assignments[a].token == if token.Some? then token.value else 0))
      && (!e.reply.Done? ==> e.registry == g)
      && (e.reply.Done? ==>
            && a in e.registry.assignments
            && e.registry.assignments[a].status == (if success then Succeeded else Failed)
            && e.registry.assignments[a].job == g.assignments[a].job
            && e.registry.assignments[a].node == g.assignments[a].node
            && e.registry.assignments[a].token == g.assignments[a].token
            && e.registry.assignments[a].leaseUntil == 0
            && e.registry.nodes == g.nodes && e.registry.assignments.Keys == g.assignments.Keys
            && (forall b | b in g.assignments && b != a :: e.registry.assignments[b] == g.assignments[b])
            && forall n, t :: !Renew(e.registry, a, n, t, at, timeout).reply.Done?)
  {
  }

  // ---------------------------------------------------------------- assignment and failover

  /** A node that may be chosen for a capability. */
  predicate Eligible(g: Registry, n: Id, capability: string) {
    && n in g.nodes && g.nodes[n].status == "online"
    && (capability == "" || capability in g.nodes[n].capabilities)
  }

  /** No node that may be chosen was heard from later. */
  ghost predicate Latest(g: Registry, n: Id, capability: string) {
    Eligible(g, n, capability) &&
    forall m | m in g.order && Eligible(g, m, capability) :: g.nodes[m].lastHeartbeat <= g.nodes[n].lastHeartbeat
  }

  /** At `i` stands a node that may be chosen, heard from later than every one before and no earlier than any. */
  ghost predicate FirstBest(g: Registry, ids: seq<Id>, capability: string, i: nat) {
    && i < |ids| && Eligible(g, ids[i], capability)
    && (forall j | 0 <= j < i && Eligible(g, ids[j], capability) ::
          g.nodes[ids[j]].lastHeartbeat < g.nodes[ids[i]].lastHeartbeat)
    && forall j | i <= j < |ids| && Eligible(g, ids[j], capability) ::
         g.nodes[ids[j]].lastHeartbeat <= g.nodes[ids[i]].lastHeartbeat
  }

  lemma BestStays(g: Registry, front: seq<Id>, last: Id, capability: string, i: nat)
    requires FirstBest(g, front, capability, i)
    requires Eligible(g, last, capability) ==> g.nodes[last].lastHeartbeat <= g.nodes[front[i]].lastHeartbeat
    ensures FirstBest(g, front + [last], capability, i)
  {
  }

  lemma BestIsNew(g: Registry, front: seq<Id>, last: Id, capability: string)
    requires Eligible(g, last, capability)
    requires forall m | m in front && Eligible(g, m, capability) ::
               g.nodes[m].lastHeartbeat < g.nodes[last].lastHeartbeat
    ensures FirstBest(g, front + [last], capability, |front|)
  {
    forall j | 0 <= j < |front| && Eligible(g, front[j], capability)
      ensures g.nodes[front[j]].lastHeartbeat < g.nodes[last].lastHeartbeat
    {
      assert front[j] in front;
    }
  }

  /** Routing takes the first listed of the nodes heard from last. */
  lemma {:induction false} FirstOfLatest(g: Registry, ids: seq<Id>, capability: string) returns (i: nat)
    requires Freshest(g, ids, capability).Some?
    ensures FirstBest(g, ids, capability, i) && ids[i] == Freshest(g, ids, capability).value
  {
    hide FirstBest;
    var n := |ids| - 1;
    var front, last := ids[..n], ids[n];
    var before := Freshest(g, front, capability);
    assert ids == front + [last];
    if Freshest(g, ids, capability) == before {
      i := FirstOfLatest(g, front, capability);
      BestInside(g, front, capability, i);
      if Eligible(g, last, capability) {
        assert last in ids;
      }
      BestStays(g, front, last, capability, i);
    } else {
      i := n;
      BestIsNew(g, front, last, capability);
    }
  }

  lemma BestInside(g: Registry, ids: seq<Id>, capability: string, i: nat)
    requires FirstBest(g, ids, capability, i)
    ensures i < |ids| && Eligible(g, ids[i], capability)
  {
  }

  /** At `i` stands an assignment of the job, and every one before it is finished. */
  ghost predicate FirstOpen(g: Registry, ids: seq<Id>, job: Id, i: nat) {
    && i < |ids| && ids[i] in g.assignments && g.assignments[ids[i]].job == job
    && forall j | 0 <= j < i && ids[j] in g.assignments && g.assignments[ids[j]].job == job ::
         g.assignments[ids[j]].status == Succeeded || g.assignments[ids[j]].status == Failed
  }

  lemma OpenFurther(g: Registry, ids: seq<Id>, job: Id, i: nat)
    requires ids != [] && FirstOpen(g, ids[1..], job, i)
    requires ids[0] in g.assignments && g.assignments[ids[0]].job == job ==> !Active(g.assignments[ids[0]])
    ensures FirstOpen(g, ids, job, i + 1)
  {
    assert forall j | 0 < j <= i + 1 :: ids[j] == ids[1..][j - 1];
  }

  /** A job that has an unfinished assignment gets the first of these back. */
  lemma {:induction false} FirstUnfinished(g: Registry, ids: seq<Id>, job: Id) returns (i: nat)
    requires ActiveFor(g, ids, job).Some?
    ensures FirstOpen(g, ids, job, i) && ids[i] == ActiveFor(g, ids, job).value
  {
    if ids[0] in g.assignments && g.assignments[ids[0]].job == job && Active(g.assignments[ids[0]]) {
      i := 0;
    } else {
      var k := FirstUnfinished(g, ids[1..], job);
      OpenFurther(g, ids, job, k);
      i := k + 1;
    }
  }

  /** An assignment is granted exactly if a node can take it and the job has no unfinished one. */
  lemma AssignExactly(g: Registry, job: Id, capability: string, node: Id, newId: Id, now: Time, timeout: Time)
    ensures Assign(g, job, capability, node, newId, now, timeout).reply.Granted? <==>
      && (if node == "" then exists n :: n in g.order && Eligible(g, n, capability)
          else node in g.nodes && (capability == "" || capability in g.nodes[node].capabilities))
      && forall b | b in g.queue && b in g.assignments :: g.assignments[b].job == job ==>
           g.assignments[b].status == Succeeded || g.assignments[b].status == Failed
  {
  }

  /** The grant is what was asked for, on the node asked for or the one heard from last, and nothing else changes. */
  lemma AssignGrants(g: Registry, job: Id, capability: string, node: Id, newId: Id, now: Time, timeout: Time)
    requires Assign(g, job, capability, node, newId, now, timeout).reply.Granted?
    ensures
      var e := Assign(g, job, capability, node, newId, now, timeout);
      && newId in e.registry.assignments && e.reply.assignment == newId
      && e.registry.assignments[newId] ==
           Assignment(job, e.reply.node, capability, Assigned, now + timeout, e.reply.token)
      && (if node == "" then Latest(g, e.reply.node, capability) else e.reply.node == node)
      && e.reply.node in g.nodes && (capability == "" || capability in g.nodes[e.reply.node].capabilities)
      && (forall b | b in g.assignments && b != newId ::
            b in e.registry.assignments && e.registry.assignments[b] == g.assignments[b])
      && e.registry.queue == g.queue + [newId] && e.registry.nodes.Keys == g.nodes.Keys
      && (forall m | m in g.nodes :: e.registry.nodes[m] ==
            if m == e.reply.node then g.nodes[m].(token := g.nodes[m].token + 1, leaseUntil := now + timeout)
            else g.nodes[m])
  {
  }

  /** A failover is granted exactly if the lease has run out and a node can take over. */
  lemma FailoverExactly(g: Registry, a: Id, now: Time, later: Time, timeout: Time)
    ensures Failover(g, a, now, later, timeout).reply.Granted? <==>
      && a in g.assignments && g.assignments[a].leaseUntil <= now
      && exists n :: n in g.order && Eligible(g, n, g.assignments[a].capability)
  {
  }

  lemma FailoverGrants(g: Registry, a: Id, now: Time, later: Time, timeout: Time)
    requires Failover(g, a, now, later, timeout).reply.Granted?
    ensures
      var e, was := Failover(g, a, now, later, timeout), g.assignments[a];
      && e.reply.assignment == a && Latest(g, e.reply.node, was.capability)
      && a in e.registry.assignments
      && e.registry.assignments[a] ==
           Assignment(was.job, e.reply.node, was.capability, Assigned, later + timeout, e.reply.token)
      && (forall b | b in g.assignments && b != a ::
            b in e.registry.assignments && e.registry.assignments[b] == g.assignments[b])
      && e.registry.queue == g.queue && e.registry.nodes.Keys == g.nodes.Keys
      && (forall m | m in g.nodes :: e.registry.nodes[m] ==
            if m == e.reply.node then g.nodes[m].(token := g.nodes[m].token + 1) else g.nodes[m])
  {
  }

  // ---------------------------------------------------------------- heartbeats

  /** Registration, heartbeat and removal concern one record each; a status longer than 30 characters is cut. */
  lemma RecordsExactly(g: Registry, n: Id, status: string, reported: Option<set<string>>, caps: set<string>, now: Time)
    ensures
      var registered, heard := Register(g, n, caps, now), Heartbeat(g, n, status, reported, now);
      var gone := Unregister(g, n);
      && registered.registry.nodes ==
           g.nodes[n := if n in g.nodes then g.nodes[n].(capabilities := caps, status := "online", lastHeartbeat := now)
                        else NodeRecord(caps, "online", now, 0, 0)]
      && (n !in g.nodes ==> heard.registry == g && gone.registry == g && heard.reply.NodeNotRegistered?)
      && (n in g.nodes ==>
            && heard.registry.nodes ==
                 g.nodes[n := g.nodes[n].(
                   status := if |status| <= 30 then status else status[..30],
                   lastHeartbeat := now,
                   capabilities := if reported.Some? then reported.value else g.nodes[n].capabilities)]
            && gone.registry.nodes == g.nodes - {n})
      && registered.registry.assignments == heard.registry.assignments == gone.registry.assignments == g.assignments
  {
  }

  /** The look at the clocks saves exactly if it found a node silent. */
  lemma AgeingSaves(g: Registry, now: Time, timeout: Time)
    ensures MarkStale(g, now, timeout).saves <==> MarkStale(g, now, timeout).registry != g
  {
    if n :| n in g.nodes && Expired(g.nodes[n], now, timeout) {
      assert MarkStale(g, now, timeout).registry.nodes[n].status != g.nodes[n].status;
    } else {
      assert MarkStale(g, now, timeout).registry.nodes == g.nodes;
    }
  }

  /** Requests that do not concern the record of the node itself. */
  predicate LeavesRecord(op: Op, n: Id) {
    match op
    case OpRegister(id, _, _, _) => id != n
    case OpHeartbeat(id, _, _, _, _) => id != n
    case OpUnregister(id, _) => id != n
    case OpRestart => false
    case _ => true
  }

  /** A look at the clocks that finds the node silent for longer than the timeout. */
  predicate FindsSilent(op: Op, heard: Time, timeout: Time) {
    op.OpMarkStale? && op.now - heard > timeout
  }

  lemma RecordStep(s: System, op: Op, timeout: Time, n: Id)
    requires n in s.memory.nodes && LeavesRecord(op, n)
    ensures
      var g, was := Step(s, op, timeout).memory, s.memory.nodes[n];
      && n in g.nodes && g.nodes[n].lastHeartbeat == was.lastHeartbeat && g.nodes[n].capabilities == was.capabilities
      && (was.status == "online" ==> (g.nodes[n].status == "online" <==> !FindsSilent(op, was.lastHeartbeat, timeout)))
      && (was.status != "online" ==> g.nodes[n].status != "online")
  {
  }

  lemma {:induction false} RunRecord(s: System, ops: seq<Op>, timeout: Time, n: Id)
    requires n in s.memory.nodes && forall i | 0 <= i < |ops| :: LeavesRecord(ops[i], n)
    ensures
      var g, was := Execute(s, ops, timeout).memory, s.memory.nodes[n];
      && n in g.nodes && g.nodes[n].lastHeartbeat == was.lastHeartbeat && g.nodes[n].capabilities == was.capabilities
      && (g.nodes[n].status == "online" <==>
            was.status == "online" && forall i | 0 <= i < |ops| :: !FindsSilent(ops[i], was.lastHeartbeat, timeout))
    decreases |ops|
  {
    hide Step, FindsSilent, LeavesRecord;
    if ops != [] {
      RecordStep(s, ops[0], timeout, n);
      RunRecord(Step(s, ops[0], timeout), ops[1..], timeout, n);
      assert forall i | 0 < i < |ops| :: ops[i] == ops[1..][i - 1];
    }
  }

  /** After a heartbeat, until the node is heard from again, it can be chosen exactly as long as it was not found
      silent. */
  lemma HeartbeatKeepsEligible(
    s: System, n: Id, reported: Option<set<string>>, heard: Time, saved: bool, ops: seq<Op>, timeout: Time, c: string)
    requires n in s.memory.nodes && forall i | 0 <= i < |ops| :: LeavesRecord(ops[i], n)
    ensures
      var t := Step(s, OpHeartbeat(n, "online", reported, heard, saved), timeout);
      var caps := if reported.Some? then reported.value else s.memory.nodes[n].capabilities;
      Eligible(Execute(t, ops, timeout).memory, n, c) <==>
        (c == "" || c in caps) && forall i | 0 <= i < |ops| :: !FindsSilent(ops[i], heard, timeout)
  {
    hide Execute, FindsSilent;
    RunRecord(Step(s, OpHeartbeat(n, "online", reported, heard, saved), timeout), ops, timeout, n);
  }

  /** The same after a registration, which also counts as being heard from. */
  lemma RegistrationMakesEligible(
    s: System, n: Id, capabilities: set<string>, heard: Time, saved: bool, ops: seq<Op>, timeout: Time, c: string)
    requires forall i | 0 <= i < |ops| :: LeavesRecord(ops[i], n)
    ensures
      var t := Step(s, OpRegister(n, capabilities, heard, saved), timeout);
      Eligible(Execute(t, ops, timeout).memory, n, c) <==>
        (c == "" || c in capabilities) && forall i | 0 <= i < |ops| :: !FindsSilent(ops[i], heard, timeout)
  {
    hide Execute, FindsSilent;
    RunRecord(Step(s, OpRegister(n, capabilities, heard, saved), timeout), ops, timeout, n);
  }

  /** After the look at the clocks that every request starts with, no silent node is chosen. */
  lemma SilentNeverChosen(
    g: Registry, marked: Time, job: Id, capability: string, a: Id, newId: Id, now: Time, later: Time, timeout: Time)
    ensures
      var aged := MarkStale(g, marked, timeout).registry;
      var given := Assign(aged, job, capability, "", newId, now, timeout);
      var taken := Failover(aged, a, now, later, timeout);
      && (given.reply.Granted? ==>
            given.reply.node in g.nodes && marked - g.nodes[given.reply.node].lastHeartbeat <= timeout)
      && (taken.reply.Granted? ==>
            taken.reply.node in g.nodes && marked - g.nodes[taken.reply.node].lastHeartbeat <= timeout)
  {
    var aged := MarkStale(g, marked, timeout).registry;
    assert forall n | n in aged.nodes && aged.nodes[n].status == "online" ::
      n in g.nodes && marked - g.nodes[n].lastHeartbeat <= timeout;
  }

  // ---------------------------------------------------------------- the saved file

  /** The file holds every node, and an assignment exactly if it is among the last 500. */
  lemma FileHoldsLast500(g: Registry, k: nat)
    requires Listed(g) && k < |g.queue|
    ensures Persisted(g).nodes == g.nodes && Persisted(g).order == g.order
    ensures g.queue[k] in Persisted(g).assignments <==> |g.queue| - k <= 500
    ensures g.queue[k] in Persisted(g).assignments ==>
      g.queue[k] in g.assignments && Persisted(g).assignments[g.queue[k]] == g.assignments[g.queue[k]]
  {
    assert g.queue[k] in ToSet(g.queue);
    var kept := Persisted(g).queue;
    if |g.queue| - k <= 500 {
      assert kept[k - (|g.queue| - |kept|)] == g.queue[k];
    }
  }
}
