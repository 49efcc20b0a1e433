/** The coordinator object: its dictionaries are updated in place under one lock. */
module Coordinator {
  import opened Sequences
  import opened Coordination

  /** The node table when the ageing pass has visited `done`. */
  ghost function PartlyAged(nodes: map<Id, NodeRecord>, done: seq<Id>, now: Time, timeout: Time): map<Id, NodeRecord> {
    map n | n in nodes :: if n in done then Aged(nodes[n], now, timeout) else nodes[n]
  }

  ghost predicate SomeExpired(nodes: map<Id, NodeRecord>, done: seq<Id>, now: Time, timeout: Time) {
    exists n | n in done :: n in nodes && Expired(nodes[n], now, timeout)
  }

  lemma AgingAdvances(nodes: map<Id, NodeRecord>, order: seq<Id>, i: nat, now: Time, timeout: Time)
    requires Distinct(order) && ToSet(order) == nodes.Keys && i < |order|
    ensures order[i] in nodes && order[i] in PartlyAged(nodes, order[..i], now, timeout)
    ensures PartlyAged(nodes, order[..i], now, timeout)[order[i]] == nodes[order[i]]
    ensures PartlyAged(nodes, order[..i + 1], now, timeout) ==
      PartlyAged(nodes, order[..i], now, timeout)[order[i] := Aged(nodes[order[i]], now, timeout)]
    ensures SomeExpired(nodes, order[..i + 1], now, timeout) ==
      (SomeExpired(nodes, order[..i], now, timeout) || Expired(nodes[order[i]], now, timeout))
  {
    assert order[i] in ToSet(order) && order[i] !in order[..i];
    assert order[..i + 1] == order[..i] + [order[i]];
  }

  lemma AgingBegins(nodes: map<Id, NodeRecord>, order: seq<Id>, now: Time, timeout: Time)
    ensures PartlyAged(nodes, order[..0], now, timeout) == nodes && !SomeExpired(nodes, order[..0], now, timeout)
  {
  }

  lemma AgingEnds(g: Registry, nodes: map<Id, NodeRecord>, order: seq<Id>, now: Time, timeout: Time)
    requires ToSet(order) == nodes.Keys && g.nodes == PartlyAged(nodes, order[..|order|], now, timeout)
    ensures var e := MarkStale(g.(nodes := nodes), now, timeout);
      e.registry == g && e.saves == SomeExpired(nodes, order[..|order|], now, timeout)
  {
    assert order[..|order|] == order;
    assert forall n | n in nodes :: n in ToSet(order);
  }

  class DistributedCoordinator {
    var nodes: map<Id, NodeRecord>
    var order: seq<Id>
    var assignments: map<Id, Assignment>
    var queue: seq<Id>
    var file: Registry
    const timeout: Time

    ghost predicate Valid()
      reads this
    {
      Listed(State())
    }

    function State(): Registry
      reads this
    {
      Registry(nodes, order, assignments, queue)
    }

    constructor (file: Registry, timeout: Time)
      requires Listed(file)
      ensures Valid() && State() == file && this.file == file && this.timeout == timeout
    {
      nodes, order, assignments, queue := file.nodes, file.order, file.assignments, file.queue;
      this.file, this.timeout := file, timeout;
    }

    /** Writes the file; a write that fails is swallowed and leaves the previous one. */
    method Save(written: bool)
      modifies `file
      ensures file == if written then Persisted(State()) else old(file)
    {
      hide Only, Recent;
      if written {
        var kept := Recent(queue);
        file := Registry(nodes, order, Only(assignments, kept), kept);
      }
    }

    /** The state and the file after an operation that has the given effect. */
    twostate predicate Becomes(e: Effect, written: bool)
      reads this
    {
      State() == e.registry && file == if e.saves && written then Persisted(e.registry) else old(file)
    }

    method RegisterNode(id: Id, capabilities: set<string>, now: Time, written: bool)
      requires Valid()
      modifies this
      ensures Becomes(Register(old(State()), id, capabilities, now), written) && Valid()
    {
      if id in nodes {
        nodes := nodes[id := nodes[id].(capabilities := capabilities, status := ONLINE, lastHeartbeat := now)];
      } else {
        order := order + [id];
        nodes := nodes[id := NodeRecord(capabilities, ONLINE, now, 0, 0)];
      }
      Save(written);
    }

    method HeartbeatFrom(id: Id, status: string, capabilities: Option<set<string>>, now: Time, written: bool)
      returns (reply: Reply)
      requires Valid()
      modifies this
      ensures var e := Heartbeat(old(State()), id, status, capabilities, now); Becomes(e, written) && reply == e.reply
      ensures Valid()
    {
      if id !in nodes {
        return NodeNotRegistered;
      }
      var record := nodes[id].(status := Clip(status, 30), lastHeartbeat := now);
      if capabilities.Some? {
        record := record.(capabilities := capabilities.value);
      }
      nodes := nodes[id := record];
      Save(written);
      reply := Done;
    }

    method UnregisterNode(id: Id, written: bool) returns (removed: bool)
      requires Valid()
      modifies this
      ensures Becomes(Unregister(old(State()), id), written) && removed == (id in old(nodes))
      ensures Valid()
    {
      removed := id in nodes;
      if removed {
        WithoutDistinct(order, id);
        nodes, order := nodes - {id}, Without(order, id);
        Save(written);
      }
    }

    /** Scans every node and ages those whose heartbeat is too old. */
    method AgeNodes(now: Time) returns (changed: bool)
      requires Valid()
      modifies `nodes
      ensures State() == MarkStale(old(State()), now, timeout).registry
      ensures changed == MarkStale(old(State()), now, timeout).saves
    {
      hide PartlyAged, SomeExpired, MarkStale;
      ghost var was := nodes;
      AgingBegins(was, order, now, timeout);
      changed := false;
      for i := 0 to |order|
        invariant nodes == PartlyAged(was, order[..i], now, timeout)
        invariant changed == SomeExpired(was, order[..i], now, timeout)
      {
        var id := order[i];
        AgingAdvances(was, order, i, now, timeout);
        if nodes[id].status == ONLINE && now - nodes[id].lastHeartbeat > timeout {
          nodes := nodes[id := nodes[id].(status := STALE)];
          changed := true;
        }
      }
      AgingEnds(State(), was, order, now, timeout);
    }

    method MarkStaleNodes(now: Time, written: bool)
      requires Valid()
      modifies this
      ensures Becomes(MarkStale(old(State()), now, timeout), written) && Valid()
    {
      var changed := AgeNodes(now);
      if changed {
        Save(written);
      }
    }

    /** Routing: scan the online capable nodes for the latest heartbeat. */
    method SelectNode(capability: string) returns (best: Option<Id>)
      requires Valid()
      ensures best == Select(State(), capability)
    {
      best := None;
      for i := 0 to |order|
        invariant best == Freshest(State(), order[..i], capability)
      {
        assert order[i] in ToSet(order);
        assert order[..i + 1][..i] == order[..i];
        var node := nodes[order[i]];
        if node.status == ONLINE && (capability == "" || capability in node.capabilities) {
          if best.None? || nodes[best.value].lastHeartbeat < node.lastHeartbeat {
            best := Some(order[i]);
          }
        }
      }
      TakeAll(order);
    }

    /** The first active assignment of a job, in order of creation. */
    method FindActive(job: Id) returns (found: Option<Id>)
      requires Valid()
      ensures found == ActiveFor(State(), queue, job)
    {
      for i := 0 to |queue|
        invariant ActiveFor(State(), queue, job) == ActiveFor(State(), queue[i..], job)
      {
        assert queue[i] in ToSet(queue);
        assert queue[i..][0] == queue[i] && queue[i..][1..] == queue[i + 1..];
        var a := assignments[queue[i]];
        if a.job == job && Active(a) {
          return Some(queue[i]);
        }
      }
      found := None;
    }

    /** The locked part of an assignment request. */
    method AssignLocked(job: Id, capability: string, node: Id, newId: Id, now: Time, written: bool)
      returns (reply: Reply)
      requires Valid() && newId !in assignments
      modifies this
      ensures var e := Assign(old(State()), job, capability, node, newId, now, timeout);
        Becomes(e, written) && reply == e.reply
      ensures Valid()
    {
      hide Freshest, ActiveFor, Persisted;
      var target := None;
      if node != "" {
        target := if node in nodes then Some(node) else None;
      } else {
        target := SelectNode(capability);
      }
      if target.None? {
        return NoHealthyNode;
      }
      if capability != "" && capability !in nodes[target.value].capabilities {
        return LacksCapability;
      }
      var existing := FindActive(job);
      if existing.Some? {
        return Deduplicated(existing.value);
      }
      reply := Grant(job, capability, target.value, newId, now, written);
    }

    /** Counts the node's token up and records the new assignment with it. */
    method Grant(job: Id, capability: string, node: Id, newId: Id, now: Time, written: bool) returns (reply: Reply)
      requires Valid() && newId !in assignments && node in nodes
      modifies this
      ensures
        var record := old(nodes)[node];
        var lease := now + timeout;
        var token := record.token + 1;
        && reply == Granted(newId, node, token)
        && nodes == old(nodes)[node := record.(token := token, leaseUntil := lease)] && order == old(order)
        && assignments == old(assignments)[newId := Assignment(job, node, capability, Assigned, lease, token)]
        && queue == old(queue) + [newId]
        && file == if written then Persisted(State()) else old(file)
      ensures Valid()
    {
      var token := nodes[node].token + 1;
      nodes := nodes[node := nodes[node].(token := token, leaseUntil := now + timeout)];
      assignments := assignments[newId := Assignment(job, node, capability, Assigned, now + timeout, token)];
      queue := queue + [newId];
      Save(written);
      reply := Granted(newId, node, token);
    }

    /** The whole request: nothing under an emergency stop; otherwise age the nodes, then assign. */
    method AssignJob(
      job: Id, capability: string, node: Id, newId: Id, stopped: bool, marked: Time, now: Time,
      markWritten: bool, written: bool)
      returns (reply: Reply)
      requires Valid() && newId !in assignments
      modifies this
      ensures stopped ==> reply == EmergencyStop && State() == old(State()) && file == old(file)
      ensures !stopped ==>
        var aged := MarkStale(old(State()), marked, timeout);
        var e := Assign(aged.registry, job, capability, node, newId, now, timeout);
        && State() == e.registry && reply == e.reply
        && file == (if e.saves && written then Persisted(e.registry)
                    else if aged.saves && markWritten then Persisted(aged.registry)
                    else old(file))
      ensures Valid()
    {
      if stopped {
        return EmergencyStop;
      }
      hide MarkStale, Assign, Persisted;
      MarkStaleNodes(marked, markWritten);
      reply := AssignLocked(job, capability, node, newId, now, written);
    }

    method RenewAssignment(assignment: Id, node: Id, token: int, now: Time, written: bool) returns (reply: Reply)
      requires Valid()
      modifies this
      ensures var e := Renew(old(State()), assignment, node, token, now, timeout);
        Becomes(e, written) && reply == e.reply
      ensures Valid()
    {
      if assignment !in assignments || node !in nodes {
        return NotFound;
      }
      var a := assignments[assignment];
      if a.node != node || a.token != token {
        return StaleFencingToken;
      }
      if !Active(a) {
        return NotActive;
      }
      assignments := assignments[assignment := a.(status := Running, leaseUntil := now + timeout)];
      nodes := nodes[node := nodes[node].(leaseUntil := now + timeout)];
      Save(written);
      reply := Done;
    }

    method FailoverLocked(assignment: Id, now: Time, later: Time, written: bool) returns (reply: Reply)
      requires Valid()
      modifies this
      ensures var e := Failover(old(State()), assignment, now, later, timeout);
        Becomes(e, written) && reply == e.reply
      ensures Valid()
    {
      hide Freshest, Persisted;
      if assignment !in assignments {
        return NotFound;
      }
      var a := assignments[assignment];
      if a.leaseUntil > now {
        return LeaseStillActive;
      }
      var target := SelectNode(a.capability);
      if target.None? {
        return NoFailoverNode;
      }
      var token := nodes[target.value].token + 1;
      nodes := nodes[target.value := nodes[target.value].(token := token)];
      assignments := assignments[assignment :=
        a.(node := target.value, token := token, leaseUntil := later + timeout, status := Assigned)];
      Save(written);
      reply := Granted(assignment, target.value, token);
    }

    method CompleteAssignment(assignment: Id, success: bool, node: Option<Id>, token: Option<int>, written: bool)
      returns (reply: Reply)
      requires Valid()
      modifies this
      ensures var e := Complete(old(State()), assignment, success, node, token);
        Becomes(e, written) && reply == e.reply
      ensures Valid()
    {
      if assignment !in assignments {
        return NotFound;
      }
      var a := assignments[assignment];
      if node.Some? && (a.node != node.value || a.token != if token.Some? then token.value else 0) {
        return StaleFencingToken;
      }
      assignments := assignments[assignment :=
        a.(status := if success then Succeeded else Failed, leaseUntil := 0)];
      Save(written);
      reply := Done;
    }
  }
}
