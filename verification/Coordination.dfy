/**
 The control plane's registry and its locked operations as functions on values.
 Dictionaries keep their insertion order beside them, because routing, lookup by
 job and the persisted tail of assignments depend on it.
 */
module Coordination {
  import opened Sequences

  type Id = string

  /** Instants and durations, in any fixed unit. */
  type Time = int

  datatype NodeRecord = NodeRecord(
    capabilities: set<string>, status: string, lastHeartbeat: Time, leaseUntil: Time, token: nat)

  datatype AssignmentStatus = Assigned | Running | Succeeded | Failed

  datatype Assignment = Assignment(
    job: Id, node: Id, capability: string, status: AssignmentStatus, leaseUntil: Time, token: nat)

  datatype Registry = Registry(
    nodes: map<Id, NodeRecord>, order: seq<Id>, assignments: map<Id, Assignment>, queue: seq<Id>)

  const ONLINE := "online"
  const STALE := "stale"
  const KEPT_ASSIGNMENTS := 500

  predicate Active(a: Assignment) {
    a.status.Assigned? || a.status.Running?
  }

  datatype Reply =
    | Done
    | NodeNotRegistered
    | EmergencyStop
    | NoHealthyNode
    | LacksCapability
    | Deduplicated(existing: Id)
    | Granted(assignment: Id, node: Id, token: nat)
    | NotFound
    | StaleFencingToken
    | NotActive
    | LeaseStillActive
    | NoFailoverNode

  /** The registry after an operation, whether the operation saved it, and the reply. */
  datatype Effect = Effect(registry: Registry, saves: bool, reply: Reply)

  ghost predicate Listed(g: Registry) {
    && Distinct(g.order) && ToSet(g.order) == g.nodes.Keys
    && Distinct(g.queue) && ToSet(g.queue) == g.assignments.Keys
  }

  function Clip(s: string, limit: nat): string {
    if |s| <= limit then s else s[..limit]
  }

  function Register(g: Registry, id: Id, capabilities: set<string>, now: Time): Effect {
    var record :=
      if id in g.nodes then g.nodes[id].(capabilities := capabilities, status := ONLINE, lastHeartbeat := now)
      else NodeRecord(capabilities, ONLINE, now, 0, 0);
    Effect(
      g.(nodes := g.nodes[id := record], order := if id in g.nodes then g.order else g.order + [id]), true, Done)
  }

  function Heartbeat(g: Registry, id: Id, status: string, capabilities: Option<set<string>>, now: Time): Effect {
    if id !in g.nodes then Effect(g, false, NodeNotRegistered)
    else
      var was := g.nodes[id];
      var record := was.(
        status := Clip(status, 30), lastHeartbeat := now,
        capabilities := if capabilities.Some? then capabilities.value else was.capabilities);
      Effect(g.(nodes := g.nodes[id := record]), true, Done)
  }

  function Without(s: seq<Id>, x: Id): (r: seq<Id>)
    ensures forall y :: y in r <==> y in s && y != x
  {
    if s == [] then []
    else (if s[0] == x then [] else [s[0]]) + Without(s[1..], x)
  }

  /** The whole record goes, the fencing counter with it. */
  function Unregister(g: Registry, id: Id): Effect {
    if id !in g.nodes then Effect(g, false, NodeNotRegistered)
    else Effect(g.(nodes := g.nodes - {id}, order := Without(g.order, id)), true, Done)
  }

  predicate Expired(n: NodeRecord, now: Time, timeout: Time) {
    n.status == ONLINE && now - n.lastHeartbeat > timeout
  }

  function Aged(n: NodeRecord, now: Time, timeout: Time): NodeRecord {
    if Expired(n, now, timeout) then n.(status := STALE) else n
  }

  function MarkStale(g: Registry, now: Time, timeout: Time): Effect {
    Effect(
      g.(nodes := map n | n in g.nodes :: Aged(g.nodes[n], now, timeout)),
      exists n | n in g.nodes :: Expired(g.nodes[n], now, timeout),
      Done)
  }

  predicate Candidate(g: Registry, id: Id, capability: string) {
    id in g.nodes && g.nodes[id].status == ONLINE && (capability == "" || capability in g.nodes[id].capabilities)
  }

  /** The first of the candidates with the latest heartbeat. */
  function Freshest(g: Registry, ids: seq<Id>, capability: string): (r: Option<Id>)
    ensures r.None? <==> forall n | n in ids :: !Candidate(g, n, capability)
    ensures r.Some? ==> r.value in ids && Candidate(g, r.value, capability)
    ensures r.Some? ==> forall n | n in ids && Candidate(g, n, capability) ::
      g.nodes[n].lastHeartbeat <= g.nodes[r.value].lastHeartbeat
  {
    if ids == [] then None
    else
      var last := ids[|ids| - 1];
      var front := Freshest(g, ids[..|ids| - 1], capability);
      assert forall n :: n in ids <==> n in ids[..|ids| - 1] || n == last;
      if !Candidate(g, last, capability) then front
      else if front.Some? && g.nodes[front.value].lastHeartbeat >= g.nodes[last].lastHeartbeat then front
      else Some(last)
  }

  function Select(g: Registry, capability: string): Option<Id> {
    Freshest(g, g.order, capability)
  }

  /** The first active assignment of a job. */
  function ActiveFor(g: Registry, ids: seq<Id>, job: Id): (r: Option<Id>)
    ensures r.Some? ==>
      r.value in ids && r.value in g.assignments
      && g.assignments[r.value].job == job && Active(g.assignments[r.value])
    ensures r.None? ==> forall a | a in ids && a in g.assignments && g.assignments[a].job == job ::
      !Active(g.assignments[a])
  {
    if ids == [] then None
    else if ids[0] in g.assignments && g.assignments[ids[0]].job == job && Active(g.assignments[ids[0]])
    then Some(ids[0])
    else ActiveFor(g, ids[1..], job)
  }

  function Target(g: Registry, capability: string, node: Id): Option<Id> {
    if node != "" then (if node in g.nodes then Some(node) else None) else Select(g, capability)
  }

  /** The locked part of an assignment request; `newId` is the id a grant gets. */
  function Assign(
    g: Registry, job: Id, capability: string, node: Id, newId: Id, now: Time, timeout: Time): Effect
  {
    var target := Target(g, capability, node);
    if target.None? || target.value !in g.nodes then Effect(g, false, NoHealthyNode)
    else if capability != "" && capability !in g.nodes[target.value].capabilities then Effect(g, false, LacksCapability)
    else
      var existing := ActiveFor(g, g.queue, job);
      if existing.Some? then Effect(g, false, Deduplicated(existing.value))
      else
        var record := g.nodes[target.value];
        var token := record.token + 1;
        var lease := now + timeout;
        Effect(
          g.(nodes := g.nodes[target.value := record.(token := token, leaseUntil := lease)],
             assignments := g.assignments[newId := Assignment(job, target.value, capability, Assigned, lease, token)],
             queue := g.queue + [newId]),
          true, Granted(newId, target.value, token))
  }

  function Renew(g: Registry, assignment: Id, node: Id, token: int, now: Time, timeout: Time): Effect {
    if assignment !in g.assignments || node !in g.nodes then Effect(g, false, NotFound)
    else
      var a := g.assignments[assignment];
      if a.node != node || a.token != token then Effect(g, false, StaleFencingToken)
      else if !Active(a) then Effect(g, false, NotActive)
      else
        var lease := now + timeout;
        Effect(
          g.(assignments := g.assignments[assignment := a.(status := Running, leaseUntil := lease)],
             nodes := g.nodes[node := g.nodes[node].(leaseUntil := lease)]),
          true, Done)
  }

  /** The locked part of a failover; the lease is checked at `now` and granted at `later`. */
  function Failover(g: Registry, assignment: Id, now: Time, later: Time, timeout: Time): Effect {
    if assignment !in g.assignments then Effect(g, false, NotFound)
    else
      var a := g.assignments[assignment];
      if a.leaseUntil > now then Effect(g, false, LeaseStillActive)
      else
        var target := Select(g, a.capability);
        if target.None? || target.value !in g.nodes then Effect(g, false, NoFailoverNode)
        else
          var record := g.nodes[target.value];
          var token := record.token + 1;
          Effect(
            g.(nodes := g.nodes[target.value := record.(token := token)],
               assignments := g.assignments[assignment :=
                 a.(node := target.value, token := token, leaseUntil := later + timeout, status := Assigned)]),
            true, Granted(assignment, target.value, token))
  }

  /** Credentials are checked only when a node id is given; a missing token counts as zero. */
  function Complete(g: Registry, assignment: Id, success: bool, node: Option<Id>, token: Option<int>): Effect {
    if assignment !in g.assignments then Effect(g, false, NotFound)
    else
      var a := g.assignments[assignment];
      if node.Some? && (a.node != node.value || a.token != if token.Some? then token.value else 0) then
        Effect(g, false, StaleFencingToken)
      else
        Effect(
          g.(assignments := g.assignments[assignment :=
               a.(status := if success then Succeeded else Failed, leaseUntil := 0)]),
          true, Done)
  }

  function Recent(queue: seq<Id>): seq<Id> {
    if |queue| <= KEPT_ASSIGNMENTS then queue else queue[|queue| - KEPT_ASSIGNMENTS..]
  }

  function Only(assignments: map<Id, Assignment>, ids: seq<Id>): map<Id, Assignment> {
    map a | a in ids && a in assignments :: assignments[a]
  }

  /** What a save writes: every node, and the most recent assignments. */
  function Persisted(g: Registry): Registry {
    g.(assignments := Only(g.assignments, Recent(g.queue)), queue := Recent(g.queue))
  }

  // ---------------------------------------------------------------- listings stay consistent

  lemma {:induction false} WithoutDistinct(s: seq<Id>, x: Id)
    requires Distinct(s)
    ensures Distinct(Without(s, x))
  {
    if s != [] {
      WithoutDistinct(s[1..], x);
      assert s[0] !in s[1..];
    }
  }
}
