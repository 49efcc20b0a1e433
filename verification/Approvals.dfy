/** Approval requests, bundles and grants: the operations on the stored lists as functions. */
module Approvals {
  import opened Sequences

  type Id = string
  type Time = int

  datatype Safety = Safety(zone: string, redLines: seq<int>)

  /** What is asked for; of the arguments the redacted form is stored and compared. */
  datatype Subject = Subject(tool: string, args: string, safety: Safety)

  datatype Status = Pending | Approved | Denied

  datatype Request = Request(id: Id, subject: Subject, resources: seq<string>, purpose: string, status: Status)

  datatype Bundle = Bundle(id: Id, requestIds: seq<Id>, mission: string, status: Status)

  datatype Scope = Scope(tool: string, redLines: seq<int>, resources: seq<string>, purpose: string)

  /** An expiry that cannot be read counts as passed. */
  datatype Expiry = At(time: Time) | Unreadable

  /** `via` is the request a grant was created from. */
  datatype Grant = Grant(
    id: Id, via: Option<Id>, scope: Scope, allows: bool, expires: Option<Expiry>, maxUses: Option<int>, uses: int,
    active: bool)

  datatype Store = Store(grants: seq<Grant>, requests: seq<Request>, bundles: seq<Bundle>)

  datatype Decision = Approve | Deny | Other

  datatype Terms = Terms(resources: Option<seq<string>>, purpose: string, ttlMinutes: Option<int>, maxUses: Option<int>)

  /** Whether a scope covers a subject: patterns and keywords are a parameter. */
  type Fit = (Scope, Subject) -> bool

  // ---------------------------------------------------------------- grants

  predicate ExpiredAt(g: Grant, now: Time) {
    g.expires.Some? && (g.expires.value.Unreadable? || now >= g.expires.value.time)
  }

  predicate Exhausted(g: Grant) {
    g.maxUses.Some? && g.uses >= g.maxUses.value
  }

  predicate Usable(g: Grant, now: Time) {
    g.active && g.allows && !ExpiredAt(g, now) && !Exhausted(g)
  }

  predicate Matches(g: Grant, ask: Subject, now: Time, fit: Fit) {
    Usable(g, now) && fit(g.scope, ask)
  }

  /** The first grant that matches, or the number of grants. */
  function FirstMatch(grants: seq<Grant>, ask: Subject, now: Time, fit: Fit): (k: nat)
    ensures k <= |grants| && (k < |grants| ==> Matches(grants[k], ask, now, fit))
    ensures forall i | 0 <= i < k :: !Matches(grants[i], ask, now, fit)
  {
    if grants == [] || Matches(grants[0], ask, now, fit) then 0 else 1 + FirstMatch(grants[1..], ask, now, fit)
  }

  function ExpiryAfter(now: Time, ttlMinutes: Option<int>): Option<Expiry> {
    if ttlMinutes.Some? && ttlMinutes.value > 0 then Some(At(now + 60 * ttlMinutes.value)) else None
  }

  function NewGrant(
    id: Id, via: Option<Id>, scope: Scope, ttlMinutes: Option<int>, maxUses: Option<int>, now: Time): Grant
  {
    Grant(id, via, scope.(tool := if scope.tool == "" then "*" else scope.tool), true, ExpiryAfter(now, ttlMinutes),
          maxUses, 0, true)
  }

  /** The grant an approval creates: the request's own tool and red lines, the rest overridable. */
  function GrantFor(r: Request, terms: Terms, id: Id, now: Time): Grant {
    var scope := Scope(r.subject.tool, r.subject.safety.redLines,
                       if terms.resources.Some? then terms.resources.value else r.resources,
                       if terms.purpose != "" then terms.purpose else r.purpose);
    NewGrant(id, Some(r.id), scope, terms.ttlMinutes, terms.maxUses, now)
  }

  function Revoked(grants: seq<Grant>, id: Id): (r: seq<Grant>)
    ensures |r| == |grants|
    ensures forall i | 0 <= i < |grants| ::
      r[i] == if grants[i].id == id then grants[i].(active := false) else grants[i]
  {
    if grants == [] then []
    else [if grants[0].id == id then grants[0].(active := false) else grants[0]] + Revoked(grants[1..], id)
  }

  // ---------------------------------------------------------------- requests

  /** The first place where an identifier stands, or the length. */
  function PositionOf<T>(s: seq<T>, idOf: T -> Id, id: Id): (k: nat)
    ensures k <= |s| && (k < |s| ==> idOf(s[k]) == id)
    ensures forall i | 0 <= i < k :: idOf(s[i]) != id
  {
    if s == [] || idOf(s[0]) == id then 0 else 1 + PositionOf(s[1..], idOf, id)
  }

  function Position(requests: seq<Request>, id: Id): (k: nat)
    ensures k <= |requests| && (k < |requests| ==> requests[k].id == id)
    ensures forall i | 0 <= i < k :: requests[i].id != id
  {
    PositionOf(requests, (r: Request) => r.id, id)
  }

  predicate Awaits(r: Request, subject: Subject) {
    r.status.Pending? && r.subject == subject
  }

  predicate HasTwin(requests: seq<Request>, subject: Subject) {
    exists i | 0 <= i < |requests| :: Awaits(requests[i], subject)
  }

  /** Only yellow-zone actions are queued, and none that already waits. */
  function Requested(s: Store, subject: Subject, resources: seq<string>, purpose: string, id: Id): Store {
    if subject.safety.zone != "yellow" || HasTwin(s.requests, subject) then s
    else s.(requests := s.requests + [Request(id, subject, resources, purpose, Pending)])
  }

  predicate Decides(s: Store, id: Id, d: Decision) {
    var k := Position(s.requests, id);
    !d.Other? && k < |s.requests| && s.requests[k].status.Pending?
  }

  function Verdict(d: Decision): Status {
    if d.Approve? then Approved else Denied
  }

  function Resolved(s: Store, id: Id, d: Decision, terms: Terms, grantId: Id, now: Time): Store {
    if !Decides(s, id, d) then s
    else
      var k := Position(s.requests, id);
      var r := s.requests[k].(status := Verdict(d));
      s.(requests := s.requests[k := r],
         grants := s.grants + if d.Approve? then [GrantFor(r, terms, grantId, now)] else [])
  }

  // ---------------------------------------------------------------- bundles

  function Members(ids: seq<Id>): set<Id> {
    set x | x in ids
  }

  function NonEmpty(ids: seq<Id>): seq<Id> {
    if ids == [] then []
    else NonEmpty(ids[..|ids| - 1]) + if ids[|ids| - 1] != "" then [ids[|ids| - 1]] else []
  }

  predicate SameBundle(b: Bundle, ids: seq<Id>, mission: string) {
    b.status.Pending? && Members(b.requestIds) == Members(ids) && b.mission == mission
  }

  predicate HasBundle(bundles: seq<Bundle>, ids: seq<Id>, mission: string) {
    exists i | 0 <= i < |bundles| :: SameBundle(bundles[i], ids, mission)
  }

  function Bundled(s: Store, requestIds: seq<Id>, mission: string, id: Id): Store {
    var ids := NonEmpty(requestIds);
    if ids == [] || HasBundle(s.bundles, ids, mission) then s
    else s.(bundles := s.bundles + [Bundle(id, ids, mission, Pending)])
  }

  function BundlePosition(bundles: seq<Bundle>, id: Id): (k: nat)
    ensures k <= |bundles| && (k < |bundles| ==> bundles[k].id == id)
    ensures forall i | 0 <= i < k :: bundles[i].id != id
  {
    PositionOf(bundles, (b: Bundle) => b.id, id)
  }

  /** The requests one after the other; grant identifiers come from a generator. */
  function ResolvedAll(s: Store, ids: seq<Id>, d: Decision, terms: Terms, mint: Id -> Id, now: Time): Store {
    if ids == [] then s
    else
      var id := ids[|ids| - 1];
      Resolved(ResolvedAll(s, ids[..|ids| - 1], d, terms, mint, now), id, d, terms, mint(id), now)
  }

  predicate DecidesBundle(s: Store, id: Id, d: Decision) {
    var k := BundlePosition(s.bundles, id);
    !d.Other? && k < |s.bundles| && s.bundles[k].status.Pending?
  }

  function BundleResolved(s: Store, id: Id, d: Decision, terms: Terms, mint: Id -> Id, now: Time): Store {
    if !DecidesBundle(s, id, d) then s
    else
      var k := BundlePosition(s.bundles, id);
      ResolvedAll(s, s.bundles[k].requestIds, d, terms.(resources := None, purpose := ""), mint, now)
        .(bundles := s.bundles[k := s.bundles[k].(status := Verdict(d))])
  }

  // ---------------------------------------------------------------- asking

  function Used(s: Store, ask: Subject, consume: bool, now: Time, fit: Fit): Store {
    var k := FirstMatch(s.grants, ask, now, fit);
    if !consume || k == |s.grants| then s
    else s.(grants := s.grants[k := s.grants[k].(uses := s.grants[k].uses + 1)])
  }

  // ---------------------------------------------------------------- histories

  datatype Op =
    | NewRequest(subject: Subject, resources: seq<string>, purpose: string, id: Id)
    | NewBundle(requestIds: seq<Id>, mission: string, id: Id)
    | Resolve(id: Id, decision: Decision, terms: Terms, grantId: Id, now: Time)
    | ResolveBundle(id: Id, decision: Decision, terms: Terms, mint: Id -> Id, now: Time)
    | CreateGrant(scope: Scope, ttlMinutes: Option<int>, maxUses: Option<int>, id: Id, now: Time)
    | Revoke(id: Id)
    | Ask(ask: Subject, consume: bool, now: Time, fit: Fit)

  function Apply(s: Store, op: Op): Store {
    match op
    case NewRequest(subject, resources, purpose, id) => Requested(s, subject, resources, purpose, id)
    case NewBundle(ids, mission, id) => Bundled(s, ids, mission, id)
    case Resolve(id, d, terms, grantId, now) => Resolved(s, id, d, terms, grantId, now)
    case ResolveBundle(id, d, terms, mint, now) => BundleResolved(s, id, d, terms, mint, now)
    case CreateGrant(scope, ttl, maxUses, id, now) =>
      s.(grants := s.grants + [NewGrant(id, None, scope, ttl, maxUses, now)])
    case Revoke(id) => s.(grants := Revoked(s.grants, id))
    case Ask(ask, consume, now, fit) => Used(s, ask, consume, now, fit)
  }

  function Run(s: Store, ops: seq<Op>): Store {
    if ops == [] then s else Apply(Run(s, ops[..|ops| - 1]), ops[|ops| - 1])
  }

  const EMPTY := Store([], [], [])
}
