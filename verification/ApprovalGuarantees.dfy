/** What the approval lists guarantee over every history of operations. */
module ApprovalGuarantees {
  import opened Sequences
  import opened Approvals

  // ---------------------------------------------------------------- nothing decided changes

  predicate RequestLater(r: Request, r': Request) {
    r' == r.(status := r'.status) && (!r.status.Pending? ==> r' == r)
  }

  predicate BundleLater(b: Bundle, b': Bundle) {
    b' == b.(status := b'.status) && (!b.status.Pending? ==> b' == b)
  }

  predicate GrantLater(g: Grant, g': Grant) {
    g' == g.(uses := g'.uses, active := g'.active) && g'.uses >= g.uses && (g'.active ==> g.active)
  }

  /** A later store: the lists only grow, what was decided stays, and grants only lose force. */
  ghost predicate Extends(s: Store, t: Store) {
    && |s.requests| <= |t.requests| && |s.bundles| <= |t.bundles| && |s.grants| <= |t.grants|
    && (forall i | 0 <= i < |s.requests| :: RequestLater(s.requests[i], t.requests[i]))
    && (forall i | 0 <= i < |s.bundles| :: BundleLater(s.bundles[i], t.bundles[i]))
    && (forall i | 0 <= i < |s.grants| :: GrantLater(s.grants[i], t.grants[i]))
  }

  lemma ResolvedExtends(s: Store, id: Id, d: Decision, terms: Terms, grantId: Id, now: Time)
    ensures Extends(s, Resolved(s, id, d, terms, grantId, now))
    ensures Resolved(s, id, d, terms, grantId, now).bundles == s.bundles
  {
  }

  lemma {:induction false} ResolvedAllExtends(
    s: Store, ids: seq<Id>, d: Decision, terms: Terms, mint: Id -> Id, now: Time)
    ensures Extends(s, ResolvedAll(s, ids, d, terms, mint, now))
    ensures ResolvedAll(s, ids, d, terms, mint, now).bundles == s.bundles
  {
    if ids != [] {
      var front, last := ids[..|ids| - 1], ids[|ids| - 1];
      var t := ResolvedAll(s, front, d, terms, mint, now);
      ResolvedAllExtends(s, front, d, terms, mint, now);
      ResolvedExtends(t, last, d, terms, mint(last), now);
    }
  }

  lemma BundleResolvedExtends(s: Store, id: Id, d: Decision, terms: Terms, mint: Id -> Id, now: Time)
    ensures Extends(s, BundleResolved(s, id, d, terms, mint, now))
  {
    if DecidesBundle(s, id, d) {
      var k := BundlePosition(s.bundles, id);
      ResolvedAllExtends(s, s.bundles[k].requestIds, d, terms.(resources := None, purpose := ""), mint, now);
    }
  }

  lemma ApplyExtends(s: Store, op: Op)
    ensures Extends(s, Apply(s, op))
  {
    match op
    case Resolve(id, d, terms, grantId, now) => ResolvedExtends(s, id, d, terms, grantId, now);
    case ResolveBundle(id, d, terms, mint, now) => BundleResolvedExtends(s, id, d, terms, mint, now);
    case _ =>
  }

  /** Every later point of a history extends every earlier one. */
  lemma {:induction false} RunExtends(s: Store, ops: seq<Op>, k: nat)
    requires k <= |ops|
    ensures Extends(Run(s, ops[..k]), Run(s, ops))
    decreases |ops|
  {
    if k == |ops| {
      TakeAll(ops);
    } else {
      var front := ops[..|ops| - 1];
      assert front[..k] == ops[..k];
      RunExtends(s, front, k);
      ApplyExtends(Run(s, front), ops[|ops| - 1]);
    }
  }

  /** A request or bundle leaves the pending state at most once and is never touched again. */
  lemma DecidedForGood(s: Store, ops: seq<Op>, k: nat, i: nat)
    requires k <= |ops|
    ensures var early, late := Run(s, ops[..k]), Run(s, ops);
      && (i < |early.requests| && !early.requests[i].status.Pending? ==>
            i < |late.requests| && late.requests[i] == early.requests[i])
      && (i < |early.bundles| && !early.bundles[i].status.Pending? ==>
            i < |late.bundles| && late.bundles[i] == early.bundles[i])
  {
    RunExtends(s, ops, k);
    var early, late := Run(s, ops[..k]), Run(s, ops);
    if i < |early.requests| {
      assert RequestLater(early.requests[i], late.requests[i]);
    }
    if i < |early.bundles| {
      assert BundleLater(early.bundles[i], late.bundles[i]);
    }
  }

  // ---------------------------------------------------------------- requests stay tidy

  predicate NotTwins(r: Request, r': Request) {
    r.id != r'.id && (r.status.Pending? && r'.status.Pending? ==> r.subject != r'.subject)
  }

  /** Identifiers are unique, and no two requests wait for the same thing. */
  ghost predicate Tidy(requests: seq<Request>) {
    forall i, j | 0 <= i < j < |requests| :: NotTwins(requests[i], requests[j])
  }

  /** The identifier a new request draws has not been drawn before. */
  predicate DrawsFresh(s: Store, op: Op) {
    op.NewRequest? ==> Position(s.requests, op.id) == |s.requests|
  }

  lemma {:induction false} ResolvedAllLength(
    s: Store, ids: seq<Id>, d: Decision, terms: Terms, mint: Id -> Id, now: Time)
    ensures |ResolvedAll(s, ids, d, terms, mint, now).requests| == |s.requests|
  {
    if ids != [] {
      ResolvedAllLength(s, ids[..|ids| - 1], d, terms, mint, now);
    }
  }

  lemma ApplyTidy(s: Store, op: Op)
    requires Tidy(s.requests) && DrawsFresh(s, op)
    ensures Tidy(Apply(s, op).requests)
  {
    if op.NewRequest? {
    } else {
      if op.ResolveBundle? && DecidesBundle(s, op.id, op.decision) {
        var ids := s.bundles[BundlePosition(s.bundles, op.id)].requestIds;
        ResolvedAllLength(s, ids, op.decision, op.terms.(resources := None, purpose := ""), op.mint, op.now);
      }
      ApplyExtends(s, op);
    }
  }

  // ---------------------------------------------------------------- one grant per approval

  function CountVia(grants: seq<Grant>, id: Id): nat {
    if grants == [] then 0
    else CountVia(grants[..|grants| - 1], id) + if grants[|grants| - 1].via == Some(id) then 1 else 0
  }

  /** An approved request has exactly one grant, any other request none. */
  predicate Paid(grants: seq<Grant>, r: Request) {
    CountVia(grants, r.id) == if r.status.Approved? then 1 else 0
  }

  predicate ViaKnown(requests: seq<Request>, g: Grant) {
    g.via.Some? ==> Position(requests, g.via.value) < |requests|
  }

  ghost predicate Accounted(s: Store) {
    && (forall i | 0 <= i < |s.requests| :: Paid(s.grants, s.requests[i]))
    && (forall j | 0 <= j < |s.grants| :: ViaKnown(s.requests, s.grants[j]))
  }

  lemma {:induction false} SameVias(a: seq<Grant>, b: seq<Grant>, id: Id)
    requires |a| == |b| && forall j | 0 <= j < |a| :: a[j].via == b[j].via
    ensures CountVia(a, id) == CountVia(b, id)
  {
    if a != [] {
      SameVias(a[..|a| - 1], b[..|b| - 1], id);
    }
  }

  lemma {:induction false} NoGrantYet(s: Store, n: nat, id: Id)
    requires n <= |s.grants| && Position(s.requests, id) == |s.requests|
    requires forall j | 0 <= j < |s.grants| :: ViaKnown(s.requests, s.grants[j])
    ensures CountVia(s.grants[..n], id) == 0
  {
    if n > 0 {
      assert s.grants[..n][..n - 1] == s.grants[..n - 1];
      assert ViaKnown(s.requests, s.grants[n - 1]);
      NoGrantYet(s, n - 1, id);
    }
  }

  /** Operations that leave requests and the sources of grants alone keep the account. */
  lemma UntouchedAccounted(s: Store, t: Store)
    requires Accounted(s) && t.requests == s.requests && |t.grants| == |s.grants|
    requires forall j | 0 <= j < |s.grants| :: t.grants[j].via == s.grants[j].via
    ensures Accounted(t)
  {
    forall i | 0 <= i < |t.requests| ensures Paid(t.grants, t.requests[i]) {
      assert Paid(s.grants, s.requests[i]);
      SameVias(s.grants, t.grants, s.requests[i].id);
    }
    forall j | 0 <= j < |t.grants| ensures ViaKnown(t.requests, t.grants[j]) {
      assert ViaKnown(s.requests, s.grants[j]);
    }
  }

  lemma ResolvedAccounted(s: Store, id: Id, d: Decision, terms: Terms, grantId: Id, now: Time)
    requires Tidy(s.requests) && Accounted(s)
    ensures Accounted(Resolved(s, id, d, terms, grantId, now))
  {
    if Decides(s, id, d) {
      var t := Resolved(s, id, d, terms, grantId, now);
      var k := Position(s.requests, id);
      var g := GrantFor(t.requests[k], terms, grantId, now);
      ResolvedExtends(s, id, d, terms, grantId, now);
      forall i | 0 <= i < |t.requests| ensures Paid(t.grants, t.requests[i]) {
        assert Paid(s.grants, s.requests[i]);
        if i != k {
          assert NotTwins(s.requests[if i < k then i else k], s.requests[if i < k then k else i]);
        }
        assert s.grants + [] == s.grants;
      }
      forall j | 0 <= j < |t.grants| ensures ViaKnown(t.requests, t.grants[j]) {
        if j == |s.grants| {
          assert t.requests[k].id == id;
        }
      }
    }
  }

  lemma {:induction false} ResolvedAllAccounted(
    s: Store, ids: seq<Id>, d: Decision, terms: Terms, mint: Id -> Id, now: Time)
    requires Tidy(s.requests) && Accounted(s)
    ensures Accounted(ResolvedAll(s, ids, d, terms, mint, now))
    ensures Tidy(ResolvedAll(s, ids, d, terms, mint, now).requests)
  {
    if ids != [] {
      var front, last := ids[..|ids| - 1], ids[|ids| - 1];
      var t := ResolvedAll(s, front, d, terms, mint, now);
      ResolvedAllAccounted(s, front, d, terms, mint, now);
      ResolvedAccounted(t, last, d, terms, mint(last), now);
      ResolvedExtends(t, last, d, terms, mint(last), now);
    }
  }

  lemma NewRequestAccounted(s: Store, op: Op)
    requires Accounted(s) && op.NewRequest? && DrawsFresh(s, op)
    ensures Accounted(Apply(s, op))
  {
    var t := Apply(s, op);
    ApplyExtends(s, op);
    forall i | 0 <= i < |t.requests| ensures Paid(t.grants, t.requests[i]) {
      if i < |s.requests| {
        assert Paid(s.grants, s.requests[i]);
      } else {
        TakeAll(s.grants);
        NoGrantYet(s, |s.grants|, op.id);
      }
    }
  }

  lemma ApplyAccounted(s: Store, op: Op)
    requires Tidy(s.requests) && Accounted(s) && DrawsFresh(s, op)
    ensures Accounted(Apply(s, op))
  {
    var t := Apply(s, op);
    match op
    case NewRequest(_, _, _, _) => NewRequestAccounted(s, op);
    case Resolve(id, d, terms, grantId, now) => ResolvedAccounted(s, id, d, terms, grantId, now);
    case ResolveBundle(id, d, terms, mint, now) =>
      if DecidesBundle(s, id, d) {
        var ids := s.bundles[BundlePosition(s.bundles, id)].requestIds;
        var own := terms.(resources := None, purpose := "");
        ResolvedAllAccounted(s, ids, d, own, mint, now);
        UntouchedAccounted(ResolvedAll(s, ids, d, own, mint, now), t);
      }
    case CreateGrant(_, _, _, _, _) =>
      forall i | 0 <= i < |t.requests| ensures Paid(t.grants, t.requests[i]) {
        assert Paid(s.grants, s.requests[i]);
      }
      forall j | 0 <= j < |t.grants| ensures ViaKnown(t.requests, t.grants[j]) {
        if j < |s.grants| {
          assert ViaKnown(s.requests, s.grants[j]);
        }
      }
    case _ => UntouchedAccounted(s, t);
  }

  // ---------------------------------------------------------------- histories

  /** Every new request in the history draws an unused identifier. */
  ghost predicate Legal(s: Store, ops: seq<Op>) {
    ops == [] || (Legal(s, ops[..|ops| - 1]) && DrawsFresh(Run(s, ops[..|ops| - 1]), ops[|ops| - 1]))
  }

  /** In every history no two requests wait for the same thing, and each approved request has exactly one grant. */
  lemma {:induction false} EveryHistory(s: Store, ops: seq<Op>)
    requires Tidy(s.requests) && Accounted(s) && Legal(s, ops)
    ensures Tidy(Run(s, ops).requests) && Accounted(Run(s, ops))
  {
    if ops != [] {
      EveryHistory(s, ops[..|ops| - 1]);
      ApplyTidy(Run(s, ops[..|ops| - 1]), ops[|ops| - 1]);
      ApplyAccounted(Run(s, ops[..|ops| - 1]), ops[|ops| - 1]);
    }
  }

  // ---------------------------------------------------------------- bundles

  function Settled(r: Request, ids: seq<Id>, d: Decision): Request {
    if r.status.Pending? && r.id in ids then r.(status := Verdict(d)) else r
  }

  lemma ResolvedSettles(s: Store, id: Id, d: Decision, terms: Terms, grantId: Id, now: Time, i: nat)
    requires !d.Other? && i < |s.requests|
    requires forall j | 0 <= j < |s.requests| && j != i :: s.requests[j].id != s.requests[i].id
    ensures var t := Resolved(s, id, d, terms, grantId, now);
      |t.requests| == |s.requests| && t.requests[i] == Settled(s.requests[i], [id], d)
  {
    hide PositionOf;
    assert s.requests[i].id in [id] <==> s.requests[i].id == id;
    if s.requests[i].id == id {
      assert Position(s.requests, id) == i;
    }
  }

  lemma {:induction false} ResolvedAllSettles(
    s: Store, ids: seq<Id>, d: Decision, terms: Terms, mint: Id -> Id, now: Time, i: nat)
    requires Tidy(s.requests) && !d.Other? && i < |s.requests|
    ensures var t := ResolvedAll(s, ids, d, terms, mint, now);
      |t.requests| == |s.requests| && t.requests[i] == Settled(s.requests[i], ids, d)
  {
    hide PositionOf, Resolved, GrantLater, BundleLater;
    if ids != [] {
      var front, last := ids[..|ids| - 1], ids[|ids| - 1];
      assert ids == front + [last];
      var t := ResolvedAll(s, front, d, terms, mint, now);
      ResolvedAllSettles(s, front, d, terms, mint, now, i);
      ResolvedAllExtends(s, front, d, terms, mint, now);
      forall j | 0 <= j < |t.requests| && j != i ensures t.requests[j].id != t.requests[i].id {
        assert NotTwins(s.requests[if i < j then i else j], s.requests[if i < j then j else i]);
        assert RequestLater(s.requests[j], t.requests[j]);
      }
      ResolvedSettles(t, last, d, terms, mint(last), now, i);
    }
  }

  /** Resolving a bundle settles exactly its pending requests, touches no other and no bundle but this one. */
  lemma BundleSettles(s: Store, id: Id, d: Decision, terms: Terms, mint: Id -> Id, now: Time)
    requires Tidy(s.requests) && DecidesBundle(s, id, d)
    ensures
      var t, k := BundleResolved(s, id, d, terms, mint, now), BundlePosition(s.bundles, id);
      && |t.requests| == |s.requests|
      && (forall i | 0 <= i < |s.requests| :: t.requests[i] == Settled(s.requests[i], s.bundles[k].requestIds, d))
      && t.bundles == s.bundles[k := s.bundles[k].(status := Verdict(d))]
  {
    var k := BundlePosition(s.bundles, id);
    var ids, own := s.bundles[k].requestIds, terms.(resources := None, purpose := "");
    ResolvedAllLength(s, ids, d, own, mint, now);
    ResolvedAllExtends(s, ids, d, own, mint, now);
    forall i | 0 <= i < |s.requests|
      ensures BundleResolved(s, id, d, terms, mint, now).requests[i] == Settled(s.requests[i], ids, d)
    {
      ResolvedAllSettles(s, ids, d, own, mint, now, i);
    }
  }

  // ---------------------------------------------------------------- uses

  predicate WithinLimit(g: Grant) {
    0 <= g.uses && (g.maxUses.Some? ==> g.uses <= if g.maxUses.value > 0 then g.maxUses.value else 0)
  }

  ghost predicate AllWithinLimit(grants: seq<Grant>) {
    forall i | 0 <= i < |grants| :: WithinLimit(grants[i])
  }

  function TotalUses(grants: seq<Grant>): int {
    if grants == [] then 0 else TotalUses(grants[..|grants| - 1]) + grants[|grants| - 1].uses
  }

  /** Whether an operation consumes a grant. */
  predicate Consumes(s: Store, op: Op) {
    op.Ask? && op.consume && FirstMatch(s.grants, op.ask, op.now, op.fit) < |s.grants|
  }

  function Consumptions(s: Store, ops: seq<Op>): nat {
    if ops == [] then 0
    else
      var front := ops[..|ops| - 1];
      Consumptions(s, front) + if Consumes(Run(s, front), ops[|ops| - 1]) then 1 else 0
  }

  lemma {:induction false} SameUses(a: seq<Grant>, b: seq<Grant>)
    requires |a| == |b| && forall i | 0 <= i < |a| :: a[i].uses == b[i].uses
    ensures TotalUses(a) == TotalUses(b)
  {
    if a != [] {
      SameUses(a[..|a| - 1], b[..|b| - 1]);
    }
  }

  lemma {:induction false} OneMoreUse(grants: seq<Grant>, k: nat, g: Grant)
    requires k < |grants| && g.uses == grants[k].uses + 1
    ensures TotalUses(grants[k := g]) == TotalUses(grants) + 1
  {
    var n := |grants| - 1;
    if k < n {
      assert grants[k := g][..n] == grants[..n][k := g];
      OneMoreUse(grants[..n], k, g);
    } else {
      assert grants[k := g][..n] == grants[..n];
    }
  }

  lemma NewGrantUses(grants: seq<Grant>, g: Grant)
    requires g.uses == 0
    ensures TotalUses(grants + [g]) == TotalUses(grants)
    ensures AllWithinLimit(grants) ==> AllWithinLimit(grants + [g])
  {
    assert (grants + [g])[..|grants|] == grants;
  }

  lemma ResolvedUses(s: Store, id: Id, d: Decision, terms: Terms, grantId: Id, now: Time)
    ensures TotalUses(Resolved(s, id, d, terms, grantId, now).grants) == TotalUses(s.grants)
    ensures AllWithinLimit(s.grants) ==> AllWithinLimit(Resolved(s, id, d, terms, grantId, now).grants)
  {
    if Decides(s, id, d) {
      if d.Approve? {
        var r := s.requests[Position(s.requests, id)].(status := Verdict(d));
        NewGrantUses(s.grants, GrantFor(r, terms, grantId, now));
      } else {
        assert s.grants + [] == s.grants;
      }
    }
  }

  lemma {:induction false} ResolvedAllUses(s: Store, ids: seq<Id>, d: Decision, terms: Terms, mint: Id -> Id, now: Time)
    ensures TotalUses(ResolvedAll(s, ids, d, terms, mint, now).grants) == TotalUses(s.grants)
    ensures AllWithinLimit(s.grants) ==> AllWithinLimit(ResolvedAll(s, ids, d, terms, mint, now).grants)
  {
    if ids != [] {
      var front, last := ids[..|ids| - 1], ids[|ids| - 1];
      ResolvedAllUses(s, front, d, terms, mint, now);
      ResolvedUses(ResolvedAll(s, front, d, terms, mint, now), last, d, terms, mint(last), now);
    }
  }

  lemma AskUses(s: Store, op: Op)
    requires op.Ask?
    ensures TotalUses(Apply(s, op).grants) == TotalUses(s.grants) + if Consumes(s, op) then 1 else 0
    ensures AllWithinLimit(s.grants) ==> AllWithinLimit(Apply(s, op).grants)
  {
    if Consumes(s, op) {
      var k := FirstMatch(s.grants, op.ask, op.now, op.fit);
      OneMoreUse(s.grants, k, s.grants[k].(uses := s.grants[k].uses + 1));
      if AllWithinLimit(s.grants) {
        assert WithinLimit(s.grants[k]);
      }
    }
  }

  lemma RevokedUses(grants: seq<Grant>, id: Id)
    ensures TotalUses(Revoked(grants, id)) == TotalUses(grants)
    ensures AllWithinLimit(grants) ==> AllWithinLimit(Revoked(grants, id))
  {
    SameUses(grants, Revoked(grants, id));
    if AllWithinLimit(grants) {
      forall i | 0 <= i < |grants| ensures WithinLimit(Revoked(grants, id)[i]) {
        assert WithinLimit(grants[i]);
      }
    }
  }

  lemma ApplyUses(s: Store, op: Op)
    ensures TotalUses(Apply(s, op).grants) == TotalUses(s.grants) + if Consumes(s, op) then 1 else 0
    ensures AllWithinLimit(s.grants) ==> AllWithinLimit(Apply(s, op).grants)
  {
    hide Resolved, ResolvedAll, PositionOf, TotalUses, AllWithinLimit, FirstMatch, Revoked;
    match op
    case NewRequest(_, _, _, _) =>
    case NewBundle(_, _, _) =>
    case Resolve(id, d, terms, grantId, now) => ResolvedUses(s, id, d, terms, grantId, now);
    case ResolveBundle(id, d, terms, mint, now) =>
      if DecidesBundle(s, id, d) {
        var ids := s.bundles[BundlePosition(s.bundles, id)].requestIds;
        ResolvedAllUses(s, ids, d, terms.(resources := None, purpose := ""), mint, now);
      }
    case CreateGrant(scope, ttl, maxUses, id, now) =>
      NewGrantUses(s.grants, NewGrant(id, None, scope, ttl, maxUses, now));
    case Revoke(id) => RevokedUses(s.grants, id);
    case Ask(_, _, _, _) => AskUses(s, op);
  }

  /** No grant is used more often than it allows, and all uses together are the consuming asks that were granted. */
  lemma {:induction false} UsesAccounted(s: Store, ops: seq<Op>)
    requires AllWithinLimit(s.grants)
    ensures AllWithinLimit(Run(s, ops).grants)
    ensures TotalUses(Run(s, ops).grants) == TotalUses(s.grants) + Consumptions(s, ops)
  {
    if ops != [] {
      UsesAccounted(s, ops[..|ops| - 1]);
      ApplyUses(Run(s, ops[..|ops| - 1]), ops[|ops| - 1]);
    }
  }

  // ---------------------------------------------------------------- an interrupted approval

  /** An approval writes the grant and then the request; where an attempt ended. */
  datatype Point = BeforeGrant | Between | AfterBoth

  datatype Attempt = Attempt(terms: Terms, grantId: Id, now: Time, at: Point)

  function Tried(s: Store, id: Id, a: Attempt): Store {
    var done := Resolved(s, id, Approve, a.terms, a.grantId, a.now);
    match a.at
    case BeforeGrant => s
    case Between => s.(grants := done.grants)
    case AfterBoth => done
  }

  function AllTried(s: Store, id: Id, attempts: seq<Attempt>): Store {
    if attempts == [] then s else Tried(AllTried(s, id, attempts[..|attempts| - 1]), id, attempts[|attempts| - 1])
  }

  predicate Finished(attempts: seq<Attempt>) {
    exists i | 0 <= i < |attempts| :: attempts[i].at.AfterBoth?
  }

  /** The attempts that were cut between the two writes before one went through. */
  function Cut(attempts: seq<Attempt>): nat {
    if attempts == [] then 0
    else
      var front := attempts[..|attempts| - 1];
      Cut(front) + if attempts[|attempts| - 1].at.Between? && !Finished(front) then 1 else 0
  }

  lemma FinishedOnce(attempts: seq<Attempt>)
    requires attempts != []
    ensures Finished(attempts) <==> Finished(attempts[..|attempts| - 1]) || attempts[|attempts| - 1].at.AfterBoth?
  {
    var front := attempts[..|attempts| - 1];
    if i :| 0 <= i < |front| && front[i].at.AfterBoth? {
      assert attempts[i].at.AfterBoth?;
    }
  }

  lemma TriedPays(s: Store, id: Id, a: Attempt)
    ensures var t := Tried(s, id, a);
      CountVia(t.grants, id) ==
        CountVia(s.grants, id) + (if Decides(s, id, Approve) && !a.at.BeforeGrant? then 1 else 0)
      && (Decides(t, id, Approve) <==> Decides(s, id, Approve) && !a.at.AfterBoth?)
  {
    if Decides(s, id, Approve) {
      var k := Position(s.requests, id);
      var g := GrantFor(s.requests[k].(status := Approved), a.terms, a.grantId, a.now);
      assert (s.grants + [g])[..|s.grants|] == s.grants;
      if a.at.AfterBoth? {
        var t := Tried(s, id, a);
        assert t.requests[k].id == id && Position(t.requests, id) == k;
      }
    }
  }

  /** However often an approval is attempted, it pays once for every attempt cut between the writes, and once when it
      goes through. */
  lemma {:induction false} AttemptsPaid(s: Store, id: Id, attempts: seq<Attempt>)
    requires Tidy(s.requests) && Accounted(s) && Decides(s, id, Approve)
    ensures var t := AllTried(s, id, attempts);
      CountVia(t.grants, id) == Cut(attempts) + (if Finished(attempts) then 1 else 0)
      && (Decides(t, id, Approve) <==> !Finished(attempts))
  {
    hide CountVia, Tried;
    if attempts == [] {
      assert Paid(s.grants, s.requests[Position(s.requests, id)]);
    } else {
      var front, last := attempts[..|attempts| - 1], attempts[|attempts| - 1];
      AttemptsPaid(s, id, front);
      TriedPays(AllTried(s, id, front), id, last);
      FinishedOnce(attempts);
    }
  }

  /** An approval that went through left one grant exactly when no attempt before it was cut between the writes. */
  lemma {:induction false} InterruptionPaysTwice(s: Store, id: Id, attempts: seq<Attempt>)
    requires Tidy(s.requests) && Accounted(s) && Decides(s, id, Approve) && Finished(attempts)
    ensures
      CountVia(AllTried(s, id, attempts).grants, id) == 1 <==>
      forall i | 0 <= i < |attempts| && attempts[i].at.Between? :: Finished(attempts[..i])
  {
    AttemptsPaid(s, id, attempts);
    CutExactly(attempts);
  }

  lemma {:induction false} CutExactly(attempts: seq<Attempt>)
    ensures Cut(attempts) == 0 <==> forall i | 0 <= i < |attempts| && attempts[i].at.Between? :: Finished(attempts[..i])
  {
    hide Finished;
    if attempts != [] {
      var front := attempts[..|attempts| - 1];
      CutExactly(front);
      forall i | 0 <= i < |front| ensures front[..i] == attempts[..i] && front[i] == attempts[i] {
      }
    }
  }
}
