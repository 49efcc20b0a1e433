/** Which grant answers an ask, over every history, told from the fields of the grants. */
module ApprovalAnswers {
  import opened Sequences
  import opened Approvals
  import opened ApprovalGuarantees

  /** Revoked, denying, past its expiry (an unreadable one counts as past) or used up. */
  predicate Defective(g: Grant, now: Time) {
    || !g.active
    || !g.allows
    || g.expires == Some(Unreadable)
    || (g.expires.Some? && g.expires.value.At? && g.expires.value.time <= now)
    || (g.maxUses.Some? && g.uses >= g.maxUses.value)
  }

  /** An ask is answered by the first grant that fits and has no defect, and not at all exactly if there is none. */
  lemma AnswersExactly(grants: seq<Grant>, ask: Subject, now: Time, fit: Fit)
    ensures var k := FirstMatch(grants, ask, now, fit);
      && (k < |grants| <==> exists i :: 0 <= i < |grants| && !Defective(grants[i], now) && fit(grants[i].scope, ask))
      && (k < |grants| ==> !Defective(grants[k], now) && fit(grants[k].scope, ask))
      && forall j | 0 <= j < k :: Defective(grants[j], now) || !fit(grants[j].scope, ask)
  {
    forall i | 0 <= i < |grants|
      ensures Matches(grants[i], ask, now, fit) <==> !Defective(grants[i], now) && fit(grants[i].scope, ask)
    {
    }
  }

  lemma DefectLasts(g: Grant, g': Grant, now: Time, later: Time)
    requires GrantLater(g, g') && Defective(g, now) && now <= later
    ensures Defective(g', later)
  {
  }

  /**
   A grant that is revoked, denying, expired or used up, or does not fit, answers no ask at any
   later point of any history and is not charged for it.
   */
  lemma DeadGrantsStayDead(
    s: Store, ops: seq<Op>, k: nat, i: nat, now: Time, later: Time, ask: Subject, consume: bool, fit: Fit)
    requires k <= |ops| && now <= later && i < |Run(s, ops[..k]).grants|
    requires Defective(Run(s, ops[..k]).grants[i], now) || !fit(Run(s, ops[..k]).grants[i].scope, ask)
    ensures var late := Run(s, ops);
      && i < |late.grants| && FirstMatch(late.grants, ask, later, fit) != i
      && i < |Used(late, ask, consume, later, fit).grants|
      && Used(late, ask, consume, later, fit).grants[i] == late.grants[i]
  {
    hide Run, Defective;
    RunExtends(s, ops, k);
    var early, late := Run(s, ops[..k]), Run(s, ops);
    assert GrantLater(early.grants[i], late.grants[i]);
    if Defective(early.grants[i], now) {
      DefectLasts(early.grants[i], late.grants[i], now, later);
    }
    AnswersExactly(late.grants, ask, later, fit);
  }

  /** The asks of a history that come after `k`, and when they come. */
  ghost predicate DefectiveAtAsks(g: Grant, ops: seq<Op>, k: nat) {
    forall j | k <= j < |ops| && ops[j].Ask? :: Defective(g, ops[j].now)
  }

  /** A grant that is defective whenever something is asked is never charged again. */
  lemma {:induction false} UsesFrozen(s: Store, ops: seq<Op>, k: nat, i: nat)
    requires k <= |ops| && i < |Run(s, ops[..k]).grants| && DefectiveAtAsks(Run(s, ops[..k]).grants[i], ops, k)
    ensures i < |Run(s, ops).grants| && Run(s, ops).grants[i].uses == Run(s, ops[..k]).grants[i].uses
    decreases |ops|
  {
    hide Defective;
    if k == |ops| {
      TakeAll(ops);
    } else {
      var front, last := ops[..|ops| - 1], ops[|ops| - 1];
      assert front[..k] == ops[..k];
      assert DefectiveAtAsks(Run(s, ops[..k]).grants[i], front, k) by {
        assert forall j | k <= j < |front| :: front[j] == ops[j];
      }
      UsesFrozen(s, front, k, i);
      RunExtends(s, front, k);
      var before := Run(s, front);
      assert GrantLater(Run(s, ops[..k]).grants[i], before.grants[i]);
      if last.Ask? {
        DefectLasts(Run(s, ops[..k]).grants[i], before.grants[i], last.now, last.now);
      }
      ChargesNoDefect(before, last, i);
    }
  }

  lemma ChargesNoDefect(s: Store, op: Op, i: nat)
    requires i < |s.grants| && (op.Ask? ==> Defective(s.grants[i], op.now))
    ensures i < |Apply(s, op).grants| && Apply(s, op).grants[i].uses == s.grants[i].uses
  {
    hide Defective;
    ApplyExtends(s, op);
    match op
    case Ask(ask, consume, now, fit) => AnswersExactly(s.grants, ask, now, fit);
    case Resolve(id, d, terms, grantId, now) => ResolvedFront(s, id, d, terms, grantId, now);
    case ResolveBundle(id, d, terms, mint, now) =>
      if DecidesBundle(s, id, d) {
        var ids := s.bundles[BundlePosition(s.bundles, id)].requestIds;
        ResolvedAllFront(s, ids, d, terms.(resources := None, purpose := ""), mint, now);
      }
    case _ =>
  }

  lemma ResolvedFront(s: Store, id: Id, d: Decision, terms: Terms, grantId: Id, now: Time)
    ensures s.grants <= Resolved(s, id, d, terms, grantId, now).grants
  {
  }

  lemma {:induction false} ResolvedAllFront(
    s: Store, ids: seq<Id>, d: Decision, terms: Terms, mint: Id -> Id, now: Time)
    ensures s.grants <= ResolvedAll(s, ids, d, terms, mint, now).grants
  {
    if ids != [] {
      var front, last := ids[..|ids| - 1], ids[|ids| - 1];
      ResolvedAllFront(s, front, d, terms, mint, now);
      ResolvedFront(ResolvedAll(s, front, d, terms, mint, now), last, d, terms, mint(last), now);
    }
  }

  /** Once an id has been revoked, no grant of that id that existed then answers an ask or is charged ever again. */
  lemma RevokedNeverAnswers(s: Store, ops: seq<Op>, k: nat, i: nat, ask: Subject, now: Time, fit: Fit)
    requires k < |ops| && ops[k].Revoke? && i < |Run(s, ops[..k]).grants|
    requires Run(s, ops[..k]).grants[i].id == ops[k].id
    ensures var late := Run(s, ops);
      && i < |late.grants| && FirstMatch(late.grants, ask, now, fit) != i
      && late.grants[i].uses == Run(s, ops[..k]).grants[i].uses
  {
    var before, after := Run(s, ops[..k]), Run(s, ops[..k + 1]);
    assert ops[..k + 1][..k] == ops[..k];
    assert !after.grants[i].active && after.grants[i].uses == before.grants[i].uses;
    DeadGrantsStayDead(s, ops, k + 1, i, now, now, ask, false, fit);
    UsesFrozen(s, ops, k + 1, i);
  }

  /** The scope an approval grants: the request's tool and red lines, its resources and purpose unless overridden. */
  function ApprovedScope(r: Request, terms: Terms): Scope {
    Scope(
      if r.subject.tool == "" then "*" else r.subject.tool,
      r.subject.safety.redLines,
      if terms.resources.Some? then terms.resources.value else r.resources,
      if terms.purpose != "" then terms.purpose else r.purpose)
  }

  /**
   What an approval allows: if no earlier grant answers, its grant answers a later ask exactly if
   its scope fits, its minutes have not passed and it allows at least one use.
   */
  lemma ApprovalAllows(
    s: Store, id: Id, terms: Terms, grantId: Id, now: Time, at: Time, ask: Subject, fit: Fit)
    requires Decides(s, id, Approve)
    ensures
      var r := s.requests[Position(s.requests, id)];
      var t := Resolved(s, id, Approve, terms, grantId, now);
      && |t.grants| == |s.grants| + 1 && t.grants[|s.grants|].id == grantId
      && (FirstMatch(t.grants, ask, at, fit) == |s.grants| <==>
            && FirstMatch(s.grants, ask, at, fit) == |s.grants|
            && fit(ApprovedScope(r, terms), ask)
            && (terms.ttlMinutes.Some? && terms.ttlMinutes.value > 0 ==> at < now + 60 * terms.ttlMinutes.value)
            && (terms.maxUses.Some? ==> terms.maxUses.value > 0))
  {
    var r := s.requests[Position(s.requests, id)];
    var t := Resolved(s, id, Approve, terms, grantId, now);
    var n, g := |s.grants|, t.grants[|s.grants|];
    assert forall j | 0 <= j < n :: t.grants[j] == s.grants[j];
    assert g.scope == ApprovedScope(r, terms);
    AnswersExactly(s.grants, ask, at, fit);
    AnswersExactly(t.grants, ask, at, fit);
    assert !Defective(g, at) <==>
      (terms.ttlMinutes.Some? && terms.ttlMinutes.value > 0 ==> at < now + 60 * terms.ttlMinutes.value)
      && (terms.maxUses.Some? ==> terms.maxUses.value > 0);
  }

  // ---------------------------------------------------------------- what the other operations do

  /** A request is queued exactly for a yellow-zone action that nothing waiting asks for already. */
  lemma QueuedExactly(s: Store, subject: Subject, resources: seq<string>, purpose: string, id: Id)
    ensures
      var t := Requested(s, subject, resources, purpose, id);
      if subject.safety.zone == "yellow"
         && forall i | 0 <= i < |s.requests| :: s.requests[i].status == Pending ==> s.requests[i].subject != subject
      then t == s.(requests := s.requests + [Request(id, subject, resources, purpose, Pending)])
      else t == s
  {
    if i :| 0 <= i < |s.requests| && s.requests[i].status == Pending && s.requests[i].subject == subject {
      assert Awaits(s.requests[i], subject);
    }
  }

  /** A ruling changes the first request of the id, if that waits: approved and denied as decided, and no other. */
  lemma RulesExactly(s: Store, id: Id, d: Decision, terms: Terms, grantId: Id, now: Time, k: nat)
    requires k < |s.requests| && s.requests[k].id == id && forall i | 0 <= i < k :: s.requests[i].id != id
    ensures
      var t := Resolved(s, id, d, terms, grantId, now);
      && |t.requests| == |s.requests|
      && (forall i | 0 <= i < |s.requests| && i != k :: t.requests[i] == s.requests[i])
      && t.requests[k] == s.requests[k].(status :=
           if s.requests[k].status != Pending then s.requests[k].status
           else if d == Approve then Approved
           else if d == Deny then Denied
           else Pending)
      && (s.requests[k].status != Pending || d != Approve ==> t.grants == s.grants)
  {
    assert Position(s.requests, id) == k;
    assert s.grants + [] == s.grants;
  }

  /** The distinct identifiers that are not empty. */
  function Named(ids: seq<Id>): set<Id> {
    set x | x in ids && x != ""
  }

  lemma {:induction false} NonEmptyNames(ids: seq<Id>)
    ensures Members(NonEmpty(ids)) == Named(ids)
  {
    if ids != [] {
      var front, last := ids[..|ids| - 1], ids[|ids| - 1];
      NonEmptyNames(front);
      assert ids == front + [last];
      forall x ensures x in NonEmpty(ids) <==> x in ids && x != "" {
        assert x in NonEmpty(front) <==> x in Members(NonEmpty(front));
        assert x in Named(front) <==> x in front && x != "";
      }
    }
  }

  /** A bundle is created exactly if it names something and no waiting bundle of the mission names the same. */
  lemma BundledExactly(s: Store, requestIds: seq<Id>, mission: string, id: Id)
    ensures
      var t := Bundled(s, requestIds, mission, id);
      if Named(requestIds) != {}
         && forall i | 0 <= i < |s.bundles| :: s.bundles[i].status == Pending && s.bundles[i].mission == mission ==>
              Members(s.bundles[i].requestIds) != Named(requestIds)
      then
        && t == s.(bundles := t.bundles) && |t.bundles| == |s.bundles| + 1 && s.bundles <= t.bundles
        && var b := t.bundles[|s.bundles|];
           b.id == id && b.mission == mission && b.status == Pending && Members(b.requestIds) == Named(requestIds)
      else t == s
  {
    var ids := NonEmpty(requestIds);
    NonEmptyNames(requestIds);
    if ids == [] {
      assert Members(ids) == {};
    } else {
      assert ids[0] in Members(ids);
    }
    if i :| 0 <= i < |s.bundles| && (s.bundles[i].status == Pending && s.bundles[i].mission == mission
                                    && Members(s.bundles[i].requestIds) == Named(requestIds))
    {
      assert SameBundle(s.bundles[i], ids, mission);
    }
  }

  /** The grant of an approved member of a bundle: its own resources and purpose, the bundle's minutes and uses. */
  predicate GrantOfMember(g: Grant, r: Request, terms: Terms, mint: Id -> Id, now: Time) {
    && g.id == mint(r.id) && g.via == Some(r.id) && g.active && g.allows && g.uses == 0
    && g.scope == ApprovedScope(r, Terms(None, "", None, None))
    && g.maxUses == terms.maxUses
    && g.expires == if terms.ttlMinutes.Some? && terms.ttlMinutes.value > 0
                    then Some(At(now + 60 * terms.ttlMinutes.value)) else None
  }

  ghost predicate Granted(grants: seq<Grant>, from: nat, r: Request, terms: Terms, mint: Id -> Id, now: Time) {
    exists j :: from <= j < |grants| && GrantOfMember(grants[j], r, terms, mint, now)
  }

  lemma ResolvedGrants(s: Store, id: Id, terms: Terms, mint: Id -> Id, now: Time, from: nat, r: Request)
    requires from <= |s.grants| && Decides(s, id, Approve) && terms.resources == None && terms.purpose == ""
    requires r == s.requests[Position(s.requests, id)]
    ensures Granted(Resolved(s, id, Approve, terms, mint(id), now).grants, from, r, terms, mint, now)
  {
    var t := Resolved(s, id, Approve, terms, mint(id), now);
    assert GrantOfMember(t.grants[|s.grants|], r, terms, mint, now);
  }

  lemma GrantedStays(a: seq<Grant>, b: seq<Grant>, from: nat, r: Request, terms: Terms, mint: Id -> Id, now: Time)
    requires a <= b && Granted(a, from, r, terms, mint, now)
    ensures Granted(b, from, r, terms, mint, now)
  {
    var j :| from <= j < |a| && GrantOfMember(a[j], r, terms, mint, now);
    assert b[j] == a[j];
  }

  lemma {:induction false} AllResolvedGrants(
    s: Store, ids: seq<Id>, terms: Terms, mint: Id -> Id, now: Time, i: nat)
    requires Tidy(s.requests) && i < |s.requests| && s.requests[i].status == Pending && s.requests[i].id in ids
    requires terms.resources == None && terms.purpose == ""
    ensures Granted(ResolvedAll(s, ids, Approve, terms, mint, now).grants, |s.grants|, s.requests[i], terms, mint, now)
  {
    hide Granted, Resolved, Tidy;
    var front, last := ids[..|ids| - 1], ids[|ids| - 1];
    var r, t := s.requests[i], ResolvedAll(s, front, Approve, terms, mint, now);
    assert ids == front + [last];
    ResolvedAllFront(s, front, Approve, terms, mint, now);
    ResolvedFront(t, last, Approve, terms, mint(last), now);
    if r.id in front {
      AllResolvedGrants(s, front, terms, mint, now, i);
      var after := Resolved(t, last, Approve, terms, mint(last), now);
      GrantedStays(t.grants, after.grants, |s.grants|, r, terms, mint, now);
    } else {
      ResolvedAllSettles(s, front, Approve, terms, mint, now, i);
      ResolvedAllExtends(s, front, Approve, terms, mint, now);
      SamePlace(s, t, i);
      ResolvedGrants(t, last, terms, mint, now, |s.grants|, r);
    }
  }

  lemma SamePlace(s: Store, t: Store, i: nat)
    requires Tidy(s.requests) && i < |s.requests| && Extends(s, t) && t.requests[i] == s.requests[i]
    ensures Position(t.requests, s.requests[i].id) == i
  {
    forall j | 0 <= j < i ensures t.requests[j].id != t.requests[i].id {
      assert NotTwins(s.requests[j], s.requests[i]) && RequestLater(s.requests[j], t.requests[j]);
    }
  }

  lemma BundleGrantList(s: Store, id: Id, terms: Terms, mint: Id -> Id, now: Time)
    requires DecidesBundle(s, id, Approve)
    ensures BundleResolved(s, id, Approve, terms, mint, now).grants ==
      ResolvedAll(s, s.bundles[BundlePosition(s.bundles, id)].requestIds, Approve,
                  terms.(resources := None, purpose := ""), mint, now).grants
  {
    hide ResolvedAll;
  }

  /** Approving a bundle grants each of its waiting requests what that asks for, for the bundle's minutes and uses. */
  lemma BundleGrants(s: Store, id: Id, terms: Terms, mint: Id -> Id, now: Time, i: nat)
    requires Tidy(s.requests) && DecidesBundle(s, id, Approve) && i < |s.requests| && s.requests[i].status == Pending
    requires s.requests[i].id in s.bundles[BundlePosition(s.bundles, id)].requestIds
    ensures
      var t := BundleResolved(s, id, Approve, terms, mint, now);
      exists j :: |s.grants| <= j < |t.grants| && GrantOfMember(t.grants[j], s.requests[i], terms, mint, now)
  {
    hide BundleResolved, ResolvedAll, Tidy, ApprovedScope, PositionOf;
    var own := terms.(resources := None, purpose := "");
    var ids := s.bundles[BundlePosition(s.bundles, id)].requestIds;
    BundleGrantList(s, id, terms, mint, now);
    AllResolvedGrants(s, ids, own, mint, now, i);
    var grants := ResolvedAll(s, ids, Approve, own, mint, now).grants;
    var j :| |s.grants| <= j < |grants| && GrantOfMember(grants[j], s.requests[i], own, mint, now);
    assert GrantOfMember(grants[j], s.requests[i], terms, mint, now);
  }
}
