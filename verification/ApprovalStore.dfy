/** The approval store object: three lists that its methods search and rewrite. */
module ApprovalStore {
  import opened Sequences
  import opened Approvals

  datatype Reply = NotYellow | Waiting(request: Id) | Queued(request: Id)

  datatype Ruling = BadDecision | NotFound | AlreadyDecided | Ruled

  lemma ResolvesNone(s: Store, ids: seq<Id>, d: Decision, terms: Terms, mint: Id -> Id, now: Time)
    ensures ResolvedAll(s, ids[..0], d, terms, mint, now) == s && AllKnown(s.requests, ids[..0])
  {
  }

  lemma ResolvesOne(s: Store, ids: seq<Id>, i: nat, d: Decision, terms: Terms, mint: Id -> Id, now: Time)
    requires i < |ids|
    ensures ResolvedAll(s, ids[..i + 1], d, terms, mint, now) ==
      Resolved(ResolvedAll(s, ids[..i], d, terms, mint, now), ids[i], d, terms, mint(ids[i]), now)
  {
    assert ids[..i + 1][..i] == ids[..i];
  }

  ghost predicate AllKnown(requests: seq<Request>, ids: seq<Id>) {
    forall i | 0 <= i < |ids| :: Position(requests, ids[i]) < |requests|
  }

  lemma KnownOne(requests: seq<Request>, ids: seq<Id>, i: nat)
    requires i < |ids|
    ensures AllKnown(requests, ids[..i + 1]) <==>
      AllKnown(requests, ids[..i]) && Position(requests, ids[i]) < |requests|
  {
    assert ids[..i + 1] == ids[..i] + [ids[i]];
  }

  lemma SamePosition(a: seq<Request>, b: seq<Request>, id: Id)
    requires |a| == |b| && forall j | 0 <= j < |a| :: a[j].id == b[j].id
    ensures Position(a, id) == Position(b, id)
  {
    hide PositionOf;
  }

  class ApprovalStore {
    var grants: seq<Grant>
    var requests: seq<Request>
    var bundles: seq<Bundle>

    function State(): Store
      reads this
    {
      Store(grants, requests, bundles)
    }

    constructor ()
      ensures State() == EMPTY
    {
      grants, requests, bundles := [], [], [];
    }

    /** The position of a request, or the number of requests. */
    method FindRequest(id: Id) returns (k: nat)
      ensures k == Position(requests, id)
    {
      k := 0;
      while k < |requests| && requests[k].id != id
        invariant k <= |requests|
        invariant Position(requests, id) == k + Position(requests[k..], id)
      {
        k := k + 1;
      }
    }

    method FindBundle(id: Id) returns (k: nat)
      ensures k == BundlePosition(bundles, id)
    {
      k := 0;
      while k < |bundles| && bundles[k].id != id
        invariant k <= |bundles|
        invariant BundlePosition(bundles, id) == k + BundlePosition(bundles[k..], id)
      {
        k := k + 1;
      }
    }

    method CreateRequest(subject: Subject, resources: seq<string>, purpose: string, id: Id) returns (reply: Reply)
      modifies `requests
      ensures State() == Requested(old(State()), subject, resources, purpose, id)
      ensures reply.NotYellow? <==> subject.safety.zone != "yellow"
      ensures reply.Queued? ==> reply.request == id && !HasTwin(old(requests), subject)
      ensures reply.Waiting? ==>
        exists i | 0 <= i < |requests| :: Awaits(requests[i], subject) && requests[i].id == reply.request
    {
      if subject.safety.zone != "yellow" {
        return NotYellow;
      }
      for i := 0 to |requests|
        invariant forall j | 0 <= j < i :: !Awaits(requests[j], subject)
      {
        if requests[i].status.Pending? && requests[i].subject == subject {
          assert Awaits(requests[i], subject);
          return Waiting(requests[i].id);
        }
      }
      requests := requests + [Request(id, subject, resources, purpose, Pending)];
      reply := Queued(id);
    }

    method CreateBundle(requestIds: seq<Id>, mission: string, id: Id) returns (created: bool)
      modifies `bundles
      ensures State() == Bundled(old(State()), requestIds, mission, id)
      ensures created == (NonEmpty(requestIds) != [] && !HasBundle(old(bundles), NonEmpty(requestIds), mission))
    {
      var ids := NonEmpty(requestIds);
      if ids == [] {
        return false;
      }
      for i := 0 to |bundles|
        invariant forall j | 0 <= j < i :: !SameBundle(bundles[j], ids, mission)
      {
        if SameBundle(bundles[i], ids, mission) {
          return false;
        }
      }
      bundles := bundles + [Bundle(id, ids, mission, Pending)];
      created := true;
    }

    method ResolveRequest(id: Id, d: Decision, terms: Terms, grantId: Id, now: Time) returns (ruling: Ruling)
      modifies `requests, `grants
      ensures State() == Resolved(old(State()), id, d, terms, grantId, now)
      ensures ruling.Ruled? <==> Decides(old(State()), id, d)
      ensures ruling.BadDecision? <==> d.Other?
      ensures ruling.NotFound? <==> !d.Other? && Position(old(requests), id) == |old(requests)|
    {
      if d.Other? {
        return BadDecision;
      }
      var k := FindRequest(id);
      if k == |requests| {
        return NotFound;
      }
      if !requests[k].status.Pending? {
        return AlreadyDecided;
      }
      var target := requests[k].(status := if d.Approve? then Approved else Denied);
      if d.Approve? {
        grants := grants + [GrantFor(target, terms, grantId, now)];
      }
      requests := requests[k := target];
      ruling := Ruled;
    }

    /** Every member that still waits is ruled on; the bundle succeeds if every member exists. */
    method ResolveMembers(ids: seq<Id>, d: Decision, terms: Terms, mint: Id -> Id, now: Time) returns (success: bool)
      requires !d.Other?
      modifies `requests, `grants
      ensures State() == ResolvedAll(old(State()), ids, d, terms, mint, now)
      ensures success <==> AllKnown(old(requests), ids)
    {
      hide ResolvedAll, Position, AllKnown;
      ResolvesNone(State(), ids, d, terms, mint, now);
      success := true;
      for i := 0 to |ids|
        invariant State() == ResolvedAll(old(State()), ids[..i], d, terms, mint, now)
        invariant |requests| == |old(requests)|
        invariant forall j | 0 <= j < |requests| :: requests[j].id == old(requests)[j].id
        invariant success <==> AllKnown(old(requests), ids[..i])
      {
        ResolvesOne(old(State()), ids, i, d, terms, mint, now);
        KnownOne(old(requests), ids, i);
        SamePosition(requests, old(requests), ids[i]);
        var k := FindRequest(ids[i]);
        if k == |requests| {
          success := false;
        } else if requests[k].status.Pending? {
          var ruling := ResolveRequest(ids[i], d, terms, mint(ids[i]), now);
        }
      }
      TakeAll(ids);
    }

    method ResolveBundle(id: Id, d: Decision, terms: Terms, mint: Id -> Id, now: Time)
      returns (ruling: Ruling, success: bool)
      modifies this
      ensures State() == BundleResolved(old(State()), id, d, terms, mint, now)
      ensures ruling.Ruled? <==> DecidesBundle(old(State()), id, d)
      ensures !ruling.Ruled? ==> !success
      ensures ruling.Ruled? ==>
        success == AllKnown(old(requests), old(bundles)[BundlePosition(old(bundles), id)].requestIds)
    {
      if d.Other? {
        return BadDecision, false;
      }
      var k := FindBundle(id);
      if k == |bundles| {
        return NotFound, false;
      }
      if !bundles[k].status.Pending? {
        return AlreadyDecided, false;
      }
      success := ResolveMembers(bundles[k].requestIds, d, terms.(resources := None, purpose := ""), mint, now);
      bundles := bundles[k := bundles[k].(status := if d.Approve? then Approved else Denied)];
      ruling := Ruled;
    }

    method AddGrant(scope: Scope, ttlMinutes: Option<int>, maxUses: Option<int>, id: Id, now: Time)
      modifies `grants
      ensures State() == Apply(old(State()), CreateGrant(scope, ttlMinutes, maxUses, id, now))
    {
      grants := grants + [NewGrant(id, None, scope, ttlMinutes, maxUses, now)];
    }

    /** Every grant of that identifier becomes inactive. */
    method RevokeGrant(id: Id) returns (changed: bool)
      modifies `grants
      ensures State() == Apply(old(State()), Revoke(id))
      ensures changed <==> exists i | 0 <= i < |old(grants)| :: old(grants)[i].id == id
    {
      hide Revoked;
      changed := false;
      var read := grants;
      for i := 0 to |read|
        invariant |read| == |grants| && grants == old(grants)
        invariant changed <==> exists j | 0 <= j < i :: grants[j].id == id
        invariant forall j | 0 <= j < i ::
          read[j] == if grants[j].id == id then grants[j].(active := false) else grants[j]
        invariant forall j | i <= j < |read| :: read[j] == grants[j]
      {
        if read[i].id == id {
          read := read[i := read[i].(active := false)];
          changed := true;
        }
      }
      if changed {
        grants := read;
      }
    }

    /** The first grant that matches decides, and is charged if the caller consumes it. */
    method Allowed(ask: Subject, consume: bool, now: Time, fit: Fit) returns (grant: Option<Grant>)
      modifies `grants
      ensures State() == Used(old(State()), ask, consume, now, fit)
      ensures var k := FirstMatch(old(grants), ask, now, fit);
        grant == if k < |grants| then Some(grants[k]) else None
    {
      for i := 0 to |grants|
        invariant grants == old(grants)
        invariant forall j | 0 <= j < i :: !Matches(grants[j], ask, now, fit)
      {
        if Matches(grants[i], ask, now, fit) {
          if consume {
            grants := grants[i := grants[i].(uses := grants[i].uses + 1)];
          }
          return Some(grants[i]);
        }
      }
      grant := None;
    }
  }
}
