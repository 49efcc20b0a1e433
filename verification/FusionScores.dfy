/** What a fused score is, told from places, weights and priors. */
module FusionScores {
  import opened Sequences
  import opened RankFusion
  import opened FusionGuarantees

  /** The weight a list counts with: its own if weights are given, else that of its kind; 1.0 if it has none. */
  function StatedWeight(q: Query, name: string): real {
    if q.weights != map[] then (if name in q.weights then q.weights[name] else 1.0)
    else if name == "bm25" then q.cfg.weightBm25
    else if name == "vector" then q.cfg.weightVector
    else 1.0
  }

  /** `place`, counted from zero, is where the list has the document (last), or nothing if it does not have it. */
  ghost predicate StandsAt(ids: seq<Id>, d: Id, place: Option<nat>) {
    if place.None? then d !in ids
    else place.value < |ids| && ids[place.value] == d && d !in ids[place.value + 1..]
  }

  function Part(weight: real, k: nat, place: Option<nat>): real {
    if place.None? then 0.0 else weight / (k + place.value + 1) as real
  }

  function Parts(q: Query, lists: seq<Ranking>, places: seq<Option<nat>>): real
    requires |places| == |lists|
  {
    if lists == [] then 0.0
    else
      var n := |lists| - 1;
      Parts(q, lists[..n], places[..n]) + Part(StatedWeight(q, lists[n].name), q.cfg.rrfK, places[n])
  }

  lemma {:induction false} RankIs(ids: seq<Id>, d: Id, place: Option<nat>)
    requires StandsAt(ids, d, place)
    ensures RankOf(ids, d) == if place.None? then None else Some(place.value + 1)
  {
    if ids != [] {
      var n := |ids| - 1;
      if place.Some? && place.value < n {
        assert ids[n] == ids[place.value + 1..][n - place.value - 1];
        assert ids[..n][place.value + 1..] == ids[place.value + 1..][..n - place.value - 1];
        RankIs(ids[..n], d, place);
      } else if place.None? {
        RankIs(ids[..n], d, place);
      }
    }
  }

  lemma {:induction false} PartsAdded(q: Query, lists: seq<Ranking>, places: seq<Option<nat>>, d: Id)
    requires |places| == |lists| && forall k | 0 <= k < |lists| :: StandsAt(lists[k].ids, d, places[k])
    ensures ListScore(q, lists, d) == Parts(q, lists, places)
  {
    hide StandsAt, Part, Share, StatedWeight, RankOf;
    if lists != [] {
      var n := |lists| - 1;
      PartsAdded(q, lists[..n], places[..n], d);
      ShareIsPart(q, lists[n], d, places[n]);
    }
  }

  lemma ShareIsPart(q: Query, list: Ranking, d: Id, place: Option<nat>)
    requires StandsAt(list.ids, d, place)
    ensures Share(q, list, d) == Part(StatedWeight(q, list.name), q.cfg.rrfK, place)
  {
    hide StandsAt;
    RankIs(list.ids, d, place);
  }

  /** A fused document scores the weight of each list over `rrfK` plus its place there, and the weighted prior. */
  lemma ScoresExactly(q: Query, limit: int, h: Hit, places: seq<Option<nat>>)
    requires h in Fused(q, limit) && |places| == |q.lists|
    requires forall k | 0 <= k < |q.lists| :: StandsAt(q.lists[k].ids, h.id, places[k])
    ensures h.id in q.priors && h.score == Parts(q, q.lists, places) + q.cfg.weightPrior * q.priors[h.id]
  {
    hide Fused, Parts, ListScore, Descending, Listed, StandsAt;
    FusedShape(q, limit);
    PartsAdded(q, q.lists, places, h.id);
  }

  lemma TwoParts(q: Query, a: Ranking, b: Ranking, i: Option<nat>, j: Option<nat>)
    ensures Parts(q, [a, b], [i, j]) ==
      Part(StatedWeight(q, a.name), q.cfg.rrfK, i) + Part(StatedWeight(q, b.name), q.cfg.rrfK, j)
  {
    assert [a, b][..1] == [a] && [i, j][..1] == [i];
    assert [a][..0] == [] && [i][..0] == [];
    assert Parts(q, [a], [i]) == Parts(q, [], []) + Part(StatedWeight(q, a.name), q.cfg.rrfK, i);
  }

  /** The usual query: a text and a vector list under the configured weights. */
  lemma TextAndVectorScore(
    q: Query, limit: int, h: Hit, text: seq<Id>, vector: seq<Id>, i: Option<nat>, j: Option<nat>)
    requires q.weights == map[] && q.lists == [Ranking("bm25", text), Ranking("vector", vector)]
    requires h in Fused(q, limit) && StandsAt(text, h.id, i) && StandsAt(vector, h.id, j)
    ensures h.id in q.priors
    ensures h.score ==
      (if i.Some? then q.cfg.weightBm25 / (q.cfg.rrfK + i.value + 1) as real else 0.0)
      + (if j.Some? then q.cfg.weightVector / (q.cfg.rrfK + j.value + 1) as real else 0.0)
      + q.cfg.weightPrior * q.priors[h.id]
  {
    ScoresExactly(q, limit, h, [i, j]);
    TwoParts(q, q.lists[0], q.lists[1], i, j);
  }

  /** Twice a share beats one exactly if its divisor is less than twice the other. */
  lemma TwiceBeatsOnce(w: real, x: real, y: real)
    requires w > 0.0 && x > 0.0 && y > 0.0
    ensures w / x + w / x > w / y <==> 2.0 * y > x
  {
    var a, b := w / x, w / y;
    assert a * x == w && b * y == w && a > 0.0 && b > 0.0;
    if 2.0 * y > x {
      assert 2.0 * y * a > x * a;
      assert (2.0 * a - b) * y > 0.0;
    } else {
      assert 2.0 * y * a <= x * a;
      assert (2.0 * a - b) * y <= 0.0;
    }
  }

  /**
   Agreement counts: under equal weights and priors, a document that both lists have at rank
   `r` scores more than one that a single list has first, exactly if `r` is less than `rrfK + 2`.
   */
  lemma AgreementWins(
    q: Query, limit: int, both: Hit, alone: Hit, text: seq<Id>, vector: seq<Id>, r: nat, inText: bool)
    requires q.weights == map[] && q.lists == [Ranking("bm25", text), Ranking("vector", vector)]
    requires q.cfg.weightBm25 == q.cfg.weightVector && q.cfg.weightBm25 > 0.0
    requires both in Fused(q, limit) && alone in Fused(q, limit) && r > 0
    requires both.id in q.priors && alone.id in q.priors && q.priors[both.id] == q.priors[alone.id]
    requires StandsAt(text, both.id, Some(r - 1)) && StandsAt(vector, both.id, Some(r - 1))
    requires StandsAt(text, alone.id, if inText then Some(0) else None)
    requires StandsAt(vector, alone.id, if inText then None else Some(0))
    ensures both.score > alone.score <==> r < q.cfg.rrfK + 2
  {
    hide Fused, StandsAt;
    var w, x, y := q.cfg.weightBm25, (q.cfg.rrfK + r) as real, (q.cfg.rrfK + 1) as real;
    TextAndVectorScore(q, limit, both, text, vector, Some(r - 1), Some(r - 1));
    var i, j := if inText then Some(0) else None, if inText then None else Some(0);
    TextAndVectorScore(q, limit, alone, text, vector, i, j);
    TwiceBeatsOnce(w, x, y);
    assert 2.0 * y > x <==> 2 * (q.cfg.rrfK + 1) > q.cfg.rrfK + r;
  }

  // ---------------------------------------------------------------- ties

  /** Reading the lists one after the other, each from its top, `a` is met and `b` has not been yet. */
  ghost predicate MetBefore(lists: seq<Ranking>, a: Id, b: Id) {
    exists k, p :: 0 <= k < |lists| && 0 <= p < |lists[k].ids| && MetAt(lists, k, p, a, b)
  }

  ghost predicate MetAt(lists: seq<Ranking>, k: nat, p: nat, a: Id, b: Id)
    requires k < |lists| && p < |lists[k].ids|
  {
    lists[k].ids[p] == a && a != b && b !in lists[k].ids[..p] && !Listed(lists[..k], b)
  }

  /** `a` stands before `b`, or `b` does not stand there. */
  ghost predicate InOrder(s: seq<Id>, a: Id, b: Id) {
    exists i :: 0 <= i < |s| && s[i] == a && b !in s[..i + 1]
  }

  lemma OrderAppended(front: seq<Id>, x: Id, a: Id, b: Id)
    requires InOrder(front + [x], a, b) && !InOrder(front, a, b)
    ensures x == a && b != a && b !in front
  {
    var all := front + [x];
    assert forall m | 0 <= m < |front| :: all[..m + 1] == front[..m + 1] && all[m] == front[m];
    var i :| 0 <= i < |all| && all[i] == a && b !in all[..i + 1];
    assert i == |front|;
    assert all[..i + 1] == all;
  }

  lemma {:induction false} AddedOrder(seen: seq<Id>, ids: seq<Id>, a: Id, b: Id)
    requires Distinct(seen) && InOrder(AddNew(seen, ids), a, b) && !InOrder(seen, a, b)
    ensures b !in seen && exists p :: 0 <= p < |ids| && ids[p] == a && a != b && b !in ids[..p]
  {
    hide InOrder;
    if ids != [] {
      var n := |ids| - 1;
      var front := AddNew(seen, ids[..n]);
      if InOrder(front, a, b) {
        AddedOrder(seen, ids[..n], a, b);
        var p :| 0 <= p < n && ids[..n][p] == a && a != b && b !in ids[..n][..p];
        assert ids[..n][..p] == ids[..p] && ids[p] == a;
      } else {
        AddNewDistinct(seen, ids[..n]);
        OrderAppended(front, ids[n], a, b);
        assert ids[n] == a && b !in ids[..n];
      }
    }
  }

  lemma {:induction false} UnionOrder(lists: seq<Ranking>, a: Id, b: Id)
    requires InOrder(Union(lists), a, b)
    ensures MetBefore(lists, a, b)
  {
    if lists != [] {
      var n := |lists| - 1;
      UnionDistinct(lists[..n]);
      if InOrder(Union(lists[..n]), a, b) {
        UnionOrder(lists[..n], a, b);
        var k, p :| 0 <= k < n && 0 <= p < |lists[..n][k].ids| && MetAt(lists[..n], k, p, a, b);
        assert lists[..n][..k] == lists[..k];
        assert MetAt(lists, k, p, a, b);
      } else {
        AddedOrder(Union(lists[..n]), lists[n].ids, a, b);
        var p :| 0 <= p < |lists[n].ids| && lists[n].ids[p] == a && a != b && b !in lists[n].ids[..p];
        assert MetAt(lists, n, p, a, b);
      }
    }
  }

  /** Equal scores stand in the order of a rank that rises along the hits. */
  ghost predicate TiesRise(hits: seq<Hit>, rank: Id -> int) {
    forall i, j | 0 <= i < j < |hits| && hits[i].score == hits[j].score :: rank(hits[i].id) < rank(hits[j].id)
  }

  lemma AppendTies(s: seq<Hit>, x: Hit, rank: Id -> int)
    requires TiesRise(s, rank) && forall y | y in s && y.score == x.score :: rank(y.id) < rank(x.id)
    ensures TiesRise(s + [x], rank)
  {
    forall i | 0 <= i < |s| && s[i].score == x.score ensures rank(s[i].id) < rank(x.id) {
      assert s[i] in s;
    }
  }

  lemma InsertedMembers(sorted: seq<Hit>, h: Hit)
    ensures forall x :: x in Insert(sorted, h) <==> x in sorted || x == h
  {
    InsertPermutes(sorted, h);
    forall x ensures x in Insert(sorted, h) <==> x in sorted || x == h {
      assert x in multiset(Insert(sorted, h)) <==> x in multiset(sorted) + multiset{h};
    }
  }

  lemma TakeTies(s: seq<Hit>, n: nat, rank: Id -> int)
    requires n < |s| && TiesRise(s, rank)
    ensures TiesRise(s[..n], rank)
    ensures forall y | y in s[..n] && y.score == s[n].score :: rank(y.id) < rank(s[n].id)
  {
  }

  lemma {:induction false} InsertTies(sorted: seq<Hit>, h: Hit, rank: Id -> int)
    requires TiesRise(sorted, rank) && forall x | x in sorted :: rank(x.id) < rank(h.id)
    ensures TiesRise(Insert(sorted, h), rank)
  {
    hide TiesRise;
    if sorted != [] && sorted[|sorted| - 1].score < h.score {
      var n := |sorted| - 1;
      var front, last := sorted[..n], sorted[n];
      TakeTies(sorted, n, rank);
      InsertTies(front, h, rank);
      InsertedMembers(front, h);
      AppendTies(Insert(front, h), last, rank);
    } else {
      assert sorted == [] ==> sorted + [h] == [h];
      AppendTies(sorted, h, rank);
    }
  }

  ghost predicate Rises(hits: seq<Hit>, rank: Id -> int) {
    forall i, j | 0 <= i < j < |hits| :: rank(hits[i].id) < rank(hits[j].id)
  }

  lemma {:induction false} SortedTies(hits: seq<Hit>, rank: Id -> int)
    requires Rises(hits, rank)
    ensures TiesRise(Sorted(hits), rank)
  {
    if hits != [] {
      var front, last := hits[..|hits| - 1], hits[|hits| - 1];
      SortedTies(front, rank);
      SortIsStable(front);
      SameMembers(Sorted(front), front);
      forall x | x in Sorted(front) ensures rank(x.id) < rank(last.id) {
        assert x in front;
      }
      InsertTies(Sorted(front), last, rank);
    }
  }

  /** The place of a document among others, or behind all of them. */
  ghost function PlaceOf(ids: seq<Id>, d: Id): (p: nat)
    ensures p <= |ids| && (p < |ids| ==> ids[p] == d) && d !in ids[..p]
    ensures d in ids ==> p < |ids|
  {
    if ids == [] || ids[0] == d then 0
    else
      var p := 1 + PlaceOf(ids[1..], d);
      assert ids[..p] == [ids[0]] + ids[1..][..p - 1];
      p
  }

  lemma {:induction false} HitsRise(q: Query, ids: seq<Id>, n: nat, rank: Id -> int)
    requires Distinct(ids) && n <= |ids| && forall i | 0 <= i < |ids| :: rank(ids[i]) == i
    ensures Rises(HitsOf(q, ids[..n]), rank) && forall x | x in HitsOf(q, ids[..n]) :: rank(x.id) < n
  {
    if n > 0 {
      assert ids[..n][..n - 1] == ids[..n - 1] && ids[..n][n - 1] == ids[n - 1];
      HitsRise(q, ids, n - 1, rank);
      var before, hits := HitsOf(q, ids[..n - 1]), HitsOf(q, ids[..n]);
      forall i | 0 <= i < |before| ensures rank(before[i].id) < n - 1 {
        assert before[i] in before;
      }
      assert hits == before
          || (|hits| == |before| + 1 && hits[..|before|] == before && hits[|before|].id == ids[n - 1]);
    }
  }

  /** Documents with equal scores stand in the order in which the lists first mention them. */
  lemma TiesByFirstMention(q: Query, limit: int, i: nat, j: nat)
    requires i < j < |Fused(q, limit)| && Fused(q, limit)[i].score == Fused(q, limit)[j].score
    ensures MetBefore(q.lists, Fused(q, limit)[i].id, Fused(q, limit)[j].id)
  {
    hide HitsOf, Sorted, Union, PlaceOf, Score, Distinct, Rises, MetBefore;
    var ids := Union(q.lists);
    var hits, rank: Id -> int := HitsOf(q, ids), d => PlaceOf(ids, d);
    UnionDistinct(q.lists);
    TakeAll(ids);
    forall m | 0 <= m < |ids| ensures rank(ids[m]) == m {
      PlaceIs(ids, m);
    }
    HitsRise(q, ids, |ids|, rank);
    SortedTies(hits, rank);
    CutsArePrefixes(q, limit);
    var a, b := Fused(q, limit)[i], Fused(q, limit)[j];
    assert a == Ranked(q)[i] && b == Ranked(q)[j];
    FusedShape(q, limit);
    assert a in Fused(q, limit) && b in Fused(q, limit);
    StandsBefore(ids, a.id, b.id);
    UnionOrder(q.lists, a.id, b.id);
  }

  lemma PlaceIs(ids: seq<Id>, m: nat)
    requires Distinct(ids) && m < |ids|
    ensures PlaceOf(ids, ids[m]) == m
  {
  }

  lemma StandsBefore(ids: seq<Id>, a: Id, b: Id)
    requires a in ids && PlaceOf(ids, a) < PlaceOf(ids, b)
    ensures InOrder(ids, a, b)
  {
    var p := PlaceOf(ids, a);
    assert ids[..PlaceOf(ids, b)][..p + 1] == ids[..p + 1];
  }
}
