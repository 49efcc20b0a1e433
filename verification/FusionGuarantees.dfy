/** What a caller of the fusion can rely on: cuts, dominance, and freedom from list order. */
module FusionGuarantees {
  import opened RankFusion

  // ---------------------------------------------------------------- cuts

  lemma {:induction false} FloorIsPrefix(hits: seq<Hit>, floor: real)
    requires Descending(hits)
    ensures AtLeast(hits, floor) <= hits
    ensures forall i | 0 <= i < |hits| :: i < |AtLeast(hits, floor)| <==> hits[i].score >= floor
  {
    if hits != [] {
      FloorIsPrefix(hits[..|hits| - 1], floor);
    }
  }

  predicate ClearsFloor(top: real, ratio: real, score: real) {
    ratio > 0.0 ==> score >= top * ratio
  }

  lemma CutIsPrefix(hits: seq<Hit>, ratio: real, limit: int)
    requires Descending(hits)
    ensures Kept(AboveFloor(hits, ratio), limit) <= hits
    ensures limit >= 0 ==> |Kept(AboveFloor(hits, ratio), limit)| <= limit
    ensures limit >= 0 ==> forall i | 0 <= i < |hits| ::
      i < |Kept(AboveFloor(hits, ratio), limit)| <==> i < limit && ClearsFloor(hits[0].score, ratio, hits[i].score)
  {
    if hits != [] {
      FloorIsPrefix(hits, hits[0].score * ratio);
    }
  }

  /** The cuts only shorten the ranking, and what they keep is told by the floor and the limit. */
  lemma CutsArePrefixes(q: Query, limit: int)
    ensures Fused(q, limit) <= Ranked(q)
    ensures limit >= 0 ==> |Fused(q, limit)| <= limit
    ensures limit >= 0 ==> forall i | 0 <= i < |Ranked(q)| ::
      i < |Fused(q, limit)| <==> i < limit && ClearsFloor(Ranked(q)[0].score, q.cfg.minScoreRatio, Ranked(q)[i].score)
  {
    RankedExact(q);
    CutIsPrefix(Ranked(q), q.cfg.minScoreRatio, limit);
  }

  /** A negative limit takes that many off the end of what clears the floor. */
  lemma NegativeLimit(q: Query, limit: int, cleared: nat)
    requires limit < 0 && cleared <= |Ranked(q)|
    requires forall i | 0 <= i < |Ranked(q)| ::
      i < cleared <==> ClearsFloor(Ranked(q)[0].score, q.cfg.minScoreRatio, Ranked(q)[i].score)
    ensures |Fused(q, limit)| == if cleared + limit > 0 then cleared + limit else 0
  {
    hide Ranked, ClearsFloor, AboveFloor;
    RankedExact(q);
    ClearedLength(Ranked(q), q.cfg.minScoreRatio, cleared);
  }

  lemma ClearedLength(hits: seq<Hit>, ratio: real, cleared: nat)
    requires Descending(hits) && cleared <= |hits|
    requires forall i | 0 <= i < |hits| :: i < cleared <==> ClearsFloor(hits[0].score, ratio, hits[i].score)
    ensures |AboveFloor(hits, ratio)| == cleared
  {
    if hits != [] {
      FloorIsPrefix(hits, hits[0].score * ratio);
      var n := |AboveFloor(hits, ratio)|;
      assert n < |hits| ==> (n < cleared <==> ClearsFloor(hits[0].score, ratio, hits[n].score));
      assert cleared < |hits| ==> !ClearsFloor(hits[0].score, ratio, hits[cleared].score);
    }
  }

  /** The result is sorted, free of duplicates and exact. */
  lemma FusedShape(q: Query, limit: int)
    ensures Descending(Fused(q, limit))
    ensures forall i, j | 0 <= i < j < |Fused(q, limit)| :: Fused(q, limit)[i].id != Fused(q, limit)[j].id
    ensures forall h | h in Fused(q, limit) :: Listed(q.lists, h.id) && h.id in q.priors && h.score == Score(q, h.id)
  {
    RankedExact(q);
    CutsArePrefixes(q, limit);
    forall h | h in Fused(q, limit) ensures h in Ranked(q) {
      var i :| 0 <= i < |Fused(q, limit)| && Fused(q, limit)[i] == h;
      assert Ranked(q)[i] == h;
    }
  }

  // ---------------------------------------------------------------- dominance

  predicate NoWorse(ids: seq<Id>, a: Id, b: Id) {
    RankOf(ids, b).Some? ==> RankOf(ids, a).Some? && RankOf(ids, a).value <= RankOf(ids, b).value
  }

  predicate Better(ids: seq<Id>, a: Id, b: Id) {
    RankOf(ids, a).Some? && (RankOf(ids, b).Some? ==> RankOf(ids, a).value < RankOf(ids, b).value)
  }

  ghost predicate BetterSomewhere(q: Query, lists: seq<Ranking>, a: Id, b: Id) {
    exists k :: 0 <= k < |lists| && Weight(q, lists[k].name) > 0.0 && Better(lists[k].ids, a, b)
  }

  ghost predicate NeverWorse(q: Query, lists: seq<Ranking>, a: Id, b: Id) {
    forall k | 0 <= k < |lists| :: Weight(q, lists[k].name) >= 0.0 && NoWorse(lists[k].ids, a, b)
  }

  /** Nowhere behind, with at least the prior, and strictly ahead where it counts. */
  ghost predicate Dominates(q: Query, a: Id, b: Id) {
    && a in q.priors && b in q.priors && q.cfg.weightPrior >= 0.0
    && NeverWorse(q, q.lists, a, b) && q.priors[a] >= q.priors[b]
    && (BetterSomewhere(q, q.lists, a, b) || (q.cfg.weightPrior > 0.0 && q.priors[a] > q.priors[b]))
  }

  lemma Quotients(w: real, x: real, y: real)
    requires w >= 0.0 && 0.0 < x <= y
    ensures w / x >= w / y >= 0.0
    ensures w > 0.0 && x < y ==> w / x > w / y
    ensures w > 0.0 ==> w / x > 0.0
  {
    var a, b := w / x, w / y;
    assert a * x == w && b * y == w;
    assert b >= 0.0;
    if a < b || (w > 0.0 && x < y && a == b) {
      Products(a, b, x, y);
    }
  }

  lemma Products(a: real, b: real, x: real, y: real)
    requires 0.0 < x <= y && b >= 0.0 && (a < b || (a == b && b > 0.0 && x < y))
    ensures a * x < b * y
  {
    assert a * x <= b * x <= b * y;
  }

  lemma ShareGrows(q: Query, list: Ranking, a: Id, b: Id)
    requires Weight(q, list.name) >= 0.0 && NoWorse(list.ids, a, b)
    ensures Share(q, list, a) >= Share(q, list, b)
    ensures Weight(q, list.name) > 0.0 && Better(list.ids, a, b) ==> Share(q, list, a) > Share(q, list, b)
  {
    var ra, rb := RankOf(list.ids, a), RankOf(list.ids, b);
    if ra.Some? {
      var x := (q.cfg.rrfK + ra.value) as real;
      var y := if rb.Some? then (q.cfg.rrfK + rb.value) as real else x;
      Quotients(Weight(q, list.name), x, y);
    }
  }

  lemma {:induction false} ListScoreGrows(q: Query, lists: seq<Ranking>, a: Id, b: Id)
    requires NeverWorse(q, lists, a, b)
    ensures ListScore(q, lists, a) >= ListScore(q, lists, b)
  {
    if lists != [] {
      var n := |lists| - 1;
      ListScoreGrows(q, lists[..n], a, b);
      assert NoWorse(lists[n].ids, a, b);
      ShareGrows(q, lists[n], a, b);
    }
  }

  lemma {:induction false} ListScoreGrowsStrictly(q: Query, lists: seq<Ranking>, a: Id, b: Id, k: nat)
    requires NeverWorse(q, lists, a, b)
    requires k < |lists| && Weight(q, lists[k].name) > 0.0 && Better(lists[k].ids, a, b)
    ensures ListScore(q, lists, a) > ListScore(q, lists, b)
  {
    var n := |lists| - 1;
    var front := lists[..n];
    assert NoWorse(lists[n].ids, a, b);
    ShareGrows(q, lists[n], a, b);
    if k == n {
      ListScoreGrows(q, front, a, b);
    } else {
      ListScoreGrowsStrictly(q, front, a, b, k);
    }
  }

  lemma PriorGrows(q: Query, a: Id, b: Id)
    requires a in q.priors && b in q.priors && q.cfg.weightPrior >= 0.0 && q.priors[a] >= q.priors[b]
    ensures PriorShare(q, a) >= PriorShare(q, b)
    ensures q.cfg.weightPrior > 0.0 && q.priors[a] > q.priors[b] ==> PriorShare(q, a) > PriorShare(q, b)
  {
  }

  /** A dominating document scores strictly more. */
  lemma DominatingScores(q: Query, a: Id, b: Id)
    requires Dominates(q, a, b)
    ensures Score(q, a) > Score(q, b)
  {
    PriorGrows(q, a, b);
    if BetterSomewhere(q, q.lists, a, b) {
      var k :| 0 <= k < |q.lists| && Weight(q, q.lists[k].name) > 0.0 && Better(q.lists[k].ids, a, b);
      ListScoreGrowsStrictly(q, q.lists, a, b, k);
    } else {
      ListScoreGrows(q, q.lists, a, b);
    }
  }

  lemma RankedAt(q: Query, d: Id) returns (i: nat)
    requires Listed(q.lists, d) && d in q.priors
    ensures i < |Ranked(q)| && Ranked(q)[i] == Hit(d, Score(q, d))
  {
    var hit, hits := Hit(d, Score(q, d)), Ranked(q);
    assert hit in hits by {
      RankedExact(q);
    }
    i :| i < |hits| && hits[i] == hit;
  }

  /** Wherever a dominated document survives the cuts, the dominating one stands before it. */
  lemma DominanceSurvivesCuts(q: Query, limit: int, a: Id, j: nat)
    requires j < |Fused(q, limit)| && Dominates(q, a, Fused(q, limit)[j].id)
    ensures exists i :: 0 <= i < j && Fused(q, limit)[i].id == a
  {
    var hit := Fused(q, limit)[j];
    RankedExact(q);
    CutsArePrefixes(q, limit);
    assert Ranked(q)[j] == hit;
    assert hit in Ranked(q);
    var i := RankedAt(q, a);
    DominatingScores(q, a, hit.id);
    assert Fused(q, limit)[i] == Ranked(q)[i];
  }

  // ---------------------------------------------------------------- the order of the lists

  lemma {:induction false} ListScoreMoves(q: Query, front: seq<Ranking>, x: Ranking, back: seq<Ranking>, d: Id)
    ensures ListScore(q, front + [x] + back, d) == ListScore(q, front + back, d) + Share(q, x, d)
  {
    if back == [] {
      assert front + [x] + back == front + [x] && front + back == front;
      assert (front + [x])[..|front|] == front;
    } else {
      LastOff(front + [x], back);
      LastOff(front, back);
      ListScoreMoves(q, front, x, back[..|back| - 1], d);
    }
  }

  lemma LastOff<T>(a: seq<T>, b: seq<T>)
    requires b != []
    ensures (a + b)[..|a + b| - 1] == a + b[..|b| - 1] && (a + b)[|a + b| - 1] == b[|b| - 1]
  {
  }

  lemma {:induction false} ListScorePermutes(q: Query, a: seq<Ranking>, b: seq<Ranking>, d: Id)
    requires multiset(a) == multiset(b)
    ensures ListScore(q, a, d) == ListScore(q, b, d)
    decreases |a|
  {
    if a == [] {
      assert |multiset(a)| == |a| && |multiset(b)| == |b|;
    } else {
      var n := |a| - 1;
      var x := a[n];
      assert a == a[..n] + [x];
      assert multiset(a[..n]) == multiset(a) - multiset{x};
      assert x in multiset(b);
      var k :| 0 <= k < |b| && b[k] == x;
      var rest := b[..k] + b[k + 1..];
      assert b == b[..k] + [x] + b[k + 1..];
      assert multiset(rest) == multiset(b) - multiset{x};
      ListScorePermutes(q, a[..n], rest, d);
      ListScoreMoves(q, b[..k], x, b[k + 1..], d);
    }
  }

  lemma ListedPermutes(a: seq<Ranking>, b: seq<Ranking>, d: Id)
    requires multiset(a) == multiset(b) && Listed(a, d)
    ensures Listed(b, d)
  {
    var k :| 0 <= k < |a| && d in a[k].ids;
    assert a[k] in multiset(b);
    var j :| 0 <= j < |b| && b[j] == a[k];
    assert d in b[j].ids;
  }

  /** The same query with its lists in another order. */
  predicate Reordered(q: Query, q': Query) {
    q' == q.(lists := q'.lists) && multiset(q.lists) == multiset(q'.lists)
  }

  lemma SamePrior(q: Query, q': Query, d: Id)
    requires q.cfg == q'.cfg && q.priors == q'.priors && d in q.priors
    ensures PriorShare(q, d) == PriorShare(q', d)
  {
  }

  lemma ScorePermutes(q: Query, q': Query, d: Id)
    requires Reordered(q, q') && d in q.priors
    ensures Score(q, d) == Score(q', d)
  {
    hide ListScore, PriorShare;
    ListScorePermutes(q, q.lists, q'.lists, d);
    SameWeights(q, q', q'.lists, d);
    SamePrior(q, q', d);
  }

  lemma {:induction false} SameWeights(q: Query, q': Query, lists: seq<Ranking>, d: Id)
    requires q.weights == q'.weights && q.cfg == q'.cfg
    ensures ListScore(q, lists, d) == ListScore(q', lists, d)
  {
    if lists != [] {
      SameWeights(q, q', lists[..|lists| - 1], d);
    }
  }

  lemma SameRankedHits(q: Query, q': Query, h: Hit)
    requires Reordered(q, q') && h in Ranked(q)
    ensures h in Ranked(q')
  {
    RankedExact(q);
    RankedExact(q');
    ListedPermutes(q.lists, q'.lists, h.id);
    ScorePermutes(q, q', h.id);
  }

  lemma {:induction false} CountsOnce(s: seq<Hit>, h: Hit)
    requires forall i, j | 0 <= i < j < |s| :: s[i].id != s[j].id
    ensures multiset(s)[h] == if h in s then 1 else 0
  {
    OnceInside(s, h);
    assert h in s <==> h in multiset(s);
  }

  lemma RankedPermutes(q: Query, q': Query)
    requires Reordered(q, q')
    ensures multiset(Ranked(q)) == multiset(Ranked(q'))
  {
    RankedExact(q);
    RankedExact(q');
    forall h ensures multiset(Ranked(q))[h] == multiset(Ranked(q'))[h] {
      CountsOnce(Ranked(q), h);
      CountsOnce(Ranked(q'), h);
      if h in Ranked(q) {
        SameRankedHits(q, q', h);
      }
      if h in Ranked(q') {
        SameRankedHits(q', q, h);
      }
    }
  }

  lemma {:induction false} AtLeastCounts(hits: seq<Hit>, floor: real, h: Hit)
    ensures multiset(AtLeast(hits, floor))[h] == if h.score >= floor then multiset(hits)[h] else 0
  {
    if hits != [] {
      assert hits == hits[..|hits| - 1] + [hits[|hits| - 1]];
      AtLeastCounts(hits[..|hits| - 1], floor, h);
    }
  }

  lemma AtLeastPermutes(a: seq<Hit>, b: seq<Hit>, floor: real)
    requires multiset(a) == multiset(b)
    ensures |AtLeast(a, floor)| == |AtLeast(b, floor)|
  {
    var ma, mb := multiset(AtLeast(a, floor)), multiset(AtLeast(b, floor));
    forall h ensures ma[h] == mb[h] {
      AtLeastCounts(a, floor, h);
      AtLeastCounts(b, floor, h);
    }
    assert ma == mb;
    assert |ma| == |AtLeast(a, floor)| && |mb| == |AtLeast(b, floor)|;
  }

  /** Two descending arrangements of the same hits carry the same scores, place by place. */
  lemma SameScores(a: seq<Hit>, b: seq<Hit>, i: nat)
    requires multiset(a) == multiset(b) && Descending(a) && Descending(b)
    ensures |a| == |b| && (i < |a| ==> a[i].score == b[i].score)
  {
    SameMembers(a, b);
    if i < |a| {
      AtLeastPermutes(a, b, a[i].score);
      FloorIsPrefix(a, a[i].score);
      FloorIsPrefix(b, a[i].score);
      AtLeastPermutes(a, b, b[i].score);
      FloorIsPrefix(a, b[i].score);
      FloorIsPrefix(b, b[i].score);
    }
  }

  ghost predicate Tied(hits: seq<Hit>, i: nat)
    requires i < |hits|
  {
    exists j :: 0 <= j < |hits| && j != i && hits[j].score == hits[i].score
  }

  /** Reordering the lists changes neither the number of results nor any score, and only tied documents can
      trade places. */
  lemma ListOrderIrrelevant(q: Query, q': Query, limit: int, i: nat)
    requires Reordered(q, q')
    ensures |Fused(q, limit)| == |Fused(q', limit)|
    ensures i < |Fused(q, limit)| ==>
      Fused(q, limit)[i].score == Fused(q', limit)[i].score && i < |Ranked(q)|
    ensures i < |Fused(q, limit)| && !Tied(Ranked(q), i) ==> Fused(q, limit)[i] == Fused(q', limit)[i]
  {
    var a, b := Ranked(q), Ranked(q');
    RankedPermutes(q, q');
    RankedExact(q);
    RankedExact(q');
    SameScores(a, b, 0);
    SameScores(a, b, i);
    SameLengths(a, b, q.cfg.minScoreRatio, limit);
    CutsArePrefixes(q, limit);
    CutsArePrefixes(q', limit);
    if i < |Fused(q, limit)| {
      SameMembers(a, b);
      assert Fused(q, limit)[i] == a[i] && Fused(q', limit)[i] == b[i];
      assert b[i] in a;
      var j :| 0 <= j < |a| && a[j] == b[i];
      assert j != i ==> Tied(a, i);
    }
  }

  lemma SameLengths(a: seq<Hit>, b: seq<Hit>, ratio: real, limit: int)
    requires multiset(a) == multiset(b) && |a| == |b| && (a != [] ==> a[0].score == b[0].score)
    ensures |Kept(AboveFloor(a, ratio), limit)| == |Kept(AboveFloor(b, ratio), limit)|
  {
    if a != [] {
      AtLeastPermutes(a, b, a[0].score * ratio);
    }
  }
}
