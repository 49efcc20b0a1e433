/** Reciprocal rank fusion over the reals, and what the fused ranking guarantees. */
module RankFusion {
  import opened Sequences

  type Id = int

  /** A named list of documents, best first. */
  datatype Ranking = Ranking(name: string, ids: seq<Id>)

  datatype Config = Config(rrfK: nat, weightBm25: real, weightVector: real, weightPrior: real, minScoreRatio: real)

  datatype Hit = Hit(id: Id, score: real)

  /** Everything a fusion reads: settings, weights by list name, the lists, and each document's prior. */
  datatype Query = Query(cfg: Config, weights: map<string, real>, lists: seq<Ranking>, priors: map<Id, real>)

  // ---------------------------------------------------------------- scores

  function Weight(q: Query, name: string): real {
    var weights :=
      if q.weights == map[] then map["bm25" := q.cfg.weightBm25, "vector" := q.cfg.weightVector] else q.weights;
    if name in weights then weights[name] else 1.0
  }

  /** The place of a document in a list, counted from one; a repeated document takes its last place. */
  function RankOf(ids: seq<Id>, d: Id): (r: Option<nat>)
    ensures r.Some? ==> 1 <= r.value <= |ids| && ids[r.value - 1] == d
    ensures r.Some? <==> d in ids
  {
    if ids == [] then None
    else if ids[|ids| - 1] == d then Some(|ids|)
    else RankOf(ids[..|ids| - 1], d)
  }

  function Share(q: Query, list: Ranking, d: Id): real {
    match RankOf(list.ids, d)
    case None => 0.0
    case Some(r) => Weight(q, list.name) / (q.cfg.rrfK + r) as real
  }

  function ListScore(q: Query, lists: seq<Ranking>, d: Id): real {
    if lists == [] then 0.0
    else ListScore(q, lists[..|lists| - 1], d) + Share(q, lists[|lists| - 1], d)
  }

  function PriorShare(q: Query, d: Id): real
    requires d in q.priors
  {
    q.cfg.weightPrior * q.priors[d]
  }

  function Score(q: Query, d: Id): real
    requires d in q.priors
  {
    ListScore(q, q.lists, d) + PriorShare(q, d)
  }

  // ---------------------------------------------------------------- candidates

  function AddNew(seen: seq<Id>, ids: seq<Id>): seq<Id> {
    if ids == [] then seen
    else
      var before := AddNew(seen, ids[..|ids| - 1]);
      if ids[|ids| - 1] in before then before else before + [ids[|ids| - 1]]
  }

  /** All listed documents in the order in which they are first met. */
  function Union(lists: seq<Ranking>): seq<Id> {
    if lists == [] then [] else AddNew(Union(lists[..|lists| - 1]), lists[|lists| - 1].ids)
  }

  function HitsOf(q: Query, ids: seq<Id>): seq<Hit> {
    if ids == [] then []
    else
      var d := ids[|ids| - 1];
      HitsOf(q, ids[..|ids| - 1]) + if d in q.priors then [Hit(d, Score(q, d))] else []
  }

  // ---------------------------------------------------------------- ranking and cutting

  /** Behind everything that scores at least as much. */
  function Insert(sorted: seq<Hit>, h: Hit): seq<Hit> {
    if sorted == [] then [h]
    else if sorted[|sorted| - 1].score >= h.score then sorted + [h]
    else Insert(sorted[..|sorted| - 1], h) + [sorted[|sorted| - 1]]
  }

  /** The stable sort by descending score. */
  function Sorted(hits: seq<Hit>): seq<Hit> {
    if hits == [] then [] else Insert(Sorted(hits[..|hits| - 1]), hits[|hits| - 1])
  }

  function AtLeast(hits: seq<Hit>, floor: real): seq<Hit> {
    if hits == [] then []
    else AtLeast(hits[..|hits| - 1], floor) + if hits[|hits| - 1].score >= floor then [hits[|hits| - 1]] else []
  }

  function AboveFloor(hits: seq<Hit>, ratio: real): seq<Hit> {
    if ratio > 0.0 && hits != [] then AtLeast(hits, hits[0].score * ratio) else hits
  }

  /** A slice up to `limit`; a negative limit counts from the end. */
  function Kept(hits: seq<Hit>, limit: int): seq<Hit> {
    if limit >= |hits| then hits
    else if limit >= 0 then hits[..limit]
    else if |hits| + limit > 0 then hits[..|hits| + limit]
    else []
  }

  function Ranked(q: Query): seq<Hit> {
    Sorted(HitsOf(q, Union(q.lists)))
  }

  function Fused(q: Query, limit: int): seq<Hit> {
    Kept(AboveFloor(Ranked(q), q.cfg.minScoreRatio), limit)
  }

  // ---------------------------------------------------------------- the method

  method RankList(ids: seq<Id>) returns (ranks: map<Id, nat>)
    ensures forall d :: d in ranks <==> d in ids
    ensures forall d | d in ranks :: RankOf(ids, d) == Some(ranks[d])
  {
    ranks := map[];
    for i := 0 to |ids|
      invariant forall d :: d in ranks <==> d in ids[..i]
      invariant forall d | d in ranks :: RankOf(ids[..i], d) == Some(ranks[d])
    {
      assert ids[..i + 1][..i] == ids[..i];
      ranks := ranks[ids[i] := i + 1];
    }
    TakeAll(ids);
  }

  method AddUnseen(union: seq<Id>, seen: set<Id>, ids: seq<Id>) returns (union': seq<Id>, seen': set<Id>)
    requires seen == ToSet(union)
    ensures union' == AddNew(union, ids) && seen' == ToSet(union')
  {
    union', seen' := union, seen;
    for i := 0 to |ids|
      invariant union' == AddNew(union, ids[..i]) && seen' == ToSet(union')
    {
      assert ids[..i + 1][..i] == ids[..i];
      if ids[i] !in seen' {
        seen' := seen' + {ids[i]};
        union' := union' + [ids[i]];
      }
    }
    TakeAll(ids);
  }

  /** What the rank tables must hold. */
  ghost predicate Tabulates(lists: seq<Ranking>, n: nat, ranks: map<string, map<Id, nat>>) {
    n <= |lists| && forall k | 0 <= k < n :: lists[k].name in ranks && RanksOf(lists[k].ids, ranks[lists[k].name])
  }

  ghost predicate RanksOf(ids: seq<Id>, ranks: map<Id, nat>) {
    && (forall d :: d in ranks <==> d in ids)
    && (forall d | d in ranks :: RankOf(ids, d) == Some(ranks[d]))
  }

  method TotalFor(q: Query, ranks: map<string, map<Id, nat>>, d: Id) returns (total: real)
    requires d in q.priors && Tabulates(q.lists, |q.lists|, ranks)
    ensures total == Score(q, d)
  {
    hide RankOf, Weight;
    total := 0.0;
    for k := 0 to |q.lists|
      invariant total == ListScore(q, q.lists[..k], d)
    {
      assert q.lists[..k + 1][..k] == q.lists[..k];
      var list := q.lists[k];
      assert RanksOf(list.ids, ranks[list.name]);
      if d in ranks[list.name] {
        total := total + Weight(q, list.name) / (q.cfg.rrfK + ranks[list.name][d]) as real;
      }
    }
    TakeAll(q.lists);
    if q.priors[d] != 0.0 && q.cfg.weightPrior != 0.0 {
      total := total + q.cfg.weightPrior * q.priors[d];
    }
  }

  lemma OneMoreTable(lists: seq<Ranking>, k: nat, ranks: map<string, map<Id, nat>>, table: map<Id, nat>)
    requires k < |lists| && Tabulates(lists, k, ranks) && RanksOf(lists[k].ids, table)
    requires forall i, j | 0 <= i < j < |lists| :: lists[i].name != lists[j].name
    ensures Tabulates(lists, k + 1, ranks[lists[k].name := table])
  {
    hide RanksOf;
  }

  /** The rank tables, and the listed documents in the order in which they are first met. */
  method Tabulate(lists: seq<Ranking>) returns (ranks: map<string, map<Id, nat>>, union: seq<Id>)
    requires forall j, k | 0 <= j < k < |lists| :: lists[j].name != lists[k].name
    ensures Tabulates(lists, |lists|, ranks) && union == Union(lists)
  {
    hide Tabulates, AddNew;
    ranks := map[];
    union := [];
    var seen: set<Id> := {};
    assert Tabulates(lists, 0, ranks) by {
      NoTables(lists);
    }
    for k := 0 to |lists|
      invariant Tabulates(lists, k, ranks)
      invariant union == Union(lists[..k]) && seen == ToSet(union)
    {
      assert lists[..k + 1][..k] == lists[..k];
      var table := RankList(lists[k].ids);
      OneMoreTable(lists, k, ranks, table);
      ranks := ranks[lists[k].name := table];
      union, seen := AddUnseen(union, seen, lists[k].ids);
    }
    TakeAll(lists);
  }

  lemma NoTables(lists: seq<Ranking>)
    ensures Tabulates(lists, 0, map[])
  {
  }

  method Fuse(q: Query, limit: int) returns (hits: seq<Hit>)
    requires forall j, k | 0 <= j < k < |q.lists| :: q.lists[j].name != q.lists[k].name
    ensures hits == Fused(q, limit)
  {
    hide Tabulates, Union, Score;
    var ranks, union := Tabulate(q.lists);
    hits := [];
    for i := 0 to |union|
      invariant hits == HitsOf(q, union[..i])
    {
      assert union[..i + 1][..i] == union[..i];
      if union[i] in q.priors {
        var total := TotalFor(q, ranks, union[i]);
        hits := hits + [Hit(union[i], total)];
      }
    }
    TakeAll(union);
    hits := Kept(AboveFloor(Sorted(hits), q.cfg.minScoreRatio), limit);
  }

  // ---------------------------------------------------------------- the sort

  ghost predicate Descending(hits: seq<Hit>) {
    forall i, j | 0 <= i < j < |hits| :: hits[i].score >= hits[j].score
  }

  function OfScore(hits: seq<Hit>, x: real): seq<Hit> {
    if hits == [] then []
    else OfScore(hits[..|hits| - 1], x) + if hits[|hits| - 1].score == x then [hits[|hits| - 1]] else []
  }

  lemma OfScoreAppend(hits: seq<Hit>, h: Hit, x: real)
    ensures OfScore(hits + [h], x) == OfScore(hits, x) + if h.score == x then [h] else []
  {
    assert (hits + [h])[..|hits|] == hits;
  }

  ghost predicate AllAtLeast(hits: seq<Hit>, floor: real) {
    forall i | 0 <= i < |hits| :: hits[i].score >= floor
  }

  lemma {:induction false} InsertBounded(sorted: seq<Hit>, h: Hit, floor: real)
    requires AllAtLeast(sorted, floor) && h.score >= floor
    ensures AllAtLeast(Insert(sorted, h), floor)
  {
    if sorted != [] {
      InsertBounded(sorted[..|sorted| - 1], h, floor);
    }
  }

  lemma {:induction false} InsertSorts(sorted: seq<Hit>, h: Hit)
    requires Descending(sorted)
    ensures Descending(Insert(sorted, h))
  {
    if sorted != [] && sorted[|sorted| - 1].score < h.score {
      var n := |sorted| - 1;
      InsertSorts(sorted[..n], h);
      InsertBounded(sorted[..n], h, sorted[n].score);
    }
  }

  lemma {:induction false} InsertPermutes(sorted: seq<Hit>, h: Hit)
    ensures multiset(Insert(sorted, h)) == multiset(sorted) + multiset{h}
  {
    if sorted != [] && sorted[|sorted| - 1].score < h.score {
      var n := |sorted| - 1;
      assert sorted == sorted[..n] + [sorted[n]];
      InsertPermutes(sorted[..n], h);
    }
  }

  lemma {:induction false} InsertStable(sorted: seq<Hit>, h: Hit, x: real)
    requires Descending(sorted)
    ensures OfScore(Insert(sorted, h), x) == OfScore(sorted, x) + if h.score == x then [h] else []
  {
    hide OfScore;
    if sorted == [] || sorted[|sorted| - 1].score >= h.score {
      assert Insert(sorted, h) == sorted + [h];
      OfScoreAppend(sorted, h, x);
    } else {
      var n := |sorted| - 1;
      var front, last := sorted[..n], sorted[n];
      InsertStable(front, h, x);
      OfScoreAppend(Insert(front, h), last, x);
      assert sorted == front + [last];
      OfScoreAppend(front, last, x);
      var own, least := if h.score == x then [h] else [], if last.score == x then [last] else [];
      assert own == [] || least == [];
      assert (OfScore(front, x) + own) + least == (OfScore(front, x) + least) + own;
    }
  }

  /** Sorted descending, a permutation, and ties keep their order. */
  lemma {:induction false} SortIsStable(hits: seq<Hit>)
    ensures Descending(Sorted(hits)) && multiset(Sorted(hits)) == multiset(hits)
    ensures forall x :: OfScore(Sorted(hits), x) == OfScore(hits, x)
  {
    if hits != [] {
      var front, last := hits[..|hits| - 1], hits[|hits| - 1];
      assert hits == front + [last];
      SortIsStable(front);
      InsertSorts(Sorted(front), last);
      InsertPermutes(Sorted(front), last);
      forall x ensures OfScore(Sorted(hits), x) == OfScore(hits, x) {
        InsertStable(Sorted(front), last, x);
        OfScoreAppend(front, last, x);
      }
    }
  }

  // ---------------------------------------------------------------- no document twice

  lemma {:induction false} AddNewDistinct(seen: seq<Id>, ids: seq<Id>)
    requires Distinct(seen)
    ensures Distinct(AddNew(seen, ids)) && forall d :: d in AddNew(seen, ids) <==> d in seen || d in ids
  {
    if ids != [] {
      var front, last := ids[..|ids| - 1], ids[|ids| - 1];
      assert ids == front + [last];
      AddNewDistinct(seen, front);
    }
  }

  ghost predicate Listed(lists: seq<Ranking>, d: Id) {
    exists k :: 0 <= k < |lists| && d in lists[k].ids
  }

  lemma {:induction false} UnionDistinct(lists: seq<Ranking>)
    ensures Distinct(Union(lists)) && forall d :: d in Union(lists) <==> Listed(lists, d)
  {
    if lists != [] {
      var front, last := lists[..|lists| - 1], lists[|lists| - 1];
      UnionDistinct(front);
      AddNewDistinct(Union(front), last.ids);
      forall d ensures Listed(lists, d) <==> Listed(front, d) || d in last.ids {
        if Listed(front, d) {
          var k :| 0 <= k < |front| && d in front[k].ids;
          assert d in lists[k].ids;
        }
        if Listed(lists, d) && d !in last.ids {
          var k :| 0 <= k < |lists| && d in lists[k].ids;
          assert d in front[k].ids;
        }
      }
    }
  }

  /** One hit for each listed and known document, and its score. */
  ghost predicate Exact(q: Query, hits: seq<Hit>, ids: seq<Id>) {
    && (forall i, j | 0 <= i < j < |hits| :: hits[i].id != hits[j].id)
    && (forall h :: h in hits <==> h.id in ids && h.id in q.priors && h.score == Score(q, h.id))
  }

  lemma {:induction false} HitsExact(q: Query, ids: seq<Id>)
    requires Distinct(ids)
    ensures Exact(q, HitsOf(q, ids), ids)
  {
    if ids != [] {
      var front, last := ids[..|ids| - 1], ids[|ids| - 1];
      assert ids == front + [last];
      HitsExact(q, front);
      var before := HitsOf(q, front);
      forall i | 0 <= i < |before| ensures before[i].id != last {
        assert before[i] in before;
        assert before[i].id in front;
      }
    }
  }

  lemma SameMembers(a: seq<Hit>, b: seq<Hit>)
    requires multiset(a) == multiset(b)
    ensures |a| == |b| && forall h :: h in a <==> h in b
  {
    assert |multiset(a)| == |a| && |multiset(b)| == |b|;
    assert forall h :: h in a <==> h in multiset(a);
    assert forall h :: h in b <==> h in multiset(b);
  }

  /** The ranking before cuts holds every listed, known document once, with its score, best first. */
  lemma RankedExact(q: Query)
    ensures Descending(Ranked(q))
    ensures forall i, j | 0 <= i < j < |Ranked(q)| :: Ranked(q)[i].id != Ranked(q)[j].id
    ensures forall h :: h in Ranked(q) <==> Listed(q.lists, h.id) && h.id in q.priors && h.score == Score(q, h.id)
  {
    var ids := Union(q.lists);
    var hits := HitsOf(q, ids);
    UnionDistinct(q.lists);
    HitsExact(q, ids);
    SortIsStable(hits);
    SameMembers(Sorted(hits), hits);
    DistinctIds(hits, Sorted(hits));
  }

  lemma DistinctIds(a: seq<Hit>, b: seq<Hit>)
    requires multiset(a) == multiset(b)
    requires forall i, j | 0 <= i < j < |a| :: a[i].id != a[j].id
    ensures forall i, j | 0 <= i < j < |b| :: b[i].id != b[j].id
  {
    forall i, j | 0 <= i < j < |b| ensures b[i].id != b[j].id {
      SameMembers(a, b);
      assert b[i] in a && b[j] in a;
      if b[i] == b[j] {
        TwiceInside(b, i, j);
        var h := b[i];
        assert multiset(a)[h] >= 2;
        OnceInside(a, h);
      }
    }
  }

  lemma TwiceInside(s: seq<Hit>, i: nat, j: nat)
    requires i < j < |s| && s[i] == s[j]
    ensures multiset(s)[s[i]] >= 2
  {
    assert s == s[..j] + [s[j]] + s[j + 1..];
    assert s[i] in s[..j];
  }

  lemma {:induction false} OnceInside(s: seq<Hit>, h: Hit)
    requires forall i, j | 0 <= i < j < |s| :: s[i].id != s[j].id
    ensures multiset(s)[h] <= 1
  {
    if s != [] {
      var front := s[..|s| - 1];
      assert s == front + [s[|s| - 1]];
      OnceInside(front, h);
      if h in front {
        assert h in multiset(front);
      }
    }
  }
}
