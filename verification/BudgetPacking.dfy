/**
 Packing ranked memories into a token budget: the greedy passes as functions on a
 packing state, and what they guarantee for every input.
 */
module BudgetPacking {
  import opened Sequences

  datatype Item = Item(kind: string, tokens: int, score: real, pinned: bool)

  datatype Limits = Limits(budget: int, minItems: int, cap: Option<int>)

  datatype Packing = Packing(kept: set<nat>, used: int, perKind: map<string, nat>)

  const EMPTY := Packing({}, 0, map[])

  function CountOf(p: Packing, kind: string): nat {
    if kind in p.perKind then p.perKind[kind] else 0
  }

  predicate AtCap(p: Packing, lim: Limits, kind: string) {
    lim.cap.Some? && kind != "" && CountOf(p, kind) >= lim.cap.value
  }

  predicate TooLong(p: Packing, lim: Limits, tokens: int) {
    p.used + tokens > lim.budget && |p.kept| >= lim.minItems
  }

  predicate Takes(p: Packing, lim: Limits, item: Item) {
    !AtCap(p, lim, item.kind) && !TooLong(p, lim, item.tokens)
  }

  function TryTake(items: seq<Item>, lim: Limits, p: Packing, i: nat): Packing
    requires i < |items|
  {
    if !Takes(p, lim, items[i]) then p
    else
      Packing(p.kept + {i}, p.used + items[i].tokens, p.perKind[items[i].kind := CountOf(p, items[i].kind) + 1])
  }

  ghost predicate Indices(items: seq<Item>, order: seq<nat>) {
    forall k | 0 <= k < |order| :: order[k] < |items|
  }

  /** The pinned pass: every index of `order` is tried. */
  function TakePinned(items: seq<Item>, lim: Limits, p: Packing, order: seq<nat>): Packing
    requires Indices(items, order)
    decreases |order|
  {
    if order == [] then p
    else TakePinned(items, lim, if items[order[0]].pinned then TryTake(items, lim, p, order[0]) else p, order[1..])
  }

  /** The ranked pass: indices already kept are passed over; it stops when the budget is used up. */
  function TakeRanked(items: seq<Item>, lim: Limits, p: Packing, order: seq<nat>): Packing
    requires Indices(items, order)
    decreases |order|
  {
    if order == [] then p
    else if order[0] in p.kept then TakeRanked(items, lim, p, order[1..])
    else
      var p' := TryTake(items, lim, p, order[0]);
      if p'.used >= lim.budget then p' else TakeRanked(items, lim, p', order[1..])
  }

  predicate Full(p: Packing, lim: Limits) {
    100 * p.used >= 85 * lim.budget
  }

  /** The relaxed pass: no cap, and it stops at 85 percent of the budget. */
  function TakeRelaxed(items: seq<Item>, lim: Limits, p: Packing, order: seq<nat>): Packing
    requires Indices(items, order)
    decreases |order|
  {
    if order == [] then p
    else
      var p' := TryTake(items, lim.(cap := None), p, order[0]);
      if Full(p', lim) then p' else TakeRelaxed(items, lim, p', order[1..])
  }

  function Upto(n: nat): (s: seq<nat>)
    ensures |s| == n && forall i | 0 <= i < n :: s[i] == i
  {
    seq(n, i => i)
  }

  /** Stable insertion behind everything that scores at least as well. */
  function Inserted(items: seq<Item>, sorted: seq<nat>, i: nat): (r: seq<nat>)
    requires Indices(items, sorted) && i < |items|
    ensures Indices(items, r) && multiset(r) == multiset(sorted) + multiset{i}
  {
    if sorted == [] then [i]
    else if items[sorted[|sorted| - 1]].score >= items[i].score then sorted + [i]
    else
      var front, last := sorted[..|sorted| - 1], sorted[|sorted| - 1];
      assert sorted == front + [last];
      Inserted(items, front, i) + [last]
  }

  /** The given indices by descending score, ties in the given order. */
  function ByScore(items: seq<Item>, order: seq<nat>): (r: seq<nat>)
    requires Indices(items, order)
    ensures Indices(items, r) && multiset(r) == multiset(order)
  {
    if order == [] then []
    else
      var front := ByScore(items, order[..|order| - 1]);
      assert order == order[..|order| - 1] + [order[|order| - 1]];
      Inserted(items, front, order[|order| - 1])
  }

  /** What is left that would still fit. */
  function Fitting(items: seq<Item>, lim: Limits, p: Packing, order: seq<nat>): (r: seq<nat>)
    requires Indices(items, order)
    ensures Indices(items, r)
    ensures forall i: nat ::
      i in r <==> i in order && i !in p.kept && i < |items| && p.used + items[i].tokens <= lim.budget
  {
    if order == [] then []
    else
      (if order[0] !in p.kept && p.used + items[order[0]].tokens <= lim.budget then [order[0]] else [])
      + Fitting(items, lim, p, order[1..])
  }

  /** The state after the pinned and the ranked pass. */
  function Capped(items: seq<Item>, lim: Limits): Packing {
    var all := Upto(|items|);
    TakeRanked(items, lim, TakePinned(items, lim, EMPTY, all), ByScore(items, all))
  }

  /** The whole packing. */
  function Fit(items: seq<Item>, lim: Limits): Packing {
    var p := Capped(items, lim);
    if lim.cap.None? || lim.budget == 0 || p.kept == {} || Full(p, lim) then p
    else
      TakeRelaxed(items, lim, p, ByScore(items, Fitting(items, lim, p, Upto(|items|))))
  }

  // ---------------------------------------------------------------- bookkeeping

  ghost function TokenSum(items: seq<Item>, kept: set<nat>): int {
    if items == [] then 0
    else (if |items| - 1 in kept then items[|items| - 1].tokens else 0) + TokenSum(items[..|items| - 1], kept)
  }

  ghost function KindCount(items: seq<Item>, kept: set<nat>, kind: string): nat {
    if items == [] then 0
    else
      (if |items| - 1 in kept && items[|items| - 1].kind == kind then 1 else 0)
      + KindCount(items[..|items| - 1], kept, kind)
  }

  lemma {:induction false} KeepOneMore(items: seq<Item>, kept: set<nat>, i: nat)
    requires i !in kept
    ensures TokenSum(items, kept + {i}) == TokenSum(items, kept) + if i < |items| then items[i].tokens else 0
    ensures forall kind ::
      KindCount(items, kept + {i}, kind) ==
      KindCount(items, kept, kind) + (if i < |items| && items[i].kind == kind then 1 else 0)
  {
    if items != [] {
      KeepOneMore(items[..|items| - 1], kept, i);
    }
  }

  ghost predicate NoNegativeTokens(items: seq<Item>) {
    forall i | 0 <= i < |items| :: items[i].tokens >= 0
  }

  /** The counters say what is kept, and the budget is exceeded only by the guaranteed minimum. */
  ghost predicate Honest(items: seq<Item>, lim: Limits, p: Packing) {
    && (forall i | i in p.kept :: i < |items|)
    && p.used == TokenSum(items, p.kept)
    && (forall kind :: CountOf(p, kind) == KindCount(items, p.kept, kind))
    && (p.used > lim.budget ==> |p.kept| <= lim.minItems || p.kept == {})
  }

  lemma EmptyHonest(items: seq<Item>, lim: Limits)
    ensures Honest(items, lim, EMPTY) && WithinCaps(lim, EMPTY)
  {
    NothingKept(items);
  }

  lemma {:induction false} NothingKept(items: seq<Item>)
    ensures TokenSum(items, {}) == 0 && forall kind :: KindCount(items, {}, kind) == 0
  {
    if items != [] {
      NothingKept(items[..|items| - 1]);
    }
  }

  lemma TryTakeHonest(items: seq<Item>, lim: Limits, p: Packing, i: nat)
    requires NoNegativeTokens(items) && Honest(items, lim, p) && i < |items| && i !in p.kept
    ensures Honest(items, lim, TryTake(items, lim, p, i))
  {
    KeepOneMore(items, p.kept, i);
  }

  ghost predicate WithinCaps(lim: Limits, p: Packing) {
    lim.cap.Some? ==> forall kind | kind != "" :: CountOf(p, kind) <= if lim.cap.value < 0 then 0 else lim.cap.value
  }

  ghost predicate Grows(p: Packing, q: Packing) {
    p.kept <= q.kept && p.used <= q.used && forall kind :: CountOf(p, kind) <= CountOf(q, kind)
  }

  lemma TryTakeStep(items: seq<Item>, lim: Limits, p: Packing, i: nat)
    requires NoNegativeTokens(items) && i < |items|
    ensures var q := TryTake(items, lim, p, i);
      Grows(p, q) && (WithinCaps(lim, p) ==> WithinCaps(lim, q))
  {
  }

  /** Refusals last: what is too long or capped stays so as the packing grows. */
  lemma RefusalLasts(lim: Limits, p: Packing, q: Packing, item: Item)
    requires Grows(p, q)
    ensures TooLong(p, lim, item.tokens) ==> TooLong(q, lim, item.tokens)
    ensures AtCap(p, lim, item.kind) ==> AtCap(q, lim, item.kind)
  {
    assert q.kept == p.kept + (q.kept - p.kept);
  }

  // ---------------------------------------------------------------- the passes

  lemma {:induction false} PinnedPass(items: seq<Item>, lim: Limits, p: Packing, order: seq<nat>)
    requires NoNegativeTokens(items) && Honest(items, lim, p) && WithinCaps(lim, p)
    requires Indices(items, order) && Distinct(order) && forall k | 0 <= k < |order| :: order[k] !in p.kept
    ensures var q := TakePinned(items, lim, p, order);
      && Honest(items, lim, q) && WithinCaps(lim, q) && Grows(p, q)
      && forall j | j in q.kept && j !in p.kept :: j < |items| && items[j].pinned
    decreases |order|
  {
    if order != [] {
      var i := order[0];
      TryTakeHonest(items, lim, p, i);
      TryTakeStep(items, lim, p, i);
      PinnedPass(items, lim, if items[i].pinned then TryTake(items, lim, p, i) else p, order[1..]);
    }
  }

  /** An item the ranked pass went over is kept, or its kind is at the cap, or it does not fit although the
      guaranteed minimum is kept, or the budget was used up. */
  ghost predicate Decided(items: seq<Item>, lim: Limits, p: Packing, i: nat)
    requires i < |items|
  {
    || i in p.kept
    || (lim.cap.Some? && items[i].kind != "" && CountOf(p, items[i].kind) >= lim.cap.value)
    || (p.used + items[i].tokens > lim.budget && |p.kept| >= lim.minItems)
    || p.used >= lim.budget
  }

  lemma {:induction false} RankedPass(items: seq<Item>, lim: Limits, p: Packing, order: seq<nat>)
    requires NoNegativeTokens(items) && Honest(items, lim, p) && WithinCaps(lim, p) && Indices(items, order)
    ensures var q := TakeRanked(items, lim, p, order);
      && Honest(items, lim, q) && WithinCaps(lim, q) && Grows(p, q)
      && forall k | 0 <= k < |order| :: Decided(items, lim, q, order[k])
    decreases |order|
  {
    if order != [] {
      var i := order[0];
      var q := TakeRanked(items, lim, p, order);
      if i in p.kept {
        RankedPass(items, lim, p, order[1..]);
      } else {
        var p' := TryTake(items, lim, p, i);
        TryTakeHonest(items, lim, p, i);
        TryTakeStep(items, lim, p, i);
        if p'.used < lim.budget {
          RankedPass(items, lim, p', order[1..]);
          RefusalLasts(lim, p', q, items[i]);
        }
      }
      assert Decided(items, lim, q, i);
      forall k | 0 < k < |order| ensures Decided(items, lim, q, order[k]) {
        assert order[k] == order[1..][k - 1];
      }
    }
  }

  lemma {:induction false} RelaxedPass(items: seq<Item>, lim: Limits, p: Packing, order: seq<nat>)
    requires NoNegativeTokens(items) && Honest(items, lim, p)
    requires Indices(items, order) && Distinct(order) && forall k | 0 <= k < |order| :: order[k] !in p.kept
    ensures var q := TakeRelaxed(items, lim, p, order);
      && Honest(items, lim, q) && Grows(p, q)
      && (Full(q, lim) || forall k | 0 <= k < |order| :: order[k] in q.kept || TooLong(q, lim, items[order[k]].tokens))
    decreases |order|
  {
    if order != [] {
      var i, open := order[0], lim.(cap := None);
      var p', q := TryTake(items, open, p, i), TakeRelaxed(items, lim, p, order);
      TryTakeHonest(items, open, p, i);
      TryTakeStep(items, open, p, i);
      if !Full(p', lim) {
        RelaxedPass(items, lim, p', order[1..]);
        RefusalLasts(open, p', q, items[i]);
        forall k | 0 < k < |order| && !Full(q, lim)
          ensures order[k] in q.kept || TooLong(q, lim, items[order[k]].tokens)
        {
          assert order[k] == order[1..][k - 1];
        }
      }
    }
  }

  lemma {:induction false} MembersOf(a: seq<nat>, b: seq<nat>)
    requires multiset(a) == multiset(b)
    ensures |a| == |b| && (Distinct(a) ==> Distinct(b)) && forall i :: i in a <==> i in b
  {
    forall i ensures i in a <==> i in b {
      assert i in multiset(a) <==> i in multiset(b);
    }
    assert |multiset(a)| == |a| && |multiset(b)| == |b|;
    if Distinct(a) {
      DistinctCardinality(a);
      assert ToSet(a) == ToSet(b);
      CardinalityDistinct(b);
    }
  }

  lemma {:induction false} CardinalityDistinct(s: seq<nat>)
    requires |ToSet(s)| == |s|
    ensures Distinct(s)
  {
    if s != [] {
      var last := |s| - 1;
      assert ToSet(s) == ToSet(s[..last]) + {s[last]};
      SetAtMost(s[..last]);
      CardinalityDistinct(s[..last]);
    }
  }

  lemma {:induction false} SetAtMost(s: seq<nat>)
    ensures |ToSet(s)| <= |s|
  {
    if s != [] {
      SetAtMost(s[..|s| - 1]);
      assert ToSet(s) == ToSet(s[..|s| - 1]) + {s[|s| - 1]};
    }
  }

  lemma {:induction false} FittingDistinct(items: seq<Item>, lim: Limits, p: Packing, order: seq<nat>)
    requires Indices(items, order) && Distinct(order)
    ensures Distinct(Fitting(items, lim, p, order))
  {
    if order != [] {
      FittingDistinct(items, lim, p, order[1..]);
      assert order[0] !in order[1..];
    }
  }

  /** The capped passes, for every input. */
  lemma CappedPasses(items: seq<Item>, lim: Limits)
    requires NoNegativeTokens(items)
    ensures var p := Capped(items, lim);
      && Honest(items, lim, p) && WithinCaps(lim, p)
      && forall i | 0 <= i < |items| :: Decided(items, lim, p, i)
  {
    var all := Upto(|items|);
    var ranked := ByScore(items, all);
    EmptyHonest(items, lim);
    PinnedPass(items, lim, EMPTY, all);
    RankedPass(items, lim, TakePinned(items, lim, EMPTY, all), ranked);
    MembersOf(ranked, all);
    forall i | 0 <= i < |items| ensures Decided(items, lim, Capped(items, lim), i) {
      assert all[i] == i;
      assert i in ranked;
    }
  }

  lemma RelaxedDecides(
    items: seq<Item>, lim: Limits, p: Packing, q: Packing, i: nat, fitting: seq<nat>, ranked: seq<nat>)
    requires i < |items| && Grows(p, q) && i !in q.kept
    requires fitting == Fitting(items, lim, p, Upto(|items|))
    requires Indices(items, ranked) && forall j :: j in fitting <==> j in ranked
    requires forall k | 0 <= k < |ranked| :: ranked[k] in q.kept || TooLong(q, lim, items[ranked[k]].tokens)
    ensures q.used + items[i].tokens > lim.budget
  {
    hide Fitting;
    assert Upto(|items|)[i] == i;
    if i in fitting {
      var k :| 0 <= k < |ranked| && ranked[k] == i;
      assert TooLong(q, lim, items[ranked[k]].tokens);
    }
  }

  /** The relaxed pass, when it runs. */
  lemma RelaxedPacks(items: seq<Item>, lim: Limits, p: Packing)
    requires NoNegativeTokens(items) && Honest(items, lim, p)
    ensures
      var q := TakeRelaxed(items, lim, p, ByScore(items, Fitting(items, lim, p, Upto(|items|))));
      && Honest(items, lim, q) && Grows(p, q)
      && (Full(q, lim) || forall i | 0 <= i < |items| && i !in q.kept :: q.used + items[i].tokens > lim.budget)
  {
    hide TakeRelaxed, Honest, Grows, ByScore, Fitting, NoNegativeTokens;
    var all := Upto(|items|);
    var fitting := Fitting(items, lim, p, all);
    var ranked := ByScore(items, fitting);
    var q := TakeRelaxed(items, lim, p, ranked);
    FittingDistinct(items, lim, p, all);
    MembersOf(fitting, ranked);
    forall k | 0 <= k < |ranked| ensures ranked[k] !in p.kept {
      assert ranked[k] in fitting;
    }
    RelaxedPass(items, lim, p, ranked);
    forall i | 0 <= i < |items| && i !in q.kept && !Full(q, lim) ensures q.used + items[i].tokens > lim.budget {
      RelaxedDecides(items, lim, p, q, i, fitting, ranked);
    }
  }

  /** The inputs on which a cap below one keeps everything out although something fits. */
  ghost predicate ShutOut(items: seq<Item>, lim: Limits) {
    && lim.budget > 0 && lim.cap.Some? && lim.cap.value < 1
    && (exists i | 0 <= i < |items| :: items[i].tokens <= lim.budget)
    && forall i | 0 <= i < |items| && items[i].kind == "" :: items[i].tokens > lim.budget && lim.minItems <= 0
  }

  ghost predicate NothingFits(items: seq<Item>, lim: Limits, p: Packing) {
    forall i | 0 <= i < |items| && i !in p.kept :: p.used + items[i].tokens > lim.budget
  }

  lemma {:induction false} ShutOutTakesNone(items: seq<Item>, lim: Limits, order: seq<nat>)
    requires Indices(items, order) && forall i | 0 <= i < |items| :: !Takes(EMPTY, lim, items[i])
    ensures TakePinned(items, lim, EMPTY, order) == EMPTY && TakeRanked(items, lim, EMPTY, order) == EMPTY
    decreases |order|
  {
    if order != [] {
      ShutOutTakesNone(items, lim, order[1..]);
    }
  }

  /** If everything is shut out, the packing is empty though something fits. */
  lemma ShutOutFails(items: seq<Item>, lim: Limits)
    requires ShutOut(items, lim)
    ensures Fit(items, lim) == EMPTY && !Full(EMPTY, lim) && !NothingFits(items, lim, EMPTY)
  {
    hide TakePinned, TakeRanked, ByScore;
    var all := Upto(|items|);
    ShutOutTakesNone(items, lim, all);
    ShutOutTakesNone(items, lim, ByScore(items, all));
  }

  /** The other way round: an empty packing below 85 percent comes from such an input. */
  lemma EmptyMeansShutOut(items: seq<Item>, lim: Limits)
    requires NoNegativeTokens(items) && Capped(items, lim).kept == {}
    requires !Full(Capped(items, lim), lim) && !NothingFits(items, lim, Capped(items, lim))
    ensures ShutOut(items, lim)
  {
    hide Capped;
    var p := Capped(items, lim);
    CappedPasses(items, lim);
    NothingKept(items);
    var i :| 0 <= i < |items| && i !in p.kept && p.used + items[i].tokens <= lim.budget;
    assert Decided(items, lim, p, i);
    forall k | 0 <= k < |items| && items[k].kind == "" ensures items[k].tokens > lim.budget && lim.minItems <= 0 {
      assert Decided(items, lim, p, k);
    }
  }

  /**
   The packing guarantee, for every budget, minimum and cap: the books balance; going
   over budget means at most the guaranteed minimum is kept; a kind exceeds its cap
   only if the capped passes left the packing below 85 percent; and the result is
   at 85 percent or nothing evicted still fits, exactly unless the input is shut out.
   */
  lemma PackingGuarantee(items: seq<Item>, lim: Limits)
    requires NoNegativeTokens(items)
    ensures var p := Fit(items, lim);
      && Honest(items, lim, p)
      && (WithinCaps(lim, p) || 100 * Capped(items, lim).used < 85 * lim.budget)
      && (100 * p.used >= 85 * lim.budget || NothingFits(items, lim, p) <==> !ShutOut(items, lim))
  {
    hide Capped, TakeRelaxed, ByScore, Fitting, ShutOut;
    var p := Capped(items, lim);
    CappedPasses(items, lim);
    UsedNonNegative(items, p.kept);
    if ShutOut(items, lim) {
      ShutOutFails(items, lim);
      EmptyHonest(items, lim);
    } else if lim.cap.None? || lim.budget == 0 || p.kept == {} || Full(p, lim) {
      if p.kept == {} && !Full(p, lim) && !NothingFits(items, lim, p) {
        EmptyMeansShutOut(items, lim);
      }
      forall i | 0 <= i < |items| && i !in p.kept && !Full(p, lim) && p.kept != {}
        ensures p.used + items[i].tokens > lim.budget
      {
        assert Decided(items, lim, p, i);
      }
    } else {
      RelaxedPacks(items, lim, p);
    }
  }

  lemma {:induction false} UsedNonNegative(items: seq<Item>, kept: set<nat>)
    requires NoNegativeTokens(items)
    ensures TokenSum(items, kept) >= 0
  {
    if items != [] {
      UsedNonNegative(items[..|items| - 1], kept);
    }
  }

  /** Such inputs exist: a zero cap and one item that fits. */
  lemma ZeroCapKeepsNothing()
    ensures
      var items, lim := [Item("note", 1, 1.0, false)], Limits(10, 1, Some(0));
      ShutOut(items, lim) && Fit(items, lim).kept == {} && Fit(items, lim).used + items[0].tokens <= lim.budget
  {
    var items, lim := [Item("note", 1, 1.0, false)], Limits(10, 1, Some(0));
    assert items[0].tokens <= lim.budget;
    ShutOutFails(items, lim);
  }

  // ---------------------------------------------------------------- pinned items

  /** The packing of all pinned items before position `n`. */
  ghost function Reserve(items: seq<Item>, n: nat): Packing
    requires n <= |items|
  {
    if n == 0 then EMPTY
    else
      var p, item := Reserve(items, n - 1), items[n - 1];
      if !item.pinned then p
      else Packing(p.kept + {n - 1}, p.used + item.tokens, p.perKind[item.kind := CountOf(p, item.kind) + 1])
  }

  /** Behind the pinned items before it, no pinned item is refused by cap or budget. */
  ghost predicate RoomForPinned(items: seq<Item>, lim: Limits) {
    forall i | 0 <= i < |items| && items[i].pinned ::
      var before, item := Reserve(items, i), items[i];
      && (lim.cap.Some? && item.kind != "" ==> CountOf(before, item.kind) < lim.cap.value)
      && (before.used + item.tokens <= lim.budget || |before.kept| < lim.minItems)
  }

  lemma {:induction false} RefusedInPinned(items: seq<Item>, lim: Limits, p: Packing, order: seq<nat>, i: nat)
    requires NoNegativeTokens(items) && Indices(items, order) && i < |items|
    requires !Takes(p, lim, items[i]) && i !in p.kept
    ensures var q := TakePinned(items, lim, p, order); i !in q.kept && !Takes(q, lim, items[i])
    decreases |order|
  {
    if order != [] {
      var p' := TryTake(items, lim, p, order[0]);
      TryTakeStep(items, lim, p, order[0]);
      RefusalLasts(lim, p, p', items[i]);
      RefusedInPinned(items, lim, if items[order[0]].pinned then p' else p, order[1..], i);
    }
  }

  lemma {:induction false} RefusedInRanked(items: seq<Item>, lim: Limits, p: Packing, order: seq<nat>, i: nat)
    requires NoNegativeTokens(items) && Indices(items, order) && i < |items|
    requires !Takes(p, lim, items[i]) && i !in p.kept
    ensures i !in TakeRanked(items, lim, p, order).kept
    decreases |order|
  {
    if order != [] {
      var p' := TryTake(items, lim, p, order[0]);
      TryTakeStep(items, lim, p, order[0]);
      RefusalLasts(lim, p, p', items[i]);
      if order[0] in p.kept {
        RefusedInRanked(items, lim, p, order[1..], i);
      } else if p'.used < lim.budget {
        RefusedInRanked(items, lim, p', order[1..], i);
      }
    }
  }

  lemma {:induction false} ReservedKept(items: seq<Item>, n: nat)
    requires n <= |items|
    ensures forall i :: i in Reserve(items, n).kept <==> 0 <= i < n && items[i].pinned
  {
    if n > 0 {
      ReservedKept(items, n - 1);
    }
  }

  /** From the reservations before `k` on, the pinned pass reserves everything, or refuses some item for good. */
  lemma {:induction false} PinnedFrom(items: seq<Item>, lim: Limits, k: nat)
    requires NoNegativeTokens(items) && k <= |items|
    requires forall i | 0 <= i < k && items[i].pinned :: Takes(Reserve(items, i), lim, items[i])
    ensures var q := TakePinned(items, lim, Reserve(items, k), Upto(|items|)[k..]);
      if RoomForPinned(items, lim) then q == Reserve(items, |items|)
      else exists i :: 0 <= i < |items| && items[i].pinned && i !in q.kept && !Takes(q, lim, items[i])
    decreases |items| - k
  {
    hide Takes, RoomForPinned;
    if k < |items| {
      var rest := Upto(|items|)[k..];
      assert rest[0] == k && rest[1..] == Upto(|items|)[k + 1..];
      ReservedKept(items, k);
      if items[k].pinned && !Takes(Reserve(items, k), lim, items[k]) {
        RefusedInPinned(items, lim, Reserve(items, k), rest, k);
        NoRoomAt(items, lim, k);
      } else {
        PinnedFrom(items, lim, k + 1);
      }
    } else {
      AllRoom(items, lim);
    }
  }

  lemma NoRoomAt(items: seq<Item>, lim: Limits, k: nat)
    requires k < |items| && items[k].pinned && !Takes(Reserve(items, k), lim, items[k])
    ensures !RoomForPinned(items, lim)
  {
  }

  lemma AllRoom(items: seq<Item>, lim: Limits)
    requires forall i | 0 <= i < |items| && items[i].pinned :: Takes(Reserve(items, i), lim, items[i])
    ensures RoomForPinned(items, lim)
  {
  }

  /**
   Pinned items are reserved, ahead of cap and ranking of all others, exactly if cap and
   budget leave room for each of them behind the pinned ones before it.
   */
  lemma PinnedReserved(items: seq<Item>, lim: Limits)
    requires NoNegativeTokens(items)
    ensures (forall i | 0 <= i < |items| && items[i].pinned :: i in Capped(items, lim).kept) <==>
      RoomForPinned(items, lim)
    ensures RoomForPinned(items, lim) ==> forall i | 0 <= i < |items| && items[i].pinned :: i in Fit(items, lim).kept
  {
    hide TakePinned, TakeRanked, TakeRelaxed, ByScore, Fitting, RoomForPinned, Takes, Honest;
    var all := Upto(|items|);
    var pinned := TakePinned(items, lim, EMPTY, all);
    assert all[0..] == all && Reserve(items, 0) == EMPTY;
    PinnedFrom(items, lim, 0);
    if RoomForPinned(items, lim) {
      ReservedKept(items, |items|);
      RankedGrows(items, lim, pinned, ByScore(items, all));
      CappedPasses(items, lim);
      RelaxedPacks(items, lim, Capped(items, lim));
    } else {
      var i :| 0 <= i < |items| && items[i].pinned && i !in pinned.kept && !Takes(pinned, lim, items[i]);
      RefusedInRanked(items, lim, pinned, ByScore(items, all), i);
    }
  }

  /** A pinned item longer than the budget, with no minimum to keep it, is not kept. */
  lemma PinnedRefused()
    ensures
      var items, lim := [Item("note", 5, 1.0, true)], Limits(3, 0, None);
      items[0].pinned && 0 !in Fit(items, lim).kept
  {
    hide Capped;
    var items, lim := [Item("note", 5, 1.0, true)], Limits(3, 0, None);
    assert !Takes(Reserve(items, 0), lim, items[0]);
    PinnedReserved(items, lim);
  }

  // ---------------------------------------------------------------- exchange

  /** `i` ranks before `j`: by score, then by position. */
  ghost predicate Ahead(items: seq<Item>, i: nat, j: nat)
    requires i < |items| && j < |items|
  {
    items[i].score > items[j].score || (items[i].score == items[j].score && i < j)
  }

  ghost predicate RankSorted(items: seq<Item>, s: seq<nat>) {
    Indices(items, s) && forall a, b | 0 <= a < b < |s| :: Ahead(items, s[a], s[b])
  }

  lemma {:induction false} InsertedMembers(items: seq<Item>, s: seq<nat>, i: nat)
    requires Indices(items, s) && i < |items|
    ensures |Inserted(items, s, i)| == |s| + 1
    ensures forall k | 0 <= k <= |s| :: Inserted(items, s, i)[k] == i || Inserted(items, s, i)[k] in s
  {
    if s != [] && items[s[|s| - 1]].score < items[i].score {
      InsertedMembers(items, s[..|s| - 1], i);
    }
  }

  lemma InsertedAhead(items: seq<Item>, s: seq<nat>, i: nat)
    requires RankSorted(items, s) && i < |items| && s != [] && items[s[|s| - 1]].score < items[i].score
    ensures var r := Inserted(items, s[..|s| - 1], i);
      forall k | 0 <= k < |r| :: Ahead(items, r[k], s[|s| - 1])
  {
    hide Inserted;
    var front, last := s[..|s| - 1], s[|s| - 1];
    var r := Inserted(items, front, i);
    InsertedMembers(items, front, i);
    forall k | 0 <= k < |r| ensures Ahead(items, r[k], last) {
      if r[k] != i {
        var m :| 0 <= m < |front| && front[m] == r[k];
        assert s[m] == r[k];
      }
    }
  }

  lemma AppendedSorted(items: seq<Item>, s: seq<nat>, i: nat)
    requires RankSorted(items, s) && i < |items| && forall k | 0 <= k < |s| :: s[k] < i
    requires s != [] ==> items[s[|s| - 1]].score >= items[i].score
    ensures RankSorted(items, s + [i])
  {
    var r := s + [i];
    forall a, b | 0 <= a < b < |r| ensures Ahead(items, r[a], r[b]) {
      if b == |s| {
        assert a < |s| - 1 ==> Ahead(items, s[a], s[|s| - 1]);
      }
    }
  }

  lemma {:induction false} InsertedSorted(items: seq<Item>, s: seq<nat>, i: nat)
    requires RankSorted(items, s) && i < |items| && forall k | 0 <= k < |s| :: s[k] < i
    ensures RankSorted(items, Inserted(items, s, i))
  {
    if s != [] && items[s[|s| - 1]].score < items[i].score {
      var front, last := s[..|s| - 1], s[|s| - 1];
      InsertedSorted(items, front, i);
      InsertedMembers(items, front, i);
      InsertedAhead(items, s, i);
    } else {
      AppendedSorted(items, s, i);
    }
  }

  ghost predicate Ascending(s: seq<nat>) {
    forall a, b | 0 <= a < b < |s| :: s[a] < s[b]
  }

  lemma {:induction false} ByScoreAscending(items: seq<Item>, order: seq<nat>)
    requires Indices(items, order) && Ascending(order)
    ensures RankSorted(items, ByScore(items, order))
    ensures forall i :: i in ByScore(items, order) <==> i in order
  {
    hide Inserted, RankSorted;
    if order != [] {
      var n := |order| - 1;
      var front := order[..n];
      ByScoreAscending(items, front);
      var s := ByScore(items, front);
      forall k | 0 <= k < |s| ensures s[k] < order[n] {
        assert s[k] in front;
      }
      SortedIndices(items, s);
      InsertedSorted(items, s, order[n]);
      InsertedSame(items, s, order[n]);
      assert order == front + [order[n]];
    } else {
      NothingSorted(items);
    }
  }

  lemma SortedIndices(items: seq<Item>, s: seq<nat>)
    requires RankSorted(items, s)
    ensures Indices(items, s)
  {
  }

  lemma NothingSorted(items: seq<Item>)
    ensures RankSorted(items, [])
  {
  }

  lemma InsertedSame(items: seq<Item>, s: seq<nat>, i: nat)
    requires Indices(items, s) && i < |items|
    ensures forall j :: j in Inserted(items, s, i) <==> j in s || j == i
  {
    var r := Inserted(items, s, i);
    forall j ensures j in r <==> j in s || j == i {
      assert j in multiset(r) <==> j in multiset(s) + multiset{i};
    }
  }

  lemma ByScoreSorted(items: seq<Item>, n: nat)
    requires n <= |items|
    ensures RankSorted(items, ByScore(items, Upto(n)))
    ensures forall k | 0 <= k < |ByScore(items, Upto(n))| :: ByScore(items, Upto(n))[k] < n
  {
    hide RankSorted, ByScore;
    ByScoreAscending(items, Upto(n));
    forall k | 0 <= k < |ByScore(items, Upto(n))| ensures ByScore(items, Upto(n))[k] < n {
      assert ByScore(items, Upto(n))[k] in Upto(n);
    }
  }

  /** Once an item was too long, everything taken after it is shorter. */
  lemma {:induction false} RankedTakesShorter(
    items: seq<Item>, lim: Limits, p: Packing, order: seq<nat>, t: int, j: nat)
    requires NoNegativeTokens(items) && Indices(items, order) && TooLong(p, lim, t)
    requires j < |items| && j in TakeRanked(items, lim, p, order).kept && j !in p.kept
    ensures items[j].tokens < t
    decreases |order|
  {
    var i := order[0];
    if i in p.kept {
      RankedTakesShorter(items, lim, p, order[1..], t, j);
    } else {
      var p' := TryTake(items, lim, p, i);
      if j !in p'.kept {
        RankedTakesShorter(items, lim, p', order[1..], t, j);
      }
    }
  }

  lemma {:induction false} RelaxedTakesShorter(
    items: seq<Item>, lim: Limits, p: Packing, order: seq<nat>, t: int, j: nat)
    requires NoNegativeTokens(items) && Indices(items, order) && TooLong(p, lim, t)
    requires j < |items| && j in TakeRelaxed(items, lim, p, order).kept && j !in p.kept
    ensures items[j].tokens < t
    decreases |order|
  {
    var p' := TryTake(items, lim.(cap := None), p, order[0]);
    TryTakeStep(items, lim.(cap := None), p, order[0]);
    RefusalLasts(lim, p, p', Item("", t, 0.0, false));
    if j !in p'.kept {
      RelaxedTakesShorter(items, lim, p', order[1..], t, j);
    }
  }

  /** In the ranked pass, an item passed over for a later one, and not for its cap alone, was strictly longer. */
  lemma {:induction false} RankedExchange(items: seq<Item>, lim: Limits, p: Packing, order: seq<nat>, a: nat, b: nat)
    requires NoNegativeTokens(items) && Indices(items, order) && Distinct(order) && a < b < |order|
    requires lim.cap.None? || items[order[a]].kind == "" || items[order[a]].kind == items[order[b]].kind
    requires Grows(p, TakeRanked(items, lim, p, order))
    requires order[a] !in TakeRanked(items, lim, p, order).kept
    requires order[b] in TakeRanked(items, lim, p, order).kept && order[b] !in p.kept
    ensures items[order[b]].tokens < items[order[a]].tokens
    decreases |order|
  {
    var i, q := order[0], TakeRanked(items, lim, p, order);
    var p' := if i in p.kept then p else TryTake(items, lim, p, i);
    assert order[1..][b - 1] == order[b];
    if p'.used < lim.budget || i in p.kept {
      RankedGrows(items, lim, p', order[1..]);
      if a == 0 {
        if AtCap(p', lim, items[i].kind) {
          RefusedInRanked(items, lim, p', order[1..], order[b]);
        } else {
          RankedTakesShorter(items, lim, p', order[1..], items[i].tokens, order[b]);
        }
      } else {
        RankedExchange(items, lim, p', order[1..], a - 1, b - 1);
      }
    }
  }

  lemma {:induction false} RankedGrows(items: seq<Item>, lim: Limits, p: Packing, order: seq<nat>)
    requires NoNegativeTokens(items) && Indices(items, order)
    ensures Grows(p, TakeRanked(items, lim, p, order))
    decreases |order|
  {
    if order != [] {
      RankedGrows(items, lim, p, order[1..]);
      RankedGrows(items, lim, TryTake(items, lim, p, order[0]), order[1..]);
    }
  }

  /** In the relaxed pass, an item passed over for a later one was strictly longer. */
  lemma {:induction false} RelaxedExchange(items: seq<Item>, lim: Limits, p: Packing, order: seq<nat>, a: nat, b: nat)
    requires NoNegativeTokens(items) && Indices(items, order) && Distinct(order) && a < b < |order|
    requires order[a] !in TakeRelaxed(items, lim, p, order).kept
    requires order[b] in TakeRelaxed(items, lim, p, order).kept && order[b] !in p.kept
    ensures items[order[b]].tokens < items[order[a]].tokens
    decreases |order|
  {
    var i, open := order[0], lim.(cap := None);
    var p' := TryTake(items, open, p, i);
    assert order[1..][b - 1] == order[b];
    if !Full(p', lim) {
      if a == 0 {
        RelaxedGrows(items, lim, p', order[1..]);
        RelaxedTakesShorter(items, lim, p', order[1..], items[i].tokens, order[b]);
      } else {
        RelaxedExchange(items, lim, p', order[1..], a - 1, b - 1);
      }
    }
  }

  lemma {:induction false} RelaxedGrows(items: seq<Item>, lim: Limits, p: Packing, order: seq<nat>)
    requires NoNegativeTokens(items) && Indices(items, order)
    ensures Grows(p, TakeRelaxed(items, lim, p, order))
    decreases |order|
  {
    if order != [] {
      TryTakeStep(items, lim.(cap := None), p, order[0]);
      RelaxedGrows(items, lim, TryTake(items, lim.(cap := None), p, order[0]), order[1..]);
    }
  }

  lemma FittingUnfolds(items: seq<Item>, lim: Limits, p: Packing, order: seq<nat>)
    requires Indices(items, order)
    ensures var r := Fitting(items, lim, p, order);
      if order == [] then r == []
      else
        var rest := Fitting(items, lim, p, order[1..]);
        r == rest || r == [order[0]] + rest
  {
  }

  lemma AscendingCons(x: nat, rest: seq<nat>)
    requires Ascending(rest) && forall y | y in rest :: x < y
    ensures Ascending([x] + rest)
  {
    forall b | 0 <= b < |rest| ensures x < rest[b] {
      assert rest[b] in rest;
    }
  }

  lemma FirstIsLeast(order: seq<nat>, y: nat)
    requires Ascending(order) && order != [] && y in order[1..]
    ensures order[0] < y
  {
    var m :| 0 <= m < |order[1..]| && order[1..][m] == y;
    assert order[m + 1] == y;
  }

  lemma {:induction false} FittingAscending(items: seq<Item>, lim: Limits, p: Packing, order: seq<nat>)
    requires Indices(items, order) && Ascending(order)
    ensures Ascending(Fitting(items, lim, p, order))
  {
    hide Fitting;
    FittingUnfolds(items, lim, p, order);
    if order != [] {
      var rest := Fitting(items, lim, p, order[1..]);
      FittingAscending(items, lim, p, order[1..]);
      forall y | y in rest ensures order[0] < y {
        FirstIsLeast(order, y);
      }
      AscendingCons(order[0], rest);
    }
  }

  /** Of two items left by the capped passes, the relaxed one takes the one behind only if it is shorter. */
  lemma ExchangeInRelaxed(items: seq<Item>, lim: Limits, i: nat, j: nat)
    requires NoNegativeTokens(items) && i < |items| && j < |items| && Ahead(items, i, j)
    requires i !in Fit(items, lim).kept && j in Fit(items, lim).kept
    requires i !in Capped(items, lim).kept && j !in Capped(items, lim).kept
    ensures items[j].tokens < items[i].tokens
  {
    hide Capped, ByScore, Honest, WithinCaps, Fitting, TakeRelaxed, Grows;
    var all, p := Upto(|items|), Capped(items, lim);
    var fitting := Fitting(items, lim, p, all);
    var ranked := ByScore(items, fitting);
    FittingAscending(items, lim, p, all);
    ByScoreAscending(items, fitting);
    FittingDistinct(items, lim, p, all);
    MembersOf(fitting, ranked);
    TakenFromOrder(items, lim, p, ranked, j);
    assert all[i] == i && all[j] == j;
    if i in fitting {
      var a :| 0 <= a < |ranked| && ranked[a] == i;
      var b :| 0 <= b < |ranked| && ranked[b] == j;
      RelaxedExchange(items, lim, p, ranked, a, b);
    }
  }

  lemma {:induction false} TakenFromOrder(items: seq<Item>, lim: Limits, p: Packing, order: seq<nat>, j: nat)
    requires Indices(items, order) && j in TakeRelaxed(items, lim, p, order).kept && j !in p.kept
    ensures j in order
    decreases |order|
  {
    if order != [] {
      var p' := TryTake(items, lim.(cap := None), p, order[0]);
      if j !in p'.kept {
        TakenFromOrder(items, lim, p', order[1..], j);
      }
    }
  }

  /**
   The exchange guarantee: an evicted item is strictly longer than every unpinned item kept
   although it ranks behind, unless it gave way to another kind in the capped passes because its
   own was at the cap.
   */
  lemma ExchangeGuarantee(items: seq<Item>, lim: Limits, i: nat, j: nat)
    requires NoNegativeTokens(items) && i < |items| && j < |items|
    requires i !in Fit(items, lim).kept && j in Fit(items, lim).kept && !items[j].pinned && Ahead(items, i, j)
    requires
      || lim.cap.None? || items[i].kind == "" || items[i].kind == items[j].kind
      || j !in Capped(items, lim).kept
    ensures items[j].tokens < items[i].tokens
  {
    hide TakeRanked, TakeRelaxed, TakePinned, ByScore, Fitting, WithinCaps, TokenSum, KindCount;
    var p := Capped(items, lim);
    CappedPasses(items, lim);
    if p != Fit(items, lim) {
      RelaxedPacks(items, lim, p);
    }
    if j in p.kept {
      ExchangeInRanking(items, lim, i, j);
    } else {
      ExchangeInRelaxed(items, lim, i, j);
    }
  }

  lemma ExchangeInRanking(items: seq<Item>, lim: Limits, i: nat, j: nat)
    requires NoNegativeTokens(items) && i < |items| && j < |items| && Ahead(items, i, j)
    requires i !in Capped(items, lim).kept && j in Capped(items, lim).kept && !items[j].pinned
    requires lim.cap.None? || items[i].kind == "" || items[i].kind == items[j].kind
    ensures items[j].tokens < items[i].tokens
  {
    hide TakeRanked, TakePinned, ByScore, Honest, WithinCaps, Grows;
    var all := Upto(|items|);
    var ranked, pinned := ByScore(items, all), TakePinned(items, lim, EMPTY, all);
    EmptyHonest(items, lim);
    PinnedPass(items, lim, EMPTY, all);
    ByScoreSorted(items, |items|);
    MembersOf(all, ranked);
    assert all[i] == i && all[j] == j;
    assert i in ranked && j in ranked;
    var a :| 0 <= a < |ranked| && ranked[a] == i;
    var b :| 0 <= b < |ranked| && ranked[b] == j;
    RankedGrows(items, lim, pinned, ranked);
    RankedExchange(items, lim, pinned, ranked, a, b);
  }

  /** The guaranteed minimum: what the cap does not concern is evicted only for want of room, when the minimum is
      kept or the budget used up. */
  lemma MinimumKept(items: seq<Item>, lim: Limits, i: nat)
    requires NoNegativeTokens(items) && i < |items| && i !in Fit(items, lim).kept
    requires lim.cap.None? || items[i].kind == ""
    ensures var p := Fit(items, lim);
      p.used + items[i].tokens >= lim.budget && (|p.kept| >= lim.minItems || p.used >= lim.budget)
  {
    hide Capped, TakeRelaxed, ByScore, Fitting, WithinCaps, TokenSum, KindCount;
    var p, q := Capped(items, lim), Fit(items, lim);
    CappedPasses(items, lim);
    if p != q {
      RelaxedPacks(items, lim, p);
    }
    assert q.kept == p.kept + (q.kept - p.kept);
    assert Decided(items, lim, p, i);
  }
}
