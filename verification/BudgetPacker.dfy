/** The packer as it runs: one closure updates the kept set, the usage and the per-kind counts. */
module BudgetPacker {
  import opened Sequences
  import opened BudgetPacking

  class Packer {
    const items: seq<Item>
    const budget: int
    const minItems: int
    var cap: Option<int>
    var kept: set<nat>
    var used: int
    var perKind: map<string, nat>

    constructor (items: seq<Item>, lim: Limits)
      ensures this.items == items && Lim() == lim && State() == EMPTY
    {
      this.items, budget, minItems, cap := items, lim.budget, lim.minItems, lim.cap;
      kept, used, perKind := {}, 0, map[];
    }

    function Lim(): Limits
      reads this
    {
      Limits(budget, minItems, cap)
    }

    function State(): Packing
      reads this
    {
      Packing(kept, used, perKind)
    }

    method Try(i: nat) returns (taken: bool)
      requires i < |items|
      modifies `kept, `used, `perKind
      ensures State() == TryTake(items, Lim(), old(State()), i) && taken == Takes(old(State()), Lim(), items[i])
    {
      var kind := items[i].kind;
      var count := if kind in perKind then perKind[kind] else 0;
      if cap.Some? && kind != "" && count >= cap.value {
        return false;
      }
      if used + items[i].tokens > budget && |kept| >= minItems {
        return false;
      }
      kept, used, perKind := kept + {i}, used + items[i].tokens, perKind[kind := count + 1];
      taken := true;
    }

    method Pinned()
      modifies `kept, `used, `perKind
      ensures State() == TakePinned(items, Lim(), old(State()), Upto(|items|))
    {
      ghost var order := Upto(|items|);
      for i := 0 to |items|
        invariant TakePinned(items, Lim(), State(), order[i..]) == TakePinned(items, Lim(), old(State()), order)
      {
        assert order[i..][0] == i && order[i..][1..] == order[i + 1..];
        if items[i].pinned {
          var _ := Try(i);
        }
      }
    }

    method Ranked()
      modifies `kept, `used, `perKind
      ensures State() == TakeRanked(items, Lim(), old(State()), ByScore(items, Upto(|items|)))
    {
      var order := ByScore(items, Upto(|items|));
      for k := 0 to |order|
        invariant TakeRanked(items, Lim(), State(), order[k..]) == TakeRanked(items, Lim(), old(State()), order)
      {
        assert order[k..][0] == order[k] && order[k..][1..] == order[k + 1..];
        if order[k] !in kept {
          var _ := Try(order[k]);
          if used >= budget {
            break;
          }
        }
      }
    }

    /** Lifts the cap for one more pass over what fits, and puts it back. */
    method Relaxed()
      modifies this
      ensures Lim() == old(Lim())
      ensures State() ==
        TakeRelaxed(items, Lim(), old(State()), ByScore(items, Fitting(items, Lim(), old(State()), Upto(|items|))))
    {
      var order := ByScore(items, Fitting(items, Lim(), State(), Upto(|items|)));
      var saved := cap;
      ghost var lim := Lim();
      cap := None;
      for k := 0 to |order|
        invariant cap == None
        invariant TakeRelaxed(items, lim, State(), order[k..]) == TakeRelaxed(items, lim, old(State()), order)
      {
        assert order[k..][0] == order[k] && order[k..][1..] == order[k + 1..];
        var _ := Try(order[k]);
        if 100 * used >= 85 * budget {
          break;
        }
      }
      cap := saved;
    }

    /** All three passes. */
    method Pack()
      requires State() == EMPTY
      modifies this
      ensures State() == Fit(items, old(Lim()))
    {
      Pinned();
      Ranked();
      if cap.Some? && budget != 0 && kept != {} && 100 * used < 85 * budget {
        Relaxed();
      }
    }
  }

  /** The indices inside the kept set, or those outside it, in ascending order. */
  function Ascending(n: nat, kept: set<nat>, inside: bool): (r: seq<nat>)
  {
    if n == 0 then [] else Ascending(n - 1, kept, inside) + if (n - 1 in kept) == inside then [n - 1] else []
  }

  /** The report: indices kept and evicted, each in input order, and the tokens used. */
  method FitToBudget(items: seq<Item>, lim: Limits) returns (kept: seq<nat>, evicted: seq<nat>, tokens: int)
    ensures var p := Fit(items, lim);
      && kept == Ascending(|items|, p.kept, true)
      && evicted == Ascending(|items|, p.kept, false)
      && tokens == p.used
  {
    hide Fit;
    var packer := new Packer(items, lim);
    packer.Pack();
    kept, evicted, tokens := [], [], packer.used;
    for i := 0 to |items|
      invariant kept == Ascending(i, packer.kept, true) && evicted == Ascending(i, packer.kept, false)
    {
      if i in packer.kept {
        kept := kept + [i];
      } else {
        evicted := evicted + [i];
      }
    }
  }

  /** Kept and evicted partition the input. */
  lemma {:induction false} Partition(n: nat, kept: set<nat>)
    ensures multiset(Ascending(n, kept, true)) + multiset(Ascending(n, kept, false)) == multiset(Upto(n))
  {
    if n == 0 {
      assert Upto(0) == [];
    } else {
      Partition(n - 1, kept);
      UptoGrows(n - 1);
    }
  }

  lemma UptoGrows(n: nat)
    ensures multiset(Upto(n + 1)) == multiset(Upto(n)) + multiset{n}
  {
    assert Upto(n + 1) == Upto(n) + [n];
  }

}
