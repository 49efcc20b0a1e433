/** Facts about finite sequences and sets that several components share. */
module Sequences {

  datatype Option<+T> = None | Some(value: T)

  ghost predicate Distinct<T>(s: seq<T>) {
    forall i, j | 0 <= i < j < |s| :: s[i] != s[j]
  }

  function ToSet<T(==,!new)>(s: seq<T>): (r: set<T>)
    ensures forall x :: x in r <==> x in s
  {
    set x | x in s
  }

  lemma TakeOneMore<T>(s: seq<T>, k: nat)
    requires k < |s|
    ensures s[..k + 1] == s[..k] + [s[k]]
  {
  }

  lemma TakeAll<T>(s: seq<T>)
    ensures s[..|s|] == s
  {
  }

  /** A sequence drawn from a set and longer than it repeats an element. */
  lemma {:induction false} Pigeonhole<T>(s: seq<T>, pool: set<T>)
    requires forall x | x in s :: x in pool
    requires |s| > |pool|
    ensures exists i, j :: 0 <= i < j < |s| && s[i] == s[j]
    decreases |s|
  {
    var last := |s| - 1;
    var front := s[..last];
    if s[last] in front {
      var i :| 0 <= i < last && front[i] == s[last];
      assert s[i] == s[last];
    } else {
      Pigeonhole(front, pool - {s[last]});
      var i, j :| 0 <= i < j < last && front[i] == front[j];
      assert s[i] == s[j];
    }
  }

  lemma {:induction false} DistinctCardinality<T(!new)>(s: seq<T>)
    requires Distinct(s)
    ensures |ToSet(s)| == |s|
  {
    if s != [] {
      var last := |s| - 1;
      DistinctCardinality(s[..last]);
      assert ToSet(s) == ToSet(s[..last]) + {s[last]};
      assert s[last] !in s[..last];
    }
  }

  /** A distinct sequence inside a set is as long as the set only when it exhausts it. */
  lemma DistinctExhausts<T(!new)>(s: seq<T>, pool: set<T>)
    requires Distinct(s)
    requires forall x | x in s :: x in pool
    ensures |s| <= |pool|
    ensures |s| == |pool| ==> ToSet(s) == pool
  {
    DistinctCardinality(s);
    assert ToSet(s) <= pool;
    assert pool == ToSet(s) + (pool - ToSet(s));
    assert |pool| == |ToSet(s)| + |pool - ToSet(s)|;
  }

  lemma ShortLeavesRest<T(!new)>(s: seq<T>, pool: set<T>)
    requires Distinct(s) && |s| < |pool|
    ensures pool - ToSet(s) != {}
  {
    DistinctCardinality(s);
    assert pool == (pool - ToSet(s)) + (pool * ToSet(s));
    assert ToSet(s) == (pool * ToSet(s)) + (ToSet(s) - pool);
  }

  lemma AppendAssociates<T>(a: seq<T>, b: seq<T>, c: seq<T>)
    ensures (a + b) + c == a + (b + c)
  {
  }

  lemma TakeThrough<T>(t: seq<T>, cut: nat, block: seq<T>)
    requires cut <= |t| && block <= t[cut..]
    ensures cut + |block| <= |t| && t[..cut + |block|] == t[..cut] + block
    ensures t[cut + |block|..] == t[cut..][|block|..]
  {
  }

  lemma DropPrefix<T>(a: seq<T>, b: seq<T>)
    ensures (a + b)[|a|..] == b && a <= a + b
  {
  }

  /** A sequence is what stands before, at and after a position. */
  lemma Around<T>(s: seq<T>, k: nat)
    requires k < |s|
    ensures s == s[..k] + [s[k]] + s[k + 1..]
  {
  }

  lemma InFront<T>(a: seq<T>, b: seq<T>, k: nat)
    requires k < |a|
    ensures (a + b)[..k] == a[..k] && (a + b)[k] == a[k] && (a + b)[k + 1..] == a[k + 1..] + b
  {
  }

  lemma DropSuffix<T>(s: seq<T>, from: nat, i: nat)
    requires from <= i <= |s|
    ensures s[from..][i - from..] == s[i..]
  {
  }
}
