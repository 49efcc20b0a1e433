/**
 The vector side of the hybrid retriever: the vector table, the cached dimension and
 the optional nearest-neighbour table that must agree with it.
 */
module VectorIndex {
  import opened Sequences

  type DocId = int
  type Vec = seq<real>
  type Vectors = map<DocId, Vec>

  /** The cached table name: never probed, probed in vain, or in use. */
  datatype KnnName = Unset | Unavailable | Built

  datatype KnnTable = KnnTable(dim: nat, rows: Vectors)

  datatype Index = Index(vecs: Vectors, cachedDim: Option<nat>, knn: KnnName, probed: bool, table: Option<KnnTable>)

  /** Which statements of one operation succeed: on the vector table, on the neighbour table, the insertion, its
      copy. */
  datatype Outcome = Outcome(deleted: bool, dropped: bool, inserted: bool, indexed: bool)

  // ---------------------------------------------------------------- the operations as functions

  ghost function SomeDim(m: Vectors): nat {
    if exists i :: i in m then var i :| i in m; |m[i]| else 0
  }

  function OfDim(m: Vectors, d: nat): Vectors {
    map i | i in m && |m[i]| == d :: m[i]
  }

  ghost function Dimmed(s: Index): Index {
    if s.cachedDim.Some? then s else s.(cachedDim := Some(SomeDim(s.vecs)))
  }

  function Invalidated(s: Index): Index {
    s.(cachedDim := None, knn := Unset, probed := false)
  }

  /** Builds the neighbour table once; a failed attempt leaves some table behind, unused. */
  ghost function Ensured(s: Index, available: bool, built: bool, left: Option<KnnTable>): Index {
    if s.probed then s
    else
      var t := Dimmed(s).(probed := true);
      var d := t.cachedDim.value;
      if d == 0 || !available then t.(knn := Unavailable)
      else if built then t.(knn := Built, table := Some(KnnTable(d, OfDim(t.vecs, d))))
      else t.(knn := Unavailable, table := left)
  }

  function Wiped(s: Index, o: Outcome): Index {
    Invalidated(s.(
      vecs := if o.deleted then map[] else s.vecs,
      table := if o.deleted && s.knn.Built? && o.dropped then None else s.table))
  }

  function Inserted(s: Index, id: DocId, v: Vec, indexed: bool): Index {
    var t := s.(vecs := s.vecs[id := v], cachedDim := Some(|v|));
    if !(t.probed && t.knn.Built? && t.table.Some?) then t
    else if indexed then t.(table := Some(t.table.value.(rows := t.table.value.rows[id := v])))
    else t.(knn := Unavailable, probed := false)
  }

  /** The dimension changed: the old vectors mean nothing any more. */
  predicate Switches(s: Index, v: Vec)
    requires s.cachedDim.Some?
  {
    s.cachedDim.value > 0 && |v| != s.cachedDim.value
  }

  ghost function Stored(s: Index, id: DocId, v: Vec, o: Outcome): Index {
    if v == [] then s
    else
      var t := Dimmed(s);
      var u := if Switches(t, v) then Wiped(t, o) else t;
      if o.inserted then Inserted(u, id, v, o.indexed) else u
  }

  function Removed(s: Index, id: DocId, o: Outcome): Index {
    if !o.deleted then s
    else
      var t := s.(vecs := s.vecs - {id});
      if t.knn.Built? && t.table.Some? && o.dropped
      then t.(table := Some(t.table.value.(rows := t.table.value.rows - {id})))
      else t
  }

  function QueryFailed(s: Index): Index {
    s.(knn := Unavailable, probed := false)
  }

  // ---------------------------------------------------------------- agreement

  ghost predicate OneDim(m: Vectors) {
    && (forall i | i in m :: m[i] != [])
    && (forall i, j | i in m && j in m :: |m[i]| == |m[j]|)
  }

  ghost predicate AllOfDim(m: Vectors, d: nat) {
    forall i | i in m :: |m[i]| == d
  }

  /** One dimension, equal to the cached one; a table in use holds exactly the stored vectors. */
  ghost predicate Agrees(s: Index) {
    && OneDim(s.vecs)
    && (s.cachedDim.Some? ==> AllOfDim(s.vecs, s.cachedDim.value))
    && (s.knn.Built? ==>
          && s.probed && s.cachedDim.Some? && s.cachedDim.value > 0
          && s.table == Some(KnnTable(s.cachedDim.value, s.vecs)))
  }

  /** What a search ranks: the neighbour table if it is in use, else the stored rows of the cached dimension. */
  function Searched(s: Index): Vectors
    requires s.cachedDim.Some? && (s.knn.Built? ==> s.table.Some?)
  {
    if s.knn.Built? then s.table.value.rows else OfDim(s.vecs, s.cachedDim.value)
  }

  lemma AllKept(m: Vectors, d: nat)
    requires AllOfDim(m, d)
    ensures OfDim(m, d) == m
  {
    forall i | i in m ensures i in OfDim(m, d) {
      assert |m[i]| == d;
    }
    assert forall i :: i in OfDim(m, d) <==> i in m;
  }

  lemma DimmedAgrees(s: Index)
    requires Agrees(s)
    ensures Agrees(Dimmed(s)) && Dimmed(s).vecs == s.vecs && Dimmed(s).cachedDim.Some?
    ensures Dimmed(s).cachedDim == Some(0) ==> s.vecs == map[]
  {
    var d := Dimmed(s).cachedDim.value;
    forall i | i in s.vecs ensures d != 0 {
      assert s.vecs[i] != [] && |s.vecs[i]| == d;
    }
  }

  /** Whatever comes of building the neighbour table, a search then ranks exactly the stored vectors. */
  lemma SearchSeesEverything(s: Index, available: bool, built: bool, left: Option<KnnTable>)
    requires Agrees(s)
    ensures var t := Ensured(Dimmed(s), available, built, left);
      Agrees(t) && t.vecs == s.vecs && t.cachedDim.Some? && Searched(t) == s.vecs
  {
    DimmedAgrees(s);
    AllKept(s.vecs, Dimmed(s).cachedDim.value);
  }

  lemma EnsuredAgrees(s: Index, available: bool, built: bool, left: Option<KnnTable>)
    requires Agrees(s)
    ensures Agrees(Ensured(s, available, built, left)) && Ensured(s, available, built, left).vecs == s.vecs
  {
    DimmedAgrees(s);
    AllKept(s.vecs, Dimmed(s).cachedDim.value);
  }

  /** A store breaks the agreement exactly when a new dimension meets old vectors that could not be deleted. */
  lemma StoreAgrees(s: Index, id: DocId, v: Vec, o: Outcome)
    requires Agrees(s)
    ensures Agrees(Stored(s, id, v, o)) <==> !StoreMixes(s.vecs, id, v, o)
  {
    if v != [] {
      DimmedAgrees(s);
      var t := Dimmed(s);
      var u := if Switches(t, v) then Wiped(t, o) else t;
      if o.inserted {
        InsertAgrees(u, id, v, o.indexed);
      }
    }
  }

  ghost predicate StoreMixes(m: Vectors, id: DocId, v: Vec, o: Outcome) {
    v != [] && o.inserted && !o.deleted && exists i :: i in m && i != id && |m[i]| != |v|
  }

  lemma InsertAgrees(s: Index, id: DocId, v: Vec, indexed: bool)
    requires v != [] && OneDim(s.vecs)
    requires s.knn.Built? ==> Agrees(s) && s.cachedDim == Some(|v|)
    ensures Agrees(Inserted(s, id, v, indexed)) <==> forall i | i in s.vecs && i != id :: |s.vecs[i]| == |v|
  {
    var m := s.vecs[id := v];
    assert m[id] == v;
    if forall i | i in s.vecs && i != id :: |s.vecs[i]| == |v| {
      assert AllOfDim(m, |v|);
    } else {
      var i :| i in s.vecs && i != id && |s.vecs[i]| != |v|;
      assert m[i] == s.vecs[i];
    }
  }

  /** A removal breaks it exactly when a row stays behind in a table in use. */
  lemma RemoveAgrees(s: Index, id: DocId, o: Outcome)
    requires Agrees(s)
    ensures Agrees(Removed(s, id, o)) <==> !RemoveStrands(s, id, o)
  {
    if RemoveStrands(s, id, o) {
      assert id in s.table.value.rows && id !in Removed(s, id, o).vecs;
    } else if id !in s.vecs {
      assert s.vecs - {id} == s.vecs;
    }
  }

  ghost predicate RemoveStrands(s: Index, id: DocId, o: Outcome) {
    o.deleted && !o.dropped && s.knn.Built? && id in s.vecs
  }

  // ---------------------------------------------------------------- histories

  datatype Op =
    | Store(id: DocId, vec: Vec, outcome: Outcome)
    | Remove(id: DocId, outcome: Outcome)
    | Probe(available: bool, built: bool, left: Option<KnnTable>)
    | FailQuery
    | Wipe(outcome: Outcome)
    | Restart

  ghost function Step(s: Index, op: Op): Index {
    match op
    case Store(id, vec, o) => Stored(s, id, vec, o)
    case Remove(id, o) => Removed(s, id, o)
    case Probe(available, built, left) => Ensured(s, available, built, left)
    case FailQuery => QueryFailed(s)
    case Wipe(o) => Wiped(s, o)
    case Restart => Invalidated(s)
  }

  ghost function Run(s: Index, ops: seq<Op>): Index
    decreases |ops|
  {
    if ops == [] then s else Run(Step(s, ops[0]), ops[1..])
  }

  /** The same operations on a plain map of vectors, without dimension cache or neighbour table. */
  ghost function PlainStep(m: Vectors, op: Op): Vectors {
    match op
    case Store(id, v, o) =>
      if v == [] then m
      else
        var kept := if o.deleted && !AllOfDim(m, |v|) then map[] else m;
        if o.inserted then kept[id := v] else kept
    case Remove(id, o) => if o.deleted then m - {id} else m
    case Wipe(o) => if o.deleted then map[] else m
    case _ => m
  }

  ghost function PlainRun(m: Vectors, ops: seq<Op>): Vectors
    decreases |ops|
  {
    if ops == [] then m else PlainRun(PlainStep(m, ops[0]), ops[1..])
  }

  ghost predicate Harmful(s: Index, op: Op) {
    match op
    case Store(id, v, o) => StoreMixes(s.vecs, id, v, o)
    case Remove(id, o) => RemoveStrands(s, id, o)
    case _ => false
  }

  /** A step keeps the agreement exactly when it is not one of the two harmful ones, and acts as on the plain map. */
  lemma StepAgrees(s: Index, op: Op)
    requires Agrees(s)
    ensures Agrees(Step(s, op)) <==> !Harmful(s, op)
    ensures Step(s, op).vecs == PlainStep(s.vecs, op)
  {
    match op
    case Store(id, v, o) =>
      StoreAgrees(s, id, v, o);
      DimmedAgrees(s);
      StoreIsPlain(s, id, v, o);
    case Remove(id, o) => RemoveAgrees(s, id, o);
    case Probe(available, built, left) => EnsuredAgrees(s, available, built, left);
    case _ =>
  }

  lemma StoreIsPlain(s: Index, id: DocId, v: Vec, o: Outcome)
    requires Agrees(s)
    ensures Stored(s, id, v, o).vecs == PlainStep(s.vecs, Store(id, v, o))
  {
    DimmedAgrees(s);
    var t := Dimmed(s);
    if v != [] {
      if Switches(t, v) {
        forall i | i in s.vecs ensures !AllOfDim(s.vecs, |v|) {
          assert |s.vecs[i]| == t.cachedDim.value;
        }
        assert AllOfDim(s.vecs, |v|) ==> s.vecs == map[];
      } else {
        assert AllOfDim(s.vecs, |v|);
      }
    }
  }

  /** No step of the run is harmful where it happens. */
  ghost predicate Harmless(s: Index, ops: seq<Op>)
    decreases |ops|
  {
    ops == [] || (!Harmful(s, ops[0]) && Harmless(Step(s, ops[0]), ops[1..]))
  }

  /** Over whole histories the agreement holds and the index is the plain map of vectors, whatever the caches do. */
  lemma {:induction false} EveryHistory(s: Index, ops: seq<Op>)
    requires Agrees(s) && Harmless(s, ops)
    ensures Agrees(Run(s, ops)) && Run(s, ops).vecs == PlainRun(s.vecs, ops)
    decreases |ops|
  {
    if ops != [] {
      StepAgrees(s, ops[0]);
      EveryHistory(Step(s, ops[0]), ops[1..]);
    }
  }

  /** Every state of a history agrees exactly if no step of it is harmful where it happens. */
  lemma {:induction false} HarmlessExactly(s: Index, ops: seq<Op>)
    requires Agrees(s)
    ensures (forall k | 0 <= k <= |ops| :: Agrees(Run(s, ops[..k]))) <==> Harmless(s, ops)
    decreases |ops|
  {
    hide Agrees, Harmful, Step;
    if ops == [] {
      assert forall k | 0 <= k <= |ops| :: ops[..k] == [];
    } else {
      var t, rest := Step(s, ops[0]), ops[1..];
      StepAgrees(s, ops[0]);
      forall k | 0 <= k < |ops| ensures Run(s, ops[..k + 1]) == Run(t, rest[..k]) {
        assert ops[..k + 1][1..] == rest[..k];
      }
      assert ops[..0] == [] && rest[..0] == [];
      if Agrees(t) {
        HarmlessExactly(t, rest);
        forall k | 0 <= k <= |ops| ensures Agrees(Run(s, ops[..k])) <==> k == 0 || Agrees(Run(t, rest[..k - 1])) {
          if k > 0 {
            assert Run(s, ops[..(k - 1) + 1]) == Run(t, rest[..k - 1]);
          }
        }
        if forall k | 0 <= k <= |ops| :: Agrees(Run(s, ops[..k])) {
          forall k | 0 <= k <= |rest| ensures Agrees(Run(t, rest[..k])) {
            assert Agrees(Run(s, ops[..k + 1]));
          }
        }
      } else {
        assert Run(s, ops[..1]) == Run(t, rest[..0]) == t;
      }
    }
  }

  /** Statements on the two tables succeed; copying into the neighbour table and building it may still fail. */
  predicate Succeeds(op: Op) {
    match op
    case Store(_, _, o) => o.deleted
    case Remove(_, o) => o.dropped
    case _ => true
  }

  lemma {:induction false} SuccessIsHarmless(s: Index, ops: seq<Op>)
    requires forall k | 0 <= k < |ops| :: Succeeds(ops[k])
    ensures Harmless(s, ops)
    decreases |ops|
  {
    if ops != [] {
      assert Succeeds(ops[0]);
      SuccessIsHarmless(Step(s, ops[0]), ops[1..]);
    }
  }

  /** The dimension a probe will see: the cached one, or that of a stored row. */
  predicate NoDimension(s: Index) {
    if s.cachedDim.Some? then s.cachedDim.value == 0 else s.vecs == map[]
  }

  /** A first probe brings the neighbour table into use exactly if it can be built and there is a dimension. */
  lemma ProbeDecides(s: Index, available: bool, built: bool, left: Option<KnnTable>)
    requires Agrees(s) && !s.probed
    ensures Ensured(s, available, built, left).knn.Built? <==> available && built && !NoDimension(s)
    ensures Ensured(s, available, built, left).knn.Built? || Ensured(s, available, built, left).knn.Unavailable?
  {
    DimmedAgrees(s);
    if s.cachedDim.None? && s.vecs != map[] {
      var i :| i in s.vecs;
      assert |s.vecs[i]| == Dimmed(s).cachedDim.value && s.vecs[i] != [];
    }
  }

  /** Probes, removals and stores of one dimension. */
  predicate KeepsDimension(op: Op, d: nat) {
    op.Probe? || op.Remove? || (op.Store? && |op.vec| == d)
  }

  /** Probing an empty vector table rules the neighbour table out for good: stores of one dimension do not bring
      it back. */
  lemma EmptyProbeSticks(s: Index, probe: Op, ops: seq<Op>, d: nat)
    requires Agrees(s) && !s.probed && NoDimension(s) && probe.Probe?
    requires forall k | 0 <= k < |ops| :: KeepsDimension(ops[k], d)
    ensures Run(s, [probe] + ops).knn.Unavailable?
  {
    ProbeDecides(s, probe.available, probe.built, probe.left);
    DimmedAgrees(s);
    EmptyDimension(s);
    assert ([probe] + ops)[1..] == ops;
    StaysUnavailable(Step(s, probe), ops, d);
  }

  lemma EmptyDimension(s: Index)
    requires NoDimension(s)
    ensures Dimmed(s).cachedDim == Some(0)
  {
  }

  lemma {:induction false} StaysUnavailable(s: Index, ops: seq<Op>, d: nat)
    requires s.probed && s.knn.Unavailable? && s.cachedDim.Some? && (s.cachedDim.value == 0 || s.cachedDim.value == d)
    requires forall k | 0 <= k < |ops| :: KeepsDimension(ops[k], d)
    ensures Run(s, ops).knn.Unavailable?
    decreases |ops|
  {
    if ops != [] {
      assert KeepsDimension(ops[0], d);
      StaysUnavailable(Step(s, ops[0]), ops[1..], d);
    }
  }

  // ---------------------------------------------------------------- rebuilding

  datatype Embedded = Embedded(id: DocId, vec: Vec, outcome: Outcome)

  /** Rebuilding wipes, then stores every document's embedding. */
  function Stores(rows: seq<Embedded>): (ops: seq<Op>)
    ensures |ops| == |rows| && forall k | 0 <= k < |rows| :: ops[k] == Store(rows[k].id, rows[k].vec, rows[k].outcome)
  {
    if rows == [] then []
    else
      var last := rows[|rows| - 1];
      Stores(rows[..|rows| - 1]) + [Store(last.id, last.vec, last.outcome)]
  }

  function Reindex(o: Outcome, rows: seq<Embedded>): seq<Op> {
    [Wipe(o)] + Stores(rows)
  }

  /** The documents that could be embedded, the later of two with one id. */
  function Embeddings(rows: seq<Embedded>): Vectors {
    if rows == [] then map[]
    else
      var last := rows[|rows| - 1];
      var before := Embeddings(rows[..|rows| - 1]);
      if last.vec == [] then before else before[last.id := last.vec]
  }

  function StoredCount(rows: seq<Embedded>): nat {
    if rows == [] then 0
    else
      var last := rows[|rows| - 1];
      StoredCount(rows[..|rows| - 1]) + if last.vec != [] && last.outcome.inserted then 1 else 0
  }

  lemma {:induction false} PlainAppends(m: Vectors, a: seq<Op>, op: Op)
    ensures PlainRun(m, a + [op]) == PlainStep(PlainRun(m, a), op)
    decreases |a|
  {
    if a == [] {
      assert (a + [op])[1..] == [];
    } else {
      assert (a + [op])[1..] == a[1..] + [op];
      PlainAppends(PlainStep(m, a[0]), a[1..], op);
    }
  }

  lemma NothingStored(rows: seq<Embedded>)
    ensures StoredCount(rows[..0]) == 0
  {
  }

  lemma CountOneMore(rows: seq<Embedded>, i: nat)
    requires i < |rows|
    ensures StoredCount(rows[..i + 1]) ==
      StoredCount(rows[..i]) + if rows[i].vec != [] && rows[i].outcome.inserted then 1 else 0
  {
    assert rows[..i + 1][..i] == rows[..i];
  }

  lemma NextStore(s: Index, rows: seq<Embedded>, i: nat)
    requires i < |rows| && Agrees(s) && Harmless(s, Stores(rows)[i..])
    ensures var t := Stored(s, rows[i].id, rows[i].vec, rows[i].outcome);
      && Run(s, Stores(rows)[i..]) == Run(t, Stores(rows)[i + 1..])
      && Agrees(t) && Harmless(t, Stores(rows)[i + 1..])
  {
    var rest := Stores(rows)[i..];
    assert rest[0] == Store(rows[i].id, rows[i].vec, rows[i].outcome) && rest[1..] == Stores(rows)[i + 1..];
    StepAgrees(s, rest[0]);
  }

  /** An embedder of one dimension rebuilds exactly the vectors of the documents it can embed. */
  lemma {:induction false} RebuildStores(rows: seq<Embedded>, d: nat)
    requires forall k | 0 <= k < |rows| :: rows[k].outcome.inserted
    requires forall k | 0 <= k < |rows| :: rows[k].vec == [] || |rows[k].vec| == d
    ensures PlainRun(map[], Stores(rows)) == Embeddings(rows) && AllOfDim(Embeddings(rows), d)
    decreases |rows|
  {
    if rows != [] {
      var n := |rows| - 1;
      var front, last := rows[..n], rows[n];
      RebuildStores(front, d);
      var op := Store(last.id, last.vec, last.outcome);
      PlainAppends(map[], Stores(front), op);
    }
  }

  lemma RebuildIsExact(s: Index, o: Outcome, rows: seq<Embedded>, d: nat)
    requires Agrees(s) && o.deleted
    requires forall k | 0 <= k < |rows| :: rows[k].outcome.inserted && rows[k].outcome.deleted
    requires forall k | 0 <= k < |rows| :: rows[k].vec == [] || |rows[k].vec| == d
    ensures Agrees(Run(s, Reindex(o, rows))) && Run(s, Reindex(o, rows)).vecs == Embeddings(rows)
  {
    var ops := Reindex(o, rows);
    assert ops[0] == Wipe(o) && ops[1..] == Stores(rows);
    forall k | 0 <= k < |ops| ensures Succeeds(ops[k]) {
      if k > 0 {
        assert ops[k] == Stores(rows)[k - 1];
      }
    }
    SuccessIsHarmless(s, ops);
    EveryHistory(s, ops);
    RebuildStores(rows, d);
  }

  // ---------------------------------------------------------------- the retriever object

  class HybridRetriever {
    var vecs: Vectors
    var cachedDim: Option<nat>
    var knn: KnnName
    var probed: bool
    var table: Option<KnnTable>

    ghost function State(): Index
      reads this
    {
      Index(vecs, cachedDim, knn, probed, table)
    }

    /** A new retriever over tables that another one may have left. */
    constructor (vecs: Vectors, table: Option<KnnTable>)
      ensures State() == Index(vecs, None, Unset, false, table)
    {
      this.vecs, this.table := vecs, table;
      cachedDim, knn, probed := None, Unset, false;
    }

    /** The dimension of some stored row, cached. */
    method Dim() returns (d: nat)
      requires OneDim(vecs)
      modifies `cachedDim
      ensures State() == Dimmed(old(State())) && cachedDim == Some(d)
    {
      if cachedDim.None? {
        if i :| i in vecs {
          cachedDim := Some(|vecs[i]|);
        } else {
          cachedDim := Some(0);
        }
      }
      d := cachedDim.value;
    }

    method InvalidateIndex()
      modifies `cachedDim, `knn, `probed
      ensures State() == Invalidated(old(State()))
    {
      cachedDim, knn, probed := None, Unset, false;
    }

    method EnsureKnn(available: bool, built: bool, left: Option<KnnTable>) returns (usable: bool)
      requires OneDim(vecs)
      modifies this
      ensures State() == Ensured(old(State()), available, built, left) && usable == knn.Built?
    {
      if probed {
        return knn.Built?;
      }
      probed := true;
      var d := Dim();
      if d == 0 || !available {
        knn := Unavailable;
        return false;
      }
      if built {
        table := Some(KnnTable(d, OfDim(vecs, d)));
        knn := Built;
        return true;
      }
      table := left;
      knn := Unavailable;
      usable := false;
    }

    /** Deletes every vector and the neighbour table; a failing statement skips the rest, unreported. */
    method WipeVectors(o: Outcome)
      modifies this
      ensures State() == Wiped(old(State()), o)
    {
      if o.deleted {
        vecs := map[];
        if knn.Built? && o.dropped {
          table := None;
        }
      }
      InvalidateIndex();
    }

    method StoreVector(id: DocId, v: Vec, o: Outcome) returns (stored: bool)
      requires Agrees(State())
      modifies this
      ensures State() == Stored(old(State()), id, v, o)
      ensures stored == (v != [] && o.inserted)
    {
      if v == [] {
        return false;
      }
      var d := Dim();
      if d > 0 && |v| != d {
        WipeVectors(o);
      }
      if !o.inserted {
        return false;
      }
      vecs := vecs[id := v];
      cachedDim := Some(|v|);
      if probed && knn.Built? {
        if o.indexed {
          table := Some(table.value.(rows := table.value.rows[id := v]));
        } else {
          knn, probed := Unavailable, false;
        }
      }
      stored := true;
    }

    method DeleteVector(id: DocId, o: Outcome)
      requires Agrees(State())
      modifies this
      ensures State() == Removed(old(State()), id, o)
    {
      if o.deleted {
        vecs := vecs - {id};
        if knn.Built? && o.dropped {
          table := Some(table.value.(rows := table.value.rows - {id}));
        }
      }
    }

    /** Wipes and stores every embedding again, counting the rows stored. */
    method ReindexAll(o: Outcome, rows: seq<Embedded>) returns (done: nat)
      requires Agrees(State()) && Harmless(State(), Reindex(o, rows))
      modifies this
      ensures State() == Run(old(State()), Reindex(o, rows)) && Agrees(State())
      ensures done == StoredCount(rows)
    {
      hide Agrees, Stored, Stores, StoredCount;
      ghost var before := State();
      ghost var ops := Reindex(o, rows);
      assert ops[0] == Wipe(o) && ops[1..] == Stores(rows)[0..];
      StepAgrees(before, Wipe(o));
      NothingStored(rows);
      WipeVectors(o);
      done := 0;
      for i := 0 to |rows|
        invariant Agrees(State()) && Harmless(State(), Stores(rows)[i..])
        invariant Run(State(), Stores(rows)[i..]) == Run(before, ops)
        invariant done == StoredCount(rows[..i])
      {
        NextStore(State(), rows, i);
        var stored := StoreVector(rows[i].id, rows[i].vec, rows[i].outcome);
        CountOneMore(rows, i);
        if stored {
          done := done + 1;
        }
      }
      TakeAll(rows);
    }
  }
}
