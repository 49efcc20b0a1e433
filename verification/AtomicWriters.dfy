/**
 Several writers of one file at once: each prepares a sibling of its own and renames it over
 the target, their steps interleave in any order, and the power may fail at any point.
 */
module AtomicWriters {
  import opened Sequences
  import opened AtomicWrite

  type Writer = int

  /** A sibling is ready when it holds all the data and is synced. */
  datatype Phase = Preparing(tmp: Name, inode: Inode, data: Bytes, ready: bool) | Replaced(tmp: Name)

  datatype System = System(disk: Disk, writers: map<Writer, Phase>)

  datatype Step =
    | Begin(w: Writer, tmp: Name, inode: Inode, data: Bytes)
    | Fill(w: Writer, bytes: Bytes)
    | SyncFile(w: Writer)
    | Replace(w: Writer, data: Bytes)
    | SyncDir(w: Writer, synced: bool)
    | Abandon(w: Writer, unlinked: bool)
    | PowerLoss(left: Disk)

  predicate Prepares(s: System, w: Writer) {
    && w in s.writers && s.writers[w].Preparing?
    && s.writers[w].tmp in s.disk.entries && s.writers[w].inode in s.disk.files
  }

  /** New siblings have new names: none that is in use, by a file or by a writer. */
  ghost predicate Enabled(s: System, step: Step, target: Name) {
    match step
    case Begin(w, tmp, inode, _) =>
      && w !in s.writers && tmp != target && tmp !in s.disk.entries && inode !in s.disk.files
      && forall v | v in s.writers :: s.writers[v].tmp != tmp
    case Fill(w, _) => Prepares(s, w) && !s.writers[w].ready
    case SyncFile(w) =>
      Prepares(s, w) && !s.writers[w].ready && s.disk.files[s.writers[w].inode].bytes == s.writers[w].data
    case Replace(w, data) => Prepares(s, w) && s.writers[w].ready && s.writers[w].data == data
    case SyncDir(w, _) => w in s.writers && s.writers[w].Replaced?
    case Abandon(w, _) => w in s.writers
    case PowerLoss(left) => AfterCrash(s.disk, left)
  }

  ghost function Next(s: System, step: Step, target: Name): System
    requires Enabled(s, step, target)
  {
    match step
    case Begin(w, tmp, inode, data) =>
      System(Created(s.disk, tmp, inode), s.writers[w := Preparing(tmp, inode, data, false)])
    case Fill(w, bytes) => s.(disk := Written(s.disk, s.writers[w].inode, bytes))
    case SyncFile(w) =>
      System(FileSynced(s.disk, s.writers[w].inode), s.writers[w := s.writers[w].(ready := true)])
    case Replace(w, _) =>
      System(Renamed(s.disk, s.writers[w].tmp, target), s.writers[w := Replaced(s.writers[w].tmp)])
    case SyncDir(w, synced) => System(if synced then DirSynced(s.disk) else s.disk, s.writers - {w})
    case Abandon(w, unlinked) =>
      var tmp := s.writers[w].tmp;
      System(if unlinked && tmp in s.disk.entries then WithEntry(s.disk, tmp, None) else s.disk, s.writers - {w})
    case PowerLoss(left) => System(left, map[])
  }

  // ---------------------------------------------------------------- what every state satisfies

  /** A sibling in preparation is under its name, and nothing that the target could be. */
  ghost predicate Aside(s: System, w: Writer, target: Name)
    requires w in s.writers && s.writers[w].Preparing?
  {
    var p := s.writers[w];
    && p.tmp in s.disk.entries && s.disk.entries[p.tmp] == p.inode && p.inode in s.disk.files
    && Some(p.inode) !in Possible(s.disk, target)
    && (p.ready ==> s.disk.files[p.inode] == File(p.data, true))
  }

  ghost predicate Apart(s: System, v: Writer, w: Writer)
    requires v in s.writers && w in s.writers
  {
    && s.writers[v].tmp != s.writers[w].tmp
    && (s.writers[v].Preparing? && s.writers[w].Preparing? ==> s.writers[v].inode != s.writers[w].inode)
  }

  ghost predicate Sound(s: System, target: Name) {
    && WellFormed(s.disk)
    && (forall w | w in s.writers :: s.writers[w].tmp != target)
    && (forall w | w in s.writers && s.writers[w].Preparing? :: Aside(s, w, target))
    && (forall v, w | v in s.writers && w in s.writers && v != w :: Apart(s, v, w))
  }

  /** Readers see this document, and it is synced. */
  ghost predicate Holds(d: Disk, target: Name, data: Bytes) {
    target in d.entries && d.entries[target] in d.files && d.files[d.entries[target]] == File(data, true)
  }

  lemma BeginKeeps(s: System, step: Step, target: Name)
    requires Sound(s, target) && step.Begin? && Enabled(s, step, target)
    ensures Sound(Next(s, step, target), target)
  {
    var t := Next(s, step, target);
    assert Some(step.inode) !in Possible(s.disk, target);
    forall w | w in t.writers && t.writers[w].Preparing? ensures Aside(t, w, target) {
      if w != step.w {
        assert Aside(s, w, target);
      }
    }
    forall v, w | v in t.writers && w in t.writers && v != w ensures Apart(t, v, w) {
      if v != step.w && w != step.w {
        assert Apart(s, v, w);
      } else {
        var other := if v == step.w then w else v;
        assert s.writers[other].Preparing? ==> Aside(s, other, target);
      }
    }
  }

  /** Filling and syncing touch the writer's own file only. */
  lemma FileKeeps(s: System, step: Step, target: Name)
    requires Sound(s, target) && (step.Fill? || step.SyncFile?) && Enabled(s, step, target)
    ensures Sound(Next(s, step, target), target)
  {
    var t := Next(s, step, target);
    assert Aside(s, step.w, target);
    forall w | w in t.writers && t.writers[w].Preparing? ensures Aside(t, w, target) {
      assert Aside(s, w, target);
      if w != step.w {
        assert Apart(s, w, step.w);
      }
    }
    forall v, w | v in t.writers && w in t.writers && v != w ensures Apart(t, v, w) {
      assert Apart(s, v, w);
    }
  }

  lemma ReplaceKeeps(s: System, step: Step, target: Name)
    requires Sound(s, target) && step.Replace? && Enabled(s, step, target)
    ensures Sound(Next(s, step, target), target) && Holds(Next(s, step, target).disk, target, step.data)
  {
    var t := Next(s, step, target);
    assert Aside(s, step.w, target);
    RenamedFormed(s.disk, s.writers[step.w].tmp, target);
    forall w | w in t.writers && t.writers[w].Preparing? ensures Aside(t, w, target) {
      assert Aside(s, w, target) && Apart(s, w, step.w);
    }
    forall v, w | v in t.writers && w in t.writers && v != w ensures Apart(t, v, w) {
      assert Apart(s, v, w);
    }
  }

  /** A writer that leaves, and what it syncs or unlinks on the way. */
  lemma LeaveKeeps(s: System, step: Step, target: Name)
    requires Sound(s, target) && (step.SyncDir? || step.Abandon?) && Enabled(s, step, target)
    ensures Sound(Next(s, step, target), target)
  {
    var t := Next(s, step, target);
    forall w | w in t.writers && t.writers[w].Preparing? ensures Aside(t, w, target) {
      assert Aside(s, w, target) && Apart(s, w, step.w);
      assert Entry(s.disk, target) in Possible(s.disk, target);
    }
    forall v, w | v in t.writers && w in t.writers && v != w ensures Apart(t, v, w) {
      assert Apart(s, v, w);
    }
  }

  lemma StepKeeps(s: System, step: Step, target: Name)
    requires Sound(s, target) && Enabled(s, step, target)
    ensures Sound(Next(s, step, target), target)
  {
    hide Sound, Next, Enabled;
    match step
    case Begin(_, _, _, _) => BeginKeeps(s, step, target);
    case Fill(_, _) => FileKeeps(s, step, target);
    case SyncFile(_) => FileKeeps(s, step, target);
    case Replace(_, _) => ReplaceKeeps(s, step, target);
    case SyncDir(_, _) => LeaveKeeps(s, step, target);
    case Abandon(_, _) => LeaveKeeps(s, step, target);
    case PowerLoss(_) => LossKeeps(s, step, target);
  }

  lemma LossKeeps(s: System, step: Step, target: Name)
    requires step.PowerLoss? && Enabled(s, step, target)
    ensures Sound(Next(s, step, target), target)
  {
  }

  // ---------------------------------------------------------------- what a step offers

  /** What can be found after a step could be found before, or was renamed there, or is what readers saw. */
  lemma StepOffers(s: System, step: Step, target: Name, c: Option<Bytes>)
    requires Sound(s, target) && Enabled(s, step, target) && MayFind(Next(s, step, target).disk, target, c)
    ensures MayFind(s.disk, target, c) || (step.Replace? && c == Some(step.data))
    ensures step.SyncDir? && step.synced ==> MayHold(s.disk, Entry(s.disk, target), c)
  {
    hide Sound, MayFind;
    match step
    case Replace(w, data) =>
      PhaseOf(s, w, target);
      RenameOffers(s.disk, s.writers[w].tmp, target, c);
    case SyncDir(_, _) =>
      FormedDisk(s, target);
      DirSyncSettles(s.disk, target);
    case PowerLoss(left) => CrashSettles(s.disk, left, target, c);
    case _ => AsideOffers(s, step, target, c);
  }

  lemma PhaseOf(s: System, w: Writer, target: Name)
    requires Sound(s, target) && w in s.writers
    ensures WellFormed(s.disk) && s.writers[w].tmp != target && (s.writers[w].Preparing? ==> Aside(s, w, target))
  {
  }

  lemma FormedDisk(s: System, target: Name)
    requires Sound(s, target)
    ensures WellFormed(s.disk)
  {
  }

  lemma AsideOffers(s: System, step: Step, target: Name, c: Option<Bytes>)
    requires Sound(s, target) && Enabled(s, step, target)
    requires step.Begin? || step.Fill? || step.SyncFile? || step.Abandon?
    requires MayFind(Next(s, step, target).disk, target, c)
    ensures MayFind(s.disk, target, c)
  {
    var d, d' := s.disk, Next(s, step, target).disk;
    if !step.Begin? {
      PhaseOf(s, step.w, target);
    }
    assert Possible(d', target) == Possible(d, target);
    var entry :| entry in Possible(d', target) && MayHold(d', entry, c);
    assert MayHold(d, entry, c);
  }

  // ---------------------------------------------------------------- runs

  ghost predicate Legal(s: System, steps: seq<Step>, target: Name)
    decreases |steps|, 0
  {
    steps == [] ||
    (Legal(s, steps[..|steps| - 1], target)
      && Enabled(Run(s, steps[..|steps| - 1], target), steps[|steps| - 1], target))
  }

  ghost function Run(s: System, steps: seq<Step>, target: Name): System
    requires Legal(s, steps, target)
    decreases |steps|, 1
  {
    if steps == [] then s
    else Next(Run(s, steps[..|steps| - 1], target), steps[|steps| - 1], target)
  }

  lemma {:induction false} RunSound(s: System, steps: seq<Step>, target: Name)
    requires Sound(s, target) && Legal(s, steps, target)
    ensures Sound(Run(s, steps, target), target)
  {
    if steps != [] {
      RunSound(s, steps[..|steps| - 1], target);
      StepKeeps(Run(s, steps[..|steps| - 1], target), steps[|steps| - 1], target);
    }
  }

  lemma QuietSound(s: System, target: Name)
    requires WellFormed(s.disk) && s.writers == map[]
    ensures Sound(s, target)
  {
  }

  /** The document that was renamed last. */
  ghost function Latest(steps: seq<Step>): Option<Bytes> {
    if steps == [] then None
    else if steps[|steps| - 1].Replace? then Some(steps[|steps| - 1].data)
    else Latest(steps[..|steps| - 1])
  }

  ghost predicate SomeReplaced(s: System) {
    exists w :: w in s.writers && s.writers[w].Replaced?
  }

  /** As long as a writer has yet to sync the directory, readers see what was renamed last. */
  ghost predicate SeesLatest(s: System, steps: seq<Step>, target: Name) {
    SomeReplaced(s) ==> Latest(steps).Some? && Holds(s.disk, target, Latest(steps).value)
  }

  lemma StepHolds(s: System, step: Step, target: Name, data: Bytes)
    requires Sound(s, target) && Enabled(s, step, target) && Holds(s.disk, target, data)
    requires !step.Replace? && !step.PowerLoss?
    ensures Holds(Next(s, step, target).disk, target, data)
  {
    if step.Begin? {
      assert WellFormed(s.disk);
    } else {
      PhaseOf(s, step.w, target);
      assert Entry(s.disk, target) in Possible(s.disk, target);
    }
  }

  lemma {:induction false} RunSeesLatest(s: System, steps: seq<Step>, target: Name)
    requires WellFormed(s.disk) && s.writers == map[] && Legal(s, steps, target)
    ensures SeesLatest(Run(s, steps, target), steps, target)
  {
    hide Sound, Enabled, Holds;
    if steps != [] {
      var front, step := steps[..|steps| - 1], steps[|steps| - 1];
      var before := Run(s, front, target);
      QuietSound(s, target);
      RunSound(s, front, target);
      RunSeesLatest(s, front, target);
      if step.Replace? {
        ReplaceKeeps(before, step, target);
      } else if SomeReplaced(Run(s, steps, target)) {
        StillReplaced(before, step, target);
        StepHolds(before, step, target, Latest(front).value);
      }
    }
  }

  lemma StillReplaced(s: System, step: Step, target: Name)
    requires Enabled(s, step, target) && !step.Replace? && SomeReplaced(Next(s, step, target))
    ensures SomeReplaced(s) && !step.PowerLoss?
  {
    var t := Next(s, step, target);
    var w :| w in t.writers && t.writers[w].Replaced?;
    assert w in s.writers && s.writers[w].Replaced?;
  }

  /** The documents that can be there: those renamed since the directory was last synced, and the one seen then. */
  ghost predicate Explained(steps: seq<Step>, first: Disk, target: Name, c: Option<Bytes>) {
    if steps == [] then MayFind(first, target, c)
    else
      var front := steps[..|steps| - 1];
      match steps[|steps| - 1]
      case Replace(_, data) => c == Some(data) || Explained(front, first, target, c)
      case SyncDir(_, true) => c == Latest(front)
      case _ => Explained(front, first, target, c)
  }

  /** However many writers interleave and whenever the power fails, no reader and no crash finds anything but a
      complete document, renamed since the directory was last synced or the latest one then. */
  lemma {:induction false} NeverTornByMany(s: System, steps: seq<Step>, target: Name, c: Option<Bytes>)
    requires WellFormed(s.disk) && s.writers == map[] && Legal(s, steps, target)
    requires MayFind(Run(s, steps, target).disk, target, c)
    ensures Explained(steps, s.disk, target, c)
  {
    hide Sound, Enabled, MayFind, Next;
    if steps != [] {
      var front, step := steps[..|steps| - 1], steps[|steps| - 1];
      var before := Run(s, front, target);
      QuietSound(s, target);
      RunSound(s, front, target);
      StepOffers(before, step, target, c);
      if step.SyncDir? && step.synced {
        RunSeesLatest(s, front, target);
        SyncedIsLatest(before, step, front, target, c);
      } else if MayFind(before.disk, target, c) {
        NeverTornByMany(s, front, target, c);
      }
    }
  }

  lemma SyncedIsLatest(s: System, step: Step, front: seq<Step>, target: Name, c: Option<Bytes>)
    requires step.SyncDir? && Enabled(s, step, target) && SeesLatest(s, front, target)
    requires MayHold(s.disk, Entry(s.disk, target), c)
    ensures c == Latest(front)
  {
  }

  /** Readers too see only such documents. */
  lemma ReadersSeeComplete(s: System, steps: seq<Step>, target: Name)
    requires WellFormed(s.disk) && s.writers == map[] && Legal(s, steps, target)
    ensures WellFormed(Run(s, steps, target).disk)
    ensures Explained(steps, s.disk, target, Visible(Run(s, steps, target).disk, target))
  {
    QuietSound(s, target);
    RunSound(s, steps, target);
    VisibleMayStay(Run(s, steps, target).disk, target);
    NeverTornByMany(s, steps, target, Visible(Run(s, steps, target).disk, target));
  }
}
