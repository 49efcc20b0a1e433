/**
 Replacing a file by writing a sibling and renaming it, on a volume whose recent changes
 may or may not survive a crash.
 */
module AtomicWrite {
  import opened Sequences

  type Name = string
  type Bytes = seq<bv8>
  type Inode = int

  /** Contents that are not synced may be anything after a crash. */
  datatype File = File(bytes: Bytes, synced: bool)

  /** `unsettled` holds, for names changed since the directory was synced, every entry a crash may leave. */
  datatype Disk = Disk(entries: map<Name, Inode>, files: map<Inode, File>, unsettled: map<Name, set<Option<Inode>>>)

  function Entry(d: Disk, n: Name): Option<Inode> {
    if n in d.entries then Some(d.entries[n]) else None
  }

  function Possible(d: Disk, n: Name): set<Option<Inode>> {
    if n in d.unsettled then d.unsettled[n] else {Entry(d, n)}
  }

  ghost predicate WellFormed(d: Disk) {
    && (forall n | n in d.entries :: d.entries[n] in d.files)
    && (forall n, i | n in d.unsettled && Some(i) in d.unsettled[n] :: i in d.files)
    && (forall n | n in d.unsettled :: Entry(d, n) in d.unsettled[n])
  }

  /** What a reader sees while the system is up. */
  function Visible(d: Disk, n: Name): Option<Bytes>
    requires n in d.entries ==> d.entries[n] in d.files
  {
    if n in d.entries then Some(d.files[d.entries[n]].bytes) else None
  }

  /** What may stand under an entry after a crash. */
  predicate MayHold(d: Disk, entry: Option<Inode>, c: Option<Bytes>) {
    match entry
    case None => c == None
    case Some(i) => i in d.files && c.Some? && (d.files[i].synced ==> c.value == d.files[i].bytes)
  }

  ghost predicate MayFind(d: Disk, n: Name, c: Option<Bytes>) {
    exists entry :: entry in Possible(d, n) && MayHold(d, entry, c)
  }

  // ---------------------------------------------------------------- effects

  function WithEntry(d: Disk, n: Name, entry: Option<Inode>): Disk {
    d.(entries := if entry.Some? then d.entries[n := entry.value] else d.entries - {n},
       unsettled := d.unsettled[n := Possible(d, n) + {entry}])
  }

  function Created(d: Disk, n: Name, i: Inode): Disk {
    WithEntry(d.(files := d.files[i := File([], false)]), n, Some(i))
  }

  function Written(d: Disk, i: Inode, bytes: Bytes): Disk {
    d.(files := d.files[i := File(bytes, false)])
  }

  function FileSynced(d: Disk, i: Inode): Disk
    requires i in d.files
  {
    d.(files := d.files[i := d.files[i].(synced := true)])
  }

  /** A rename changes both entries at once for readers; a crash may keep either of each. */
  function Renamed(d: Disk, from: Name, to: Name): Disk
    requires from in d.entries
  {
    WithEntry(WithEntry(d, to, Some(d.entries[from])), from, None)
  }

  function DirSynced(d: Disk): Disk {
    d.(unsettled := map[])
  }

  // ---------------------------------------------------------------- what the effects keep

  /** Nothing under `n` looks different now, and a crash offers nothing new. */
  ghost predicate Untouched(before: Disk, after: Disk, n: Name) {
    && Entry(after, n) == Entry(before, n) && Possible(after, n) <= Possible(before, n)
    && forall i | Some(i) in Possible(after, n) ::
         i in before.files && i in after.files && after.files[i] == before.files[i]
  }

  lemma UntouchedLooksSame(before: Disk, after: Disk, n: Name)
    requires WellFormed(before) && WellFormed(after) && Untouched(before, after, n)
    ensures Visible(after, n) == Visible(before, n)
    ensures forall c | MayFind(after, n, c) :: MayFind(before, n, c)
  {
    if n in before.entries {
      var i := before.entries[n];
      assert Entry(before, n) == Some(i) && Entry(after, n) == Some(after.entries[n]);
      assert Some(i) in Possible(after, n);
    } else {
      assert Entry(after, n) == None;
    }
    forall c | MayFind(after, n, c) ensures MayFind(before, n, c) {
      var entry :| entry in Possible(after, n) && MayHold(after, entry, c);
      if entry.Some? {
        assert Some(entry.value) in Possible(after, n);
      }
      assert MayHold(before, entry, c);
    }
  }

  /** The volume with the sibling in preparation. */
  function Prepared(d: Disk, tmp: Name, i: Inode, f: File): Disk {
    WithEntry(d.(files := d.files[i := f]), tmp, Some(i))
  }

  lemma Preparing(d: Disk, tmp: Name, i: Inode, f: File, bytes: Bytes)
    ensures Created(d, tmp, i) == Prepared(d, tmp, i, File([], false))
    ensures Written(Prepared(d, tmp, i, f), i, bytes) == Prepared(d, tmp, i, File(bytes, false))
    ensures FileSynced(Prepared(d, tmp, i, File(bytes, false)), i) == Prepared(d, tmp, i, File(bytes, true))
  {
    assert d.files[i := f][i := File(bytes, false)] == d.files[i := File(bytes, false)];
    assert d.files[i := File(bytes, false)][i := File(bytes, true)] == d.files[i := File(bytes, true)];
  }

  lemma RenamedKeeps(d: Disk, from: Name, to: Name, other: Name)
    requires WellFormed(d) && from in d.entries && from != to && other != from && other != to
    ensures WellFormed(Renamed(d, from, to)) && Untouched(d, Renamed(d, from, to), other)
  {
  }

  lemma UnlinkedKeeps(d: Disk, n: Name, other: Name)
    requires WellFormed(d) && n != other
    ensures WellFormed(WithEntry(d, n, None)) && Untouched(d, WithEntry(d, n, None), other)
  {
  }

  // ---------------------------------------------------------------- the rename

  /** After the rename the target is what it could be before, or the renamed file. */
  lemma RenameOffers(d: Disk, from: Name, to: Name, c: Option<Bytes>)
    requires WellFormed(d) && from in d.entries && from != to
    ensures MayFind(Renamed(d, from, to), to, c) <==> MayFind(d, to, c) || MayHold(d, Some(d.entries[from]), c)
  {
    var t := Renamed(d, from, to);
    var moved: Option<Inode> := Some(d.entries[from]);
    assert Possible(t, to) == Possible(d, to) + {moved};
    assert forall entry :: MayHold(t, entry, c) == MayHold(d, entry, c);
    if MayHold(d, moved, c) {
      assert moved in Possible(t, to);
    }
    if MayFind(d, to, c) {
      var entry :| entry in Possible(d, to) && MayHold(d, entry, c);
      assert entry in Possible(t, to);
    }
  }

  /** Renaming a file before its contents are synced lets a crash put any bytes under the target. */
  lemma UnsyncedRenameTears(d: Disk, from: Name, to: Name, garbage: Bytes)
    requires WellFormed(d) && from in d.entries && from != to && !d.files[d.entries[from]].synced
    ensures MayFind(Renamed(d, from, to), to, Some(garbage))
  {
    RenameOffers(d, from, to, Some(garbage));
  }

  /** Complete old or complete new: every state on the way offers a crash and a reader only those. */
  ghost predicate OldOrNew(before: Disk, after: Disk, n: Name, data: Bytes) {
    && WellFormed(before) && WellFormed(after)
    && (Visible(after, n) == Visible(before, n) || Visible(after, n) == Some(data))
    && forall c | MayFind(after, n, c) :: MayFind(before, n, c) || c == Some(data)
  }

  /** Syncing the directory settles what readers see. */
  lemma DirSyncSettles(d: Disk, n: Name)
    requires WellFormed(d)
    ensures WellFormed(DirSynced(d)) && Visible(DirSynced(d), n) == Visible(d, n)
    ensures forall c | MayFind(DirSynced(d), n, c) :: MayFind(d, n, c)
    ensures forall c :: MayFind(DirSynced(d), n, c) <==> MayHold(d, Entry(d, n), c)
  {
    var t := DirSynced(d);
    assert Possible(t, n) == {Entry(d, n)};
    forall c ensures MayFind(t, n, c) <==> MayHold(d, Entry(d, n), c) {
      assert MayHold(t, Entry(d, n), c) == MayHold(d, Entry(d, n), c);
      assert Entry(d, n) in Possible(t, n);
    }
  }

  // ---------------------------------------------------------------- the write

  /** What every state on the way satisfies. */
  ghost predicate Fine(before: Disk, after: Disk, target: Name, tmp: Name, data: Bytes) {
    OldOrNew(before, after, target, data) && forall n | n != target && n != tmp :: Untouched(before, after, n)
  }

  lemma PreparedFine(d: Disk, tmp: Name, i: Inode, f: File, target: Name, data: Bytes)
    requires WellFormed(d) && i !in d.files && target != tmp
    ensures Fine(d, Prepared(d, tmp, i, f), target, tmp, data) && Untouched(d, Prepared(d, tmp, i, f), target)
  {
    var t := Prepared(d, tmp, i, f);
    forall n | n != tmp ensures WellFormed(t) && Untouched(d, t, n) {
    }
    UntouchedLooksSame(d, t, target);
  }

  /** A synced sibling renamed over the target. */
  lemma ReplacedFine(d: Disk, tmp: Name, i: Inode, target: Name, data: Bytes)
    requires WellFormed(d) && i !in d.files && target != tmp
    ensures var t := Renamed(Prepared(d, tmp, i, File(data, true)), tmp, target);
      && Fine(d, t, target, tmp, data) && Visible(t, target) == Some(data) && tmp !in t.entries
      && Entry(t, target) == Some(i) && i in t.files && t.files[i] == File(data, true)
  {
    var p := Prepared(d, tmp, i, File(data, true));
    var t := Renamed(p, tmp, target);
    PreparedFine(d, tmp, i, File(data, true), target, data);
    forall n | n != tmp && n != target ensures WellFormed(t) && Untouched(d, t, n) {
      RenamedKeeps(p, tmp, target, n);
    }
    RenamedFormed(p, tmp, target);
    forall c | MayFind(t, target, c) ensures MayFind(d, target, c) || c == Some(data) {
      RenameOffers(p, tmp, target, c);
      UntouchedLooksSame(d, p, target);
    }
  }

  lemma RenamedFormed(d: Disk, from: Name, to: Name)
    requires WellFormed(d) && from in d.entries && from != to
    ensures WellFormed(Renamed(d, from, to))
  {
  }

  lemma SettledFine(d: Disk, t: Disk, target: Name, tmp: Name, data: Bytes, i: Inode)
    requires Fine(d, t, target, tmp, data) && Entry(t, target) == Some(i) && t.files[i] == File(data, true)
    ensures Fine(d, DirSynced(t), target, tmp, data)
    ensures forall c :: MayFind(DirSynced(t), target, c) <==> c == Some(data)
  {
    DirSyncSettles(t, target);
    forall c ensures MayFind(DirSynced(t), target, c) <==> c == Some(data) {
      assert MayHold(t, Entry(t, target), c) <==> c == Some(data);
    }
    forall n | n != target && n != tmp ensures Untouched(d, DirSynced(t), n) {
      assert Untouched(d, t, n);
    }
  }

  /** All states from a point on are fine. */
  ghost predicate FineFrom(past: seq<Disk>, from: nat, before: Disk, target: Name, tmp: Name, data: Bytes) {
    from <= |past| && forall k | from <= k < |past| :: Fine(before, past[k], target, tmp, data)
  }

  lemma CleanedFine(d: Disk, tmp: Name, i: Inode, f: File, target: Name, data: Bytes)
    requires WellFormed(d) && i !in d.files && target != tmp && tmp !in d.entries
    ensures var t := WithEntry(Prepared(d, tmp, i, f), tmp, None);
      Fine(d, t, target, tmp, data) && Untouched(d, t, target) && t.entries == d.entries
  {
    var p := Prepared(d, tmp, i, f);
    var t := WithEntry(p, tmp, None);
    PreparedFine(d, tmp, i, f, target, data);
    forall n | n != tmp ensures WellFormed(t) && Untouched(d, t, n) {
      UnlinkedKeeps(p, tmp, n);
    }
    UntouchedLooksSame(d, t, target);
  }

  datatype Fault = NoFault | CreateFails | WriteFails(partial: Bytes) | SyncFails | ReplaceFails | InterruptedAfter

  class Volume {
    var disk: Disk
    /** Every state the volume went through. */
    ghost var past: seq<Disk>

    constructor (disk: Disk)
      ensures this.disk == disk && past == []
    {
      this.disk := disk;
      past := [];
    }

    /** Moves on to a state that is fine. */
    method Advance(next: Disk, ghost from: nat, ghost before: Disk, target: Name, tmp: Name, data: Bytes)
      requires FineFrom(past, from, before, target, tmp, data) && Fine(before, next, target, tmp, data)
      modifies this
      ensures disk == next && past == old(past) + [next]
      ensures FineFrom(past, from, before, target, tmp, data)
    {
      disk := next;
      past := past + [next];
    }

    /** Creates, fills and syncs the sibling; stops at a fault. */
    method Prepare(target: Name, data: Bytes, tmp: Name, inode: Inode, fault: Fault)
      returns (ready: bool, ghost f: File)
      requires WellFormed(disk) && tmp != target && inode !in disk.files && !fault.CreateFails?
      modifies this
      ensures ready <==> !fault.WriteFails? && !fault.SyncFails?
      ensures ready ==> f == File(data, true)
      ensures disk == Prepared(old(disk), tmp, inode, f)
      ensures old(past) < past && disk == past[|past| - 1]
      ensures FineFrom(past, |old(past)|, old(disk), target, tmp, data)
    {
      ghost var before, from := disk, |past|;
      f := File([], false);
      Preparing(before, tmp, inode, f, []);
      PreparedFine(before, tmp, inode, f, target, data);
      Advance(Created(disk, tmp, inode), from, before, target, tmp, data);
      var bytes := if fault.WriteFails? then fault.partial else data;
      Preparing(before, tmp, inode, f, bytes);
      f := File(bytes, false);
      PreparedFine(before, tmp, inode, f, target, data);
      Advance(Written(disk, inode, bytes), from, before, target, tmp, data);
      if fault.WriteFails? || fault.SyncFails? {
        return false, f;
      }
      f := File(bytes, true);
      PreparedFine(before, tmp, inode, f, target, data);
      Advance(FileSynced(disk, inode), from, before, target, tmp, data);
      ready := true;
    }

    /** Renames the synced sibling over the target and syncs the directory. */
    method Replace(
      target: Name, data: Bytes, tmp: Name, ghost inode: Inode, ghost from: nat, ghost before: Disk, fault: Fault,
      dirSynced: bool)
      requires WellFormed(before) && inode !in before.files && tmp != target
      requires disk == Prepared(before, tmp, inode, File(data, true)) && past != []
      requires FineFrom(past, from, before, target, tmp, data)
      modifies this
      ensures old(past) < past && disk == past[|past| - 1] && FineFrom(past, from, before, target, tmp, data)
      ensures Fine(before, disk, target, tmp, data) && Visible(disk, target) == Some(data) && tmp !in disk.entries
      ensures fault.NoFault? && dirSynced ==> forall c :: MayFind(disk, target, c) <==> c == Some(data)
    {
      hide FineFrom, MayFind, Untouched;
      ReplacedFine(before, tmp, inode, target, data);
      Advance(Renamed(disk, tmp, target), from, before, target, tmp, data);
      if fault.NoFault? && dirSynced {
        SettledFine(before, disk, target, tmp, data, inode);
        Advance(DirSynced(disk), from, before, target, tmp, data);
      }
    }

    /** Removes the sibling of a write that failed before the rename, if the unlink succeeds. */
    method CleanUp(
      target: Name, data: Bytes, tmp: Name, ghost inode: Inode, ghost from: nat, ghost before: Disk, ghost f: File,
      unlinked: bool)
      requires WellFormed(before) && inode !in before.files && tmp != target && tmp !in before.entries
      requires disk == Prepared(before, tmp, inode, f) && past != [] && disk == past[|past| - 1]
      requires FineFrom(past, from, before, target, tmp, data)
      modifies this
      ensures old(past) <= past && disk == past[|past| - 1] && FineFrom(past, from, before, target, tmp, data)
      ensures Fine(before, disk, target, tmp, data) && Untouched(before, disk, target)
      ensures unlinked ==> disk.entries == before.entries
    {
      hide FineFrom, MayFind, Untouched;
      PreparedFine(before, tmp, inode, f, target, data);
      CleanedFine(before, tmp, inode, f, target, data);
      if unlinked {
        Advance(WithEntry(disk, tmp, None), from, before, target, tmp, data);
      }
    }

    /**
     Writes the sibling `tmp`, syncs it, renames it over the target and syncs the directory.
     A failure to sync the directory is swallowed; any other failure removes the sibling and is raised.
     */
    method AtomicWriteBytes(
      target: Name, data: Bytes, tmp: Name, inode: Inode, fault: Fault, dirSynced: bool, unlinked: bool)
      returns (raised: bool)
      requires WellFormed(disk) && tmp != target && tmp !in disk.entries && inode !in disk.files
      modifies this
      ensures raised <==> !fault.NoFault?
      ensures old(past) <= past
      ensures if |past| > |old(past)| then disk == past[|past| - 1] else disk == old(disk)
      ensures FineFrom(past, |old(past)|, old(disk), target, tmp, data)
      ensures OldOrNew(old(disk), disk, target, data)
      ensures !raised || fault.InterruptedAfter? ==> Visible(disk, target) == Some(data) && tmp !in disk.entries
      ensures !raised && dirSynced ==> forall c :: MayFind(disk, target, c) <==> c == Some(data)
      ensures raised && !fault.InterruptedAfter? ==> Untouched(old(disk), disk, target)
      ensures raised && !fault.InterruptedAfter? && unlinked ==> disk.entries == old(disk).entries
    {
      ghost var before, from := disk, |past|;
      if fault.CreateFails? {
        return true;
      }
      var ready, f := Prepare(target, data, tmp, inode, fault);
      if ready && !fault.ReplaceFails? {
        Replace(target, data, tmp, inode, from, before, fault, dirSynced);
        return !fault.NoFault?;
      }
      CleanUp(target, data, tmp, inode, from, before, f, unlinked);
      raised := true;
    }
  }

  // ---------------------------------------------------------------- writes and crashes in any order

  datatype Event =
    | Returned(data: Bytes, durable: bool)
    | RaisedAfter(data: Bytes)
    | Crash
    | CrashDuring(data: Bytes)

  /** What a crash leaves: for every name something it could leave, and all of it settled. */
  ghost predicate AfterCrash(d: Disk, d': Disk) {
    && WellFormed(d') && d'.unsettled == map[]
    && (forall n | n in d'.entries :: d'.files[d'.entries[n]].synced)
    && forall n :: MayFind(d, n, Visible(d', n))
  }

  /** One event under the target, as the write's contract tells it. */
  ghost predicate Follows(d: Disk, e: Event, d': Disk, target: Name) {
    match e
    case Returned(data, durable) =>
      OldOrNew(d, d', target, data) && (durable ==> forall c | MayFind(d', target, c) :: c == Some(data))
    case RaisedAfter(data) => OldOrNew(d, d', target, data)
    case Crash => AfterCrash(d, d')
    case CrashDuring(data) => exists amid :: OldOrNew(d, amid, target, data) && AfterCrash(amid, d')
  }

  /** A crash in any state that a write goes through is such an event. */
  lemma CrashAmidWrite(past: seq<Disk>, from: nat, k: nat, d: Disk, d': Disk, target: Name, tmp: Name, data: Bytes)
    requires FineFrom(past, from, d, target, tmp, data) && from <= k < |past| && AfterCrash(past[k], d')
    ensures Follows(d, CrashDuring(data), d', target)
  {
    assert Fine(d, past[k], target, tmp, data);
    assert OldOrNew(d, past[k], target, data);
  }

  ghost predicate History(disks: seq<Disk>, events: seq<Event>, target: Name) {
    |disks| == |events| + 1 && forall k | 0 <= k < |events| :: Follows(disks[k], events[k], disks[k + 1], target)
  }

  /** The documents that can be there: those written since the last durable write, itself included, or, without
      one, also those that could be there at first. */
  ghost predicate Accounted(events: seq<Event>, first: Disk, target: Name, c: Option<Bytes>) {
    if events == [] then MayFind(first, target, c)
    else
      var before := events[..|events| - 1];
      match events[|events| - 1]
      case Returned(data, true) => c == Some(data)
      case Returned(data, false) => c == Some(data) || Accounted(before, first, target, c)
      case RaisedAfter(data) => c == Some(data) || Accounted(before, first, target, c)
      case CrashDuring(data) => c == Some(data) || Accounted(before, first, target, c)
      case Crash => Accounted(before, first, target, c)
  }

  /** However writes, failures and crashes alternate, the target never holds a torn document or one that a
      durable write has replaced. */
  lemma {:induction false} NeverTorn(disks: seq<Disk>, events: seq<Event>, target: Name, c: Option<Bytes>)
    requires History(disks, events, target) && MayFind(disks[|events|], target, c)
    ensures Accounted(events, disks[0], target, c)
    decreases |events|
  {
    if events != [] {
      var n := |events| - 1;
      var d, d' := disks[n], disks[n + 1];
      assert Follows(d, events[n], d', target);
      if events[n].Crash? {
        CrashSettles(d, d', target, c);
      } else if events[n].CrashDuring? {
        var amid :| OldOrNew(d, amid, target, events[n].data) && AfterCrash(amid, d');
        CrashSettles(amid, d', target, c);
      }
      if MayFind(d, target, c) {
        assert History(disks[..n + 1], events[..n], target) by {
          forall k | 0 <= k < n ensures Follows(disks[..n + 1][k], events[..n][k], disks[..n + 1][k + 1], target) {
            assert Follows(disks[k], events[k], disks[k + 1], target);
          }
        }
        NeverTorn(disks[..n + 1], events[..n], target, c);
      }
    }
  }

  lemma CrashSettles(d: Disk, d': Disk, n: Name, c: Option<Bytes>)
    requires AfterCrash(d, d') && MayFind(d', n, c)
    ensures c == Visible(d', n) && MayFind(d, n, c)
  {
    assert Possible(d', n) == {Entry(d', n)};
  }

  /** What is visible is always among what a crash may leave. */
  lemma VisibleMayStay(d: Disk, n: Name)
    requires WellFormed(d)
    ensures MayFind(d, n, Visible(d, n))
  {
    assert MayHold(d, Entry(d, n), Visible(d, n));
  }
}
