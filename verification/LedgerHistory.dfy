/** The ledger file under any number of additions. */
module LedgerHistory {
  import opened Sequences
  import opened PythonText
  import opened LedgerSections
  import opened CapabilityLedger

  const TITLE := "# Hermus Capability Ledger\n\n"
  const REQUESTED := "## Requested powers"
  const NONE_YET := "\n\n- None yet.\n"
  const REQUESTED_PART := "\n" + REQUESTED + NONE_YET

  function DefaultLedger(): string {
    TITLE + DISCOVERED + (EMPTY_TABLE + REQUESTED_PART)
  }

  datatype Reply = PowerRequired | Deduped | Added

  /** Lower-casing is a parameter: nothing here depends on how it is done. */
  type Lowering = string -> string

  predicate Known(list: seq<Entry>, power: string, lower: Lowering) {
    exists i | 0 <= i < |list| :: lower(list[i].power) == lower(power)
  }

  function ReplyTo(text: string, e: Entry, lower: Lowering): Reply {
    if e.power == "" then PowerRequired
    else if Known(ListDiscovered(text), e.power, lower) then Deduped
    else Added
  }

  function Opened(text: string): string {
    if text == "" then DefaultLedger() else text
  }

  function AddTo(text: string, e: Entry, lower: Lowering): string {
    if ReplyTo(text, e, lower).Added? then InsertRow(Opened(text), DISCOVERED, TableRow(e)) else text
  }

  function AddAll(text: string, entries: seq<Entry>, lower: Lowering): string
    decreases |entries|
  {
    if entries == [] then text else AddAll(AddTo(text, entries[0], lower), entries[1..], lower)
  }

  method HasPower(listed: seq<Entry>, power: string, lower: Lowering) returns (known: bool)
    ensures known == Known(listed, power, lower)
  {
    var existing: set<string> := {};
    for i := 0 to |listed|
      invariant forall x :: x in existing <==> exists j | 0 <= j < i :: lower(listed[j].power) == x
    {
      existing := existing + {lower(listed[i].power)};
    }
    known := lower(power) in existing;
  }

  /** The file behind the ledger; a missing file reads as the empty text. */
  class Ledger {
    var text: string

    constructor (text: string)
      ensures this.text == text
    {
      this.text := text;
    }

    method AddDiscovered(e: Entry, lower: Lowering) returns (reply: Reply)
      modifies this
      ensures reply == ReplyTo(old(text), e, lower)
      ensures text == AddTo(old(text), e, lower)
    {
      if e.power == "" {
        return PowerRequired;
      }
      var source := Opened(text);
      var listed := ReadDiscovered(text);
      var known := HasPower(listed, e.power, lower);
      if known {
        return Deduped;
      }
      text := InsertRow(source, DISCOVERED, TableRow(e));
      reply := Added;
    }
  }

  // ---------------------------------------------------------------- one addition

  lemma DefaultLists()
    ensures Section(DefaultLedger(), DISCOVERED) == EMPTY_TABLE && ListDiscovered(DefaultLedger()) == []
  {
    hide RowOf, TableRow, FindFrom;
    var rest := EMPTY_TABLE + REQUESTED_PART;
    HeaderFirst(TITLE, DISCOVERED, rest);
    EmptyTable();
    assert REQUESTED_PART[0] == '\n' && REQUESTED_PART[..4] == NEXT_HEADER;
    BlockEnds(EMPTY_TABLE, REQUESTED_PART);
  }

  lemma BlockEnds(block: string, after: string)
    requires forall i: nat :: !At(block, NEXT_HEADER, i)
    requires |after| >= 4 && after[..4] == NEXT_HEADER
    requires block != "" && block[|block| - 1] == '\n'
    requires |block| >= 3 && block[|block| - 2] != '\n' && block[|block| - 3] != '\n'
    ensures Block(block + after) == block
  {
    var rest := block + after;
    var k := |block|;
    assert rest[k..k + 4] == after[..4];
    assert after[0] == after[..4][0] == '\n';
    forall j: nat | j < k ensures !At(rest, NEXT_HEADER, j) {
      if At(rest, NEXT_HEADER, j) {
        HeaderStart(rest, j);
        if j + 4 <= k {
          AtPrefix(block, rest, NEXT_HEADER, j);
        }
      }
    }
    FindIs(rest, NEXT_HEADER, k);
    DropPrefix(block, after);
  }

  lemma EmptyFile()
    ensures ListDiscovered("") == []
  {
    hide Rows, Section;
    NoSectionNoRows("", DISCOVERED);
  }

  lemma DiscoveredShape()
    ensures HeaderShape(DISCOVERED) && At(DISCOVERED, "## ", 0)
  {
  }

  /** One addition lists what it shows, at the end, and nothing else changes. */
  lemma AddLists(text: string, e: Entry, lower: Lowering)
    requires SingleLine(e)
    ensures ListDiscovered(AddTo(text, e, lower)) == MergeOne(ListDiscovered(text), e, lower)
  {
    hide Rows, Section, InsertRow, TableRow, SingleLine, HeaderShape, Known, Find;
    if ReplyTo(text, e, lower).Added? {
      DiscoveredShape();
      LedgerRoundTrip(Opened(text), DISCOVERED, e);
      DefaultLists();
      EmptyFile();
    }
  }

  /**
   Adding an entry again is recognised exactly when its power was known before or the reader
   makes it out of the row: for an entry without rarer line separators, when the row is not
   skipped and the power does not depend on the space around it.
   */
  lemma SecondAddition(text: string, e: Entry, lower: Lowering)
    requires SingleLine(e) && e.power != ""
    ensures ReplyTo(AddTo(text, e, lower), e, lower).Deduped? <==>
      Known(ListDiscovered(text), e.power, lower) || Known(Shown(e), e.power, lower)
    ensures PlainEntry(e) ==> (Known(Shown(e), e.power, lower) <==>
      Listable(e) && lower(Strip(e.power)) == lower(e.power))
  {
    hide ListDiscovered, AddTo, SingleLine, PlainEntry, Listable, Shown, Strip;
    AddLists(text, e, lower);
    KnownIn(ListDiscovered(text), Shown(e), e.power, lower);
    if PlainEntry(e) {
      ShownKnown(e, lower);
    }
  }

  lemma KnownIn(list: seq<Entry>, more: seq<Entry>, power: string, lower: Lowering)
    ensures Known(list + more, power, lower) <==> Known(list, power, lower) || Known(more, power, lower)
  {
    if i :| 0 <= i < |list| && lower(list[i].power) == lower(power) {
      assert (list + more)[i] == list[i];
    }
    if i :| 0 <= i < |more| && lower(more[i].power) == lower(power) {
      assert (list + more)[|list| + i] == more[i];
    }
  }

  lemma ShownKnown(e: Entry, lower: Lowering)
    requires PlainEntry(e)
    ensures Known(Shown(e), e.power, lower) <==> Listable(e) && lower(Strip(e.power)) == lower(e.power)
  {
    hide PlainEntry, Listable, Shown, Strip;
    RowRoundTrip(e);
    if Listable(e) && lower(Strip(e.power)) == lower(e.power) {
      assert Shown(e)[0].power == Strip(e.power);
    }
  }

  // ---------------------------------------------------------------- any number of additions

  /** What a ledger lists after the additions, told without the text. */
  function Merged(list: seq<Entry>, entries: seq<Entry>, lower: Lowering): seq<Entry>
    decreases |entries|
  {
    if entries == [] then list
    else Merged(MergeOne(list, entries[0], lower), entries[1..], lower)
  }

  lemma {:induction false} AllLists(text: string, entries: seq<Entry>, lower: Lowering)
    requires forall i | 0 <= i < |entries| :: SingleLine(entries[i])
    ensures ListDiscovered(AddAll(text, entries, lower)) == Merged(ListDiscovered(text), entries, lower)
    decreases |entries|
  {
    hide ListDiscovered, AddTo, MergeOne, SingleLine;
    if entries != [] {
      AddLists(text, entries[0], lower);
      AllLists(AddTo(text, entries[0], lower), entries[1..], lower);
    }
  }

  function MergeOne(list: seq<Entry>, e: Entry, lower: Lowering): seq<Entry> {
    if e.power == "" || Known(list, e.power, lower) then list else list + Shown(e)
  }

  lemma {:induction false} MergedGrows(list: seq<Entry>, entries: seq<Entry>, lower: Lowering)
    ensures list <= Merged(list, entries, lower)
    decreases |entries|
  {
    if entries != [] {
      MergedGrows(MergeOne(list, entries[0], lower), entries[1..], lower);
    }
  }

  ghost predicate PowersDistinct(list: seq<Entry>, lower: Lowering) {
    forall i, j | 0 <= i < j < |list| :: lower(list[i].power) != lower(list[j].power)
  }

  /** The reader skips the entry, or lists a power that lower-cases like the one it was given. */
  predicate Settled(e: Entry, lower: Lowering) {
    e.power == "" || !Listable(e) || lower(Strip(e.power)) == lower(e.power)
  }

  lemma NextDistinct(list: seq<Entry>, e: Entry, lower: Lowering)
    requires PowersDistinct(list, lower) && PlainEntry(e) && Settled(e, lower)
    ensures PowersDistinct(MergeOne(list, e, lower), lower)
  {
    hide PlainEntry, Listable, Shown, Strip;
    RowRoundTrip(e);
  }

  lemma {:induction false} MergedDistinct(list: seq<Entry>, entries: seq<Entry>, lower: Lowering)
    requires PowersDistinct(list, lower)
    requires forall i | 0 <= i < |entries| :: PlainEntry(entries[i]) && Settled(entries[i], lower)
    ensures PowersDistinct(Merged(list, entries, lower), lower)
    decreases |entries|
  {
    hide MergeOne, PowersDistinct, PlainEntry, Settled;
    if entries != [] {
      NextDistinct(list, entries[0], lower);
      MergedDistinct(MergeOne(list, entries[0], lower), entries[1..], lower);
    }
  }

  /** However often powers are added, none is listed twice, and earlier rows stay in place and order. */
  lemma NoPowerListedTwice(text: string, entries: seq<Entry>, lower: Lowering)
    requires forall i | 0 <= i < |entries| :: PlainEntry(entries[i]) && Settled(entries[i], lower)
    requires PowersDistinct(ListDiscovered(text), lower)
    ensures PowersDistinct(ListDiscovered(AddAll(text, entries, lower)), lower)
    ensures ListDiscovered(text) <= ListDiscovered(AddAll(text, entries, lower))
  {
    hide ListDiscovered, AddAll, Merged, PowersDistinct, Settled;
    AllLists(text, entries, lower);
    MergedDistinct(ListDiscovered(text), entries, lower);
    MergedGrows(ListDiscovered(text), entries, lower);
  }

  /** From the empty file, an unsettled entry added twice is listed twice. */
  lemma ListedTwice(e: Entry, lower: Lowering)
    requires PlainEntry(e) && !Settled(e, lower)
    ensures ListDiscovered(AddAll("", [e, e], lower)) == [Stripped(e), Stripped(e)]
  {
    hide ListDiscovered, AddAll, MergeOne, PlainEntry, Settled;
    PlainIsSingleLine(e);
    AllLists("", [e, e], lower);
    EmptyFile();
    var once := MergeOne([], e, lower);
    assert [e, e][1..] == [e] && [e][1..] == [];
    assert Merged([], [e, e], lower) == Merged(once, [e], lower) == Merged(MergeOne(once, e, lower), [], lower);
    UnsettledTwice(e, lower);
  }

  lemma UnsettledTwice(e: Entry, lower: Lowering)
    requires PlainEntry(e) && !Settled(e, lower)
    ensures MergeOne(MergeOne([], e, lower), e, lower) == [Stripped(e), Stripped(e)]
  {
    hide PlainEntry, Listable, Shown, Strip;
    RowRoundTrip(e);
  }

  lemma PlainRowListable(e: Entry)
    requires forall i | 0 <= i < |TableRow(e)| :: TableRow(e)[i] != '-' && TableRow(e)[i] != 'P'
    ensures Listable(e)
  {
    hide TableRow, FindFrom;
    if Contains(TableRow(e), "---") {
      CharAt(TableRow(e), "---", Find(TableRow(e), "---").value, 0);
    }
    if Contains(TableRow(e), "Power") {
      CharAt(TableRow(e), "Power", Find(TableRow(e), "Power").value, 0);
    }
  }

  /** The entry created for a name that is cut at a space. */
  function CutEntry(): Entry {
    Entry(CleanCell(LongName()), "", "", "", "not_granted")
  }

  lemma CutEntryShape()
    ensures PlainEntry(CutEntry()) && Listable(CutEntry()) && |Strip(CutEntry().power)| < |CutEntry().power|
  {
    hide LongName, Strip, TableRow, Inner, CleanCell, FindFrom;
    CutAtASpace();
    var e := CutEntry();
    assert Unbarred(e.power) && Unbarred(e.status);
    StripShortens(e.power);
    StripTrimmed(e.power);
    RowShape(e);
    InnerWithout(CellsOf(e), c => c == '-' || c == 'P');
    PlainRowListable(e);
  }

  /** Such an entry is listed twice, however the letters are lower-cased. */
  lemma CutEntryListedTwice(lower: Lowering)
    requires forall s :: |lower(s)| == |s|
    ensures ListDiscovered(AddAll("", [CutEntry(), CutEntry()], lower)) == [Stripped(CutEntry()), Stripped(CutEntry())]
  {
    hide ListDiscovered, AddAll, CutEntry, PlainEntry, Listable, Strip;
    CutEntryShape();
    assert |lower(Strip(CutEntry().power))| < |lower(CutEntry().power)|;
    ListedTwice(CutEntry(), lower);
  }

  ghost predicate DrawnFrom(picks: seq<Entry>, pool: seq<Entry>) {
    forall i | 0 <= i < |picks| :: picks[i] in pool
  }

  /** Entries can be added in any number and order without a repeated power exactly if each is settled. */
  lemma NoPowerListedTwiceExactly(pool: seq<Entry>, lower: Lowering)
    requires forall e | e in pool :: PlainEntry(e)
    ensures
      (forall text, picks | PowersDistinct(ListDiscovered(text), lower) && DrawnFrom(picks, pool) ::
        PowersDistinct(ListDiscovered(AddAll(text, picks, lower)), lower))
      <==> forall e | e in pool :: Settled(e, lower)
  {
    hide ListDiscovered, AddAll, PlainEntry, Settled;
    if e :| e in pool && !Settled(e, lower) {
      ListedTwice(e, lower);
      EmptyFile();
      var list := [Stripped(e), Stripped(e)];
      assert !PowersDistinct(list, lower) by {
        assert lower(list[0].power) == lower(list[1].power);
      }
      assert PowersDistinct(ListDiscovered(""), lower) && DrawnFrom([e, e], pool);
    } else {
      forall text, picks | PowersDistinct(ListDiscovered(text), lower) && DrawnFrom(picks, pool)
        ensures PowersDistinct(ListDiscovered(AddAll(text, picks, lower)), lower)
      {
        NoPowerListedTwice(text, picks, lower);
      }
    }
  }

  lemma {:induction false} MergedKnows(list: seq<Entry>, entries: seq<Entry>, lower: Lowering, k: nat)
    requires k < |entries| && entries[k].power != "" && PlainEntry(entries[k]) && Listable(entries[k])
    ensures var all, power := Merged(list, entries, lower), entries[k].power;
      Known(all, power, lower) || Known(all, Strip(power), lower)
    decreases k
  {
    hide PlainEntry, Listable, Strip, MergeOne;
    var next := MergeOne(list, entries[0], lower);
    if k == 0 {
      var i := NowKnown(list, entries[0], lower);
      MergedGrows(next, entries[1..], lower);
      assert Merged(list, entries, lower)[i] == next[i];
    } else {
      MergedKnows(next, entries[1..], lower, k - 1);
    }
  }

  lemma NowKnown(list: seq<Entry>, e: Entry, lower: Lowering) returns (i: nat)
    requires e.power != "" && PlainEntry(e) && Listable(e)
    ensures var next := MergeOne(list, e, lower);
      i < |next| && (lower(next[i].power) == lower(e.power) || lower(next[i].power) == lower(Strip(e.power)))
  {
    hide PlainEntry, Listable, Strip, Shown;
    if Known(list, e.power, lower) {
      i :| i < |list| && lower(list[i].power) == lower(e.power);
    } else {
      RowRoundTrip(e);
      i := |list|;
    }
  }

  /** Every listable power that was ever added is listed, without the space around it if not as it was. */
  lemma EveryPowerListed(text: string, entries: seq<Entry>, lower: Lowering, k: nat)
    requires forall i | 0 <= i < |entries| :: SingleLine(entries[i])
    requires k < |entries| && entries[k].power != "" && PlainEntry(entries[k]) && Listable(entries[k])
    ensures var all, power := ListDiscovered(AddAll(text, entries, lower)), entries[k].power;
      Known(all, power, lower) || Known(all, Strip(power), lower)
  {
    hide ListDiscovered, AddAll, PlainEntry, SingleLine, Listable, Strip;
    AllLists(text, entries, lower);
    MergedKnows(ListDiscovered(text), entries, lower, k);
  }

  // ---------------------------------------------------------------- the other sections

  /** Another section of a text, wholly before or behind the discovered powers, or of a text without them. */
  predicate Apart(text: string, other: string) {
    Contains(text, other)
    && (Contains(text, DISCOVERED) ==> Earlier(text, DISCOVERED, other) || Later(text, DISCOVERED, other))
  }

  lemma EarlierNotLater(t: string, header: string, other: string)
    requires Earlier(t, header, other)
    ensures !Later(t, header, other)
  {
  }

  lemma AdditionKeeps(text: string, e: Entry, lower: Lowering, other: string)
    requires text != "" && HeaderShape(other) && Apart(text, other)
    requires Later(text, DISCOVERED, other) ==> !Contains(TableRow(e), other)
    ensures var u := AddTo(text, e, lower);
      && u != "" && Apart(u, other) && (Later(u, DISCOVERED, other) ==> Later(text, DISCOVERED, other))
      && (Contains(text, DISCOVERED) ==> Contains(u, DISCOVERED))
      && Rows(Section(u, other)) == Rows(Section(text, other))
      && (Contains(text, DISCOVERED) ==> Section(u, other) == Section(text, other))
  {
    hide Rows, Section, InsertInto, TableRow, FindFrom, Known, ListDiscovered, WithSection;
    if ReplyTo(text, e, lower).Added? {
      var u, row := AddTo(text, e, lower), TableRow(e);
      DiscoveredShape();
      if !Contains(text, DISCOVERED) {
        FirstInsertionKeeps(text, DISCOVERED, row, other);
        EarlierNotLater(u, DISCOVERED, other);
      } else {
        PresentSection(text, row);
        if Earlier(text, DISCOVERED, other) {
          EarlierSectionKept(text, DISCOVERED, row, other);
          EarlierNotLater(u, DISCOVERED, other);
        } else {
          LaterSectionKept(text, DISCOVERED, row, other);
        }
      }
    }
  }

  lemma PresentSection(text: string, row: string)
    requires Contains(text, DISCOVERED)
    ensures InsertRow(text, DISCOVERED, row) == InsertInto(text, DISCOVERED, row)
  {
  }

  /**
   Any number of additions leaves the rows of every other section alone, and its text if the
   discovered powers had their section before, provided that no row quotes a later header.
   */
  lemma {:induction false} OthersKept(text: string, entries: seq<Entry>, lower: Lowering, other: string)
    requires text != "" && HeaderShape(other) && Apart(text, other)
    requires Later(text, DISCOVERED, other) ==> forall i | 0 <= i < |entries| :: !Contains(TableRow(entries[i]), other)
    ensures var u := AddAll(text, entries, lower);
      && Rows(Section(u, other)) == Rows(Section(text, other))
      && (Contains(text, DISCOVERED) ==> Section(u, other) == Section(text, other))
    decreases |entries|
  {
    hide Rows, Section, AddTo, TableRow, FindFrom, Apart, Later, Contains, HeaderShape;
    if entries != [] {
      AdditionKeeps(text, entries[0], lower, other);
      OthersKept(AddTo(text, entries[0], lower), entries[1..], lower, other);
    }
  }

  // ---------------------------------------------------------------- the default ledger

  /** On an empty file, additions leave it empty or act as on the default ledger. */
  lemma {:induction false} OpenedRun(entries: seq<Entry>, lower: Lowering)
    ensures var u := AddAll("", entries, lower); u == "" || u == AddAll(DefaultLedger(), entries, lower)
    decreases |entries|
  {
    hide DefaultLedger, ListDiscovered, InsertRow;
    if entries != [] {
      DefaultLists();
      EmptyFile();
      if entries[0].power == "" {
        OpenedRun(entries[1..], lower);
      }
    }
  }

  predicate Without(s: string, c: char) {
    forall i | 0 <= i < |s| :: s[i] != c
  }

  lemma NoQ()
    ensures Without(TITLE, 'q') && Without(DISCOVERED, 'q') && Without(EMPTY_TABLE, 'q')
  {
    hide Inner, TableRow;
    RowShape(HEADINGS);
    LongWithoutQ();
    InnerWithout(CellsOf(HEADINGS), c => c == 'q');
  }

  lemma LongWithoutQ()
    ensures Without(LONG_HEADING, 'q')
  {
  }

  /** In the default ledger the requested powers follow the discovered ones. */
  lemma DefaultApart()
    ensures var t := DefaultLedger();
      t != "" && Contains(t, DISCOVERED) && Later(t, DISCOVERED, REQUESTED) && Apart(t, REQUESTED)
      && EndsItsLine(t, REQUESTED) && Section(t, REQUESTED) == NONE_YET && HeaderShape(REQUESTED)
  {
    hide FindFrom, TableRow, Later, Earlier;
    var front := TITLE + DISCOVERED + EMPTY_TABLE + "\n";
    NoQ();
    NeedsQ(front);
    TwoSections(TITLE, DISCOVERED, EMPTY_TABLE, REQUESTED, NONE_YET);
    NoHeaderBehind();
  }

  lemma TwoSections(title: string, header: string, table: string, other: string, behind: string)
    requires HeaderShape(header) && !Contains(title, header) && title != "" && title[|title| - 1] == '\n'
    requires HeaderShape(other) && At(other, "## ", 0) && !Contains(title + header + table + "\n", other)
    ensures var t := title + header + (table + ("\n" + other + behind));
      Contains(t, header) && Later(t, header, other) && Section(t, other) == Block(behind)
      && Find(t, other) == Some(|title + header + table| + 1) && t[|title + header + table| + 1 + |other|..] == behind
  {
    hide FindFrom, Block, At;
    var front, t := title + header + table, title + header + (table + ("\n" + other + behind));
    assert t == (front + "\n") + other + behind;
    assert t == front + "\n" + (other + behind);
    HeaderFirst(front + "\n", other, behind);
    HeaderFirst(title, header, table + ("\n" + other + behind));
    assert At(other + behind, "## ", 0) by {
      HeaderWithNewline(other, behind);
    }
    LaterBoundary(front, other + behind, |title + header|);
  }

  lemma NeedsQ(s: string)
    requires Without(s, 'q')
    ensures !Contains(s, REQUESTED)
  {
    if Contains(s, REQUESTED) {
      CharAt(s, REQUESTED, Find(s, REQUESTED).value, 5);
    }
  }

  lemma NoHeaderBehind()
    ensures Block(NONE_YET) == NONE_YET
  {
    if i: nat :| At(NONE_YET, NEXT_HEADER, i) {
      HeaderStart(NONE_YET, i);
    }
  }

  /** On an empty file, rows that do not quote its header leave the section of requested powers as it starts. */
  lemma RequestedKept(entries: seq<Entry>, lower: Lowering)
    requires forall i | 0 <= i < |entries| :: !Contains(TableRow(entries[i]), REQUESTED)
    ensures var u := AddAll("", entries, lower); u == "" || Section(u, REQUESTED) == NONE_YET
  {
    hide Section, AddAll, TableRow, FindFrom, DefaultLedger, Apart, Later, Contains, EndsItsLine, HeaderShape;
    DefaultApart();
    OpenedRun(entries, lower);
    OthersKept(DefaultLedger(), entries, lower, REQUESTED);
  }

  /** A power that is the header of the requested powers takes their section over. */
  lemma QuotedHeaderTakesOver(e: Entry, lower: Lowering)
    requires SingleLine(e) && e.power == REQUESTED
    ensures Section(AddTo("", e, lower), REQUESTED) != NONE_YET
  {
    hide Section, InsertRow, InsertInto, FindFrom, DefaultLedger;
    DefaultApart();
    EmptyFile();
    var row := TableRow(e);
    RowIsOneLine(e);
    assert row[2..2 + |REQUESTED|] == REQUESTED;
    ContainsAt(row, REQUESTED, 2);
    DiscoveredShape();
    PresentSection(DefaultLedger(), row);
    LaterSectionExactly(DefaultLedger(), DISCOVERED, row, REQUESTED);
  }
}
