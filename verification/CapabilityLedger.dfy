/** The markdown ledger: printing a row into a section and reading the section's rows back. */
module CapabilityLedger {
  import opened Sequences
  import opened PythonText
  import opened TextLines
  import opened LedgerSections

  datatype Entry = Entry(power: string, use: string, risk: string, setup: string, status: string)

  const DISCOVERED := "## Discovered possible powers"

  const LONG_HEADING := "Needed approval/setup"
  /** The table's own first row: its headings. */
  const HEADINGS := Entry("Power", "Use", "Risk", LONG_HEADING, "Status")
  const TABLE_HEAD := TableRow(HEADINGS)
  const TABLE_RULE := "|---|---|---|---|---|"
  const EMPTY_TABLE := "\n\n" + TABLE_HEAD + "\n" + TABLE_RULE + "\n"

  // ---------------------------------------------------------------- printing

  function Replaced(s: string, from: char, to: char): (r: string)
    ensures |r| == |s| && forall i | 0 <= i < |s| :: r[i] == if s[i] == from then to else s[i]
  {
    seq(|s|, i requires 0 <= i < |s| => if s[i] == from then to else s[i])
  }

  function OneLined(value: string): string {
    Replaced(Replaced(value, '\n', ' '), '|', '/')
  }

  function CutCell(text: string): string {
    if |text| <= 300 then text else text[..300]
  }

  function CleanCell(value: string): string {
    CutCell(Strip(OneLined(value)))
  }

  function TableRow(e: Entry): string {
    "| " + e.power + " | " + e.use + " | " + e.risk + " | " + e.setup + " | " + e.status + " |"
  }

  /** The text, with an empty table under the header if it lacked the header. */
  function WithSection(text: string, header: string): string {
    if Contains(text, header) then text else RStrip(text) + "\n\n" + header + EMPTY_TABLE
  }

  function InsertRow(text: string, header: string, row: string): string {
    var t := WithSection(text, header);
    if Contains(t, header) then InsertInto(t, header, row) else t
  }

  // ---------------------------------------------------------------- reading

  function BarsStart(s: string, n: nat): (k: nat)
    requires n <= |s|
    ensures n <= k <= |s| && (k < |s| ==> s[k] != '|') && forall i | n <= i < k :: s[i] == '|'
    decreases |s| - n
  {
    if n == |s| || s[n] != '|' then n else BarsStart(s, n + 1)
  }

  function BarsEnd(s: string, n: nat, from: nat): (k: nat)
    requires from <= n <= |s|
    ensures from <= k <= n && (k > from ==> s[k - 1] != '|') && forall i | k <= i < n :: s[i] == '|'
  {
    if n == from || s[n - 1] != '|' then n else BarsEnd(s, n - 1, from)
  }

  function StripBars(s: string): string {
    var start := BarsStart(s, 0);
    s[start..BarsEnd(s, |s|, start)]
  }

  function BarAt(s: string, n: nat): (k: nat)
    requires n <= |s|
    ensures n <= k <= |s| && (k < |s| ==> s[k] == '|') && forall i | n <= i < k :: s[i] != '|'
    decreases |s| - n
  {
    if n == |s| || s[n] == '|' then n else BarAt(s, n + 1)
  }

  /** Splitting at bars, every cell stripped. */
  function Cells(s: string): seq<string>
    decreases |s|
  {
    var k := BarAt(s, 0);
    [Strip(s[..k])] + if k == |s| then [] else Cells(s[k + 1..])
  }

  /** A line with a bar in front that is neither table head nor rule. */
  predicate IsTableLine(line: string) {
    Strip(line) != "" && Strip(line)[0] == '|' && !Contains(line, "---") && !Contains(line, "Power")
  }

  function FromCells(cells: seq<string>): seq<Entry> {
    if |cells| < 5 then [] else [Entry(cells[0], cells[1], cells[2], cells[3], cells[4])]
  }

  /** The entry on a line, if there is one. */
  function RowOf(line: string): seq<Entry> {
    if IsTableLine(line) then FromCells(Cells(StripBars(Strip(line)))) else []
  }

  function Rows(block: string): seq<Entry> {
    Gather(block, RowOf)
  }

  function ListDiscovered(text: string): seq<Entry> {
    Rows(Section(text, DISCOVERED))
  }

  /** The reading loop. */
  method ReadDiscovered(text: string) returns (entries: seq<Entry>)
    ensures entries == ListDiscovered(text)
  {
    hide RowOf, Section;
    var lines := Lines(Section(text, DISCOVERED));
    entries := [];
    for i := 0 to |lines|
      invariant entries + GatherLines(lines[i..], RowOf) == GatherLines(lines, RowOf)
    {
      assert lines[i..][1..] == lines[i + 1..];
      AppendAssociates(entries, RowOf(lines[i]), GatherLines(lines[i + 1..], RowOf));
      var row := ReadRow(lines[i]);
      entries := entries + row;
    }
  }

  method ReadRow(line: string) returns (row: seq<Entry>)
    ensures row == RowOf(line)
  {
    hide Cells, StripBars, FindFrom;
    if !IsTableLine(line) {
      return [];
    }
    var cells := Cells(StripBars(Strip(line)));
    row := if |cells| >= 5 then [Entry(cells[0], cells[1], cells[2], cells[3], cells[4])] else [];
  }

  // ---------------------------------------------------------------- cells

  /** A cell that survives printing: trimmed, one line, no bar. */
  predicate CleanText(s: string) {
    Trimmed(s) && Unbarred(s)
  }

  predicate Unbarred(s: string) {
    forall i | 0 <= i < |s| :: s[i] != '|' && !IsBreak(s[i])
  }

  /** No cell holds a newline, which is so for everything that was cleaned. */
  predicate SingleLine(e: Entry) {
    OneLine(e.power) && OneLine(e.use) && OneLine(e.risk) && OneLine(e.setup) && OneLine(e.status)
  }

  /** No cell holds a bar or one of the rarer line separators either. */
  predicate PlainEntry(e: Entry) {
    Unbarred(e.power) && Unbarred(e.use) && Unbarred(e.risk) && Unbarred(e.setup) && Unbarred(e.status)
  }

  predicate CleanEntry(e: Entry) {
    CleanText(e.power) && CleanText(e.use) && CleanText(e.risk) && CleanText(e.setup) && CleanText(e.status)
  }

  /** A value cleans to a cell that survives printing exactly if it is not cut at a space and its part that
      stays has no rarer line separator. */
  lemma CleanedCells(value: string)
    ensures var s := Strip(OneLined(value));
      CleanText(CleanCell(value)) <==>
      (|s| <= 300 || !IsSpace(s[299])) && forall i | 0 <= i < |s| && i < 300 :: !IsBreak(s[i])
    ensures forall i | 0 <= i < |CleanCell(value)| :: CleanCell(value)[i] != '|' && CleanCell(value)[i] != '\n'
  {
    hide Replaced, KeptEnd, KeptStart;
    var line := OneLined(value);
    var kept := RStrip(line);
    var s, at := LStrip(kept), KeptStart(kept, 0);
    forall i | 0 <= i < |s| ensures s[i] != '|' && s[i] != '\n' {
      assert s[i] == kept[at + i] == line[at + i];
    }
    assert Trimmed(s);
  }

  /** Such a value: 299 letters, a space and another letter. */
  function LongName(): (value: string)
    ensures |value| == 301 && value[300] == 'b' && value[299] == ' ' && forall i | 0 <= i < 299 :: value[i] == 'a'
  {
    seq(299, _ => 'a') + " b"
  }

  lemma CutAtASpace()
    ensures CleanCell(LongName()) == LongName()[..300] && !CleanText(CleanCell(LongName()))
  {
    hide Strip, LongName;
    assert OneLined(LongName()) == LongName();
    StripTrimmed(LongName());
  }

  function Padded(cell: string): string {
    " " + cell + " "
  }

  lemma BarIs(s: string, k: nat)
    requires k <= |s| && (k < |s| ==> s[k] == '|') && forall i | 0 <= i < k :: s[i] != '|'
    ensures BarAt(s, 0) == k
  {
  }

  lemma CellsUnfold(s: string, k: nat)
    requires k == BarAt(s, 0)
    ensures Cells(s) == [Strip(s[..k])] + if k == |s| then [] else Cells(s[k + 1..])
  {
  }

  lemma OneCell(cell: string)
    requires Unbarred(cell)
    ensures Cells(Padded(cell)) == [Strip(cell)]
  {
    hide Strip;
    var s := Padded(cell);
    BarIs(s, |s|);
    CellsUnfold(s, |s|);
    TakeAll(s);
    StripPadded(" ", cell, " ");
  }

  lemma CellsCons(cell: string, rest: string)
    requires Unbarred(cell)
    ensures Cells(Padded(cell) + ("|" + rest)) == [Strip(cell)] + Cells(rest)
  {
    hide Strip, Cells;
    var s, tail := Padded(cell), "|" + rest;
    DropPrefix(s, tail);
    assert (s + tail)[|s| + 1..] == rest && (s + tail)[..|s|] == s;
    BarIs(s + tail, |s|);
    CellsUnfold(s + tail, |s|);
    StripPadded(" ", cell, " ");
  }

  // ---------------------------------------------------------------- one row

  /** Cells side by side, with bars between them. */
  function Inner(cells: seq<string>): string
    requires cells != []
  {
    if |cells| == 1 then Padded(cells[0]) else Padded(cells[0]) + ("|" + Inner(cells[1..]))
  }

  function CellsOf(e: Entry): seq<string> {
    [e.power, e.use, e.risk, e.setup, e.status]
  }

  function AllStripped(cells: seq<string>): seq<string> {
    if cells == [] then [] else [Strip(cells[0])] + AllStripped(cells[1..])
  }

  lemma {:induction false} CellsOfInner(cells: seq<string>)
    requires cells != [] && forall i | 0 <= i < |cells| :: Unbarred(cells[i])
    ensures Cells(Inner(cells)) == AllStripped(cells)
  {
    hide Cells, Padded, Unbarred, Strip;
    if |cells| == 1 {
      OneCell(cells[0]);
    } else {
      CellsOfInner(cells[1..]);
      CellsCons(cells[0], Inner(cells[1..]));
    }
  }

  lemma RowShape(e: Entry)
    ensures TableRow(e) == "|" + Inner(CellsOf(e)) + "|"
  {
    hide Padded;
    var cells := CellsOf(e);
    assert cells[1..] == [e.use, e.risk, e.setup, e.status];
    assert cells[1..][1..] == [e.risk, e.setup, e.status];
    assert cells[1..][1..][1..] == [e.setup, e.status];
    assert cells[1..][1..][1..][1..] == [e.status];
    var four := Padded(e.setup) + ("|" + Padded(e.status));
    assert Inner([e.setup, e.status]) == four;
    var three := Padded(e.risk) + ("|" + four);
    assert Inner([e.risk, e.setup, e.status]) == three;
    var two := Padded(e.use) + ("|" + three);
    assert Inner([e.use, e.risk, e.setup, e.status]) == two;
    assert Inner(cells) == Padded(e.power) + ("|" + two);
    RowText(e.power, e.use, e.risk, e.setup, e.status);
  }

  lemma NextCell(front: string, cell: string)
    ensures front + "| " + cell + " | " == front + "|" + Padded(cell) + "| "
  {
  }

  lemma LastCell(front: string, cell: string)
    ensures front + "| " + cell + " |" == front + "|" + Padded(cell) + "|"
  {
  }

  lemma Regroup(a: string, b: string, c: string, d: string, e: string)
    ensures "|" + a + "|" + b + "|" + c + "|" + d + "|" + e + "|" ==
      "|" + (a + ("|" + (b + ("|" + (c + ("|" + (d + ("|" + e)))))))) + "|"
  {
  }

  lemma RowText(a: string, b: string, c: string, d: string, e: string)
    ensures "| " + a + " | " + b + " | " + c + " | " + d + " | " + e + " |" ==
      "|" + (Padded(a) + ("|" + (Padded(b) + ("|" + (Padded(c) + ("|" + (Padded(d) + ("|" + Padded(e))))))))) + "|"
  {
    hide Padded;
    var first := "|" + Padded(a);
    NextCell("", a);
    NextCell(first, b);
    var second := first + "|" + Padded(b);
    NextCell(second, c);
    var third := second + "|" + Padded(c);
    NextCell(third, d);
    var fourth := third + "|" + Padded(d);
    LastCell(fourth, e);
    assert "" + "| " == "| " && "" + "|" + Padded(a) == first;
    Regroup(Padded(a), Padded(b), Padded(c), Padded(d), Padded(e));
  }

  lemma {:induction false} InnerEnds(cells: seq<string>)
    requires cells != []
    ensures var inner := Inner(cells); |inner| > 0 && inner[0] == ' ' && inner[|inner| - 1] == ' '
  {
    if |cells| > 1 {
      InnerEnds(cells[1..]);
    }
  }

  lemma {:induction false} InnerWithout(cells: seq<string>, bad: char -> bool)
    requires cells != [] && !bad(' ') && !bad('|')
    requires forall i, j | 0 <= i < |cells| && 0 <= j < |cells[i]| :: !bad(cells[i][j])
    ensures forall i | 0 <= i < |Inner(cells)| :: !bad(Inner(cells)[i])
  {
    if |cells| > 1 {
      InnerWithout(cells[1..], bad);
    }
  }

  lemma BarredTrims(inner: string)
    ensures Strip("|" + inner + "|") == "|" + inner + "|"
    ensures ("|" + inner + "|")[0] == '|'
  {
    var s := "|" + inner + "|";
    assert s[0] == '|' && s[|s| - 1] == '|';
    assert !IsSpace('|');
  }

  lemma BarsOff(inner: string)
    requires |inner| > 0 && inner[0] == ' ' && inner[|inner| - 1] == ' '
    ensures StripBars("|" + inner + "|") == inner
  {
    var s := "|" + inner + "|";
    var n := |inner|;
    assert s[0] == '|' && s[1] == inner[0] && s[n] == inner[n - 1] && s[n + 1] == '|';
    var start := BarsStart(s, 0);
    assert start == 1;
    assert BarsEnd(s, |s|, start) == n + 1;
    assert s[1..n + 1] == inner;
  }

  lemma ReadBack(inner: string)
    requires |inner| > 0 && inner[0] == ' ' && inner[|inner| - 1] == ' '
    ensures var row := "|" + inner + "|";
      RowOf(row) == if Contains(row, "---") || Contains(row, "Power") then [] else FromCells(Cells(inner))
  {
    hide Strip, StripBars, Cells, FindFrom, FromCells;
    BarredTrims(inner);
    BarsOff(inner);
  }

  /** The reader takes a row for a table head or rule if it holds one of two words. */
  predicate Listable(e: Entry) {
    !Contains(TableRow(e), "---") && !Contains(TableRow(e), "Power")
  }

  /** What the reader makes of a printed row. */
  function Shown(e: Entry): seq<Entry> {
    Rows(TableRow(e))
  }

  /** The entry with the space around its cells gone. */
  function Stripped(e: Entry): Entry {
    Entry(Strip(e.power), Strip(e.use), Strip(e.risk), Strip(e.setup), Strip(e.status))
  }

  lemma FiveCells(e: Entry)
    ensures FromCells(AllStripped(CellsOf(e))) == [Stripped(e)]
  {
    hide Strip;
    var cells := CellsOf(e);
    assert cells[1..] == [e.use, e.risk, e.setup, e.status];
    assert cells[1..][1..] == [e.risk, e.setup, e.status];
    assert cells[1..][1..][1..] == [e.setup, e.status];
    assert cells[1..][1..][1..][1..] == [e.status];
    assert AllStripped([e.status]) == [Strip(e.status)];
    assert AllStripped([e.setup, e.status]) == [Strip(e.setup), Strip(e.status)];
    assert AllStripped([e.risk, e.setup, e.status]) == [Strip(e.risk), Strip(e.setup), Strip(e.status)];
  }

  /**
   A printed row reads back without the space around its cells, exactly when the reader does
   not skip it; so it reads back as the very entry exactly when the cells are trimmed besides.
   */
  lemma RowRoundTrip(e: Entry)
    requires PlainEntry(e)
    ensures Shown(e) == (if Listable(e) then [Stripped(e)] else [])
    ensures Shown(e) == [e] <==> Listable(e) && CleanEntry(e)
  {
    hide RowOf, Inner, TableRow, FindFrom, Cells, Strip, Gather;
    RowShape(e);
    RowIsOneLine(e);
    PaddingIgnored();
    GatherOneLine(TableRow(e), RowOf);
    CellsOfInner(CellsOf(e));
    FiveCells(e);
    InnerEnds(CellsOf(e));
    ReadBack(Inner(CellsOf(e)));
    StripTrimmed(e.power);
    StripTrimmed(e.use);
    StripTrimmed(e.risk);
    StripTrimmed(e.setup);
    StripTrimmed(e.status);
  }

  /** A row as it stands in the file: five cells between bars, power, use, risk, setup and status in this order. */
  lemma WrittenRow(power: string, use: string, risk: string, setup: string, status: string)
    requires Unbarred(power) && Unbarred(use) && Unbarred(risk) && Unbarred(setup) && Unbarred(status)
    ensures
      var row := "| " + power + " | " + use + " | " + risk + " | " + setup + " | " + status + " |";
      && row == TableRow(Entry(power, use, risk, setup, status))
      && Rows(row) ==
           if Contains(row, "---") || Contains(row, "Power") then []
           else [Entry(Strip(power), Strip(use), Strip(risk), Strip(setup), Strip(status))]
  {
    hide Rows, Strip, FindFrom, Unbarred;
    RowRoundTrip(Entry(power, use, risk, setup, status));
  }

  /** A line that does not start with a bar shows nothing, whatever bars it holds. */
  lemma ProseShowsNothing(line: string)
    requires forall i | 0 <= i < |line| :: !IsBreak(line[i])
    requires Strip(line) == "" || Strip(line)[0] != '|'
    ensures Rows(line) == []
  {
    hide Strip, Cells, StripBars, FindFrom;
    PaddingIgnored();
    GatherOneLine(line, RowOf);
  }

  predicate IsNewline(c: char) {
    c == '\n'
  }

  lemma PlainIsSingleLine(e: Entry)
    requires PlainEntry(e)
    ensures SingleLine(e)
  {
  }

  lemma RowIsOneLine(e: Entry)
    requires SingleLine(e) || PlainEntry(e)
    ensures var row := TableRow(e);
      row != "" && row[0] == '|' && row[|row| - 1] == '|' && OneLine(row)
      && (PlainEntry(e) ==> forall i | 0 <= i < |row| :: !IsBreak(row[i]))
  {
    hide Inner, TableRow;
    RowShape(e);
    InnerWithout(CellsOf(e), IsNewline);
    if PlainEntry(e) {
      InnerWithout(CellsOf(e), IsBreak);
    }
  }

  // ---------------------------------------------------------------- padding does not matter

  lemma RowOfPadded(line: string, c: char)
    requires IsSpace(c)
    ensures RowOf(line + [c]) == RowOf(line)
  {
    hide LStrip, Cells, StripBars, FindFrom;
    RStripStep(line + [c]);
    assert (line + [c])[..|line|] == line;
    ContainsExtended(line, c, "---");
    ContainsExtended(line, c, "Power");
  }

  lemma PaddingIgnored()
    ensures IgnoresPadding(RowOf) && RowOf("") == []
  {
    hide RowOf;
    assert RowOf("") == [] by {
      NothingOnEmptyLine();
    }
    forall line: string, c: char | IsSpace(c) ensures RowOf(line + [c]) == RowOf(line) {
      RowOfPadded(line, c);
    }
  }

  lemma NothingOnEmptyLine()
    ensures RowOf("") == []
  {
  }

  // ---------------------------------------------------------------- the round trip

  /** With the header present, inserting a printed row adds what it shows at the end. */
  lemma InsertAppends(t: string, header: string, e: Entry)
    requires Contains(t, header) && HeaderShape(header) && SingleLine(e)
    ensures Rows(Section(InsertInto(t, header, TableRow(e)), header)) == Rows(Section(t, header)) + Shown(e)
  {
    hide RowOf, Gather, Section, InsertInto, TableRow, RStrip, SingleLine, Contains;
    var row, a := TableRow(e), RStrip(Section(t, header));
    RowIsOneLine(e);
    SectionAfterInsert(t, header, row);
    PaddingIgnored();
    GatherSplit(a, '\n', row, RowOf);
    GatherStripped(Section(t, header), RowOf);
    GatherTrailingSpace(a + "\n" + row, '\n', RowOf);
  }

  /** No line of an empty table starts a section. */
  lemma TwoLinesNoHeader(head: string, rule: string)
    requires head != "" && head[0] == '|' && OneLine(head)
    requires rule != "" && rule[0] == '|' && OneLine(rule)
    ensures NoHeaderIn("\n\n" + head + "\n" + rule + "\n")
  {
    var table := "\n\n" + head + "\n" + rule + "\n";
    forall i: nat ensures !At(table, NEXT_HEADER, i) {
      if At(table, NEXT_HEADER, i) {
        HeaderStart(table, i);
      }
    }
  }

  lemma HeadingsPlain()
    ensures PlainEntry(HEADINGS)
  {
    LongHeading();
  }

  lemma LongHeading()
    ensures Unbarred(LONG_HEADING)
  {
  }

  lemma PowerLeads(b: string, c: string, d: string, e: string)
    ensures Contains(TableRow(Entry("Power", b, c, d, e)), "Power")
  {
    var row := TableRow(Entry("Power", b, c, d, e));
    assert row[2..7] == "Power";
    ContainsAt(row, "Power", 2);
  }

  lemma TableHead()
    ensures TABLE_HEAD != "" && TABLE_HEAD[0] == '|' && OneLine(TABLE_HEAD) && RowOf(TABLE_HEAD) == []
    ensures forall i | 0 <= i < |TABLE_HEAD| :: !IsBreak(TABLE_HEAD[i])
  {
    hide RowOf, TableRow, PlainEntry, FindFrom, Gather;
    HeadingsPlain();
    RowIsOneLine(HEADINGS);
    RowRoundTrip(HEADINGS);
    PaddingIgnored();
    GatherOneLine(TABLE_HEAD, RowOf);
    PowerLeads("Use", "Risk", LONG_HEADING, "Status");
  }

  lemma TableRule()
    ensures TABLE_RULE[0] == '|' && OneLine(TABLE_RULE) && RowOf(TABLE_RULE) == []
    ensures forall i | 0 <= i < |TABLE_RULE| :: !IsBreak(TABLE_RULE[i])
  {
    RuleIsOneLine();
    RuleIsSkipped();
  }

  lemma RuleIsOneLine()
    ensures forall i | 0 <= i < |TABLE_RULE| :: TABLE_RULE[i] == '|' || TABLE_RULE[i] == '-'
  {
  }

  lemma RuleIsSkipped()
    ensures RowOf(TABLE_RULE) == []
  {
    hide Strip, Cells, StripBars, FromCells, FindFrom;
    assert At(TABLE_RULE, "---", 1);
    ContainsAt(TABLE_RULE, "---", 1);
  }

  /** The empty table holds no rows and no header. */
  lemma EmptyTable()
    ensures Rows(EMPTY_TABLE) == [] && NoHeaderIn(EMPTY_TABLE)
  {
    hide RowOf, TableRow, Gather;
    TableHead();
    TableRule();
    PaddingIgnored();
    GatherTwoLines(TABLE_HEAD, TABLE_RULE, RowOf);
    TwoLinesNoHeader(TABLE_HEAD, TABLE_RULE);
  }

  /** A missing section is added with an empty table. */
  lemma AddedSection(text: string, header: string)
    requires HeaderShape(header) && !Contains(text, header)
    ensures var t := WithSection(text, header);
      Contains(t, header) && Section(t, header) == EMPTY_TABLE
  {
    hide RStrip, FindFrom, TableRow, RowOf;
    NotInStripped(text, header);
    HeaderFirst(RStrip(text) + "\n\n", header, EMPTY_TABLE);
    EmptyTable();
  }

  lemma NoSectionNoRows(text: string, header: string)
    requires !Contains(text, header)
    ensures Rows(Section(text, header)) == []
  {
    hide RowOf;
    PaddingIgnored();
    GatherOneLine("", RowOf);
  }

  /** Inserting a printed row lists the rows that were there, in order, and then exactly the new
      entry, unless the reader skips its row. */
  lemma LedgerRoundTrip(text: string, header: string, e: Entry)
    requires HeaderShape(header) && SingleLine(e)
    ensures Rows(Section(InsertRow(text, header, TableRow(e)), header)) == Rows(Section(text, header)) + Shown(e)
  {
    hide Rows, Section, InsertInto, TableRow, RStrip, SingleLine, Contains;
    if !Contains(text, header) {
      AddedSection(text, header);
      EmptyTable();
      NoSectionNoRows(text, header);
    }
    InsertAppends(WithSection(text, header), header, e);
  }

  // ---------------------------------------------------------------- the other sections

  /** Where a header can begin in a text and the space behind it: inside the text, or with its last three characters. */
  lemma HeaderAtPad(k: string, pad: string, j: nat)
    requires forall i | 0 <= i < |pad| :: IsSpace(pad[i])
    requires At(k + pad, NEXT_HEADER, j) && NoHeaderIn(k)
    ensures j + 3 == |k| && k == k[..j] + "\n" + "##"
  {
    var s := k + pad;
    CharAt(s, NEXT_HEADER, j, 0);
    CharAt(s, NEXT_HEADER, j, 1);
    CharAt(s, NEXT_HEADER, j, 2);
    if j + 4 <= |k| {
      AtPrefix(k, s, NEXT_HEADER, j);
    }
  }

  lemma BlockBeforeHeader(k: string, rest: string)
    requires NoHeaderIn(k) && At(rest, NEXT_HEADER, 0) && (k == "" || !IsSpace(k[|k| - 1]))
    ensures Block(k + "\n" + rest) == k + "\n"
  {
    var s, n := k + "\n" + rest, |k| + 1;
    assert s[n..n + 4] == rest[0..4];
    HeaderStart(rest, 0);
    forall j: nat | j < n ensures !At(s, NEXT_HEADER, j) {
      if At(s, NEXT_HEADER, j) {
        CharAt(s, NEXT_HEADER, j, 0);
        CharAt(s, NEXT_HEADER, j, 1);
        CharAt(s, NEXT_HEADER, j, 2);
        CharAt(s, NEXT_HEADER, j, 3);
        if j + 4 <= |k| {
          AtPrefix(k, s, NEXT_HEADER, j);
        }
      }
    }
    FindIs(s, NEXT_HEADER, n);
    assert s[..n] == k + "\n";
  }

  /** A block cut at a new header shows what it showed when only space followed. */
  lemma SameRowsBefore(k: string, pad: string, rest: string)
    requires At(rest, NEXT_HEADER, 0) && (k == "" || !IsSpace(k[|k| - 1]))
    requires forall i | 0 <= i < |pad| :: IsSpace(pad[i])
    ensures Rows(Block(k + "\n" + rest)) == Rows(Block(k + pad))
  {
    hide RowOf, Gather, At, FindFrom;
    PaddingIgnored();
    var m := Find(k, NEXT_HEADER);
    if m.Some? {
      InsideBoth(k, "\n" + rest, m.value);
      InsideBoth(k, pad, m.value);
      AppendAssociates(k, "\n", rest);
    } else {
      BlockBeforeHeader(k, rest);
      GatherTrailingSpace(k, '\n', RowOf);
      var j := Find(k + pad, NEXT_HEADER);
      if j.None? {
        GatherStripped(k + pad, RowOf);
        RStripPadded(k, pad);
      } else {
        HeaderAtPad(k, pad, j.value);
        assert (k + pad)[..j.value] == k[..j.value];
        HashesShowNothing();
        GatherSplit(k[..j.value], '\n', "##", RowOf);
        assert Rows(k[..j.value]) + [] == Rows(k[..j.value]);
      }
    }
  }

  lemma InsideBoth(k: string, after: string, m: nat)
    requires Find(k, NEXT_HEADER) == Some(m)
    ensures Block(k + after) == k[..m]
  {
    SameFirst(k, k + after, NEXT_HEADER, m);
  }

  lemma HashesShowNothing()
    ensures Rows("##") == []
  {
    hide Cells, StripBars, FindFrom;
    GatherOneLine("##", RowOf);
    StripTrimmed("##");
  }

  /** Adding the missing section and its first row leaves the rows of every other section, and ends it before. */
  lemma FirstInsertionKeeps(text: string, header: string, row: string, other: string)
    requires HeaderShape(header) && At(header, "## ", 0) && HeaderShape(other)
    requires !Contains(text, header) && Contains(text, other)
    ensures var u := InsertRow(text, header, row);
      Rows(Section(u, other)) == Rows(Section(text, other)) && Earlier(u, header, other)
  {
    hide InsertInto, Gather, RowOf, TableRow, RStrip, FindFrom, Section;
    AddedSection(text, header);
    SectionAdded(text, header, other);
    EarlierSectionKept(WithSection(text, header), header, row, other);
  }

  lemma SectionAdded(text: string, header: string, other: string)
    requires HeaderShape(header) && At(header, "## ", 0) && HeaderShape(other)
    requires !Contains(text, header) && Contains(text, other)
    ensures var t := WithSection(text, header);
      Rows(Section(t, other)) == Rows(Section(text, other)) && Earlier(t, header, other)
  {
    hide Rows, TableRow, RStrip, FindFrom, Section;
    var k, p := RStrip(text), Find(text, other).value;
    CharAt(text, other, p, |other| - 1);
    RStripKeeps(text, p + |other|);
    NotInStripped(text, header);
    HeaderFirst(k + "\n\n", header, EMPTY_TABLE);
    TableAppended(text, k, header, EMPTY_TABLE, other, p);
  }

  lemma TableAppended(text: string, k: string, header: string, table: string, other: string, p: nat)
    requires k == RStrip(text) && At(header, "## ", 0) && |header| >= 3
    requires Find(text, other) == Some(p) && p + |other| <= |k|
    requires Find(k + "\n\n" + header + table, header) == Some(|k| + 2)
    ensures var t := k + "\n\n" + header + table;
      Rows(Section(t, other)) == Rows(Section(text, other)) && Earlier(t, header, other)
  {
    hide Rows, RStrip, FindFrom, Block, At;
    var cut, rest, t := p + |other|, "\n" + header + table, k + "\n\n" + header + table;
    PaddingBehind(text, cut);
    var k2, pad := k[cut..], text[|k|..];
    HeaderWithNewline(header, table);
    TwoNewlines(k, header, table, cut);
    SameFirst(text, t, other, p);
    SameRowsBefore(k2, pad, rest);
    LaterBoundary(k + "\n", header + table, cut);
  }

  lemma TwoNewlines(k: string, header: string, table: string, cut: nat)
    requires cut <= |k|
    ensures var t := k + "\n\n" + header + table;
      t[cut..] == k[cut..] + "\n" + ("\n" + header + table) && k[..cut] <= t
      && t == k + "\n" + "\n" + (header + table)
  {
  }

  lemma PaddingBehind(text: string, cut: nat)
    requires cut <= |RStrip(text)|
    ensures var k := RStrip(text);
      && |k| <= |text| && text[cut..] == k[cut..] + text[|k|..] && text[..cut] == k[..cut]
      && (k[cut..] == "" || !IsSpace(k[cut..][|k| - cut - 1]))
      && forall i | 0 <= i < |text| - |k| :: IsSpace(text[|k|..][i])
  {
  }

  lemma HeaderWithNewline(header: string, after: string)
    requires At(header, "## ", 0)
    ensures At("\n" + header + after, NEXT_HEADER, 0) && At(header + after, "## ", 0)
  {
    assert header[0..3] == "## ";
    assert ("\n" + header + after)[0..4] == "\n" + header[0..3];
    assert (header + after)[0..3] == header[0..3];
  }
}
