/** Markdown sections: finding one, inserting a row at its end, and what that leaves alone. */
module LedgerSections {
  import opened Sequences
  import opened PythonText

  const NEXT_HEADER := "\n## "

  /** The text before the next header. */
  function Block(rest: string): string {
    match Find(rest, NEXT_HEADER)
    case None => rest
    case Some(next) => rest[..next]
  }

  function Section(text: string, header: string): string {
    match Find(text, header)
    case None => ""
    case Some(start) => Block(text[start + |header|..])
  }

  function FirstOther(s: string, n: nat): (k: nat)
    requires n <= |s|
    ensures n <= k <= |s| && (k < |s| ==> s[k] != '\n') && forall i | n <= i < k :: s[i] == '\n'
    decreases |s| - n
  {
    if n == |s| || s[n] != '\n' then n else FirstOther(s, n + 1)
  }

  /** Leading newlines only. */
  function DropNewlines(s: string): string {
    s[FirstOther(s, 0)..]
  }

  /** The next header at or after `from`, or the end of the text. */
  function SectionEnd(t: string, from: nat): (at: nat)
    ensures at <= |t|
  {
    match FindFrom(t, NEXT_HEADER, from)
    case None => |t|
    case Some(next) => next
  }

  function InsertAt(t: string, at: nat, row: string): string
    requires at <= |t|
  {
    RStrip(t[..at]) + "\n" + row + "\n" + DropNewlines(t[at..])
  }

  function InsertInto(t: string, header: string, row: string): string
    requires Contains(t, header)
  {
    InsertAt(t, SectionEnd(t, Find(t, header).value + |header|), row)
  }

  // ---------------------------------------------------------------- occurrences

  predicate OneLine(s: string) {
    forall i | 0 <= i < |s| :: s[i] != '\n'
  }

  predicate HeaderShape(h: string) {
    h != "" && OneLine(h) && !IsSpace(h[|h| - 1])
  }

  ghost predicate NoHeaderIn(s: string) {
    forall i: nat :: !At(s, NEXT_HEADER, i)
  }

  lemma CharAt(s: string, pattern: string, j: nat, k: nat)
    requires At(s, pattern, j) && k < |pattern|
    ensures j + k < |s| && s[j + k] == pattern[k]
  {
    assert s[j..j + |pattern|][k] == s[j + k];
  }

  lemma HeaderStart(s: string, i: nat)
    requires At(s, NEXT_HEADER, i)
    ensures i + 4 <= |s| && s[i] == '\n' && s[i + 1] == '#'
  {
    CharAt(s, NEXT_HEADER, i, 0);
    CharAt(s, NEXT_HEADER, i, 1);
  }

  lemma CrossesNoNewline(s: string, pattern: string, j: nat, m: nat)
    requires OneLine(pattern) && At(s, pattern, j) && j <= m < j + |pattern|
    ensures s[m] != '\n'
  {
    CharAt(s, pattern, j, m - j);
  }

  /** Whether a pattern stands at `j` depends on the text up to its end only. */
  lemma AtPrefix(s: string, t: string, pattern: string, j: nat)
    requires j + |pattern| <= |s| && s <= t
    ensures At(s, pattern, j) == At(t, pattern, j)
  {
  }

  /** In a shared suffix a pattern stands at corresponding places. */
  lemma AtSuffix(s: string, front: nat, t: string, skip: nat, pattern: string, j: nat)
    requires front <= |s| && skip <= |t| && s[front..] == t[skip..] && front <= j
    ensures At(s, pattern, j) == At(t, pattern, j - front + skip)
  {
    var shared, from := s[front..], j - front;
    if j + |pattern| <= |s| {
      assert shared[from..from + |pattern|] == s[j..j + |pattern|];
    }
  }

  lemma FindIs(t: string, pattern: string, k: nat)
    requires At(t, pattern, k) && forall j: nat | j < k :: !At(t, pattern, j)
    ensures Find(t, pattern) == Some(k)
  {
  }

  /** Texts that share everything through the pattern's first occurrence find it at the same place. */
  lemma SameFirst(s: string, t: string, pattern: string, k: nat)
    requires Find(s, pattern) == Some(k) && s[..k + |pattern|] <= t
    ensures Find(t, pattern) == Some(k)
  {
    var shared := s[..k + |pattern|];
    forall j: nat | j <= k ensures At(t, pattern, j) == At(s, pattern, j) {
      AtPrefix(shared, s, pattern, j);
      AtPrefix(shared, t, pattern, j);
    }
    FindIs(t, pattern, k);
  }

  /** Searching from a position is searching the rest. */
  lemma FindShift(t: string, pattern: string, from: nat)
    requires from <= |t|
    ensures var r := Find(t[from..], pattern);
      FindFrom(t, pattern, from) == if r.Some? then Some(from + r.value) else None
  {
    var rest := t[from..];
    assert rest[0..] == rest;
    forall j: nat | from <= j ensures At(t, pattern, j) == At(rest, pattern, j - from) {
      AtSuffix(t, from, rest, 0, pattern, j);
    }
    FoundFrom(t, pattern, from, rest);
  }

  lemma FoundFrom(t: string, pattern: string, from: nat, rest: string)
    requires forall j: nat | from <= j :: At(t, pattern, j) == At(rest, pattern, j - from)
    ensures var r := Find(rest, pattern);
      FindFrom(t, pattern, from) == if r.Some? then Some(from + r.value) else None
  {
    var r, f := Find(rest, pattern), FindFrom(t, pattern, from);
    if r.Some? {
      assert At(t, pattern, from + r.value);
    }
    if f.Some? {
      assert At(rest, pattern, f.value - from);
    }
  }

  // ---------------------------------------------------------------- the text of an insertion

  lemma RStripConcat(a: string, b: string)
    requires a != "" && !IsSpace(a[|a| - 1])
    ensures RStrip(a + b) == a + RStrip(b)
  {
    var k := KeptEnd(b, |b|);
    RStripIs(a + b, |a| + k);
    assert (a + b)[..|a| + k] == a + b[..k];
  }

  /** What follows an inserted row: nothing, or the next header without its newline. */
  predicate TailShape(tail: string) {
    tail == "" || At(tail, "## ", 0)
  }

  /** In `a`, row and tail, the next header stands exactly where the tail begins. */
  lemma NoHeaderBefore(a: string, row: string, tail: string, j: nat)
    requires NoHeaderIn(a)
    requires row != "" && row[0] == '|' && OneLine(row)
    requires j < |a| + 1 + |row|
    ensures !At(a + "\n" + row + "\n" + tail, NEXT_HEADER, j)
  {
    var body := a + "\n" + row + "\n" + tail;
    if At(body, NEXT_HEADER, j) {
      HeaderStart(body, j);
      if j + 4 <= |a| {
        AtPrefix(a, body, NEXT_HEADER, j);
      } else if j < |a| {
        CharAt(body, NEXT_HEADER, j, |a| - j);
      }
    }
  }

  lemma HeaderAtTail(a: string, row: string, tail: string)
    requires NoHeaderIn(a)
    requires row != "" && row[0] == '|' && OneLine(row) && TailShape(tail)
    ensures
      var body := a + "\n" + row + "\n" + tail;
      Find(body, NEXT_HEADER) == if tail == "" then None else Some(|a| + 1 + |row|)
  {
    var body, front := a + "\n" + row + "\n" + tail, a + "\n" + row;
    var k := |front|;
    forall j: nat | j < k ensures !At(body, NEXT_HEADER, j) {
      NoHeaderBefore(a, row, tail, j);
    }
    if tail == "" {
      assert |body| == k + 1;
    } else {
      assert body == front + ("\n" + tail);
      DropPrefix(front, "\n" + tail);
      AtSuffix(body, k, "\n" + tail, 0, NEXT_HEADER, k);
      FindIs(body, NEXT_HEADER, k);
    }
  }

  /** A header's newline is dropped with the text it follows. */
  lemma AfterHeader(t: string)
    requires At(t, NEXT_HEADER, 0)
    ensures t[0] == '\n' && DropNewlines(t) == t[1..] && At(t[1..], "## ", 0)
  {
    HeaderStart(t, 0);
    assert t[1..][0..3] == t[0..4][1..];
  }

  /** A section ends before the next header, which starts what follows. */
  lemma SectionSplits(rest: string) returns (after: string)
    ensures rest == Block(rest) + after && NoHeaderIn(Block(rest))
    ensures Find(rest, NEXT_HEADER) == if after == "" then None else Some(|Block(rest)|)
    ensures TailShape(DropNewlines(after))
  {
    var next := Find(rest, NEXT_HEADER);
    if next.None? {
      after := "";
      assert rest == rest + "";
    } else {
      var k := next.value;
      after := rest[k..];
      assert after[0..] == after;
      AtSuffix(rest, k, after, 0, NEXT_HEADER, k);
      AfterHeader(after);
      forall i: nat ensures !At(rest[..k], NEXT_HEADER, i) {
        if i + 4 <= k {
          AtPrefix(rest[..k], rest, NEXT_HEADER, i);
        }
      }
    }
  }

  lemma InsertPlace(t: string, header: string, row: string, start: nat, block: string, after: string)
    requires Find(t, header) == Some(start) && t[start + |header|..] == block + after
    requires Find(t[start + |header|..], NEXT_HEADER) == if after == "" then None else Some(|block|)
    ensures InsertInto(t, header, row) ==
      RStrip(t[..start + |header|] + block) + "\n" + row + "\n" + DropNewlines(after)
  {
    hide RStrip, DropNewlines, FindFrom;
    var cut := start + |header|;
    assert SectionEnd(t, cut) == cut + |block| by {
      FindShift(t, NEXT_HEADER, cut);
    }
    DropPrefix(block, after);
    TakeThrough(t, cut, block);
  }

  /** What an insertion leaves: the text through the header, the stripped section, the row and the rest. */
  lemma InsertedText(t: string, header: string, row: string) returns (start: nat, tail: string)
    requires Contains(t, header) && HeaderShape(header)
    ensures Find(t, header) == Some(start) && start + |header| <= |t|
    ensures TailShape(tail) && NoHeaderIn(Section(t, header))
    ensures InsertInto(t, header, row) ==
      t[..start + |header|] + (RStrip(Section(t, header)) + "\n" + row + "\n" + tail)
  {
    hide RStrip, FindFrom, DropNewlines, InsertInto;
    start := Find(t, header).value;
    var block := Section(t, header);
    var after := SectionSplits(t[start + |header|..]);
    tail := DropNewlines(after);
    InsertPlace(t, header, row, start, block, after);
    var before := t[..start + |header|];
    RStripConcat(before, block);
  }

  lemma NoHeaderStripped(s: string)
    requires NoHeaderIn(s)
    ensures NoHeaderIn(RStrip(s))
  {
    forall i: nat ensures !At(RStrip(s), NEXT_HEADER, i) {
      if At(RStrip(s), NEXT_HEADER, i) {
        AtPrefix(RStrip(s), s, NEXT_HEADER, i);
      }
    }
  }

  /** After an insertion the section is the old one, stripped, and the row. */
  lemma SectionAfterInsert(t: string, header: string, row: string)
    requires Contains(t, header) && HeaderShape(header)
    requires row != "" && row[0] == '|' && OneLine(row)
    ensures var section := Section(InsertInto(t, header, row), header);
      var grown := RStrip(Section(t, header)) + "\n" + row;
      section == grown || section == grown + "\n"
  {
    hide RStrip, FindFrom, Block, InsertInto;
    var start, tail := InsertedText(t, header, row);
    var before, a := t[..start + |header|], RStrip(Section(t, header));
    var body := a + "\n" + row + "\n" + tail;
    NoHeaderStripped(Section(t, header));
    HeaderAtTail(a, row, tail);
    DropPrefix(before, body);
    SameFirst(t, before + body, header, start);
    assert Section(before + body, header) == Block(body);
    BlockOfGrown(a + "\n" + row, tail);
  }

  lemma BlockOfGrown(grown: string, tail: string)
    requires Find(grown + "\n" + tail, NEXT_HEADER) == if tail == "" then None else Some(|grown|)
    ensures Block(grown + "\n" + tail) == grown || Block(grown + "\n" + tail) == grown + "\n"
  {
    if tail == "" {
      assert grown + "\n" + tail == grown + "\n";
    } else {
      assert (grown + "\n" + tail)[..|grown|] == grown;
    }
  }

  // ---------------------------------------------------------------- a text without the section

  /** A header that starts a line of its own is found there if it does not occur before. */
  lemma HeaderFirst(a: string, header: string, rest: string)
    requires HeaderShape(header) && !Contains(a, header) && a != "" && a[|a| - 1] == '\n'
    ensures Find(a + header + rest, header) == Some(|a|)
    ensures (a + header + rest)[|a| + |header|..] == rest
  {
    var t := a + header + rest;
    assert t[|a|..|a| + |header|] == header;
    forall j: nat | j < |a| ensures !At(t, header, j) {
      if At(t, header, j) {
        if j + |header| <= |a| {
          AtPrefix(a, t, header, j);
          ContainsAt(a, header, j);
        } else {
          CrossesNoNewline(t, header, j, |a| - 1);
        }
      }
    }
    FindIs(t, header, |a|);
  }

  lemma NotInStripped(text: string, header: string)
    requires HeaderShape(header) && !Contains(text, header)
    ensures !Contains(RStrip(text) + "\n\n", header)
  {
    var kept := RStrip(text);
    var a := kept + "\n\n";
    if Contains(a, header) {
      var i := Find(a, header).value;
      if i + |header| <= |kept| {
        AtPrefix(kept, a, header, i);
        AtPrefix(kept, text, header, i);
        ContainsAt(text, header, i);
      } else {
        CharAt(a, header, i, |header| - 1);
      }
    }
  }

  // ---------------------------------------------------------------- the other sections

  lemma BlockLocal(rest: string, u: string, m: nat)
    requires At(rest, NEXT_HEADER, m) && rest[..m + 4] <= u
    ensures Block(u) == Block(rest)
  {
    var n := Find(rest, NEXT_HEADER).value;
    assert n <= m;
    var shared := rest[..m + 4];
    assert shared <= rest;
    SameFirst(rest, u, NEXT_HEADER, n);
  }

  /** A section depends on the text up to the header after it only. */
  lemma SectionLocal(t: string, u: string, cut: nat, other: string, p: nat, q: nat)
    requires cut <= |t| && t[..cut] <= u && Find(t, other) == Some(p)
    requires At(t, NEXT_HEADER, q) && p + |other| <= q && q + 4 <= cut
    ensures Section(u, other) == Section(t, other)
  {
    hide FindFrom, Block, At;
    var from := p + |other|;
    assert t[0..] == t && u[0..] == u;
    SameFirst(t, u, other, p);
    AtSuffix(t, from, t[from..], 0, NEXT_HEADER, q);
    BlockLocal(t[from..], u[from..], q - from);
  }

  /** The other section ends before the header does. */
  predicate Earlier(t: string, header: string, other: string) {
    Contains(t, header) && Contains(t, other)
    && SectionEnd(t, Find(t, other).value + |other|) + 4 <= Find(t, header).value + |header|
  }

  /** The other section starts where the header's section ends, or behind. */
  predicate Later(t: string, header: string, other: string) {
    Contains(t, header) && Contains(t, other)
    && SectionEnd(t, Find(t, header).value + |header|) <= Find(t, other).value
  }

  /** What stands before the end of a shared prefix is the same in both texts. */
  lemma EarlierLocal(t: string, u: string, header: string, other: string)
    requires Earlier(t, header, other) && t[..Find(t, header).value + |header|] <= u
    ensures Earlier(u, header, other) && Section(u, other) == Section(t, other)
  {
    hide Block;
    var start, p := Find(t, header).value, Find(t, other).value;
    var cut, q := start + |header|, SectionEnd(t, p + |other|);
    assert At(t, NEXT_HEADER, q);
    SectionLocal(t, u, cut, other, p, q);
    SameFirst(t, u, header, start);
    assert t[..p + |other|] <= t[..cut];
    SameFirst(t, u, other, p);
    AtPrefix(t[..cut], t, NEXT_HEADER, q);
    AtPrefix(t[..cut], u, NEXT_HEADER, q);
  }

  /** A section that ends before the header is untouched, and still ends before it. */
  lemma EarlierSectionKept(t: string, header: string, row: string, other: string)
    requires HeaderShape(header) && Earlier(t, header, other)
    ensures Section(InsertInto(t, header, row), other) == Section(t, other)
    ensures Earlier(InsertInto(t, header, row), header, other)
  {
    hide RStrip, FindFrom, Section, InsertInto, SectionEnd;
    var start, tail := InsertedText(t, header, row);
    DropPrefix(t[..start + |header|], RStrip(Section(t, header)) + "\n" + row + "\n" + tail);
    EarlierLocal(t, InsertInto(t, header, row), header, other);
  }

  /** Where a one-line pattern can stand in a text made of a prefix, a row and a tail. */
  lemma NotInFront(x: string, row: string, tail: string, other: string, j: nat)
    requires OneLine(other) && other != ""
    requires forall i: nat :: !At(x, other, i)
    requires !Contains(row, other)
    requires j < |x| + |row| + 2
    ensures !At(x + "\n" + row + "\n" + tail, other, j)
  {
    var s := x + "\n" + row + "\n" + tail;
    var end := j + |other|;
    if At(s, other, j) {
      if end <= |x| {
        AtPrefix(x, s, other, j);
      } else if j <= |x| {
        CrossesNoNewline(s, other, j, |x|);
      } else if end <= |x| + 1 + |row| {
        assert s[j..end] == row[j - |x| - 1..end - |x| - 1];
        ContainsAt(row, other, j - |x| - 1);
      } else {
        CrossesNoNewline(s, other, j, |x| + 1 + |row|);
      }
    }
  }

  /** A section found in a shared suffix is the same in both texts. */
  lemma SectionShifts(s: string, front: nat, t: string, skip: nat, other: string, p: nat)
    requires front <= |s| && skip <= p && p <= |t| && s[front..] == t[skip..]
    requires Find(t, other) == Some(p) && forall j: nat | j < front :: !At(s, other, j)
    ensures Section(s, other) == Section(t, other) && Find(s, other) == Some(front + (p - skip))
  {
    hide Block, FindFrom;
    var k := front + (p - skip);
    forall j: nat | front <= j <= k ensures At(s, other, j) == At(t, other, j - front + skip) {
      AtSuffix(s, front, t, skip, other, j);
    }
    FindIs(s, other, k);
    DropSuffix(s, front, k + |other|);
    DropSuffix(t, skip, p + |other|);
  }

  /** With the other section behind, an insertion leaves everything from the next header on as it was. */
  lemma InsertedBefore(t: string, header: string, row: string, other: string) returns (x: string, end: nat)
    requires HeaderShape(header) && HeaderShape(other) && Later(t, header, other)
    ensures end == SectionEnd(t, Find(t, header).value + |header|) && end < |t| && t[end] == '\n'
    ensures x <= t[..end] && Find(t, header).value + |header| <= |x| && At(t[end + 1..], "## ", 0)
    ensures InsertInto(t, header, row) == x + "\n" + row + "\n" + t[end + 1..]
  {
    hide RStrip, At, DropNewlines;
    var p, cut := Find(t, other).value, Find(t, header).value + |header|;
    end := SectionEnd(t, cut);
    x := RStrip(t[..end]);
    CharAt(t, other, p, 0);
    InsertAtHeader(t, end, row);
    CharAt(t, header, cut - |header|, |header| - 1);
    RStripKeeps(t[..end], cut);
  }

  lemma InsertAtHeader(t: string, end: nat, row: string)
    requires end < |t| && At(t, NEXT_HEADER, end)
    ensures t[end] == '\n' && At(t[end + 1..], "## ", 0)
    ensures InsertAt(t, end, row) == RStrip(t[..end]) + "\n" + row + "\n" + t[end + 1..]
  {
    hide RStrip, DropNewlines;
    var after := t[end..];
    assert after[0..] == after;
    AtSuffix(t, end, after, 0, NEXT_HEADER, end);
    AfterHeader(after);
    assert after[1..] == t[end + 1..];
  }

  lemma RStripKeeps(s: string, n: nat)
    requires 0 < n <= |s| && !IsSpace(s[n - 1])
    ensures n <= |RStrip(s)| && RStrip(s) <= s
  {
  }

  /** A section that starts after the insertion is untouched if the new row does not quote its header,
      and still starts after it. */
  lemma LaterSectionKept(t: string, header: string, row: string, other: string)
    requires HeaderShape(header) && HeaderShape(other) && Later(t, header, other) && !Contains(row, other)
    ensures Section(InsertInto(t, header, row), other) == Section(t, other)
    ensures Later(InsertInto(t, header, row), header, other)
  {
    hide Section, InsertInto, FindFrom, RStrip;
    var p, start := Find(t, other).value, Find(t, header).value;
    var x, end := InsertedBefore(t, header, row, other);
    LaterFront(x, row, t, end, other, p);
    LaterBoundary(x + "\n" + row, t[end + 1..], start + |header|);
    assert t[..start + |header|] <= x;
    SameFirst(t, x + "\n" + row + "\n" + t[end + 1..], header, start);
  }

  lemma LaterBoundary(front: string, tail: string, from: nat)
    requires from <= |front| && At(tail, "## ", 0)
    ensures SectionEnd(front + "\n" + tail, from) <= |front|
  {
    var u, k := front + "\n" + tail, |front|;
    assert tail[0..3] == "## ";
    assert u[k..] == "\n" + tail;
    assert u[k..k + 4] == NEXT_HEADER;
    assert At(u, NEXT_HEADER, k);
  }

  lemma NotBefore(x: string, t: string, end: nat, other: string, p: nat)
    requires Find(t, other) == Some(p) && end <= p && end <= |t| && x <= t[..end]
    requires HeaderShape(other)
    ensures forall i: nat :: !At(x, other, i)
  {
    forall i: nat ensures !At(x, other, i) {
      if At(x, other, i) {
        AtPrefix(x, t, other, i);
      }
    }
  }

  lemma LaterFront(x: string, row: string, t: string, end: nat, other: string, p: nat)
    requires HeaderShape(other) && Find(t, other) == Some(p) && end <= p && end < |t| && t[end] == '\n'
    requires x <= t[..end] && !Contains(row, other)
    ensures var u := x + "\n" + row + "\n" + t[end + 1..];
      Section(u, other) == Section(t, other) && Find(u, other) == Some(|x| + |row| + 2 + (p - end - 1))
  {
    hide FindFrom, Section, Contains;
    CrossesNoNewline(t, other, p, p);
    var front, tail := x + "\n" + row + "\n", t[end + 1..];
    DropPrefix(front, tail);
    NotBefore(x, t, end, other, p);
    forall j: nat | j < |front| ensures !At(front + tail, other, j) {
      NotInFront(x, row, tail, other, j);
    }
    SectionShifts(front + tail, |front|, t, end + 1, other, p);
  }

  /** The header fills the rest of its line. */
  predicate EndsItsLine(t: string, other: string)
    requires Contains(t, other)
  {
    var cut := Find(t, other).value + |other|;
    cut == |t| || t[cut] == '\n'
  }

  /** For a header that fills its line, not being quoted by the row is exactly what keeps a later section. */
  lemma LaterSectionExactly(t: string, header: string, row: string, other: string)
    requires HeaderShape(header) && HeaderShape(other) && Later(t, header, other) && EndsItsLine(t, other)
    requires OneLine(row) && row != "" && row[|row| - 1] == '|' && other[|other| - 1] != '|'
    ensures Section(InsertInto(t, header, row), other) == Section(t, other) <==> !Contains(row, other)
  {
    hide Section, InsertInto, FindFrom, RStrip;
    if Contains(row, other) {
      var x, end := InsertedBefore(t, header, row, other);
      NotBefore(x, t, end, other, Find(t, other).value);
      QuotedSection(x, row, t[end + 1..], other);
      PlainSection(t, other);
    } else {
      LaterSectionKept(t, header, row, other);
    }
  }

  lemma BlockStart(rest: string)
    requires rest != "" && rest[0] != '\n'
    ensures Block(rest) != "" && Block(rest)[0] == rest[0]
  {
    if At(rest, NEXT_HEADER, 0) {
      HeaderStart(rest, 0);
    }
  }

  lemma PlainSection(t: string, other: string)
    requires Contains(t, other) && EndsItsLine(t, other)
    ensures Section(t, other) == "" || Section(t, other)[0] == '\n'
  {
  }

  /** A header quoted in the row is found there, and the section starts with the rest of the row. */
  lemma QuotedSection(x: string, row: string, tail: string, other: string)
    requires HeaderShape(other) && OneLine(row) && row != "" && row[|row| - 1] == '|' && other[|other| - 1] != '|'
    requires Contains(row, other) && forall i: nat :: !At(x, other, i)
    ensures var section := Section(x + "\n" + row + "\n" + tail, other);
      section != "" && section[0] != '\n'
  {
    hide Block;
    var u, i := x + "\n" + row + "\n" + tail, Find(row, other).value;
    var k, cut := |x| + 1 + i, |x| + 1 + i + |other|;
    assert u[k..cut] == row[i..i + |other|];
    forall j: nat | j < k ensures !At(u, other, j) {
      QuotedFirst(x, row, tail, other, i, j);
    }
    FindIs(u, other, k);
    CharAt(row, other, i, |other| - 1);
    assert u[cut..][0] == u[cut] == row[i + |other|];
    BlockStart(u[cut..]);
  }

  lemma QuotedFirst(x: string, row: string, tail: string, other: string, i: nat, j: nat)
    requires HeaderShape(other) && Find(row, other) == Some(i) && forall m: nat :: !At(x, other, m)
    requires j < |x| + 1 + i
    ensures !At(x + "\n" + row + "\n" + tail, other, j)
  {
    var u := x + "\n" + row + "\n" + tail;
    if At(u, other, j) {
      if j + |other| <= |x| {
        AtPrefix(x, u, other, j);
      } else if j <= |x| {
        CrossesNoNewline(u, other, j, |x|);
      } else {
        assert u[j..j + |other|] == row[j - |x| - 1..j + |other| - |x| - 1];
        assert At(row, other, j - |x| - 1);
      }
    }
  }
}
