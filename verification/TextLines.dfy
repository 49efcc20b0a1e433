/** Texts read line by line: what each line yields, gathered in order. */
module TextLines {
  import opened Sequences
  import opened PythonText

  /** The position of the first line break from `n` on, or the length. */
  function NextBreak(s: string, n: nat): (k: nat)
    requires n <= |s|
    ensures n <= k <= |s| && (k < |s| ==> IsBreak(s[k])) && forall i | n <= i < k :: !IsBreak(s[i])
    decreases |s| - n
  {
    if n == |s| || IsBreak(s[n]) then n else NextBreak(s, n + 1)
  }

  function LineEnd(s: string): (k: nat)
    ensures k <= |s| && (k < |s| ==> IsBreak(s[k])) && forall i | 0 <= i < k :: !IsBreak(s[i])
  {
    NextBreak(s, 0)
  }

  function Lines(s: string): seq<string>
    decreases |s|
  {
    if s == "" then []
    else
      var k := LineEnd(s);
      [s[..k]] + if k == |s| then [] else Lines(s[k + 1..])
  }

  function GatherLines<T>(lines: seq<string>, f: string -> seq<T>): seq<T> {
    if lines == [] then [] else f(lines[0]) + GatherLines(lines[1..], f)
  }

  /** Everything that `f` reads off the lines of a text. */
  function Gather<T>(text: string, f: string -> seq<T>): seq<T> {
    GatherLines(Lines(text), f)
  }

  /** Nothing is read off an empty line, and space at the end of a line does not matter. */
  ghost predicate IgnoresPadding<T(!new)>(f: string -> seq<T>) {
    f("") == [] && forall line: string, c: char | IsSpace(c) :: f(line + [c]) == f(line)
  }

  lemma GatherCons<T>(line: string, rest: seq<string>, f: string -> seq<T>)
    ensures GatherLines([line] + rest, f) == f(line) + GatherLines(rest, f)
  {
    assert ([line] + rest)[1..] == rest;
  }

  lemma LineEndIs(s: string, k: nat)
    requires k <= |s| && (k < |s| ==> IsBreak(s[k])) && forall i | 0 <= i < k :: !IsBreak(s[i])
    ensures LineEnd(s) == k
  {
  }

  lemma LinesUnfold(s: string, k: nat)
    requires s != "" && k == LineEnd(s)
    ensures Lines(s) == [s[..k]] + if k == |s| then [] else Lines(s[k + 1..])
  {
  }

  lemma GatherUnfold<T>(s: string, k: nat, f: string -> seq<T>)
    requires s != "" && k == LineEnd(s)
    ensures Gather(s, f) == f(s[..k]) + if k == |s| then [] else Gather(s[k + 1..], f)
  {
    hide Lines, NextBreak;
    LinesUnfold(s, k);
    GatherCons(s[..k], if k == |s| then [] else Lines(s[k + 1..]), f);
  }

  lemma GatherOneLine<T(!new)>(s: string, f: string -> seq<T>)
    requires f("") == []
    requires forall i | 0 <= i < |s| :: !IsBreak(s[i])
    ensures Gather(s, f) == f(s)
  {
    if s != "" {
      LineEndIs(s, |s|);
      GatherUnfold(s, |s|, f);
      TakeAll(s);
      assert f(s) + [] == f(s);
    }
  }

  /** A line break splits what is gathered. */
  lemma {:induction false} GatherSplit<T(!new)>(a: string, c: char, b: string, f: string -> seq<T>)
    requires IsBreak(c) && f("") == []
    ensures Gather(a + [c] + b, f) == Gather(a, f) + Gather(b, f)
    decreases |a|
  {
    var k := LineEnd(a);
    if k == |a| {
      SplitAtEnd(a, c, b, f);
    } else {
      var rest := a[k + 1..];
      SplitLater(a, c, b, k, f);
      GatherSplit(rest, c, b, f);
      GatherUnfold(a, k, f);
      AppendAssociates(f(a[..k]), Gather(rest, f), Gather(b, f));
    }
  }

  lemma SplitAtEnd<T(!new)>(a: string, c: char, b: string, f: string -> seq<T>)
    requires IsBreak(c) && f("") == [] && LineEnd(a) == |a|
    ensures Gather(a + [c] + b, f) == Gather(a, f) + Gather(b, f)
  {
    var s := a + [c] + b;
    LineEndIs(s, |a|);
    assert s[..|a|] == a && s[|a| + 1..] == b;
    GatherUnfold(s, |a|, f);
    GatherOneLine(a, f);
  }

  lemma SplitLater<T>(a: string, c: char, b: string, k: nat, f: string -> seq<T>)
    requires k < |a| && k == LineEnd(a)
    ensures Gather(a + [c] + b, f) == f(a[..k]) + Gather(a[k + 1..] + [c] + b, f)
  {
    var s, tail := a + [c] + b, [c] + b;
    AppendAssociates(a, [c], b);
    AppendAssociates(a[k + 1..], [c], b);
    InFront(a, tail, k);
    assert forall i | 0 <= i < k :: (a + tail)[i] == a[i];
    LineEndIs(s, k);
    GatherUnfold(s, k, f);
  }

  lemma {:induction false} GatherTrailingSpace<T(!new)>(s: string, c: char, f: string -> seq<T>)
    requires IsSpace(c) && IgnoresPadding(f)
    ensures Gather(s + [c], f) == Gather(s, f)
    decreases |s|
  {
    if IsBreak(c) {
      GatherSplit(s, c, "", f);
      assert s + [c] + "" == s + [c];
      assert Gather(s, f) + [] == Gather(s, f);
    } else {
      var k := LineEnd(s);
      if k == |s| {
        GatherOneLine(s, f);
        GatherOneLine(s + [c], f);
      } else {
        var front, rest := s[..k], s[k + 1..];
        GatherTrailingSpace(rest, c, f);
        GatherSplit(front, s[k], rest, f);
        GatherSplit(front, s[k], rest + [c], f);
        Around(s, k);
        AppendAssociates(front + [s[k]], rest, [c]);
      }
    }
  }

  /** Space at the end of a text carries nothing. */
  lemma {:induction false} GatherStripped<T(!new)>(s: string, f: string -> seq<T>)
    requires IgnoresPadding(f)
    ensures Gather(RStrip(s), f) == Gather(s, f)
  {
    hide KeptEnd, Gather, RStrip;
    RStripStep(s);
    if s != "" && IsSpace(s[|s| - 1]) {
      var n := |s| - 1;
      assert s == s[..n] + [s[n]];
      GatherTrailingSpace(s[..n], s[n], f);
      GatherStripped(s[..n], f);
    }
  }

  /** A table of two lines has what the two lines yield. */
  lemma GatherTwoLines<T(!new)>(head: string, rule: string, f: string -> seq<T>)
    requires IgnoresPadding(f)
    requires forall i | 0 <= i < |head| :: !IsBreak(head[i])
    requires forall i | 0 <= i < |rule| :: !IsBreak(rule[i])
    ensures Gather("\n\n" + head + "\n" + rule + "\n", f) == f(head) + f(rule)
  {
    var above := "\n\n" + head;
    assert Gather(above, f) == f(head) by {
      GatherTwoBreaks(head, f);
      GatherOneLine(head, f);
    }
    assert Gather(above + "\n" + rule, f) == Gather(above, f) + f(rule) by {
      GatherSplit(above, '\n', rule, f);
      GatherOneLine(rule, f);
    }
    GatherTrailingSpace(above + "\n" + rule, '\n', f);
  }

  lemma GatherTwoBreaks<T(!new)>(s: string, f: string -> seq<T>)
    requires f("") == []
    ensures Gather("\n\n" + s, f) == Gather(s, f)
  {
    hide Gather;
    GatherOneLine("", f);
    assert "" + ['\n'] + s == "\n" + s;
    GatherSplit("", '\n', s, f);
    assert "" + ['\n'] + ("\n" + s) == "\n\n" + s;
    GatherSplit("", '\n', "\n" + s, f);
  }
}
