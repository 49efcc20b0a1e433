/** The string operations the ledger and the chunker rely on. */
module PythonText {
  import opened Sequences

  /** The characters `str.strip` removes. */
  predicate IsSpace(c: char) {
    '\t' <= c <= '\r' || '\U{1c}' <= c <= ' ' || c == '\U{85}' || c == '\U{a0}' || c == '\U{1680}'
    || '\U{2000}' <= c <= '\U{200a}' || c == '\U{2028}' || c == '\U{2029}' || c == '\U{202f}'
    || c == '\U{205f}' || c == '\U{3000}'
  }

  /** The characters at which `str.splitlines` breaks a line; every one of them is a space. */
  predicate IsBreak(c: char) {
    '\n' <= c <= '\r' || '\U{1c}' <= c <= '\U{1e}' || c == '\U{85}' || c == '\U{2028}' || c == '\U{2029}'
  }

  /** The end of the text that stays when spaces before position `n` are cut. */
  function KeptEnd(s: string, n: nat): (k: nat)
    requires n <= |s|
    ensures k <= n && (k > 0 ==> !IsSpace(s[k - 1])) && forall i | k <= i < n :: IsSpace(s[i])
  {
    if n == 0 || !IsSpace(s[n - 1]) then n else KeptEnd(s, n - 1)
  }

  function KeptStart(s: string, n: nat): (k: nat)
    requires n <= |s|
    ensures n <= k <= |s| && (k < |s| ==> !IsSpace(s[k])) && forall i | n <= i < k :: IsSpace(s[i])
    decreases |s| - n
  {
    if n == |s| || !IsSpace(s[n]) then n else KeptStart(s, n + 1)
  }

  function RStrip(s: string): string {
    s[..KeptEnd(s, |s|)]
  }

  function LStrip(s: string): string {
    s[KeptStart(s, 0)..]
  }

  function Strip(s: string): string {
    LStrip(RStrip(s))
  }

  /** Stripped text has no space at either end. */
  predicate Trimmed(s: string) {
    s == "" || (!IsSpace(s[0]) && !IsSpace(s[|s| - 1]))
  }

  lemma RStripIs(s: string, k: nat)
    requires k <= |s| && (k > 0 ==> !IsSpace(s[k - 1])) && forall i | k <= i < |s| :: IsSpace(s[i])
    ensures RStrip(s) == s[..k]
  {
  }

  lemma RStripStep(s: string)
    ensures RStrip(s) == if s != "" && IsSpace(s[|s| - 1]) then RStrip(s[..|s| - 1]) else s
  {
    if s != "" && IsSpace(s[|s| - 1]) {
      var n := |s| - 1;
      var front := s[..n];
      var k := KeptEnd(front, n);
      RStripIs(s, k);
    } else {
      RStripIs(s, |s|);
      TakeAll(s);
    }
  }

  lemma RStripPadded(s: string, pad: string)
    requires forall i | 0 <= i < |pad| :: IsSpace(pad[i])
    requires s == "" || !IsSpace(s[|s| - 1])
    ensures RStrip(s + pad) == s
  {
    DropPrefix(s, pad);
    RStripIs(s + pad, |s|);
  }

  lemma LStripIs(s: string, k: nat)
    requires k <= |s| && (k < |s| ==> !IsSpace(s[k])) && forall i | 0 <= i < k :: IsSpace(s[i])
    ensures LStrip(s) == s[k..]
  {
  }

  /** Space around a text does not change what stripping leaves. */
  lemma StripPadded(before: string, s: string, after: string)
    requires forall i | 0 <= i < |before| :: IsSpace(before[i])
    requires forall i | 0 <= i < |after| :: IsSpace(after[i])
    ensures Strip(before + s + after) == Strip(s)
  {
    var t, k := before + s + after, KeptEnd(s, |s|);
    if k == 0 {
      RStripIs(t, 0);
    } else {
      assert t[..|before| + k] == before + s[..k];
      RStripIs(t, |before| + k);
      LStripPadded(before, s[..k]);
    }
  }

  lemma LStripPadded(before: string, s: string)
    requires forall i | 0 <= i < |before| :: IsSpace(before[i])
    ensures LStrip(before + s) == LStrip(s)
  {
    var m := KeptStart(s, 0);
    assert (before + s)[|before| + m..] == s[m..];
    LStripIs(before + s, |before| + m);
  }

  lemma StripTrimmed(s: string)
    ensures Strip(s) == s <==> Trimmed(s)
  {
    if Trimmed(s) {
      RStripIs(s, |s|);
      TakeAll(s);
      LStripIs(s, 0);
    }
  }

  lemma StripShortens(s: string)
    ensures |Strip(s)| <= |s| && (|Strip(s)| == |s| ==> Strip(s) == s)
  {
  }

  predicate At(s: string, pattern: string, i: nat) {
    i + |pattern| <= |s| && s[i..i + |pattern|] == pattern
  }

  /** The first occurrence at or after `from`. */
  function FindFrom(s: string, pattern: string, from: nat): (r: Option<nat>)
    ensures r.Some? ==>
      r.value >= from && At(s, pattern, r.value) && forall j: nat | from <= j < r.value :: !At(s, pattern, j)
    ensures r.None? ==> forall j: nat | from <= j :: !At(s, pattern, j)
    decreases |s| - from
  {
    if from + |pattern| > |s| then None
    else if At(s, pattern, from) then Some(from)
    else FindFrom(s, pattern, from + 1)
  }

  function Find(s: string, pattern: string): Option<nat> {
    FindFrom(s, pattern, 0)
  }

  predicate Contains(s: string, pattern: string) {
    Find(s, pattern).Some?
  }

  lemma ContainsAt(s: string, pattern: string, i: nat)
    requires At(s, pattern, i)
    ensures Contains(s, pattern)
  {
  }

  /** A character that does not occur in a pattern neither creates nor hides an occurrence at the end. */
  lemma ContainsExtended(s: string, c: char, pattern: string)
    requires pattern != "" && c !in pattern
    ensures Contains(s + [c], pattern) == Contains(s, pattern)
  {
    var t := s + [c];
    if Contains(s, pattern) {
      var i := Find(s, pattern).value;
      assert t[i..i + |pattern|] == s[i..i + |pattern|];
      ContainsAt(t, pattern, i);
    }
    if Contains(t, pattern) {
      var i := Find(t, pattern).value;
      if i + |pattern| < |t| {
        assert t[i..i + |pattern|] == s[i..i + |pattern|];
        ContainsAt(s, pattern, i);
      } else {
        assert t[i..i + |pattern|][|pattern| - 1] == c;
      }
    }
  }
}
