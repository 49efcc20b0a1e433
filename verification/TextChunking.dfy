/** The overlapping text chunker. */
module TextChunking {
  import opened PythonText

  /** `text[from:to]` for a non-negative start and any end; a negative end counts from the back. */
  function Slice(text: string, from: nat, to: int): (r: string) {
    var end := if to < 0 then (if |text| + to < 0 then 0 else |text| + to) else if to > |text| then |text| else to;
    if from >= end then "" else text[from..end]
  }

  function Stride(chunkSize: int, overlap: int): (r: int)
    ensures r >= 1
  {
    if chunkSize - overlap < 1 then 1 else chunkSize - overlap
  }

  function ChunksFrom(text: string, i: nat, chunkSize: int, overlap: int): seq<string>
    decreases |text| - i
  {
    if i >= |text| then []
    else [Slice(text, i, i + chunkSize)] + ChunksFrom(text, i + Stride(chunkSize, overlap), chunkSize, overlap)
  }

  function Chunks(text: string, chunkSize: int, overlap: int): seq<string> {
    var t := Strip(text);
    if t == "" then [] else if |t| <= chunkSize then [t] else ChunksFrom(t, 0, chunkSize, overlap)
  }

  method ChunkText(text: string, chunkSize: int, overlap: int) returns (chunks: seq<string>)
    ensures chunks == Chunks(text, chunkSize, overlap)
  {
    var t := Strip(text);
    if t == "" {
      return [];
    }
    if |t| <= chunkSize {
      return [t];
    }
    chunks := [];
    var i: nat := 0;
    while i < |t|
      invariant chunks + ChunksFrom(t, i, chunkSize, overlap) == ChunksFrom(t, 0, chunkSize, overlap)
      decreases |t| - i
    {
      chunks := chunks + [Slice(t, i, i + chunkSize)];
      i := i + Stride(chunkSize, overlap);
    }
  }

  /** The first `n` characters of every chunk, put back together. */
  ghost function Joined(chunks: seq<string>, n: nat): string {
    if chunks == [] then "" else (if |chunks[0]| <= n then chunks[0] else chunks[0][..n]) + Joined(chunks[1..], n)
  }

  lemma JoinedAtEnd(t: string, chunkSize: int, overlap: int)
    ensures Joined(ChunksFrom(t, |t|, chunkSize, overlap), Stride(chunkSize, overlap)) == t[|t|..]
  {
  }

  /** The first chunk gives its stride, or all it has. */
  lemma JoinedStep(t: string, i: nat, chunkSize: int, overlap: int)
    requires chunkSize >= 1 && i < |t|
    ensures
      var step := Stride(chunkSize, overlap);
      var chunk := Slice(t, i, i + chunkSize);
      && Joined(ChunksFrom(t, i, chunkSize, overlap), step) ==
           (if |chunk| <= step then chunk else chunk[..step])
           + Joined(ChunksFrom(t, i + step, chunkSize, overlap), step)
      && |chunk| == (if i + chunkSize <= |t| then chunkSize else |t| - i)
      && (overlap >= 0 ==>
            (if |chunk| <= step then chunk else chunk[..step]) == t[i..if i + step <= |t| then i + step else |t|])
      && (i + step >= |t| ==> Joined(ChunksFrom(t, i + step, chunkSize, overlap), step) == "")
  {
    var step := Stride(chunkSize, overlap);
    var rest := ChunksFrom(t, i + step, chunkSize, overlap);
    assert ([Slice(t, i, i + chunkSize)] + rest)[1..] == rest;
  }

  lemma {:induction false} JoinedFrom(t: string, i: nat, chunkSize: int, overlap: int)
    requires chunkSize >= 1 && i <= |t|
    ensures overlap >= 0 ==> Joined(ChunksFrom(t, i, chunkSize, overlap), Stride(chunkSize, overlap)) == t[i..]
    ensures overlap < 0 ==>
      |Joined(ChunksFrom(t, i, chunkSize, overlap), Stride(chunkSize, overlap))| <= |t| - i
    ensures overlap < 0 && i + chunkSize < |t| ==>
      |Joined(ChunksFrom(t, i, chunkSize, overlap), Stride(chunkSize, overlap))| < |t| - i
    decreases |t| - i
  {
    hide Joined, Slice, ChunksFrom;
    if i == |t| {
      JoinedAtEnd(t, chunkSize, overlap);
    } else {
      var step := Stride(chunkSize, overlap);
      JoinedStep(t, i, chunkSize, overlap);
      if i + step <= |t| {
        JoinedFrom(t, i + step, chunkSize, overlap);
      }
    }
  }

  lemma {:induction false} SizesFrom(t: string, i: nat, chunkSize: int, overlap: int)
    requires chunkSize >= 1
    ensures forall c | c in ChunksFrom(t, i, chunkSize, overlap) :: 0 < |c| <= chunkSize
    decreases |t| - i
  {
    if i < |t| {
      SizesFrom(t, i + Stride(chunkSize, overlap), chunkSize, overlap);
    }
  }

  /** Every chunk is non-empty and no longer than asked for. */
  lemma ChunkSizes(text: string, chunkSize: int, overlap: int)
    requires chunkSize >= 1
    ensures forall c | c in Chunks(text, chunkSize, overlap) :: 0 < |c| <= chunkSize
  {
    SizesFrom(Strip(text), 0, chunkSize, overlap);
  }

  /**
   Reassembly: text longer than a chunk is given back exactly by the first stride of
   each chunk if and only if the overlap is not negative.
   */
  lemma Reassembly(text: string, chunkSize: int, overlap: int)
    requires chunkSize >= 1 && |Strip(text)| > chunkSize
    ensures Joined(Chunks(text, chunkSize, overlap), Stride(chunkSize, overlap)) == Strip(text) <==> overlap >= 0
  {
    JoinedFrom(Strip(text), 0, chunkSize, overlap);
  }

  /** Shorter text is one chunk, or none when it is blank. */
  lemma SingleChunk(text: string, chunkSize: int, overlap: int)
    requires |Strip(text)| <= chunkSize
    ensures Joined(Chunks(text, chunkSize, overlap), |Strip(text)|) == Strip(text)
    ensures |Chunks(text, chunkSize, overlap)| == if Strip(text) == "" then 0 else 1
  {
    var t := Strip(text);
    assert [t][1..] == [];
    assert Joined([t][1..], |t|) == "";
  }

  lemma {:induction false} ChunkFromAt(t: string, i: nat, chunkSize: int, overlap: int, step: nat, k: nat)
    requires chunkSize >= 1 && step == (if chunkSize - overlap < 1 then 1 else chunkSize - overlap)
    requires k < |ChunksFrom(t, i, chunkSize, overlap)|
    ensures i + k * step < |t|
    ensures ChunksFrom(t, i, chunkSize, overlap)[k] ==
      t[i + k * step..if i + k * step + chunkSize <= |t| then i + k * step + chunkSize else |t|]
    ensures k + 1 == |ChunksFrom(t, i, chunkSize, overlap)| <==> i + (k + 1) * step >= |t|
    decreases k
  {
    if k > 0 {
      ChunkFromAt(t, i + step, chunkSize, overlap, step, k - 1);
      assert i + step + (k - 1) * step == i + k * step && i + step + k * step == i + (k + 1) * step;
    }
  }

  /** Chunk `k` of a longer text starts `k` strides in, a stride being the size less the overlap but at least one;
      the last chunk is the one whose next start is past the end. */
  lemma ChunkAt(text: string, chunkSize: int, overlap: int, k: nat)
    requires chunkSize >= 1 && |Strip(text)| > chunkSize && k < |Chunks(text, chunkSize, overlap)|
    ensures
      var t, step := Strip(text), if chunkSize - overlap < 1 then 1 else chunkSize - overlap;
      && k * step < |t|
      && Chunks(text, chunkSize, overlap)[k] ==
           t[k * step..if k * step + chunkSize <= |t| then k * step + chunkSize else |t|]
      && (k + 1 == |Chunks(text, chunkSize, overlap)| <==> (k + 1) * step >= |t|)
  {
    hide Strip;
    ChunkFromAt(Strip(text), 0, chunkSize, overlap, if chunkSize - overlap < 1 then 1 else chunkSize - overlap, k);
  }

  lemma SlicesOverlap(t: string, i: nat, step: nat, size: nat)
    requires i + step < |t| && step <= size
    ensures
      var a, b := Slice(t, i, i + size), Slice(t, i + step, i + step + size);
      && step <= |a| && a[step..] <= b && (|a| == size ==> |a[step..]| == size - step)
  {
    var a, b := Slice(t, i, i + size), Slice(t, i + step, i + step + size);
    assert forall m | 0 <= m < |a| - step :: a[step..][m] == t[i + step + m] == b[m];
  }

  lemma {:induction false} OverlapFrom(t: string, i: nat, chunkSize: int, overlap: int, k: nat)
    requires 0 <= overlap < chunkSize && k + 1 < |ChunksFrom(t, i, chunkSize, overlap)|
    ensures
      var a, b := ChunksFrom(t, i, chunkSize, overlap)[k], ChunksFrom(t, i, chunkSize, overlap)[k + 1];
      && chunkSize - overlap <= |a| && a[chunkSize - overlap..] <= b
      && (|a| == chunkSize ==> |a[chunkSize - overlap..]| == overlap)
    decreases k
  {
    hide Slice;
    if k == 0 {
      SlicesOverlap(t, i, chunkSize - overlap, chunkSize);
    } else {
      OverlapFrom(t, i + (chunkSize - overlap), chunkSize, overlap, k - 1);
    }
  }

  /** Neighbouring chunks share `overlap` characters, unless the text ends before. */
  lemma NeighboursOverlap(text: string, chunkSize: int, overlap: int, k: nat)
    requires chunkSize >= 1 && |Strip(text)| > chunkSize && 0 <= overlap < chunkSize
    requires k + 1 < |Chunks(text, chunkSize, overlap)|
    ensures
      var a, b := Chunks(text, chunkSize, overlap)[k], Chunks(text, chunkSize, overlap)[k + 1];
      && chunkSize - overlap <= |a| && a[chunkSize - overlap..] <= b
      && (|a| == chunkSize ==> |a[chunkSize - overlap..]| == overlap)
  {
    OverlapFrom(Strip(text), 0, chunkSize, overlap, k);
  }
}
