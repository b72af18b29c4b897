/**
 * The book-summary handler (generate_summary.ts): word targets by text length,
 * the sliding-window chunker with overlap, the batching of partial summaries for
 * the hierarchical merge, and the tidy-up of the final summary. The language-model
 * calls in between are not part of this model.
 */
module Summary {
  import opened Wrappers
  import opened Seqs
  import opened Text
  import opened Reflow

  /** The HttpsError codes the handler raises. */
  datatype Error = FailedPrecondition | Internal

  function Min(a: int, b: int): int { if a <= b then a else b }
  function Max(a: int, b: int): int { if a >= b then a else b }

  /** clamp(n, min, max) = Math.max(min, Math.min(max, n)) */
  function Clamp(n: int, lo: int, hi: int): (r: int)
    ensures lo <= hi ==> lo <= r <= hi
    ensures lo <= n <= hi ==> r == n
    ensures r == n || r == lo || r == hi
  {
    Max(lo, Min(hi, n))
  }

  // ----------------------------------------------------------- Word targets

  datatype Target = Target(min: int, max: int)

  /** chooseTargetWordsByChars: four length brackets. */
  function ChooseTargetWordsByChars(textLen: nat): (t: Target)
    ensures 120 <= t.min < t.max <= 600
  {
    if textLen < 3000 then Target(120, 180)
    else if textLen < 12000 then Target(200, 320)
    else if textLen < 40000 then Target(300, 450)
    else Target(450, 600)
  }

  /** Longer texts never get smaller word targets. */
  lemma ChooseTargetWordsMonotone(a: nat, b: nat)
    requires a <= b
    ensures ChooseTargetWordsByChars(a).min <= ChooseTargetWordsByChars(b).min
    ensures ChooseTargetWordsByChars(a).max <= ChooseTargetWordsByChars(b).max
  {
  }

  /** The handler's target words: texts under 200 characters are refused, texts
      under 1200 characters get 80-140 words, and both ends are clamped. */
  function SummaryTargets(textLen: nat): (r: Result<Target, Error>)
    ensures r.Failure? <==> textLen < 200
    ensures r.Failure? ==> r.error == FailedPrecondition
    ensures r.Success? ==> 80 <= r.value.min <= 600 && 120 <= r.value.max <= 600
    ensures r.Success? ==> r.value.min < r.value.max
    ensures r.Success? && textLen < 1200 ==> r.value == Target(80, 140)
    ensures textLen >= 1200 ==> r == Success(ChooseTargetWordsByChars(textLen))
  {
    if textLen < 200 then Failure(FailedPrecondition)
    else
      var t := ChooseTargetWordsByChars(textLen);
      var t' := if textLen < 1200 then Target(80, 140) else t;
      Success(Target(Clamp(t'.min, 80, 600), Clamp(t'.max, 120, 600)))
  }

  // ----------------------------------------------------------------- Chunking

  datatype Chunking = Chunking(chunkSize: nat, overlap: nat)

  /** chooseChunking: four length brackets. */
  function ChooseChunking(textLen: nat): (c: Chunking)
    ensures c.overlap < c.chunkSize
    ensures 12000 <= c.chunkSize <= 20000
  {
    if textLen <= 12000 then Chunking(12000, 600)
    else if textLen <= 60000 then Chunking(14000, 700)
    else if textLen <= 140000 then Chunking(17000, 800)
    else Chunking(20000, 900)
  }

  /** Longer texts never get smaller windows or overlaps. */
  lemma ChooseChunkingMonotone(a: nat, b: nat)
    requires a <= b
    ensures ChooseChunking(a).chunkSize <= ChooseChunking(b).chunkSize
    ensures ChooseChunking(a).overlap <= ChooseChunking(b).overlap
  {
  }

  /** The half-open index range text[start..end) of one window. */
  datatype Window = Window(start: nat, end: nat)

  predicate WithinText(ws: seq<Window>, n: nat)
  {
    forall k :: 0 <= k < |ws| ==> ws[k].start <= ws[k].end <= n
  }

  /** `i = end - overlap; if (i < 0) i = 0;` */
  function NonNegative(x: int): (r: nat)
    ensures x >= 0 ==> r == x
  {
    if x < 0 then 0 else x
  }

  /** The windows chunkText visits from index `i` of a text of length `n`:
      `end = min(i + size, n)`, then `i = end - overlap`, raised to 0 if negative. */
  function WindowsFrom(i: nat, n: nat, size: nat, overlap: nat): seq<Window>
    requires overlap < size
    decreases n - i
  {
    if i >= n then []
    else
      var end := if i + size < n then i + size else n;
      [Window(i, end)]
        + (if end >= n then [] else WindowsFrom(NonNegative(end - overlap), n, size, overlap))
  }

  /** Every window is a non-empty range of at most `size` indices from `i` on. */
  lemma {:induction false} WindowsFromBounds(i: nat, n: nat, size: nat, overlap: nat)
    requires overlap < size
    ensures forall k :: 0 <= k < |WindowsFrom(i, n, size, overlap)| ==>
      i <= WindowsFrom(i, n, size, overlap)[k].start < WindowsFrom(i, n, size, overlap)[k].end <= n
    ensures forall k :: 0 <= k < |WindowsFrom(i, n, size, overlap)| ==>
      WindowsFrom(i, n, size, overlap)[k].end - WindowsFrom(i, n, size, overlap)[k].start <= size
    decreases n - i
  {
    if i < n {
      var end := if i + size < n then i + size else n;
      if end < n {
        var next := NonNegative(end - overlap);
        WindowsFromBounds(next, n, size, overlap);
        var r := WindowsFrom(i, n, size, overlap);
        var rest := WindowsFrom(next, n, size, overlap);
        assert r == [Window(i, end)] + rest;
        assert forall k :: 1 <= k < |r| ==> r[k] == rest[k - 1];
      }
    }
  }

  function Windows(n: nat, size: nat, overlap: nat): seq<Window>
    requires overlap < size
  {
    WindowsFrom(0, n, size, overlap)
  }

  function WindowTexts(text: string, ws: seq<Window>): (r: seq<string>)
    requires WithinText(ws, |text|)
  {
    seq(|ws|, k requires 0 <= k < |ws| => text[ws[k].start..ws[k].end])
  }

  /** What chunkText returns: each window's text trimmed, blank ones dropped. */
  function WindowChunks(text: string, size: nat, overlap: nat): seq<string>
    requires overlap < size
  {
    WindowsFromBounds(0, |text|, size, overlap);
    TrimNonEmpty(WindowTexts(text, Windows(|text|, size, overlap)))
  }

  lemma ChunkStep(text: string, done: seq<Window>, w: Window)
    requires WithinText(done, |text|) && w.start <= w.end <= |text|
    ensures WithinText(done + [w], |text|)
    ensures TrimNonEmpty(WindowTexts(text, done + [w]))
      == TrimNonEmpty(WindowTexts(text, done))
         + (if Trim(text[w.start..w.end]) != "" then [Trim(text[w.start..w.end])] else [])
  {
    var piece := text[w.start..w.end];
    assert WindowTexts(text, done + [w]) == WindowTexts(text, done) + [piece];
    TrimNonEmptyAppend(WindowTexts(text, done), [piece]);
    assert TrimNonEmpty([piece])
      == (if Trim(piece) != "" then [Trim(piece)] else []) + TrimNonEmpty([piece][1..]);
    assert [piece][1..] == [];
  }

  /** One step of the window walk. */
  lemma WindowsFromStep(i: nat, n: nat, size: nat, overlap: nat)
    requires overlap < size && i < n
    ensures var end := if i + size < n then i + size else n;
      WindowsFrom(i, n, size, overlap)
      == [Window(i, end)] + (if end >= n then [] else WindowsFrom(NonNegative(end - overlap), n, size, overlap))
  {
  }

  lemma Regroup<T>(a: seq<T>, x: T, b: seq<T>)
    ensures a + ([x] + b) == (a + [x]) + b
  {
  }

  lemma WindowTextsBound(text: string, ws: seq<Window>, size: nat)
    requires WithinText(ws, |text|)
    requires forall k :: 0 <= k < |ws| ==> ws[k].end - ws[k].start <= size
    ensures forall k :: 0 <= k < |WindowTexts(text, ws)| ==> |WindowTexts(text, ws)[k]| <= size
  {
  }

  /** One iteration of chunkText's loop keeps its invariant. */
  lemma ChunkLoopStep(text: string, size: nat, overlap: nat, all: seq<Window>,
                      done: seq<Window>, i: nat, end: nat, chunks: seq<string>)
    requires overlap < size && i < |text|
    requires end == if i + size < |text| then i + size else |text|
    requires all == done + WindowsFrom(i, |text|, size, overlap)
    requires WithinText(done, |text|)
    requires chunks == TrimNonEmpty(WindowTexts(text, done))
    ensures WithinText(done + [Window(i, end)], |text|)
    ensures chunks + (if Trim(text[i..end]) != "" then [Trim(text[i..end])] else [])
      == TrimNonEmpty(WindowTexts(text, done + [Window(i, end)]))
    ensures end >= |text| ==> all == done + [Window(i, end)]
    ensures end < |text| ==>
      all == (done + [Window(i, end)]) + WindowsFrom(NonNegative(end - overlap), |text|, size, overlap)
  {
    var w := Window(i, end);
    var rest := if end >= |text| then [] else WindowsFrom(NonNegative(end - overlap), |text|, size, overlap);
    WindowsFromStep(i, |text|, size, overlap);
    WindowsFromBounds(i, |text|, size, overlap);
    assert WindowsFrom(i, |text|, size, overlap) == [w] + rest;
    Regroup(done, w, rest);
    if end >= |text| {
      assert (done + [w]) + [] == done + [w];
    }
    ChunkStep(text, done, w);
  }

  /** chunkText */
  method ChunkText(text: string, chunkSize: nat, overlap: nat) returns (chunks: seq<string>)
    requires overlap < chunkSize
    ensures chunks == WindowChunks(text, chunkSize, overlap)
    ensures forall k :: 0 <= k < |chunks| ==>
      chunks[k] != "" && IsTrimmed(chunks[k]) && |chunks[k]| <= chunkSize
  {
    ghost var all := Windows(|text|, chunkSize, overlap);
    WindowsFromBounds(0, |text|, chunkSize, overlap);
    chunks := [];
    var i: nat := 0;
    ghost var done: seq<Window> := [];
    while i < |text|
      invariant all == done + WindowsFrom(i, |text|, chunkSize, overlap)
      invariant WithinText(done, |text|)
      invariant chunks == TrimNonEmpty(WindowTexts(text, done))
      decreases |text| - i
    {
      var end := if i + chunkSize < |text| then i + chunkSize else |text|;
      var chunk := Trim(text[i..end]);
      ChunkLoopStep(text, chunkSize, overlap, all, done, i, end, chunks);
      if chunk != "" {
        chunks := chunks + [chunk];
      } else {
        assert chunks + [] == chunks;
      }
      done := done + [Window(i, end)];
      if end >= |text| {
        break;
      }
      i := NonNegative(end - overlap);
    }
    if i >= |text| {
      assert done + [] == done;
    }
    WindowChunksSound(text, chunkSize, overlap);
  }

  /** Each window but the last is full and followed by one starting
      `size - overlap` further on. */
  predicate Advances(ws: seq<Window>, size: nat, overlap: nat)
  {
    forall k :: 0 <= k < |ws| - 1 ==>
      ws[k].end == ws[k].start + size && ws[k + 1].start == ws[k].start + size - overlap
  }

  /** The windows start at `i` and end exactly at `n`. */
  predicate Spans(ws: seq<Window>, i: nat, n: nat)
  {
    |ws| > 0 ==> ws[0].start == i && ws[|ws| - 1].end == n
  }

  lemma {:induction false} WindowsFromShape(i: nat, n: nat, size: nat, overlap: nat)
    requires overlap < size
    ensures WindowsFrom(i, n, size, overlap) == [] <==> i >= n
    ensures Spans(WindowsFrom(i, n, size, overlap), i, n)
    ensures Advances(WindowsFrom(i, n, size, overlap), size, overlap)
    decreases n - i
  {
    if i < n {
      var end := if i + size < n then i + size else n;
      var r := WindowsFrom(i, n, size, overlap);
      if end < n {
        var next := NonNegative(end - overlap);
        var rest := WindowsFrom(next, n, size, overlap);
        WindowsFromShape(next, n, size, overlap);
        assert r == [Window(i, end)] + rest;
        assert next < n;
        assert |rest| > 0 && rest[0].start == next;
        assert r[|r| - 1] == rest[|rest| - 1];
        forall k | 0 <= k < |r| - 1
          ensures r[k].end == r[k].start + size && r[k + 1].start == r[k].start + size - overlap
        {
          if k > 0 {
            assert r[k] == rest[k - 1] && r[k + 1] == rest[k];
          }
        }
      } else {
        assert r == [Window(i, end)];
      }
    }
  }

  /** Index `j` lies inside one of the windows. */
  predicate Covers(ws: seq<Window>, j: nat)
  {
    exists k :: 0 <= k < |ws| && ws[k].start <= j < ws[k].end
  }

  /** Every index from `i` on lies inside some window. */
  lemma {:induction false} WindowsFromCover(i: nat, n: nat, size: nat, overlap: nat, j: nat)
    requires overlap < size && i <= j < n
    ensures Covers(WindowsFrom(i, n, size, overlap), j)
    decreases n - i
  {
    var r := WindowsFrom(i, n, size, overlap);
    var end := if i + size < n then i + size else n;
    if j < end {
      assert r[0].start <= j < r[0].end;
    } else {
      var next := NonNegative(end - overlap);
      var rest := WindowsFrom(next, n, size, overlap);
      WindowsFromCover(next, n, size, overlap, j);
      var k :| 0 <= k < |rest| && rest[k].start <= j < rest[k].end;
      assert r[k + 1] == rest[k];
    }
  }

  /** chunkText's windows: none for empty text; otherwise they start at 0, end
      exactly at the text's end, advance by `size - overlap`, and cover every
      index of the text. */
  lemma WindowsSound(n: nat, size: nat, overlap: nat)
    requires overlap < size
    ensures Windows(n, size, overlap) == [] <==> n == 0
    ensures n > 0 ==>
      Windows(n, size, overlap)[0].start == 0
      && Windows(n, size, overlap)[|Windows(n, size, overlap)| - 1].end == n
    ensures forall k :: 0 <= k < |Windows(n, size, overlap)| - 1 ==>
      Windows(n, size, overlap)[k + 1].start == Windows(n, size, overlap)[k].start + size - overlap
    ensures forall j :: 0 <= j < n ==> Covers(Windows(n, size, overlap), j)
  {
    WindowsFromShape(0, n, size, overlap);
    var ws := Windows(n, size, overlap);
    assert Advances(ws, size, overlap);
    forall j | 0 <= j < n
      ensures Covers(Windows(n, size, overlap), j)
    {
      WindowsFromCover(0, n, size, overlap, j);
    }
  }

  /** The handler's chunks: the whole text up to 12000 characters, otherwise the
      windows of chooseChunking, re-chunked with windows 6000 larger (at most
      26000) when there are more than 28 of them. */
  function SummaryChunks(fullText: string): seq<string>
  {
    var c := ChooseChunking(|fullText|);
    var chunks := if |fullText| <= 12000 then [fullText]
                  else WindowChunks(fullText, c.chunkSize, c.overlap);
    if |chunks| > 28 then WindowChunks(fullText, Min(c.chunkSize + 6000, 26000), c.overlap)
    else chunks
  }

  lemma WindowChunksSound(text: string, size: nat, overlap: nat)
    requires overlap < size
    ensures forall k :: 0 <= k < |WindowChunks(text, size, overlap)| ==>
      WindowChunks(text, size, overlap)[k] != ""
      && IsTrimmed(WindowChunks(text, size, overlap)[k])
      && |WindowChunks(text, size, overlap)[k]| <= size
  {
    WindowsFromBounds(0, |text|, size, overlap);
    WindowTextsBound(text, Windows(|text|, size, overlap), size);
    TrimNonEmptyBound(WindowTexts(text, Windows(|text|, size, overlap)), size);
  }

  /** A text of at most 12000 characters is summarized whole; a longer one in
      non-empty trimmed chunks of at most 26000 characters. */
  lemma SummaryChunksSound(fullText: string)
    ensures |fullText| <= 12000 ==> SummaryChunks(fullText) == [fullText]
    ensures |fullText| > 12000 ==> forall k :: 0 <= k < |SummaryChunks(fullText)| ==>
      SummaryChunks(fullText)[k] != "" && IsTrimmed(SummaryChunks(fullText)[k])
      && |SummaryChunks(fullText)[k]| <= 26000
  {
    var c := ChooseChunking(|fullText|);
    if |fullText| > 12000 {
      WindowChunksSound(fullText, c.chunkSize, c.overlap);
      WindowChunksSound(fullText, Min(c.chunkSize + 6000, 26000), c.overlap);
    }
  }

  // ------------------------------------------------------ Hierarchical merge

  /** groupArray: consecutive groups of `groupSize` elements, the last possibly
      shorter. */
  function GroupArray<T>(arr: seq<T>, groupSize: nat): (groups: seq<seq<T>>)
    requires groupSize > 0
    ensures Concat(groups) == arr
    ensures forall g :: 0 <= g < |groups| ==> 0 < |groups[g]| <= groupSize
    ensures forall g :: 0 <= g < |groups| - 1 ==> |groups[g]| == groupSize
  {
    FixedSlicesConcat(arr, groupSize);
    FixedSlicesSizes(arr, groupSize);
    FixedSlices(arr, groupSize)
  }

  /** `partialSummaries.length <= 8 ? 0 : 4` */
  function MergeGroupSize(partials: nat): nat
  {
    if partials <= 8 then 0 else 4
  }

  /** The groups of the intermediate merge: none (straight to the final merge) for
      at most 8 partial summaries, otherwise groups of 4 that together hold every
      partial summary in order. */
  function IntermediateGroups(partials: seq<string>): (groups: seq<seq<string>>)
    ensures groups == [] <==> |partials| <= 8
    ensures |partials| > 8 ==> Concat(groups) == partials
    ensures forall g :: 0 <= g < |groups| ==> 0 < |groups[g]| <= 4
  {
    var size := MergeGroupSize(|partials|);
    if size > 0 then GroupArray(partials, size) else []
  }

  /** The final summary: refused when blank, otherwise trimmed with runs of three
      or more newlines collapsed to a blank line. */
  function FinalSummary(content: string): (r: Result<string, Error>)
    ensures r.Failure? <==> IsBlank(content)
    ensures r.Failure? ==> r.error == Internal
    ensures r.Success? ==> r.value != "" && IsTrimmed(r.value) && NoTripleNewline(r.value)
    ensures r.Success? ==> NonSpace(r.value) == NonSpace(content)
  {
    var t := Trim(content);
    if t == "" then Failure(Internal)
    else
      var c := CollapseNewlines(t);
      CollapseNoTriple(t);
      TrimKeepsLocalProperties(c);
      NonSpaceTrim(content);
      NonSpaceCollapse(t);
      NonSpaceTrim(c);
      NonSpaceEmptyIffBlank(content);
      NonSpaceEmptyIffBlank(Trim(c));
      Success(Trim(c))
  }
}
