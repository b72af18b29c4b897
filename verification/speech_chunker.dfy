/**
 * The speech chunker of the public-book audio handler (generate_audio.ts):
 * paragraphs of at most 3500 characters are segments of their own, longer ones
 * are packed sentence by sentence; segments are then merged greedily with blank
 * lines between them, and a short last chunk is merged into its predecessor
 * when the two fit together.
 */
module SpeechChunker {
  import opened Text
  import opened Seqs
  import opened Reflow

  const MaxCharsPerChunk: nat := 3500
  const MinCharsPerChunk: nat := 1200

  /** `p.split(/(?<=[.!؟؛…])\s+/).map((s) => s.trim()).filter(Boolean)` */
  function Sentences(p: string): (r: seq<string>)
    ensures forall i :: 0 <= i < |r| ==> r[i] != "" && IsTrimmed(r[i])
  {
    TrimNonEmpty(Split(p, SentenceGaps))
  }

  /** `const c = x.trim(); if (c) out.push(c);` */
  function PushTrimmed(x: string): seq<string>
  {
    if Trim(x) != "" then [Trim(x)] else []
  }

  /** The sentence-packing loop over `parts` with buffer `buf`, followed by the
      final `if (buf.trim()) segments.push(buf.trim())`. */
  function Pack(parts: seq<string>, buf: string): seq<string>
    decreases |parts|
  {
    if |parts| == 0 then PushTrimmed(buf)
    else
      var s := parts[0];
      if buf == "" then Pack(parts[1..], s)
      else if |buf| + 1 + |s| <= MaxCharsPerChunk then Pack(parts[1..], buf + " " + s)
      else [Trim(buf)] + Pack(parts[1..], s)
  }

  /** The segments one trimmed paragraph contributes. */
  function Segments(p: string): seq<string>
  {
    if |p| <= MaxCharsPerChunk then [p]
    else
      var parts := Sentences(p);
      if |parts| == 0 then
        var slices := FixedSlices(p, MaxCharsPerChunk);
        seq(|slices|, i requires 0 <= i < |slices| => Trim(slices[i]))
      else Pack(parts, "")
  }

  function SegmentsOf(paras: seq<string>): seq<string>
  {
    if |paras| == 0 then [] else Segments(paras[0]) + SegmentsOf(paras[1..])
  }

  /** The greedy merge loop over `segs` with the current chunk `current`,
      followed by the final `pushCurrent()`. */
  function Merge(segs: seq<string>, current: string): seq<string>
    decreases |segs|
  {
    if |segs| == 0 then PushTrimmed(current)
    else
      var seg := segs[0];
      if current == "" then Merge(segs[1..], seg)
      else if |current| + 2 + |seg| <= MaxCharsPerChunk then Merge(segs[1..], current + "\n\n" + seg)
      else PushTrimmed(current) + Merge(segs[1..], seg)
  }

  /** The tail step: a last chunk under 1200 characters joins its predecessor
      when both fit in one chunk. */
  function TrailingMerge(chunks: seq<string>): seq<string>
  {
    var n := |chunks|;
    if n >= 2 && |chunks[n - 1]| < MinCharsPerChunk
       && |chunks[n - 2]| + 2 + |chunks[n - 1]| <= MaxCharsPerChunk
    then chunks[..n - 2] + [Trim(chunks[n - 2] + "\n\n" + chunks[n - 1])]
    else chunks
  }

  /** chunkArabicText */
  function ChunkArabicText(text: string): seq<string>
  {
    var cleaned := NormalizeText(text);
    if cleaned == "" then [] else TrailingMerge(Merge(SegmentsOf(Paragraphs(cleaned)), ""))
  }

  /** Every sentence of every paragraph, in order. */
  function SentencesOf(paras: seq<string>): seq<string>
  {
    if |paras| == 0 then [] else Sentences(paras[0]) + SentencesOf(paras[1..])
  }

  // -------------------------------------------------------------- Properties

  /** Non-empty and trimmed: what the chunker pushes. */
  predicate AllChunks(xs: seq<string>)
  {
    forall i :: 0 <= i < |xs| ==> xs[i] != "" && IsTrimmed(xs[i])
  }

  /** Within the limit, or a single sentence that alone exceeds it. */
  predicate Fits(x: string, sentences: seq<string>)
  {
    |x| <= MaxCharsPerChunk || x in sentences
  }

  predicate AllFit(xs: seq<string>, sentences: seq<string>)
  {
    forall i :: 0 <= i < |xs| ==> Fits(xs[i], sentences)
  }

  /** No two neighbouring chunks fit together into one. */
  predicate NeighboursTooLong(xs: seq<string>)
  {
    forall i :: 0 <= i < |xs| - 1 ==> |xs[i]| + 2 + |xs[i + 1]| > MaxCharsPerChunk
  }

  lemma Glue(a: string, sep: string, b: string)
    requires a != "" && IsTrimmed(a) && b != "" && IsTrimmed(b) && IsBlank(sep)
    ensures a + sep + b != "" && IsTrimmed(a + sep + b)
    ensures NonSpace(a + sep + b) == NonSpace(a) + NonSpace(b)
  {
    NonSpaceAppend(a + sep, b);
    NonSpaceAppend(a, sep);
    NonSpaceEmptyIffBlank(sep);
    assert (a + sep + b)[0] == a[0];
    assert (a + sep + b)[|a + sep + b| - 1] == b[|b| - 1];
  }

  lemma ConcatSingle(x: string)
    ensures Concat([x]) == x
  {
    assert [x][1..] == [];
    assert Concat([x]) == x + Concat([x][1..]) == x + [];
    assert x + [] == x;
  }

  lemma PushTrimmedSound(x: string)
    ensures AllChunks(PushTrimmed(x))
    ensures NonSpace(Concat(PushTrimmed(x))) == NonSpace(x)
    ensures x != "" && IsTrimmed(x) ==> PushTrimmed(x) == [x]
  {
    NonSpaceTrim(x);
    if Trim(x) == "" {
      NonSpaceEmptyIffBlank(x);
    } else {
      ConcatSingle(Trim(x));
    }
    if x != "" && IsTrimmed(x) {
      TrimOfTrimmed(x);
    }
  }

  lemma ConsChunk(x: string, tail: seq<string>, sentences: seq<string>)
    requires x != "" && IsTrimmed(x) && Fits(x, sentences)
    requires AllChunks(tail) && AllFit(tail, sentences)
    ensures AllChunks([x] + tail) && AllFit([x] + tail, sentences)
  {
    assert forall i :: 1 <= i < |[x] + tail| ==> ([x] + tail)[i] == tail[i - 1];
  }

  lemma ConsNonSpace(x: string, tail: seq<string>)
    ensures NonSpace(Concat([x] + tail)) == NonSpace(x) + NonSpace(Concat(tail))
  {
    ConcatAppend([x], tail);
    ConcatSingle(x);
    NonSpaceAppend(x, Concat(tail));
  }

  /** Sentence packing pushes only non-empty trimmed segments, and a segment over
      3500 characters is a single sentence: the buffer grows only while it stays
      within the limit. */
  lemma {:induction false} PackShape(parts: seq<string>, buf: string, sentences: seq<string>)
    requires AllChunks(parts) && AllFit(parts, sentences)
    requires buf == "" || (IsTrimmed(buf) && Fits(buf, sentences))
    ensures AllChunks(Pack(parts, buf)) && AllFit(Pack(parts, buf), sentences)
    decreases |parts|
  {
    if |parts| == 0 {
      PushTrimmedSound(buf);
    } else {
      var s := parts[0];
      var rest := parts[1..];
      if buf == "" {
        PackShape(rest, s, sentences);
      } else if |buf| + 1 + |s| <= MaxCharsPerChunk {
        Glue(buf, " ", s);
        PackShape(rest, buf + " " + s, sentences);
      } else {
        TrimOfTrimmed(buf);
        PackShape(rest, s, sentences);
        ConsChunk(buf, Pack(rest, s), sentences);
      }
    }
  }

  /** Sentence packing keeps every non-whitespace character, in order. */
  lemma {:induction false} PackNonSpace(parts: seq<string>, buf: string)
    requires AllChunks(parts)
    requires buf == "" || IsTrimmed(buf)
    ensures NonSpace(Concat(Pack(parts, buf))) == NonSpace(buf) + NonSpace(Concat(parts))
    decreases |parts|
  {
    if |parts| == 0 {
      PushTrimmedSound(buf);
      assert NonSpace(Concat(parts)) == "";
    } else {
      var s := parts[0];
      var rest := parts[1..];
      var ns, nr := NonSpace(s), NonSpace(Concat(rest));
      assert Concat(parts) == s + Concat(rest);
      NonSpaceAppend(s, Concat(rest));
      if buf == "" {
        PackNonSpace(rest, s);
        assert NonSpace(buf) + (ns + nr) == ns + nr;
      } else if |buf| + 1 + |s| <= MaxCharsPerChunk {
        Glue(buf, " ", s);
        PackNonSpace(rest, buf + " " + s);
        assert (NonSpace(buf) + ns) + nr == NonSpace(buf) + (ns + nr);
      } else {
        PackNonSpace(rest, s);
        TrimOfTrimmed(buf);
        assert Pack(parts, buf) == [buf] + Pack(rest, s);
        ConsNonSpace(buf, Pack(rest, s));
      }
    }
  }

  /** A paragraph has no sentence exactly when it is blank, so the hard-split branch
      of chunkArabicText is dead: a non-empty trimmed paragraph always has one. */
  lemma SentencesEmptyIffBlank(p: string)
    ensures Sentences(p) == [] <==> IsBlank(p)
  {
    NonSpaceTrimNonEmpty(Split(p, SentenceGaps));
    NonSpaceSplit(p, SentenceGaps);
    NonSpaceEmptyIffBlank(p);
    if Sentences(p) != [] {
      var r := Sentences(p);
      assert Concat(r) == r[0] + Concat(r[1..]);
      NonSpaceAppend(r[0], Concat(r[1..]));
      NonSpaceEmptyIffBlank(r[0]);
      assert !IsBlank(r[0]) by { assert !IsSpace(r[0][0]); }
    }
  }

  lemma SegmentsSound(p: string)
    requires p != "" && IsTrimmed(p)
    ensures |Segments(p)| >= 1
    ensures AllChunks(Segments(p)) && AllFit(Segments(p), Sentences(p))
    ensures NonSpace(Concat(Segments(p))) == NonSpace(p)
  {
    if |p| <= MaxCharsPerChunk {
      ConcatSingle(p);
    } else {
      var parts := Sentences(p);
      assert !IsBlank(p) by { assert !IsSpace(p[0]); }
      SentencesEmptyIffBlank(p);
      PackShape(parts, "", parts);
      PackNonSpace(parts, "");
      NonSpaceTrimNonEmpty(Split(p, SentenceGaps));
      NonSpaceSplit(p, SentenceGaps);
      NonSpaceEmptyIffBlank(p);
      assert NonSpace(Concat(Pack(parts, ""))) != "";
    }
  }

  lemma {:induction false} SegmentsOfSound(paras: seq<string>)
    requires AllChunks(paras)
    ensures |SegmentsOf(paras)| >= |paras|
    ensures AllChunks(SegmentsOf(paras)) && AllFit(SegmentsOf(paras), SentencesOf(paras))
    ensures NonSpace(Concat(SegmentsOf(paras))) == NonSpace(Concat(paras))
    decreases |paras|
  {
    if |paras| > 0 {
      var head := Segments(paras[0]);
      var tail := SegmentsOf(paras[1..]);
      var sentences := SentencesOf(paras);
      SegmentsSound(paras[0]);
      SegmentsOfSound(paras[1..]);
      ConcatAppend(head, tail);
      NonSpaceAppend(Concat(head), Concat(tail));
      NonSpaceAppend(paras[0], Concat(paras[1..]));
      assert sentences == Sentences(paras[0]) + SentencesOf(paras[1..]);
      forall i | 0 <= i < |head + tail|
        ensures (head + tail)[i] != "" && IsTrimmed((head + tail)[i])
        ensures Fits((head + tail)[i], sentences)
      {
        if i < |head| {
          assert (head + tail)[i] == head[i];
        } else {
          assert (head + tail)[i] == tail[i - |head|];
        }
      }
    }
  }

  /** The greedy merge pushes non-empty trimmed chunks and joins two pieces only
      when the result stays within the limit. */
  lemma {:induction false} MergeShape(segs: seq<string>, current: string, sentences: seq<string>)
    requires AllChunks(segs) && AllFit(segs, sentences)
    requires current == "" || (IsTrimmed(current) && Fits(current, sentences))
    ensures AllChunks(Merge(segs, current)) && AllFit(Merge(segs, current), sentences)
    decreases |segs|
  {
    if |segs| == 0 {
      PushTrimmedSound(current);
    } else {
      var seg := segs[0];
      var rest := segs[1..];
      if current == "" {
        MergeShape(rest, seg, sentences);
      } else if |current| + 2 + |seg| <= MaxCharsPerChunk {
        Glue(current, "\n\n", seg);
        MergeShape(rest, current + "\n\n" + seg, sentences);
      } else {
        PushTrimmedSound(current);
        MergeShape(rest, seg, sentences);
        ConsChunk(current, Merge(rest, seg), sentences);
      }
    }
  }

  /** The greedy merge keeps every non-whitespace character, in order. */
  lemma {:induction false} MergeNonSpace(segs: seq<string>, current: string)
    requires AllChunks(segs)
    requires current == "" || IsTrimmed(current)
    ensures NonSpace(Concat(Merge(segs, current))) == NonSpace(current) + NonSpace(Concat(segs))
    decreases |segs|
  {
    if |segs| == 0 {
      PushTrimmedSound(current);
      assert NonSpace(Concat(segs)) == "";
    } else {
      var seg := segs[0];
      var rest := segs[1..];
      var ns, nr := NonSpace(seg), NonSpace(Concat(rest));
      assert Concat(segs) == seg + Concat(rest);
      NonSpaceAppend(seg, Concat(rest));
      if current == "" {
        MergeNonSpace(rest, seg);
        assert NonSpace(current) + (ns + nr) == ns + nr;
      } else if |current| + 2 + |seg| <= MaxCharsPerChunk {
        Glue(current, "\n\n", seg);
        MergeNonSpace(rest, current + "\n\n" + seg);
        assert (NonSpace(current) + ns) + nr == NonSpace(current) + (ns + nr);
      } else {
        MergeNonSpace(rest, seg);
        PushTrimmedSound(current);
        assert Merge(segs, current) == [current] + Merge(rest, seg);
        ConsNonSpace(current, Merge(rest, seg));
      }
    }
  }

  /** The greedy merge pushes a chunk only when the next segment would not fit
      after it, and the chunk under construction only grows; so no two
      neighbouring chunks fit together. */
  lemma {:induction false} MergeNeighbours(segs: seq<string>, current: string)
    requires AllChunks(segs)
    requires current == "" || IsTrimmed(current)
    ensures NeighboursTooLong(Merge(segs, current))
    ensures Merge(segs, current) == [] <==> current == "" && segs == []
    ensures current != "" ==> |Merge(segs, current)[0]| >= |current|
    decreases |segs|
  {
    if |segs| == 0 {
      PushTrimmedSound(current);
    } else {
      var seg := segs[0];
      var rest := segs[1..];
      if current == "" {
        MergeNeighbours(rest, seg);
      } else if |current| + 2 + |seg| <= MaxCharsPerChunk {
        Glue(current, "\n\n", seg);
        MergeNeighbours(rest, current + "\n\n" + seg);
      } else {
        PushTrimmedSound(current);
        MergeNeighbours(rest, seg);
        var tail := Merge(rest, seg);
        var out := [current] + tail;
        assert Merge(segs, current) == out;
        assert forall i :: 1 <= i < |out| ==> out[i] == tail[i - 1];
        assert |out[0]| + 2 + |out[1]| > MaxCharsPerChunk;
      }
    }
  }

  /** chunkArabicText: blank input gives no chunks and any other input some; every
      chunk is non-empty and trimmed; a chunk over 3500 characters is a single
      sentence of the normalized text; the chunks keep every non-whitespace
      character of the input in order; no two neighbouring chunks would fit
      together, so the tail step never changes the greedy merge's output. */
  lemma ChunkArabicTextSound(text: string)
    ensures ChunkArabicText(text) == [] <==> IsBlank(text)
    ensures AllChunks(ChunkArabicText(text))
    ensures AllFit(ChunkArabicText(text), SentencesOf(Paragraphs(NormalizeText(text))))
    ensures NonSpace(Concat(ChunkArabicText(text))) == NonSpace(text)
    ensures NeighboursTooLong(ChunkArabicText(text))
    ensures ChunkArabicText(text) == Merge(SegmentsOf(Paragraphs(NormalizeText(text))), "")
  {
    var cleaned := NormalizeText(text);
    NormalizeTextSound(text);
    var paras := Paragraphs(cleaned);
    var segs := SegmentsOf(paras);
    SegmentsOfSound(paras);
    MergeShape(segs, "", SentencesOf(paras));
    MergeNonSpace(segs, "");
    MergeNeighbours(segs, "");
    NonSpaceParagraphs(cleaned);
    if cleaned == "" {
      EmptyHasNoParagraphs();
      NonSpaceEmptyIffBlank(text);
    } else {
      ParagraphsOfNonBlank(cleaned);
      var chunks := Merge(segs, "");
      var n := |chunks|;
      if n >= 2 {
        assert |chunks[n - 2]| + 2 + |chunks[n - 1]| > MaxCharsPerChunk;
      }
      assert TrailingMerge(chunks) == chunks;
    }
  }
}
