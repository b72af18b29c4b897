/**
 * The speech chunker of the personal-library and summary audio handlers
 * (generateMyBookAudio.ts and generateSummaryAudio.ts hold the same code):
 * paragraphs of at most 3500 characters pass through whole, longer ones are cut
 * into consecutive 3500-character slices.
 */
module HardChunker {
  import opened Text
  import opened Seqs
  import opened Reflow

  const MaxCharsPerChunk: nat := 3500

  /** The chunks one paragraph contributes. */
  function ParagraphChunks(p: string): seq<string>
  {
    if |p| <= MaxCharsPerChunk then [p] else FixedSlices(p, MaxCharsPerChunk)
  }

  function ChunksOf(paras: seq<string>): seq<string>
  {
    if |paras| == 0 then [] else ParagraphChunks(paras[0]) + ChunksOf(paras[1..])
  }

  /** chunkArabicText */
  function ChunkArabicText(text: string): seq<string>
  {
    var cleaned := NormalizeText(text);
    if cleaned == "" then [] else ChunksOf(Paragraphs(cleaned))
  }

  /** A paragraph within the limit is one chunk, unchanged; an oversized one is cut
      into pieces that concatenate back to it, every piece but the last exactly
      3500 characters long. */
  lemma ParagraphChunksSound(p: string)
    requires p != ""
    ensures |p| <= MaxCharsPerChunk ==> ParagraphChunks(p) == [p]
    ensures Concat(ParagraphChunks(p)) == p
    ensures |ParagraphChunks(p)| >= 1
    ensures forall i :: 0 <= i < |ParagraphChunks(p)| ==> 0 < |ParagraphChunks(p)[i]| <= MaxCharsPerChunk
    ensures |p| > MaxCharsPerChunk ==>
      forall i :: 0 <= i < |ParagraphChunks(p)| - 1 ==> |ParagraphChunks(p)[i]| == MaxCharsPerChunk
  {
    if |p| <= MaxCharsPerChunk {
      assert Concat([p]) == p + Concat([p][1..]);
      assert [p][1..] == [];
      assert p + [] == p;
    } else {
      FixedSlicesConcat(p, MaxCharsPerChunk);
      FixedSlicesSizes(p, MaxCharsPerChunk);
    }
  }

  lemma {:induction false} ChunksOfSound(paras: seq<string>)
    requires forall i :: 0 <= i < |paras| ==> paras[i] != ""
    ensures Concat(ChunksOf(paras)) == Concat(paras)
    ensures forall i :: 0 <= i < |ChunksOf(paras)| ==> 0 < |ChunksOf(paras)[i]| <= MaxCharsPerChunk
    ensures |ChunksOf(paras)| >= |paras|
    decreases |paras|
  {
    if |paras| > 0 {
      var head := ParagraphChunks(paras[0]);
      var rest := ChunksOf(paras[1..]);
      ParagraphChunksSound(paras[0]);
      ChunksOfSound(paras[1..]);
      ConcatAppend(head, rest);
      assert forall i :: |head| <= i < |head + rest| ==> (head + rest)[i] == rest[i - |head|];
    }
  }

  /** Blank input gives no chunks; every chunk is non-empty and at most 3500
      characters; the chunks concatenate to the trimmed non-empty paragraphs of
      the normalized input, in order. */
  lemma ChunkArabicTextSound(text: string)
    ensures ChunkArabicText(text) == [] <==> IsBlank(text)
    ensures forall i :: 0 <= i < |ChunkArabicText(text)| ==>
      0 < |ChunkArabicText(text)[i]| <= MaxCharsPerChunk
    ensures Concat(ChunkArabicText(text)) == Concat(Paragraphs(NormalizeText(text)))
  {
    var cleaned := NormalizeText(text);
    NormalizeTextSound(text);
    var paras := Paragraphs(cleaned);
    ChunksOfSound(paras);
    if cleaned == "" {
      EmptyHasNoParagraphs();
    } else {
      ParagraphsOfNonBlank(cleaned);
    }
  }
}
