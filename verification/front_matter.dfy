/**
 * Whole-page front matter: cataloguing, publisher and contact pages that the
 * cleaner drops, and the narrative markers that protect a page from that verdict.
 */
module FrontMatter {
  import opened Seqs
  import opened Text
  import opened OcrLexicon

  /** Pages up to this index get the early-page bias. */
  const EarlyPageIndex: nat := 12

  /** At most this many lines of a page are scanned for metadata and contacts. */
  const ScannedLines: nat := 80

  function Max(a: nat, b: nat): nat
  {
    if a >= b then a else b
  }

  /** A line that is the word `مقدمة` (introduction) and whitespace. */
  predicate IsIntroLine(line: string)
  {
    Trim(line) == "مقدمة"
  }

  /** After leading whitespace the line starts with `w`, followed by whitespace, or
      by the line break that ends it when it is not the last line. */
  predicate StartsWithWord(line: string, w: string, isLast: bool)
  {
    var t := TrimStart(line);
    w <= t && ((|t| > |w| && IsSpace(t[|w|])) || (|t| == |w| && !isLast))
  }

  /** A line opening a chapter (`الفصل`) or a part (`الباب`). */
  predicate IsChapterLine(line: string, isLast: bool)
  {
    StartsWithWord(line, "الفصل", isLast) || StartsWithWord(line, "الباب", isLast)
  }

  /** `/(^|\n)\s*مقدمة\s*($|\n)/` and `/(^|\n)\s*(الفصل|الباب)\s+/` on a text: some
      line between line feeds is an introduction line or opens a chapter. */
  predicate IsProtectedText(text: string)
  {
    var ls := Split(text, Char('\n'));
    exists i :: 0 <= i < |ls| && (IsIntroLine(ls[i]) || IsChapterLine(ls[i], i == |ls| - 1))
  }

  /** `/[.؟!؛،:]/` */
  predicate IsMetaPunct(c: char)
  {
    c == '.' || c == '؟' || c == '!' || c == '؛' || c == '،' || c == ':'
  }

  /** The non-empty trimmed lines of a text, as `split(/\r?\n+/)` then trim and
      `filter(Boolean)` give them. */
  function PageLines(text: string): (r: seq<string>)
    ensures forall i :: 0 <= i < |r| ==> r[i] != "" && IsTrimmed(r[i])
  {
    TrimNonEmpty(Split(text, LineBreaks))
  }

  /** Bibliographic lines among the first 80. */
  function MetaHits(lex: Lexicon, lines: seq<string>): (r: nat)
    ensures r <= ScannedLines && r <= |lines|
  {
    var head := FirstN(lines, ScannedLines);
    CountFilter(head, lex.isBibliographicLine);
    Count(head, lex.isBibliographicLine)
  }

  /** Contact lines among the first 80. */
  function ContactHits(lex: Lexicon, lines: seq<string>): (r: nat)
    ensures r <= ScannedLines && r <= |lines|
  {
    var head := FirstN(lines, ScannedLines);
    CountFilter(head, lex.isContactLine);
    Count(head, lex.isContactLine)
  }

  /** The metadata and contact counts that settle a page on their own. */
  predicate IsStrong(meta: nat, contact: nat)
  {
    meta >= 4 || (meta >= 2 && contact >= 2) || contact >= 5
  }

  /** A cataloguing block: many labelled lines, little punctuation, little prose
      (`Math.floor(n * 0.35)` taken as `35 * n / 100`). */
  predicate IsCipStyle(text: string, lineCount: nat, hits: nat)
  {
    hits >= Max(6, (35 * lineCount) / 100)
    && Count(text, IsMetaPunct) <= 6
    && Count(text, IsArabicChar) < 1800
  }

  /** isFrontMatterMetaPage: a blank or protected page never is; otherwise an early
      page is when its counts are strong or it looks like a cataloguing block, and a
      later page only when its counts are strong and add up to 8 or more. */
  predicate IsFrontMatterMetaPage(lex: Lexicon, rawText: string, pageIndex: nat)
  {
    var early := pageIndex <= EarlyPageIndex;
    var text := Trim(rawText);
    if text == "" then false
    else if IsProtectedText(text) then false
    else
      var lines := PageLines(text);
      if |lines| == 0 then false
      else
        var meta := MetaHits(lex, lines);
        var contact := ContactHits(lex, lines);
        var strong := IsStrong(meta, contact);
        (early && (strong || IsCipStyle(text, |lines|, meta + contact)))
        || (!early && strong && meta + contact >= 8)
  }

  /** A front-matter page stays front matter on every earlier page, the verdict
      depends only on the trimmed text, and blank or protected pages are never
      front matter. */
  lemma FrontMatterSound(lex: Lexicon, rawText: string, i: nat, j: nat)
    requires i <= j
    ensures IsFrontMatterMetaPage(lex, rawText, j) ==> IsFrontMatterMetaPage(lex, rawText, i)
    ensures IsFrontMatterMetaPage(lex, Trim(rawText), i) == IsFrontMatterMetaPage(lex, rawText, i)
    ensures IsBlank(rawText) ==> !IsFrontMatterMetaPage(lex, rawText, i)
    ensures IsProtectedText(Trim(rawText)) ==> !IsFrontMatterMetaPage(lex, rawText, i)
  {
    TrimOfTrimmed(Trim(rawText));
  }

  /** A front-matter page has at least 4 metadata or contact lines among its first
      80 lines, and a page past the early ones at least 8. */
  lemma FrontMatterNeedsHits(lex: Lexicon, rawText: string, pageIndex: nat)
    ensures IsFrontMatterMetaPage(lex, rawText, pageIndex) ==>
      var lines := PageLines(Trim(rawText));
      var hits := MetaHits(lex, lines) + ContactHits(lex, lines);
      hits >= 4 && (pageIndex > EarlyPageIndex ==> hits >= 8)
  {
  }
}
