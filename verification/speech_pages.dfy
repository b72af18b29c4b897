/**
 * Classification of the cleaned pages for speech, and the combined book text
 * assembled from the pages that are kept as text.
 */
module SpeechPages {
  import opened Seqs
  import opened Text
  import opened OcrLexicon
  import opened FrontMatter

  /** The page types, in the order the classifier tries them. */
  datatype PageType = Empty | FrontMatterType | References | English | TextPage

  datatype Processed = Processed(kind: PageType, spokenText: string)

  /** The characters removed before measuring the Arabic core of a page: digits,
      whitespace and the listed punctuation. */
  predicate IsNoiseChar(c: char)
  {
    IsDigitChar(c) || IsSpace(c) || c in ".,-_:;()[]{}/\\|~`'\"!?…•٫٬؛،"
  }

  /** Length of the text once noise characters are removed. */
  function CoreLength(s: string): nat
  {
    Count(s, (c: char) => !IsNoiseChar(c))
  }

  /** Lines with three Arabic characters in a row. */
  function ArabicLines(s: string): nat
  {
    Count(TrimNonEmpty(Split(s, LineBreaks)), HasArabicRun)
  }

  /** shouldSkipAsMostlyEnglish: many more Latin than Arabic letters, nothing left
      after stripping English, an Arabic core under 20 characters, or at most one
      Arabic line with a core under 40. */
  predicate ShouldSkipAsMostlyEnglish(lex: Lexicon, rawText: string)
  {
    var latin := Count(rawText, IsLatinLetter);
    var arabic := Count(rawText, IsArabicChar);
    if latin >= Max(60, 3 * arabic) && arabic < 120 then true
    else
      var arabicOnly := lex.stripInlineEnglish(rawText);
      if arabicOnly == "" then true
      else
        var core := CoreLength(arabicOnly);
        if core < 20 then true
        else ArabicLines(arabicOnly) <= 1 && core < 40
  }

  /** processOnePageForSpeech: empty, then front matter (as page 0), references,
      mostly English, and otherwise the page's Arabic text. */
  function ProcessOnePageForSpeech(lex: Lexicon, rawText: string): (r: Processed)
    ensures r.spokenText != "" <==> r.kind == TextPage
  {
    var base := Trim(rawText);
    if base == "" then Processed(Empty, "")
    else if IsFrontMatterMetaPage(lex, base, 0) then Processed(FrontMatterType, "")
    else if lex.isReferencesPage(base) then Processed(References, "")
    else if ShouldSkipAsMostlyEnglish(lex, base) then Processed(English, "")
    else
      var arabicOnly := lex.stripInlineEnglish(base);
      if arabicOnly == "" then Processed(Empty, "")
      else Processed(TextPage, arabicOnly)
  }

  /** The checks run in a fixed order, and each type is given exactly when every
      earlier check failed and its own succeeded. A page is empty exactly when it
      is blank: the second emptiness check can never fire, because a page with
      nothing left after stripping English is already classified as English. A
      non-blank page that passes every check is spoken as its Arabic text, whose
      core has at least 20 characters, and 40 when it has at most one Arabic line. */
  lemma ProcessOnePageSound(lex: Lexicon, rawText: string)
    ensures ProcessOnePageForSpeech(lex, rawText).kind == Empty <==> IsBlank(rawText)
    ensures var base := Trim(rawText);
      ProcessOnePageForSpeech(lex, rawText).kind == FrontMatterType <==>
        !IsBlank(rawText) && IsFrontMatterMetaPage(lex, base, 0)
    ensures var base := Trim(rawText);
      ProcessOnePageForSpeech(lex, rawText).kind == References <==>
        !IsBlank(rawText) && !IsFrontMatterMetaPage(lex, base, 0) && lex.isReferencesPage(base)
    ensures var base := Trim(rawText);
      ProcessOnePageForSpeech(lex, rawText).kind == English <==>
        && !IsBlank(rawText)
        && !IsFrontMatterMetaPage(lex, base, 0)
        && !lex.isReferencesPage(base)
        && ShouldSkipAsMostlyEnglish(lex, base)
    ensures var base := Trim(rawText);
      ProcessOnePageForSpeech(lex, rawText).kind == TextPage <==>
        && !IsBlank(rawText)
        && !IsFrontMatterMetaPage(lex, base, 0)
        && !lex.isReferencesPage(base)
        && !ShouldSkipAsMostlyEnglish(lex, base)
    ensures var r := ProcessOnePageForSpeech(lex, rawText);
      var base := Trim(rawText);
      r.kind == TextPage ==>
        && r.spokenText == lex.stripInlineEnglish(base)
        && CoreLength(r.spokenText) >= 20
        && (ArabicLines(r.spokenText) <= 1 ==> CoreLength(r.spokenText) >= 40)
  {
  }

  /** The type a page gets depends on its trimmed text only. */
  lemma ProcessOnePageTrim(lex: Lexicon, rawText: string)
    ensures ProcessOnePageForSpeech(lex, Trim(rawText)) == ProcessOnePageForSpeech(lex, rawText)
  {
    TrimOfTrimmed(Trim(rawText));
  }

  predicate IsTextPage(p: Processed)
  {
    p.kind == TextPage
  }

  /** The spoken texts of the text pages, in page order (the loop filling
      `combinedParts`). */
  function TextParts(processed: seq<Processed>): (r: seq<string>)
    ensures |r| <= |processed|
  {
    if |processed| == 0 then []
    else
      var p := processed[0];
      (if p.kind == TextPage then [p.spokenText] else []) + TextParts(processed[1..])
  }

  /** The collected parts are the text pages' spoken texts, in order. */
  lemma {:induction false} TextPartsReference(processed: seq<Processed>)
    ensures TextParts(processed) == MapSeq(Filter(processed, IsTextPage), (p: Processed) => p.spokenText)
    decreases |processed|
  {
    var spoken := (p: Processed) => p.spokenText;
    if |processed| > 0 {
      TextPartsReference(processed[1..]);
      var rest := Filter(processed[1..], IsTextPage);
      var p := processed[0];
      if IsTextPage(p) {
        assert Filter(processed, IsTextPage) == [p] + rest;
        assert MapSeq([p] + rest, spoken) == [p.spokenText] + MapSeq(rest, spoken);
      } else {
        assert Filter(processed, IsTextPage) == rest;
      }
    }
  }

  /** `pages.map(processOnePageForSpeech)` */
  function ProcessPages(lex: Lexicon, pages: seq<string>): (r: seq<Processed>)
    ensures |r| == |pages|
    ensures forall i :: 0 <= i < |pages| ==> r[i] == ProcessOnePageForSpeech(lex, pages[i])
  {
    MapSeq(pages, (p: string) => ProcessOnePageForSpeech(lex, p))
  }

  /** Classified pages whose text pages all carry spoken text. */
  predicate SpokenWhenText(processed: seq<Processed>)
  {
    forall i :: 0 <= i < |processed| && processed[i].kind == TextPage ==> processed[i].spokenText != ""
  }

  /** Every collected part is non-empty when every text page has spoken text. */
  lemma TextPartsNonEmpty(processed: seq<Processed>)
    requires SpokenWhenText(processed)
    ensures forall k :: 0 <= k < |TextParts(processed)| ==> TextParts(processed)[k] != ""
  {
    var texts := Filter(processed, IsTextPage);
    TextPartsReference(processed);
    forall k | 0 <= k < |texts|
      ensures texts[k].spokenText != ""
    {
      assert texts[k] in texts;
      assert texts[k] in processed;
      var i :| 0 <= i < |processed| && processed[i] == texts[k];
    }
  }

  /** The collected parts joined by blank lines are empty exactly when no page is a
      text page. */
  lemma JoinedTextPartsEmpty(processed: seq<Processed>)
    requires SpokenWhenText(processed)
    ensures Join(TextParts(processed), "\n\n") == "" <==>
      forall i :: 0 <= i < |processed| ==> processed[i].kind != TextPage
  {
    TextPartsNonEmpty(processed);
    JoinEmptyIff(TextParts(processed), "\n\n");
    TextPartsReference(processed);
    FilterEmpty(processed, IsTextPage);
  }

  /** The combined book text: the text pages' spoken texts joined by blank lines. */
  function CombinedText(lex: Lexicon, pages: seq<string>): string
  {
    Join(TextParts(ProcessPages(lex, pages)), "\n\n")
  }

  /** The combined text is empty exactly when no page is a text page. */
  lemma CombinedTextEmpty(lex: Lexicon, pages: seq<string>)
    ensures CombinedText(lex, pages) == "" <==>
      forall i :: 0 <= i < |pages| ==> ProcessPages(lex, pages)[i].kind != TextPage
  {
    JoinedTextPartsEmpty(ProcessPages(lex, pages));
  }

  lemma {:induction false} FilterEmpty<T>(xs: seq<T>, keep: T -> bool)
    ensures Filter(xs, keep) == [] <==> forall i :: 0 <= i < |xs| ==> !keep(xs[i])
    decreases |xs|
  {
    if |xs| > 0 {
      FilterEmpty(xs[1..], keep);
      if !keep(xs[0]) {
        forall i | 1 <= i < |xs|
          ensures xs[i] == xs[1..][i - 1]
        {
        }
      }
    }
  }

  /** The per-page file contents: a text page's spoken text and a line feed, and an
      empty file for every other page. */
  function PagePayloads(processed: seq<Processed>): (r: seq<string>)
    ensures |r| == |processed|
    ensures forall i :: 0 <= i < |processed| && processed[i].kind == TextPage && processed[i].spokenText != "" ==>
      r[i] == processed[i].spokenText + "\n"
    ensures forall i :: 0 <= i < |processed| && processed[i].kind != TextPage ==> r[i] == ""
  {
    MapSeq(processed, (p: Processed) =>
      var payload := if p.kind == TextPage then p.spokenText else "";
      if payload != "" then payload + "\n" else "")
  }
}
