# Qabas text pipeline in Dafny

Qabas turns Arabic PDF books into audiobooks, summaries and a question-answering
chat. Around the cloud handlers sits a purely textual pipeline, and this project
models that pipeline and proves properties of it:

- **OCR output to pages** (`ocrFunction.ts`):
  - an upload path is classified as an administrator's audiobook or a user's private book;
  - a PDF of more than 100 pages is split into page-range parts;
  - each OCR page's text is rebuilt from the anchors of its layout tree;
  - the page cleaner removes running headers and footers, front-matter, table-of-contents
    and publisher pages, page numbers, reference footers and decorative lines;
  - each cleaned page is classified for speech, and the book text is assembled from the
    text pages.
- **Chunkers**:
  - the audiobook chunker of `generate_audio.ts` (paragraphs, sentence packing, greedy
    merge, trailing merge);
  - the hard 3500-character chunker of the personal-library and summary audio handlers;
  - the overlapping-window chunker and merge batching of the summary handler.
- **Chat helpers** (`book_chat.ts`): message normalisation, greeting and thanks detection,
  extraction of a "what does X mean" term, history trimming, and the order of the handler's
  early exits. As in the source, the handler takes a message for a greeting when a
  normalised greeting phrase occurs anywhere in it, even inside a word. A corrected
  handler that matches whole words only is modelled beside it; see "## Findings".

Some pieces are defined by large regular-expression vocabularies or by Unicode tables.
These are fields of a record passed to every operation that needs them
(`OcrLexicon.Lexicon`, `BookChat.CharClasses`):
- the bibliographic, contact, table-of-contents entry and table-of-contents heading shapes;
- the reference-page test, English stripping and inline page-number removal;
- Unicode lower-casing and the letter and number classes;
- the term captures.

The properties hold for any such vocabulary, except where a lemma names an assumption about
it. Patterns with a simple shape are modelled exactly:
- page-number lines, short title lines, chapter and introduction markers, and dividers;
- the reference-footer words, the see-also spellings, the footer-meta words and the year
  shapes;
- letter and punctuation counts;
- JavaScript's `trim`, `split`, `substring` and `slice`.

Modules:

- `Wrappers`, `Seqs`, `Text`: options and results, sequence helpers, and JavaScript string
  semantics (white space, `trim`, the `split` loop).
- `Upload`, `PdfParts`, `PageExtract`: upload context, part ranges, page text extraction.
- `OcrLexicon`, `LineRules`, `FrontMatter`, `Cleaner`: the page cleaner.
- `SpeechPages`: page classification and the combined book text.
- `Reflow`, `SpeechChunker`, `HardChunker`, `Summary`: text normalisation and the chunkers.
- `BookChat`: the chat helpers.

## Model

| member | source | states |
|---|---|---|
| Upload.UploadContextSound | Qabas/functions/src/ocrFunction.ts:46-72 | A recognised upload's base prefix begins its path. An admin context is `audiobooks/{bookId}` and a user context is `users/{uid}/mybooks/{docId}`, each id a single path segment. |
| Upload.UploadContextOfSegments | Qabas/functions/src/ocrFunction.ts:46-72 | For a path built from slash-free segments, `audiobooks/b/...` gives admin `b` and is tested first. Otherwise `users/u/mybooks/d/...` gives user `u`, `d`. Every other path has no context. |
| PdfParts.CeilDiv | Qabas/functions/src/ocrFunction.ts:130 | The part count is the least number of 100-page parts that holds every page. |
| PdfParts.PreparePdfParts | Qabas/functions/src/ocrFunction.ts:122-146 | A document is used whole exactly when it has at most 100 pages. Otherwise it gets ceil(total/100) ranges that are non-empty, contiguous, at most 100 long, start at 0 and end at the page count, so every page lies in some part. |
| PageExtract.Clamp | Qabas/functions/src/ocrFunction.ts:208 | A `substring` index is clamped into `[0, length]` and left alone when already inside. |
| PageExtract.Substring | Qabas/functions/src/ocrFunction.ts:208 | `substring` with in-range ordered indices is the plain slice, and is never longer than the text. |
| PageExtract.SubstringSymmetric | Qabas/functions/src/ocrFunction.ts:208 | `substring(a, b)` equals `substring(b, a)`. |
| PageExtract.SliceFromAnyAnchor | Qabas/functions/src/ocrFunction.ts:198-214 | A missing anchor gives the empty text. An anchor's inline `content` wins over its segments. |
| PageExtract.SliceSegmentsAppend | Qabas/functions/src/ocrFunction.ts:203-211 | Slicing a concatenation of segment lists is the concatenation of the slices. |
| PageExtract.SliceSegmentsReference | Qabas/functions/src/ocrFunction.ts:203-211 | The slice of a segment list is the concatenation, in order, of `fullText[start..end)` over exactly the segments with numeric offsets and `end > start`. |
| PageExtract.PickLayoutAnchor | Qabas/functions/src/ocrFunction.ts:216-217 | A node's layout anchor is preferred to its direct anchor. |
| PageExtract.ConcatIf | Qabas/functions/src/ocrFunction.ts:219-220 | A blank addition leaves the text unchanged. Otherwise the trimmed addition is appended, after a line feed when the text is non-empty. |
| PageExtract.ConcatAllGlue | Qabas/functions/src/ocrFunction.ts:225-241 | Folding `concatIf` over a level's texts glues the accumulated text to the line-feed join of the level's trimmed non-blank texts. |
| PageExtract.ConcatAllFromBlank | Qabas/functions/src/ocrFunction.ts:225-241 | Starting from a blank page text, the trimmed result of a level is exactly the line-feed join of its trimmed non-blank texts. |
| PageExtract.LevelStepSound | Qabas/functions/src/ocrFunction.ts:225-241 | A paragraphs, lines or blocks level leaves a non-blank page text alone. On a blank one it yields, once trimmed, the line-feed join of its nodes' trimmed non-blank texts, or nothing when the level is absent. |
| PageExtract.TokenStepSound | Qabas/functions/src/ocrFunction.ts:243-250 | The token level leaves a non-blank page text alone. On a blank one it yields, once trimmed, the non-empty token texts joined with nothing in between. |
| PageExtract.FallbackStepSound | Qabas/functions/src/ocrFunction.ts:252-267 | The fallback leaves a non-blank page text alone. On a blank one it yields the line-feed join of the trimmed non-blank inline contents of the first level present. |
| PageExtract.ChainPicksFirst | Qabas/functions/src/ocrFunction.ts:222-270 | A chain of levels, each consulted only while the text is blank, ends (trimmed) at the first non-blank of the six candidates. |
| PageExtract.ExtractOnePageText | Qabas/functions/src/ocrFunction.ts:222-270 | The extracted page text is trimmed. |
| PageExtract.ExtractOnePageTextReference | Qabas/functions/src/ocrFunction.ts:222-270 | The page text is the trimmed first non-blank candidate, tried in this order: page anchor, paragraphs, lines, blocks, tokens joined with no separator, inline content of the first present level. |
| PageExtract.FirstNonBlankSix | Qabas/functions/src/ocrFunction.ts:225-267 | The first non-blank of the six candidates is decided by the first whose trim is non-empty, in priority order. |
| LineRules.PageNumberLineSound | Qabas/functions/src/ocrFunction.ts:278-294 | Whether a line is a page number does not depend on surrounding white space. A page-number line has non-space characters, all of them digits, Roman-numeral letters, or letters of `page` or `صفحة`. |
| LineRules.PageWordNumberChars | Qabas/functions/src/ocrFunction.ts:290-291 | A "Page n" / "صفحة n" line is made only of page-word letters, digits and Roman numerals. |
| LineRules.DigitsArePageNumber | Qabas/functions/src/ocrFunction.ts:282-285 | Any run of ASCII or Arabic-Indic digits, surrounded by white space, is a page-number line. |
| LineRules.ShortTitleLineSound | Qabas/functions/src/ocrFunction.ts:325-334 | A short title line trims to 3 to 40 characters, and the test ignores surrounding white space. |
| LineRules.TocCountsSum | Qabas/functions/src/ocrFunction.ts:347-355 | The TOC-like and short-title counts add up to the number of lines that are either. |
| LineRules.TocStructureSound | Qabas/functions/src/ocrFunction.ts:340-360 | Blank lines do not change the verdict, a TOC page stays one at every earlier index, and a TOC page has at least 5 non-empty lines, at least 5 candidates, and candidates making up at least 60% of its lines. |
| LineRules.FirstDivider | Qabas/functions/src/ocrFunction.ts:387-392 | The divider found is the first line from the start index that trims to 5 or more of `.`, `-` or `_`. None means there is no such line. |
| LineRules.RefCandidates | Qabas/functions/src/ocrFunction.ts:399-412 | Every collected index is in range and its trimmed line has a reference word or at least 8 Latin letters. |
| LineRules.FirstSeeAlsoCut | Qabas/functions/src/ocrFunction.ts:425-450 | A see-also cut lies within the last 4 lines, on a trimmed line that contains the phrase "انظر أيضا" (see also) in one of its spellings. |
| LineRules.StripReferenceFooterPrefix | Qabas/functions/src/ocrFunction.ts:382-453 | The result is a prefix of the lines. Fewer than 4 lines are returned unchanged. At most the last 6 lines are removed. |
| LineRules.StripReferenceFooterStart | Qabas/functions/src/ocrFunction.ts:382-453 | When lines are removed, the first removed line is a divider, a reference candidate or a see-also line. |
| LineRules.StripReferenceFooterDivider | Qabas/functions/src/ocrFunction.ts:386-392 | A divider among the last 6 of 4 or more lines is always cut off. |
| FrontMatter.PageLines | Qabas/functions/src/ocrFunction.ts:540 | The lines of a page are non-empty and trimmed. |
| FrontMatter.MetaHits | Qabas/functions/src/ocrFunction.ts:543-549 | At most 80 lines, and no more than the page has, are counted as bibliographic. |
| FrontMatter.ContactHits | Qabas/functions/src/ocrFunction.ts:543-549 | At most 80 lines, and no more than the page has, are counted as contact lines. |
| FrontMatter.FrontMatterSound | Qabas/functions/src/ocrFunction.ts:529-570 | A front-matter page would also be one at any earlier index, and the verdict depends only on the trimmed text. A blank page, or one with an introduction or chapter-opening line, is never front matter. |
| FrontMatter.FrontMatterNeedsHits | Qabas/functions/src/ocrFunction.ts:543-567 | A front-matter page has at least 4 metadata or contact lines among its first 80, and at least 8 when it is past page 12. |
| Cleaner.Frequencies | Qabas/functions/src/ocrFunction.ts:590-603 | The frequency map holds exactly the edge keys seen, each with its number of occurrences. |
| Cleaner.HeaderFooter | Qabas/functions/src/ocrFunction.ts:589-608 | A line is a header/footer candidate exactly when it occurs at least twice among the trimmed, non-blank, non-page-number edge lines of at most 80 characters. Edge lines are the first 3 and last 2 lines of every page. |
| Cleaner.HeaderFooterShape | Qabas/functions/src/ocrFunction.ts:592-608 | Every candidate is a trimmed edge key that occurs among the edge lines of some page. |
| Cleaner.OneLineEdgeKeys | Qabas/functions/src/ocrFunction.ts:593-602 | A one-line page counts its trimmed line twice, once in the top window and once in the bottom window. |
| Cleaner.OneLinePageIsOwnHeader | Qabas/functions/src/ocrFunction.ts:593-595 | The top and bottom windows overlap on short pages, so a one-line page alone makes its line a header/footer candidate. |
| Cleaner.DropReasonOf | Qabas/functions/src/ocrFunction.ts:617-645 | A page is dropped as front matter exactly when the front-matter test holds, and only then. A TOC or publisher drop implies its test. A page is kept exactly when none of the three tests holds. |
| Cleaner.RetainedLinesSound | Qabas/functions/src/ocrFunction.ts:647-683 | The retained lines are a subsequence of the page's trimmed lines. Each one is non-empty, not a page number, header, TOC heading, contact or unprotected bibliographic line, and not decorative. |
| Cleaner.CleanPage | Qabas/functions/src/ocrFunction.ts:612-690 | A kept page's text is non-empty and trimmed, and the page passed every page-drop test. |
| Cleaner.SurvivorsSound | Qabas/functions/src/ocrFunction.ts:610-693 | The compacting loop keeps, in increasing index order, exactly the indices whose page yields text, each paired with that text. |
| Cleaner.CleanPages | Qabas/functions/src/ocrFunction.ts:584-694 | The cleaner never outputs more pages than it was given. |
| Cleaner.CleanPagesOrder | Qabas/functions/src/ocrFunction.ts:610-693 | The output pages come from strictly increasing input indices, one index per output page. |
| Cleaner.CleanPagesContent | Qabas/functions/src/ocrFunction.ts:587-693 | Each output page is the cleaned text of its input page under the header/footer set of all pages. Every page whose cleaning leaves text is in the output, so dropped pages leave no slot. |
| Cleaner.CleanPagesSound | Qabas/functions/src/ocrFunction.ts:617-690 | Every output page is non-empty and trimmed. No page dropped as front matter, TOC or publisher page reaches the output. |
| SpeechPages.ProcessOnePageForSpeech | Qabas/functions/src/ocrFunction.ts:788-810 | A page has spoken text exactly when it is classified as text. |
| SpeechPages.ProcessOnePageSound | Qabas/functions/src/ocrFunction.ts:788-810 | The checks run in order, and each type is given exactly when every earlier check failed and its own succeeded. A page is empty exactly when it is blank, so the second emptiness check never fires. It is front matter exactly when it is non-blank and the front-matter test holds. It is references exactly when it is also not front matter and the references test holds. It is English exactly when it also is not references and the mostly-English test holds. It is a text page exactly when it is non-blank and all three tests fail. A text page is spoken as its English-stripped text, with an Arabic core of at least 20 characters, and at least 40 when it has at most one Arabic line. |
| SpeechPages.ProcessOnePageTrim | Qabas/functions/src/ocrFunction.ts:790-791 | Classification depends only on the trimmed page. |
| SpeechPages.TextPartsReference | Qabas/functions/src/ocrFunction.ts:1058-1061 | The collected parts are the spoken texts of exactly the text pages, in page order. |
| SpeechPages.TextPartsNonEmpty | Qabas/functions/src/ocrFunction.ts:1058-1061 | When every text page carries spoken text, as classification guarantees, every collected part is non-empty. |
| SpeechPages.JoinedTextPartsEmpty | Qabas/functions/src/ocrFunction.ts:1058-1062 | The parts joined by blank lines are empty exactly when no page is a text page. |
| SpeechPages.CombinedTextEmpty | Qabas/functions/src/ocrFunction.ts:1056-1062 | The combined book text of the classified pages is empty exactly when no page is classified as text. |
| SpeechPages.PagePayloads | Qabas/functions/src/ocrFunction.ts:1075-1085 | There is one page file per classified page. A text page's file is its spoken text plus a line feed, and every other page's file is empty. |
| Reflow.NormalizeTextSound | Qabas/functions/src/generate_audio.ts:24-30 | Normalised text has no carriage return, no space or tab before a line feed, no three line feeds in a row, and no surrounding white space. It keeps the non-space characters in order, and is empty exactly for blank input. generateMyBookAudio.ts and generateSummaryAudio.ts hold the same normaliser. |
| Reflow.NormalizeTextIdempotent | Qabas/functions/src/generate_audio.ts:24-30 | Normalising twice is normalising once. |
| Reflow.Paragraphs | Qabas/functions/src/generate_audio.ts:36-39 | Paragraphs are non-empty and trimmed. |
| Reflow.NonSpaceParagraphs | Qabas/functions/src/generate_audio.ts:36-39 | Splitting into paragraphs loses no non-space character and reorders none. |
| SpeechChunker.Sentences | Qabas/functions/src/generate_audio.ts:48-51 | Sentences are non-empty and trimmed. |
| SpeechChunker.SentencesEmptyIffBlank | Qabas/functions/src/generate_audio.ts:48-51 | A paragraph has no sentences exactly when it is blank. |
| SpeechChunker.PackShape | Qabas/functions/src/generate_audio.ts:60-69 | Sentence packing gives non-empty trimmed chunks, each within 3500 characters or a single sentence. |
| SpeechChunker.PackNonSpace | Qabas/functions/src/generate_audio.ts:60-69 | Sentence packing keeps the non-space characters in order. |
| SpeechChunker.SegmentsSound | Qabas/functions/src/generate_audio.ts:42-70 | A paragraph yields at least one segment. Segments are non-empty and trimmed, each within 3500 characters or a single sentence, and they keep the non-space characters in order. |
| SpeechChunker.MergeShape | Qabas/functions/src/generate_audio.ts:72-92 | The greedy merge keeps chunks non-empty, trimmed, and within 3500 characters or a single sentence. |
| SpeechChunker.MergeNonSpace | Qabas/functions/src/generate_audio.ts:72-92 | The greedy merge keeps the non-space characters in order. |
| SpeechChunker.MergeNeighbours | Qabas/functions/src/generate_audio.ts:72-92 | After the greedy merge, any two neighbouring chunks joined by a blank line exceed 3500 characters. |
| SpeechChunker.ChunkArabicTextSound | Qabas/functions/src/generate_audio.ts:32-105 | Blank input gives no chunks. Every chunk is non-empty, trimmed, and at most 3500 characters unless it is one sentence. The chunks keep the input's non-space characters in order. The trailing merge never changes the greedy result. |
| HardChunker.ParagraphChunksSound | Qabas/functions/src/generateMyBookAudio.ts:49-53 | A paragraph of at most 3500 characters is one chunk, unchanged. A longer one is cut into non-empty pieces that concatenate back to it, all but the last exactly 3500 long. |
| HardChunker.ChunksOfSound | Qabas/functions/src/generateMyBookAudio.ts:47-55 | The chunks of all paragraphs concatenate to the paragraphs' concatenation, each between 1 and 3500 characters long. |
| HardChunker.ChunkArabicTextSound | Qabas/functions/src/generateMyBookAudio.ts:38-56 | Blank input gives no chunks. Every chunk has 1 to 3500 characters. The chunks concatenate to the concatenation of the trimmed non-empty paragraphs. generateSummaryAudio.ts holds the same chunker. |
| Summary.Clamp | Qabas/functions/src/generate_summary.ts:15-17 | The clamped value lies in `[min, max]` when `min <= max`, is unchanged when already inside, and is one of the three arguments. |
| Summary.ChooseTargetWordsByChars | Qabas/functions/src/generate_summary.ts:46-51 | Word targets satisfy `120 <= min < max <= 600`. |
| Summary.ChooseTargetWordsMonotone | Qabas/functions/src/generate_summary.ts:46-51 | A longer text never gets smaller word targets. |
| Summary.SummaryTargets | Qabas/functions/src/generate_summary.ts:206-218 | A text under 200 characters is refused with failed-precondition. Otherwise the clamped targets satisfy `80 <= min <= 600` and `120 <= max <= 600` with `min < max`, and are 80-140 below 1200 characters. |
| Summary.ChooseChunking | Qabas/functions/src/generate_summary.ts:60-65 | The overlap is always below the window size, and the window is 12000 to 20000 characters. |
| Summary.ChooseChunkingMonotone | Qabas/functions/src/generate_summary.ts:60-65 | A longer text never gets a smaller window or overlap. |
| Summary.ChunkText | Qabas/functions/src/generate_summary.ts:67-82 | The loop terminates and returns the trimmed non-empty window texts in window order. Each has at most `chunkSize` characters. |
| Summary.WindowsSound | Qabas/functions/src/generate_summary.ts:71-79 | Empty text has no windows. The first window starts at 0 and the last ends at the text length, successive starts advance by `chunkSize - overlap`, and every index lies in some window. |
| Summary.SummaryChunksSound | Qabas/functions/src/generate_summary.ts:223-238 | A text of at most 12000 characters is one chunk. A longer one gives non-empty trimmed chunks of at most 26000 characters, re-chunking included. |
| Summary.GroupArray | Qabas/functions/src/generate_summary.ts:163-169 | The groups concatenate back to the input, each has 1 to `groupSize` elements, and all but the last have exactly `groupSize`. |
| Summary.IntermediateGroups | Qabas/functions/src/generate_summary.ts:284-289 | With at most 8 partial summaries there is no intermediate merge. Otherwise groups of 1 to 4 summaries cover all of them in order. |
| Summary.FinalSummary | Qabas/functions/src/generate_summary.ts:362-368 | A blank final summary is an internal error. Otherwise the result is non-empty and trimmed, has no three line feeds in a row, and keeps the non-space characters. |
| BookChat.CollapseSpacesSound | Qabas/functions/src/book_chat.ts:27 | Collapsing white space leaves single spaces, keeps emptiness and the leading and trailing space status, and introduces no new non-space character. |
| BookChat.CollapseSpacesNonSpace | Qabas/functions/src/book_chat.ts:80 | Collapsing whitespace runs keeps the non-space characters in order and never lengthens the text. |
| BookChat.NormSound | Qabas/functions/src/book_chat.ts:23-29 | A normalised message is trimmed, single-spaced, and otherwise made of letters and digits. |
| BookChat.NormIdempotent | Qabas/functions/src/book_chat.ts:23-29 | Normalisation is idempotent when lower-casing is idempotent and keeps character classes. |
| BookChat.SomeIncludedIff | Qabas/functions/src/book_chat.ts:45 | The phrase test holds exactly when some normalised phrase occurs in the message. |
| BookChat.GreetingThanksSound | Qabas/functions/src/book_chat.ts:31-63 | A message is a greeting (a thanks) exactly when some normalised greeting (thanks phrase) occurs in the normalised message. Normalising the message first changes neither verdict. |
| BookChat.GreetingSubstringCounterexample | Qabas/functions/src/book_chat.ts:31-46 | Under ASCII and Arabic letter classes, the question "what is this book about" passes isGreeting as written, because "this" includes "hi". No greeting occurs in it as whole words. |
| BookChat.IsGreetingWordsSound | Qabas/functions/src/book_chat.ts:31-46 | A greeting found as whole words is also found by the substring test. Every greeting phrase sent on its own is a greeting. |
| BookChat.DropLeadingQuotes | Qabas/functions/src/book_chat.ts:79 | Stripping leading quotes leaves a suffix that does not start with a quote, and every removed character is a quote. |
| BookChat.DropTrailingQuotes | Qabas/functions/src/book_chat.ts:79 | Stripping trailing quotes leaves a prefix that does not end with a quote, and every removed character is a quote. |
| BookChat.StripQuotesSound | Qabas/functions/src/book_chat.ts:79 | The stripped text is a contiguous piece of the input. Only quotes are removed before and after it, and it neither starts nor ends with a quote. |
| BookChat.CleanTerm | Qabas/functions/src/book_chat.ts:77-81 | A missing capture gives no term. An accepted term is 1 to 80 characters, trimmed and single-spaced, and has the non-space characters of the trimmed, quote-stripped capture. A capture of at most 80 characters with a non-space character inside its quotes is always accepted. |
| BookChat.ExtractMeaningTermSound | Qabas/functions/src/book_chat.ts:65-86 | A term is 1 to 80 characters, trimmed and single-spaced. It comes from the first pattern whose capture survives cleaning. There is no term exactly when no pattern's capture does. |
| BookChat.TrimHistorySound | Qabas/functions/src/book_chat.ts:204-211 | The history keeps min(8, number of non-empty entries) turns, each non-empty and trimmed, as a subsequence of the mapped entries in their original order. The kept turns are the suffix of the non-empty turns. |
| BookChat.TrimHistoryReference | Qabas/functions/src/book_chat.ts:204-211 | Entry by entry, an entry is kept exactly when its trimmed text is non-empty and fewer than 8 later entries have non-empty trimmed text. |
| BookChat.AskBookChatOrder | Qabas/functions/src/book_chat.ts:183-213 | A blank book id or message is an invalid argument. A greeting gets the greeting reply. As written, this means some normalised greeting phrase occurs anywhere in the normalised message. A thanks message that is not a greeting gets the thanks reply. Neither consults the book. A real question on a missing book is not found. One on a book with a blank vector store fails its precondition. Otherwise the question goes to the model with the trimmed vector store id and message, the trimmed history and the meaning term of the trimmed message. |
| BookChat.AskBookChatGreetsBookQuestion | Qabas/functions/src/book_chat.ts:183-195 | For any book id that is not blank and any book, the handler as written answers "what is this book about" with the greeting reply, because "this" includes "hi". It never looks at the book. The whole-word handler does not greet this question. |
| BookChat.AskBookChatWholeWordsSound | Qabas/functions/src/book_chat.ts:183-195 | Past the argument checks, the corrected handler greets exactly when a greeting phrase occurs as whole words. Whenever it greets, the handler as written greets too. On a message with no greeting phrase at all, the two handlers give the same answer. |

## Left out

- Storage, Firestore, Document AI, OpenAI, ElevenLabs, ffmpeg, `pdf-lib` and `pdf-parse`
  are I/O or foreign calls. The handlers around the pipeline, status updates, download
  tokens, `collectPages` and file naming are plumbing. So are the worker pool, retries and
  `sleep`, which are concurrency and timing. The prompt builders produce fixed prompt text.
- `cleanPages` drops a page whole (ocrFunction.ts:617-645 `continue`, 690 pushes only
  non-empty text). So the per-page files are numbered over the cleaned pages
  (ocrFunction.ts:1075-1077), and a dropped page leaves no slot. The model does the same.
- Some regular-expression vocabularies are uninterpreted record fields, and no property
  depends on their contents: the bibliographic, contact, TOC-entry, TOC-heading and
  reference-page tests, `toLowerCase`, `stripInlineEnglish`, `removeInlinePageNumbers` and
  the meaning-term captures.
- `toLowerCase` is modelled one character at a time (`char -> char` in
  `OcrLexicon.Lexicon.lower` and `BookChat.CharClasses.lower`), so lower-casing keeps the
  length. JavaScript's `toLowerCase` can lengthen a string: U+0130 becomes "i" followed by
  U+0307. Such characters are not modelled.
- Lengths count Unicode code points, while JavaScript counts UTF-16 code units. They agree
  on the Arabic and Latin text the pipeline handles, but differ on characters outside the
  Basic Multilingual Plane.
- FrontMatter.IsCipStyle: `Math.floor(n * 0.35)` is taken as `35 * n / 100`. The
  floating-point product can be one lower when `35 * n` is a multiple of 100, e.g. at n = 180.
- PageExtract.SliceFromAnyAnchor: segments are already parsed. The choice among
  `textSegments`, `segments` and `textSegment` and the `?? 0` defaults are not modelled.
  An offset is an integer or NaN; fractional offsets are not modelled.
- PageExtract.ExtractOnePageText: a page holds already-parsed layout levels. Non-array
  levels are modelled as absent, and non-string inline content as missing.
- The merging of part results (`partResults.flat()`) and the early return on a book with
  no pages are plumbing around the modelled page lists.
- Summary.ChunkText requires `overlap < chunkSize`, which `chooseChunking` always gives.
  With a larger overlap the source loop never ends.
- BookChat.NormIdempotent: holds only if lower-casing is idempotent and keeps letters,
  digits and spaces in their classes. Unicode lower-casing is not modelled.

## Findings

| source | as written | input that shows it | evidently intended | confidence | as-written member | corrected member |
|---|---|---|---|---|---|---|
| Qabas/functions/src/book_chat.ts:31-46 | `isGreeting` tests `m.includes(norm(g))`, so a greeting matches inside any word | "what is this book about": "this" includes "hi", so the handler sends the greeting reply and never consults the book | a greeting phrase counts only as whole words of the message | medium, not executed | BookChat.AskBookChatGreetsBookQuestion | BookChat.AskBookChatWholeWordsSound |
