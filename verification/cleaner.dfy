/**
 * The OCR page cleaner: running headers and footers found across all pages, then
 * each page either dropped whole (front matter, table of contents, publisher
 * page) or reduced to its content lines.
 */
module Cleaner {
  import opened Wrappers
  import opened Seqs
  import opened Text
  import opened OcrLexicon
  import opened LineRules
  import opened FrontMatter

  /** Lines at the top and at the bottom of a page that can be running headers and
      footers, and the longest such line. */
  const TopLines: nat := 3
  const BottomLines: nat := 2
  const MaxEdgeLineLength: nat := 80

  /** `p.split(/\r?\n+/)` */
  function RawLines(page: string): seq<string>
  {
    Split(page, LineBreaks)
  }

  /** `lines.slice(0, 3)` followed by `lines.slice(-2)`; on a page of 4 lines or
      fewer the two windows overlap. */
  function EdgeLines(lines: seq<string>): seq<string>
  {
    FirstN(lines, TopLines) + LastN(lines, BottomLines)
  }

  /** A trimmed edge line that is counted: not empty, not a page number, at most
      80 characters. */
  predicate IsEdgeKey(line: string)
  {
    line != "" && !IsPageNumberLine(line) && |line| <= MaxEdgeLineLength
  }

  /** The counted keys of one page, in window order. */
  function EdgeKeys(lines: seq<string>): seq<string>
  {
    Filter(MapSeq(EdgeLines(lines), Trim), IsEdgeKey)
  }

  /** The counted keys of all pages, page by page. */
  function AllEdgeKeys(pagesLines: seq<seq<string>>): seq<string>
  {
    Concat(MapSeq(pagesLines, EdgeKeys))
  }

  /** The frequency map, filled in key order: `freq.set(key, (freq.get(key) || 0) + 1)`. */
  function Frequencies(keys: seq<string>): (freq: map<string, nat>)
    ensures forall k :: k in freq <==> k in keys
    ensures forall k :: k in freq ==> freq[k] == multiset(keys)[k]
  {
    if |keys| == 0 then map[]
    else
      var front := keys[..|keys| - 1];
      var key := keys[|keys| - 1];
      var prev := Frequencies(front);
      assert keys == front + [key];
      prev[key := (if key in prev then prev[key] else 0) + 1]
  }

  /** headerFooterCandidates: the keys seen at least twice over all edge windows. */
  function HeaderFooter(pagesLines: seq<seq<string>>): (hf: set<string>)
    ensures forall k :: k in hf <==> multiset(AllEdgeKeys(pagesLines))[k] >= 2
  {
    var freq := Frequencies(AllEdgeKeys(pagesLines));
    set k | k in freq && freq[k] >= 2
  }

  /** Every running header or footer is a trimmed, non-empty, non-page-number line
      of at most 80 characters taken from the edge of some page. */
  lemma HeaderFooterShape(pagesLines: seq<seq<string>>, k: string)
    requires k in HeaderFooter(pagesLines)
    ensures IsEdgeKey(k) && IsTrimmed(k)
    ensures exists i :: 0 <= i < |pagesLines| && k in EdgeKeys(pagesLines[i])
  {
    var per := MapSeq(pagesLines, EdgeKeys);
    assert multiset(AllEdgeKeys(pagesLines))[k] >= 2;
    assert k in Concat(per);
    ConcatMember(per, k);
    var i :| 0 <= i < |per| && k in per[i];
    EdgeKeyShape(pagesLines[i], k);
  }

  /** A counted key of one page is an edge key and trimmed. */
  lemma EdgeKeyShape(lines: seq<string>, k: string)
    requires k in EdgeKeys(lines)
    ensures IsEdgeKey(k) && IsTrimmed(k)
  {
    var trimmed := MapSeq(EdgeLines(lines), Trim);
    assert k in trimmed;
    var j :| 0 <= j < |trimmed| && trimmed[j] == k;
  }

  /** The counted keys of a one-line page: its trimmed line, once per window. */
  lemma OneLineEdgeKeys(line: string)
    requires IsEdgeKey(Trim(line))
    ensures EdgeKeys([line]) == [Trim(line), Trim(line)]
  {
    var t := Trim(line);
    assert EdgeLines([line]) == [line, line];
    var trimmed := MapSeq([line, line], Trim);
    assert trimmed == [t, t];
    FilterAll(trimmed, IsEdgeKey);
  }

  /** The windows overlap on short pages: a page of a single countable line
      counts that line twice, so it becomes a running header on its own. */
  lemma OneLinePageIsOwnHeader(line: string)
    requires IsEdgeKey(Trim(line))
    ensures Trim(line) in HeaderFooter([[line]])
  {
    var t := Trim(line);
    OneLineEdgeKeys(line);
    var per := MapSeq([[line]], EdgeKeys);
    assert per == [[t, t]];
    assert per[1..] == [];
    assert AllEdgeKeys([[line]]) == per[0] + Concat(per[1..]) == [t, t];
    assert multiset([t, t])[t] == 2;
  }

  // ----------------------------------------------------------- whole pages

  const TocPageWords: seq<string> := ["المحتويات", "الفهرس"]

  const PublisherKeywords: seq<string> :=
    ["مؤسسة هنداوي", "الناشر", "hindawi.org", "حقوق النشر", "الترقيم الدولي", "isbn", "copyright"]

  /** A table-of-contents page: by structure, or naming a contents heading anywhere. */
  predicate IsTocPage(lex: Lexicon, lines: seq<string>, rawPageText: string, pageIndex: nat)
  {
    IsTocStructurePage(lex, lines, pageIndex)
    || Contains(rawPageText, TocPageWords[0]) || Contains(rawPageText, TocPageWords[1])
  }

  /** The lower-cased page holds one of the lower-cased publisher keywords. */
  predicate IsPublisherPage(lex: Lexicon, rawPageText: string)
  {
    exists k :: 0 <= k < |PublisherKeywords|
      && Contains(LowerText(lex, rawPageText), LowerText(lex, PublisherKeywords[k]))
  }

  /** Why a page is dropped whole, in the order the checks are made. */
  datatype DropReason = FrontMatterPage | TocPage | PublisherPage

  function DropReasonOf(lex: Lexicon, lines: seq<string>, pageIndex: nat): (r: Option<DropReason>)
    ensures r == Some(FrontMatterPage) <==> IsFrontMatterMetaPage(lex, Join(lines, "\n"), pageIndex)
    ensures r == Some(TocPage) ==> IsTocPage(lex, lines, Join(lines, "\n"), pageIndex)
    ensures r == Some(PublisherPage) ==> IsPublisherPage(lex, Join(lines, "\n"))
    ensures r.None? <==>
      && !IsFrontMatterMetaPage(lex, Join(lines, "\n"), pageIndex)
      && !IsTocPage(lex, lines, Join(lines, "\n"), pageIndex)
      && !IsPublisherPage(lex, Join(lines, "\n"))
  {
    var raw := Join(lines, "\n");
    if IsFrontMatterMetaPage(lex, raw, pageIndex) then Some(FrontMatterPage)
    else if IsTocPage(lex, lines, raw, pageIndex) then Some(TocPage)
    else if IsPublisherPage(lex, raw) then Some(PublisherPage)
    else None
  }

  // ------------------------------------------------------------ line filter

  /** A trimmed line kept before footer detection: not empty, not a page number,
      not a running header or footer, not a contents heading, not a contact line,
      and not a bibliographic line unless it is an introduction or chapter line. */
  predicate IsContentLine(lex: Lexicon, hf: set<string>, line: string)
  {
    && line != ""
    && !IsPageNumberLine(line)
    && line !in hf
    && !lex.isTocHeading(line)
    && !lex.isContactLine(line)
    && (IsIntroLine(line) || IsChapterLine(line, true) || !lex.isBibliographicLine(line))
  }

  /** The line filter as the function `filter` is given. */
  function ContentFilter(lex: Lexicon, hf: set<string>): string -> bool
  {
    (l: string) => IsContentLine(lex, hf, l)
  }

  function CandidateLines(lex: Lexicon, hf: set<string>, lines: seq<string>): seq<string>
  {
    Filter(MapSeq(lines, Trim), ContentFilter(lex, hf))
  }

  /** `/^[•·]+$/` */
  predicate IsBulletsOnly(l: string)
  {
    l != "" && forall i :: 0 <= i < |l| ==> l[i] == '•' || l[i] == '·'
  }

  /** Dotted leaders (`/\.{5,}/`), bullets-only lines and dividers of 3 or more. */
  predicate IsDecorative(l: string)
  {
    Contains(l, ".....") || IsBulletsOnly(l) || IsDivider(l, 3)
  }

  /** The lines of a page that survive the line filter, the footer cut and the
      decoration filter. */
  predicate IsUndecorated(l: string)
  {
    !IsDecorative(l)
  }

  function RetainedLines(lex: Lexicon, hf: set<string>, lines: seq<string>): seq<string>
  {
    Filter(StripReferenceFooter(CandidateLines(lex, hf, lines)), IsUndecorated)
  }

  /** A filter, a prefix of what it kept, then another filter: the result is a
      subsequence whose elements passed both filters. */
  lemma FilterPrefixFilter<T>(xs: seq<T>, keep1: T -> bool, m: nat, keep2: T -> bool)
    requires m <= |Filter(xs, keep1)|
    ensures var r := Filter(Filter(xs, keep1)[..m], keep2);
      && IsSubseq(r, xs)
      && forall k :: 0 <= k < |r| ==> keep1(r[k]) && keep2(r[k]) && r[k] in xs
  {
    var ys := Filter(xs, keep1);
    var zs := ys[..m];
    var r := Filter(zs, keep2);
    FilterIsSubseq(xs, keep1);
    PrefixIsSubseq(ys, m);
    FilterIsSubseq(zs, keep2);
    SubseqTrans(zs, ys, xs);
    SubseqTrans(r, zs, xs);
    forall k | 0 <= k < |r|
      ensures keep1(r[k]) && keep2(r[k]) && r[k] in xs
    {
      assert r[k] in r;
      assert r[k] in zs;
      assert r[k] in ys;
    }
  }

  lemma TrimmedMembers(lines: seq<string>)
    ensures forall x :: x in MapSeq(lines, Trim) ==> IsTrimmed(x)
  {
    var trimmed := MapSeq(lines, Trim);
    forall x | x in trimmed
      ensures IsTrimmed(x)
    {
      var j :| 0 <= j < |trimmed| && trimmed[j] == x;
    }
  }

  /** The retained lines are trimmed content lines without decoration, and they
      appear in the page's trimmed lines in the same order. */
  lemma RetainedLinesSound(lex: Lexicon, hf: set<string>, lines: seq<string>)
    ensures IsSubseq(RetainedLines(lex, hf, lines), MapSeq(lines, Trim))
    ensures forall k :: 0 <= k < |RetainedLines(lex, hf, lines)| ==>
      var l := RetainedLines(lex, hf, lines)[k];
      IsContentLine(lex, hf, l) && !IsDecorative(l) && IsTrimmed(l)
  {
    var trimmed := MapSeq(lines, Trim);
    var cands := CandidateLines(lex, hf, lines);
    var cut := StripReferenceFooter(cands);
    StripReferenceFooterPrefix(cands);
    TrimmedMembers(lines);
    CutLinesSound(trimmed, ContentFilter(lex, hf), cut, IsUndecorated);
  }

  /** The retained-lines argument over any filters and any prefix cut. */
  lemma CutLinesSound(trimmed: seq<string>, keep1: string -> bool, cut: seq<string>, keep2: string -> bool)
    requires |cut| <= |Filter(trimmed, keep1)| && cut == Filter(trimmed, keep1)[..|cut|]
    requires forall x :: x in trimmed ==> IsTrimmed(x)
    ensures IsSubseq(Filter(cut, keep2), trimmed)
    ensures forall k :: 0 <= k < |Filter(cut, keep2)| ==>
      keep1(Filter(cut, keep2)[k]) && keep2(Filter(cut, keep2)[k]) && IsTrimmed(Filter(cut, keep2)[k])
  {
    FilterPrefixFilter(trimmed, keep1, |cut|, keep2);
  }

  // ------------------------------------------------------------- the pages

  /** One page of the second pass: dropped whole, or its retained lines joined,
      trimmed, stripped of inline page numbers and trimmed again; an empty result
      is dropped too. */
  function CleanPage(lex: Lexicon, hf: set<string>, lines: seq<string>, pageIndex: nat): (r: Option<string>)
    ensures r.Some? ==> r.value != "" && IsTrimmed(r.value)
    ensures r.Some? ==> DropReasonOf(lex, lines, pageIndex).None?
  {
    if DropReasonOf(lex, lines, pageIndex).Some? then None
    else
      var joined := Trim(lex.removeInlinePageNumbers(Trim(Join(RetainedLines(lex, hf, lines), "\n"))));
      if joined == "" then None else Some(joined)
  }

  /** The values `f` yields for the indices `i` to `n - 1`, in index order, with the
      indices that yield none left out. */
  function Survivors(f: nat -> Option<string>, i: nat, n: nat): (r: seq<string>)
    requires i <= n
    ensures |r| <= n - i
    decreases n - i
  {
    if i == n then []
    else (if f(i).Some? then [f(i).value] else []) + Survivors(f, i + 1, n)
  }

  /** The indices `i` to `n - 1` for which `f` yields a value. */
  function SurvivorIndices(f: nat -> Option<string>, i: nat, n: nat): (r: seq<nat>)
    requires i <= n
    decreases n - i
  {
    if i == n then []
    else (if f(i).Some? then [i] else []) + SurvivorIndices(f, i + 1, n)
  }

  /** The surviving indices increase, every index that yields a value is among
      them, and survivor k is the value of index k. */
  lemma {:induction false} SurvivorsSound(f: nat -> Option<string>, i: nat, n: nat)
    requires i <= n
    ensures var ks := SurvivorIndices(f, i, n);
      var out := Survivors(f, i, n);
      && |ks| == |out|
      && (forall k :: 0 <= k < |ks| ==> i <= ks[k] < n && f(ks[k]) == Some(out[k]))
      && (forall k, m :: 0 <= k < m < |ks| ==> ks[k] < ks[m])
      && (forall j :: i <= j < n && f(j).Some? ==> j in ks)
    decreases n - i
  {
    if i < n {
      SurvivorsSound(f, i + 1, n);
    }
  }

  /** The second pass as a function of the page index. */
  function PageCleaner(lex: Lexicon, pagesLines: seq<seq<string>>): nat -> Option<string>
  {
    var hf := HeaderFooter(pagesLines);
    (i: nat) => if i < |pagesLines| then CleanPage(lex, hf, pagesLines[i], i) else None
  }

  /** cleanPages: running headers and footers from all pages, then every page
      cleaned in order; dropped pages leave no slot. */
  function CleanPages(lex: Lexicon, rawPages: seq<string>): (r: seq<string>)
    ensures |r| <= |rawPages|
  {
    if |rawPages| == 0 then []
    else Survivors(PageCleaner(lex, MapSeq(rawPages, RawLines)), 0, |rawPages|)
  }

  /** The indices of the input pages that survive cleaning. */
  function KeptPages(lex: Lexicon, rawPages: seq<string>): seq<nat>
  {
    if |rawPages| == 0 then []
    else SurvivorIndices(PageCleaner(lex, MapSeq(rawPages, RawLines)), 0, |rawPages|)
  }

  /** The output pages and the kept indices correspond one to one, and the kept
      indices increase, so the output keeps the input order. */
  lemma CleanPagesOrder(lex: Lexicon, rawPages: seq<string>)
    ensures |KeptPages(lex, rawPages)| == |CleanPages(lex, rawPages)|
    ensures forall k, m :: 0 <= k < m < |KeptPages(lex, rawPages)| ==>
      KeptPages(lex, rawPages)[k] < KeptPages(lex, rawPages)[m]
  {
    if |rawPages| > 0 {
      SurvivorsSound(PageCleaner(lex, MapSeq(rawPages, RawLines)), 0, |rawPages|);
    }
  }

  /** Output page k is the cleaned text of input page KeptPages[k], and every page
      with text left after cleaning is kept. */
  lemma CleanPagesContent(lex: Lexicon, rawPages: seq<string>, hf: set<string>)
    requires hf == HeaderFooter(MapSeq(rawPages, RawLines))
    ensures var ks := KeptPages(lex, rawPages);
      forall k :: 0 <= k < |ks| && k < |CleanPages(lex, rawPages)| ==>
        && ks[k] < |rawPages|
        && CleanPage(lex, hf, RawLines(rawPages[ks[k]]), ks[k]) == Some(CleanPages(lex, rawPages)[k])
    ensures forall j :: 0 <= j < |rawPages| && CleanPage(lex, hf, RawLines(rawPages[j]), j).Some? ==>
      j in KeptPages(lex, rawPages)
  {
    if |rawPages| > 0 {
      SurvivorsSound(PageCleaner(lex, MapSeq(rawPages, RawLines)), 0, |rawPages|);
    }
  }

  /** Every output page is non-empty and trimmed, and a page dropped whole (front
      matter, table of contents, publisher page) is never kept. */
  lemma CleanPagesSound(lex: Lexicon, rawPages: seq<string>)
    ensures forall k :: 0 <= k < |CleanPages(lex, rawPages)| ==>
      CleanPages(lex, rawPages)[k] != "" && IsTrimmed(CleanPages(lex, rawPages)[k])
    ensures forall j :: 0 <= j < |rawPages| && DropReasonOf(lex, RawLines(rawPages[j]), j).Some? ==>
      j !in KeptPages(lex, rawPages)
  {
    var hf := HeaderFooter(MapSeq(rawPages, RawLines));
    var ks := KeptPages(lex, rawPages);
    var out := CleanPages(lex, rawPages);
    CleanPagesOrder(lex, rawPages);
    CleanPagesContent(lex, rawPages, hf);
    forall k | 0 <= k < |out|
      ensures out[k] != "" && IsTrimmed(out[k])
    {
      var page := CleanPage(lex, hf, RawLines(rawPages[ks[k]]), ks[k]);
      assert page == Some(out[k]);
    }
  }
}
