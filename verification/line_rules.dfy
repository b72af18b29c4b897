/**
 * Line-level rules of the OCR cleaner: page-number lines, short title lines,
 * table-of-contents pages and the reference footer at the bottom of a page.
 */
module LineRules {
  import opened Wrappers
  import opened Seqs
  import opened Text
  import opened OcrLexicon

  // -------------------------------------------------------- page numbers

  predicate IsRomanChar(c: char)
  {
    c in "ivxlcdmIVXLCDM"
  }

  /** The word in front of a page number: `page` in any letter case, or `صفحة`. */
  predicate IsPageWord(w: string)
  {
    |w| == 4 && ((AsciiLower(w[0]) == 'p' && AsciiLower(w[1]) == 'a' && AsciiLower(w[2]) == 'g'
                  && AsciiLower(w[3]) == 'e') || w == "صفحة")
  }

  /** `/^(page|صفحة)\s*[digits]+$/i` on a trimmed line. */
  predicate IsPageWordNumber(t: string)
  {
    |t| >= 4 && IsPageWord(t[..4]) && TrimStart(t[4..]) != "" && AllChars(TrimStart(t[4..]), IsDigitChar)
  }

  /** isPageNumberLine: after trimming and deleting all whitespace the line is a
      run of digits or of roman-numeral letters, or the trimmed line is a page
      word followed by digits. */
  predicate IsPageNumberLine(line: string)
  {
    var t := Trim(line);
    t != ""
    && (var ns := NonSpace(t);
        (ns != "" && AllChars(ns, IsDigitChar))
        || (ns != "" && AllChars(ns, IsRomanChar))
        || IsPageWordNumber(t))
  }

  /** A character a page-number line may show besides whitespace. */
  predicate IsPageNumberChar(c: char)
  {
    IsDigitChar(c) || IsRomanChar(c) || c in "pagePAGEصفحة"
  }

  lemma {:induction false} NonSpaceChars(s: string)
    ensures forall i :: 0 <= i < |NonSpace(s)| ==> NonSpace(s)[i] in s && !IsSpace(NonSpace(s)[i])
    decreases |s|
  {
    if |s| > 0 {
      NonSpaceChars(s[1..]);
    }
  }

  /** The characters a page word followed by digits shows, whitespace aside. */
  lemma PageWordNumberChars(t: string)
    requires IsPageWordNumber(t)
    ensures AllChars(NonSpace(t), IsPageNumberChar)
  {
    var ns := NonSpace(t);
    NonSpaceChars(t);
    var rest := t[4..];
    var k := LeadingSpaces(rest);
    forall i | 0 <= i < |ns|
      ensures IsPageNumberChar(ns[i])
    {
      var c := ns[i];
      var j :| 0 <= j < |t| && t[j] == c;
      if j >= 4 {
        assert rest[j - 4] == c;
        if j - 4 >= k {
          assert TrimStart(rest)[j - 4 - k] == c;
        }
      }
    }
  }

  /** Whether a line is a page number depends on its trimmed text only, and a
      page-number line shows nothing but digits, roman-numeral letters and the
      letters of a page word. */
  lemma PageNumberLineSound(line: string)
    ensures IsPageNumberLine(Trim(line)) == IsPageNumberLine(line)
    ensures IsPageNumberLine(line) ==>
      NonSpace(line) != "" && AllChars(NonSpace(line), IsPageNumberChar)
  {
    var t := Trim(line);
    TrimOfTrimmed(t);
    NonSpaceTrim(line);
    assert NonSpace(line) == NonSpace(t);
    if IsPageNumberLine(line) {
      var ns := NonSpace(t);
      NonSpaceEmptyIffBlank(t);
      if IsPageWordNumber(t) {
        PageWordNumberChars(t);
      }
    }
  }

  /** Digits surrounded by whitespace, with whitespace anywhere between them, make
      a page-number line. */
  lemma DigitsArePageNumber(a: string, d: string, b: string)
    requires IsBlank(a) && IsBlank(b) && d != "" && AllChars(d, IsDigitChar)
    ensures IsPageNumberLine(a + d + b)
  {
    TrimAround(a, d, b);
    NonSpaceEmptyIffBlank(d);
    NonSpaceOfSolid(d);
  }

  lemma {:induction false} NonSpaceOfSolid(s: string)
    requires forall i :: 0 <= i < |s| ==> !IsSpace(s[i])
    ensures NonSpace(s) == s
    decreases |s|
  {
    if |s| > 0 {
      NonSpaceOfSolid(s[1..]);
    }
  }

  // -------------------------------------------------------- short titles

  /** `/[.؟!؛،]/` */
  predicate IsTitlePunct(c: char)
  {
    c == '.' || c == '؟' || c == '!' || c == '؛' || c == '،'
  }

  /** isShortTitleLine: a trimmed line of at most 40 characters holding three
      Arabic characters in a row and no sentence punctuation. */
  predicate IsShortTitleLine(line: string)
  {
    var t := Trim(line);
    t != "" && HasArabicRun(t) && |t| <= 40 && !(exists i :: 0 <= i < |t| && IsTitlePunct(t[i]))
  }

  /** A short title is 3 to 40 characters long once trimmed, and only its trimmed
      text matters. */
  lemma ShortTitleLineSound(line: string)
    ensures IsShortTitleLine(line) ==> 3 <= |Trim(line)| <= 40
    ensures IsShortTitleLine(Trim(line)) == IsShortTitleLine(line)
  {
    TrimOfTrimmed(Trim(line));
  }

  // ----------------------------------------------------- table of contents

  /** MAX_TOC_PAGE_INDEX */
  const MaxTocPageIndex: nat := 14

  /** The two counters of isTocStructurePage: lines that look like table-of-contents
      entries, and the other lines that look like short titles. */
  function TocCounts(lex: Lexicon, lines: seq<string>): (nat, nat)
  {
    if |lines| == 0 then (0, 0)
    else
      var (toc, title) := TocCounts(lex, lines[1..]);
      if lex.isTocLikeLine(lines[0]) then (toc + 1, title)
      else if IsShortTitleLine(lines[0]) then (toc, title + 1)
      else (toc, title)
  }

  predicate IsTocCandidate(lex: Lexicon, line: string)
  {
    lex.isTocLikeLine(line) || IsShortTitleLine(line)
  }

  /** The two counters add up to the number of lines that are either. */
  lemma {:induction false} TocCountsSum(lex: Lexicon, lines: seq<string>)
    ensures TocCounts(lex, lines).0 + TocCounts(lex, lines).1
      == Count(lines, (l: string) => IsTocCandidate(lex, l))
    decreases |lines|
  {
    if |lines| > 0 {
      TocCountsSum(lex, lines[1..]);
    }
  }

  /** isTocStructurePage: among the first 15 pages, at least 5 non-empty lines of
      which at least 5, and at least 60%, are entries or short titles
      (`count >= n * 0.6` is `5 * count >= 3 * n` for every line count). */
  predicate IsTocStructurePage(lex: Lexicon, lines: seq<string>, pageIndex: nat)
  {
    if pageIndex > MaxTocPageIndex then false
    else
      var nonEmpty := TrimNonEmpty(lines);
      if |nonEmpty| < 5 then false
      else
        var (toc, title) := TocCounts(lex, nonEmpty);
        var candidates := toc + title;
        candidates >= 5 && 5 * candidates >= 3 * |nonEmpty|
  }

  lemma {:induction false} TrimNonEmptyOfBlank(xs: seq<string>)
    requires forall i :: 0 <= i < |xs| ==> IsBlank(xs[i])
    ensures TrimNonEmpty(xs) == []
    decreases |xs|
  {
    if |xs| > 0 {
      TrimNonEmptyOfBlank(xs[1..]);
    }
  }

  /** A table-of-contents page keeps its verdict on any earlier page and when blank
      lines are added; it always has at least 5 non-empty lines, at least 60% of
      them entries or short titles. */
  lemma TocStructureSound(lex: Lexicon, lines: seq<string>, blank: seq<string>, i: nat, j: nat)
    requires forall k :: 0 <= k < |blank| ==> IsBlank(blank[k])
    requires i <= j
    ensures IsTocStructurePage(lex, lines + blank, j) == IsTocStructurePage(lex, lines, j)
    ensures IsTocStructurePage(lex, lines, j) ==> IsTocStructurePage(lex, lines, i)
    ensures IsTocStructurePage(lex, lines, j) ==>
      var ne := TrimNonEmpty(lines);
      var c := Count(ne, (l: string) => IsTocCandidate(lex, l));
      |ne| >= 5 && c >= 5 && 5 * c >= 3 * |ne|
  {
    TrimNonEmptyAppend(lines, blank);
    TrimNonEmptyOfBlank(blank);
    assert TrimNonEmpty(lines) + [] == TrimNonEmpty(lines);
    TocCountsSum(lex, TrimNonEmpty(lines));
  }

  // ------------------------------------------------------ reference footer

  predicate IsDividerChar(c: char)
  {
    c == '.' || c == '-' || c == '_'
  }

  /** `/^[.\-_]{n,}$/` on a trimmed line. */
  predicate IsDivider(l: string, n: nat)
  {
    |l| >= n && AllChars(l, IsDividerChar)
  }

  /** The first index from `from` on whose trimmed line is a divider of 5 or more. */
  function FirstDivider(lines: seq<string>, from: nat): (r: Option<nat>)
    ensures r.Some? ==> from <= r.value < |lines| && IsDivider(Trim(lines[r.value]), 5)
    ensures r.Some? ==> forall k :: from <= k < r.value ==> !IsDivider(Trim(lines[k]), 5)
    ensures r.None? ==> forall k :: from <= k < |lines| ==> !IsDivider(Trim(lines[k]), 5)
    decreases |lines| - from
  {
    if from >= |lines| then None
    else if IsDivider(Trim(lines[from]), 5) then Some(from)
    else FirstDivider(lines, from + 1)
  }

  const ReferenceWords: seq<string> := ["المرجع", "المراجع", "المصادر", "انظر"]

  /** `/المرجع|المراجع|المصادر|انظر/` */
  predicate HasReferenceWord(l: string)
  {
    exists k :: 0 <= k < |ReferenceWords| && Contains(l, ReferenceWords[k])
  }

  /** A footer line of the generic kind: a reference word, or 8 Latin letters. */
  predicate IsReferenceCandidate(l: string)
  {
    l != "" && (HasReferenceWord(l) || Count(l, IsLatinLetter) >= 8)
  }

  /** The indices from `from` on whose trimmed lines are reference candidates, in
      increasing order. */
  function RefCandidates(lines: seq<string>, from: nat): (r: seq<nat>)
    ensures forall k :: 0 <= k < |r| ==> from <= r[k] < |lines| && IsReferenceCandidate(Trim(lines[r[k]]))
    decreases |lines| - from
  {
    if from >= |lines| then []
    else (if IsReferenceCandidate(Trim(lines[from])) then [from] else []) + RefCandidates(lines, from + 1)
  }

  /** Some trimmed line from `from` on holds a reference word. */
  predicate HasRefKeyword(lines: seq<string>, from: nat)
  {
    exists k :: from <= k < |lines| && HasReferenceWord(Trim(lines[k]))
  }

  /** `/انظر\s+أيضًا|انظر\s+ايضاً|انظر\s+ايضا/i` matching at index `k`; the second
      spelling starts with the third, so two spellings are tried. */
  predicate SeeAlsoAt(l: string, k: nat)
    requires k <= |l|
  {
    "انظر" <= l[k..] && k + 4 <= |l|
    && (var m := SpaceRun(l, k + 4);
        m >= 1 && ("أيضًا" <= l[k + 4 + m..] || "ايضا" <= l[k + 4 + m..]))
  }

  predicate IsSeeAlso(l: string)
  {
    exists k :: 0 <= k <= |l| && SeeAlsoAt(l, k)
  }

  const FooterMetaWords: seq<string> :=
    ["الكتاب", "سلسلة", "المؤلف", "تأليف", "ترجمة", "دار النشر", "من سلسلة", "الطبعة"]

  /** `/(19|20)\d{2}/` or `/[٠-٩]{4}/` matching at index `i`. */
  predicate YearAt(l: string, i: nat)
    requires i + 4 <= |l|
  {
    (((l[i] == '1' && l[i + 1] == '9') || (l[i] == '2' && l[i + 1] == '0'))
     && IsAsciiDigit(l[i + 2]) && IsAsciiDigit(l[i + 3]))
    || (IsArabicIndicDigit(l[i]) && IsArabicIndicDigit(l[i + 1])
        && IsArabicIndicDigit(l[i + 2]) && IsArabicIndicDigit(l[i + 3]))
  }

  /** The publication details that confirm a "see also" footer. */
  predicate IsFooterMeta(l: string)
  {
    (exists k :: 0 <= k < |FooterMetaWords| && Contains(l, FooterMetaWords[k]))
    || (exists i :: 0 <= i && i + 4 <= |l| && YearAt(l, i))
  }

  /** Some trimmed line from `i` on carries publication details. */
  predicate MetaFrom(lines: seq<string>, i: nat)
  {
    exists j :: i <= j < |lines| && IsFooterMeta(Trim(lines[j]))
  }

  /** The first index from `from` on, and not before the last 4 lines, whose line
      starts a "see also" footer confirmed by publication details below it. */
  function FirstSeeAlsoCut(lines: seq<string>, from: nat): (r: Option<nat>)
    ensures r.Some? ==>
      && from <= r.value < |lines| && r.value >= |lines| - 4
      && IsSeeAlso(Trim(lines[r.value]))
    decreases |lines| - from
  {
    if from >= |lines| then None
    else
      var l := Trim(lines[from]);
      if l != "" && IsSeeAlso(l) && from >= |lines| - 4 && MetaFrom(lines, from) then Some(from)
      else FirstSeeAlsoCut(lines, from + 1)
  }

  /** stripReferenceFooterFromLines: a page of fewer than 4 lines is kept; else the
      page is cut at the first divider among its last 6 lines; else at the first
      reference candidate among its last 10 lines when one of them holds a
      reference word, there are two candidates and the first lies in the last 6
      lines; else at a confirmed "see also" line among the last 4. */
  function StripReferenceFooter(lines: seq<string>): seq<string>
  {
    var n := |lines|;
    if n < 4 then lines
    else match FirstDivider(lines, n - Min(6, n))
      case Some(i) => lines[..i]
      case None =>
        var from := n - Min(10, n);
        var cands := RefCandidates(lines, from);
        if HasRefKeyword(lines, from) && |cands| >= 2 && cands[0] >= n - 6 then lines[..cands[0]]
        else match FirstSeeAlsoCut(lines, n - Min(5, n))
          case Some(i) => lines[..i]
          case None => lines
  }

  function Min(a: nat, b: nat): nat
  {
    if a <= b then a else b
  }

  /** A line at which a footer can start. */
  predicate IsFooterStart(l: string)
  {
    IsDivider(l, 5) || IsReferenceCandidate(l) || IsSeeAlso(l)
  }

  /** The footer cut keeps a prefix of the lines: all of a page under 4 lines, and
      otherwise all but at most its last 6. */
  lemma StripReferenceFooterPrefix(lines: seq<string>)
    ensures StripReferenceFooter(lines) == lines[..|StripReferenceFooter(lines)|]
    ensures |lines| < 4 ==> StripReferenceFooter(lines) == lines
    ensures |StripReferenceFooter(lines)| >= |lines| - 6
  {
    var n := |lines|;
    if n >= 4 && FirstDivider(lines, n - Min(6, n)).None? {
      var cands := RefCandidates(lines, n - Min(10, n));
      if |cands| > 0 {
        assert cands[0] < n;
      }
    }
  }

  /** The first line the footer cut removes is a divider, a reference line or a
      "see also" line. */
  lemma StripReferenceFooterStart(lines: seq<string>)
    ensures |StripReferenceFooter(lines)| < |lines| ==>
      IsFooterStart(Trim(lines[|StripReferenceFooter(lines)|]))
  {
    var n := |lines|;
    if n >= 4 && FirstDivider(lines, n - Min(6, n)).None? {
      var cands := RefCandidates(lines, n - Min(10, n));
      if |cands| > 0 {
        assert IsReferenceCandidate(Trim(lines[cands[0]]));
      }
    }
  }

  /** A divider among the last 6 lines of a page of 4 or more lines is always cut
      away. */
  lemma StripReferenceFooterDivider(lines: seq<string>, i: nat)
    requires |lines| >= 4 && |lines| - 6 <= i < |lines| && IsDivider(Trim(lines[i]), 5)
    ensures |StripReferenceFooter(lines)| <= i
  {
  }
}
