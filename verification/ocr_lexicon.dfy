/**
 * The vocabulary the OCR cleaner reads text with: the character classes of its
 * regular expressions, and the recognisers whose regular expressions are not
 * modelled character by character.
 */
module OcrLexicon {

  /** `[0-9٠-٩۰-۹]`: ASCII, Arabic-Indic and extended
      Arabic-Indic digits. */
  predicate IsDigitChar(c: char)
  {
    ('0' <= c <= '9') || ('٠' <= c <= '٩') || ('۰' <= c <= '۹')
  }

  /** `\d` without the unicode flag. */
  predicate IsAsciiDigit(c: char)
  {
    '0' <= c <= '9'
  }

  /** `[٠-٩]` */
  predicate IsArabicIndicDigit(c: char)
  {
    '٠' <= c <= '٩'
  }

  /** `[؀-ۿ]`, the Arabic block. */
  predicate IsArabicChar(c: char)
  {
    '؀' <= c <= 'ۿ'
  }

  /** `[A-Za-z]` */
  predicate IsLatinLetter(c: char)
  {
    ('A' <= c <= 'Z') || ('a' <= c <= 'z')
  }

  /** Case folding of a case-insensitive regular expression without the unicode
      flag, restricted to the ASCII letters the patterns here spell out. */
  function AsciiLower(c: char): (r: char)
    ensures 'A' <= c <= 'Z' ==> 'a' <= r <= 'z'
    ensures !('A' <= c <= 'Z') ==> r == c
  {
    if 'A' <= c <= 'Z' then (c as int + 32) as char else c
  }

  predicate AllChars(s: string, p: char -> bool)
  {
    forall i :: 0 <= i < |s| ==> p(s[i])
  }

  /** Three consecutive characters of the Arabic block: `/[؀-ۿ]{3,}/`. */
  predicate HasArabicRun(s: string)
  {
    exists i :: 0 <= i && i + 3 <= |s| && IsArabicChar(s[i]) && IsArabicChar(s[i + 1]) && IsArabicChar(s[i + 2])
  }

  /** The recognisers and rewrites that are left uninterpreted:
      - `lower`: String.prototype.toLowerCase, one character at a time;
      - `isTocLikeLine`: isTocLikeLine (dotted leaders or a page number at an end);
      - `isTocHeading`: a line starting with a table-of-contents heading word;
      - `isContactLine`: looksLikeHandleOrContactLine (handles, e-mail, URLs,
        contact words, phone numbers);
      - `isBibliographicLine`: looksLikeBibliographicMetaLine (cataloguing and
        publisher words, size and format lines);
      - `removeInlinePageNumbers`: removeInlinePageNumbers;
      - `isReferencesPage`: looksLikeReferencesPage;
      - `stripInlineEnglish`: stripInlineEnglish. */
  datatype Lexicon = Lexicon(
    lower: char -> char,
    isTocLikeLine: string -> bool,
    isTocHeading: string -> bool,
    isContactLine: string -> bool,
    isBibliographicLine: string -> bool,
    removeInlinePageNumbers: string -> string,
    isReferencesPage: string -> bool,
    stripInlineEnglish: string -> string)

  /** String.prototype.toLowerCase under the lexicon's character map. */
  function LowerText(lex: Lexicon, s: string): (r: string)
    ensures |r| == |s|
    ensures forall i :: 0 <= i < |s| ==> r[i] == lex.lower(s[i])
  {
    seq(|s|, i requires 0 <= i < |s| => lex.lower(s[i]))
  }
}
