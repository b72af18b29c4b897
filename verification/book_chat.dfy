/**
 * The chat helpers of the book assistant (book_chat.ts): message normalization,
 * greeting and thanks detection, extraction of the term in a "what does X mean"
 * question, history trimming and the order of the checks in askBookChat.
 */
module BookChat {
  import opened Wrappers
  import opened Seqs
  import opened Text

  /** The Unicode knowledge the handlers rely on, left uninterpreted: lower-casing
      (taken character by character) and the classes \p{L} and \p{N}. */
  datatype CharClasses = CharClasses(lower: char -> char, isLetter: char -> bool, isNumber: char -> bool)

  /** Lower-casing maps lower-case characters to themselves. */
  predicate LowerIdempotent(cc: CharClasses)
  {
    forall c: char {:trigger cc.lower(cc.lower(c))} :: cc.lower(cc.lower(c)) == cc.lower(c)
  }

  // ---------------------------------------------------------- Whitespace runs

  /** `s.replace(/\s+/g, " ")` */
  function CollapseSpaces(s: string): (r: string)
    decreases |s|
  {
    if |s| == 0 then ""
    else if IsSpace(s[0]) then " " + CollapseSpaces(s[SpaceRun(s, 0)..])
    else [s[0]] + CollapseSpaces(s[1..])
  }

  /** Whitespace only as single ' ' characters. */
  predicate SingleSpaced(s: string)
  {
    && (forall i :: 0 <= i < |s| && IsSpace(s[i]) ==> s[i] == ' ')
    && (forall i :: 0 <= i < |s| - 1 ==> !(IsSpace(s[i]) && IsSpace(s[i + 1])))
  }

  /** Collapsing empties only the empty string and keeps whether each end is
      whitespace. */
  lemma {:induction false} CollapseSpacesEnds(s: string)
    ensures |CollapseSpaces(s)| == 0 <==> |s| == 0
    ensures |s| > 0 ==> (IsSpace(CollapseSpaces(s)[0]) <==> IsSpace(s[0]))
    ensures |s| > 0 ==>
      (IsSpace(CollapseSpaces(s)[|CollapseSpaces(s)| - 1]) <==> IsSpace(s[|s| - 1]))
    decreases |s|
  {
    if |s| > 0 {
      var r := CollapseSpaces(s);
      if IsSpace(s[0]) {
        var k := SpaceRun(s, 0);
        SpaceRunMaximal(s, 0);
        var rest := s[k..];
        CollapseSpacesEnds(rest);
        assert r == " " + CollapseSpaces(rest);
        if |rest| == 0 {
          assert IsSpace(s[|s| - 1]);
        } else {
          assert rest[|rest| - 1] == s[|s| - 1];
        }
      } else {
        var rest := s[1..];
        CollapseSpacesEnds(rest);
        assert r == [s[0]] + CollapseSpaces(rest);
        if |rest| > 0 {
          assert rest[|rest| - 1] == s[|s| - 1];
        }
      }
    }
  }

  /** Collapsing leaves whitespace only as single ' ' characters. */
  lemma {:induction false} CollapseSpacesSingle(s: string)
    ensures SingleSpaced(CollapseSpaces(s))
    decreases |s|
  {
    if |s| > 0 {
      var r := CollapseSpaces(s);
      if IsSpace(s[0]) {
        var k := SpaceRun(s, 0);
        SpaceRunMaximal(s, 0);
        var rest := s[k..];
        CollapseSpacesSingle(rest);
        CollapseSpacesEnds(rest);
        var cr := CollapseSpaces(rest);
        assert r == " " + cr;
        assert forall i :: 1 <= i < |r| ==> r[i] == cr[i - 1];
        if |rest| > 0 {
          assert !IsSpace(rest[0]);
        }
      } else {
        var rest := s[1..];
        CollapseSpacesSingle(rest);
        var cr := CollapseSpaces(rest);
        assert r == [s[0]] + cr;
        assert forall i :: 1 <= i < |r| ==> r[i] == cr[i - 1];
      }
    }
  }

  /** Every character the collapse outputs, other than whitespace, comes from its
      input. */
  lemma {:induction false} CollapseSpacesChars(s: string)
    ensures forall i :: 0 <= i < |CollapseSpaces(s)| && !IsSpace(CollapseSpaces(s)[i]) ==>
      CollapseSpaces(s)[i] in s
    decreases |s|
  {
    if |s| > 0 {
      var r := CollapseSpaces(s);
      var rest := if IsSpace(s[0]) then s[SpaceRun(s, 0)..] else s[1..];
      CollapseSpacesChars(rest);
      var cr := CollapseSpaces(rest);
      assert r == (if IsSpace(s[0]) then " " else [s[0]]) + cr;
      assert forall i :: 1 <= i < |r| ==> r[i] == cr[i - 1];
      assert forall c :: c in rest ==> c in s;
    }
  }

  /** Collapsing keeps the non-space characters in order and never lengthens. */
  lemma {:induction false} CollapseSpacesNonSpace(s: string)
    ensures NonSpace(CollapseSpaces(s)) == NonSpace(s)
    ensures |CollapseSpaces(s)| <= |s|
    decreases |s|
  {
    if |s| > 0 {
      if IsSpace(s[0]) {
        var k := SpaceRun(s, 0);
        SpaceRunMaximal(s, 0);
        var cr := CollapseSpaces(s[k..]);
        CollapseSpacesNonSpace(s[k..]);
        NonSpaceAppend(" ", cr);
        assert s == s[..k] + s[k..];
        NonSpaceAppend(s[..k], s[k..]);
        NonSpaceEmptyIffBlank(s[..k]);
      } else {
        var cr := CollapseSpaces(s[1..]);
        CollapseSpacesNonSpace(s[1..]);
        assert ([s[0]] + cr)[1..] == cr;
      }
    }
  }

  /** Collapsing leaves single spaces, keeps whether each end is whitespace, and
      introduces no other character. */
  lemma CollapseSpacesSound(s: string)
    ensures SingleSpaced(CollapseSpaces(s))
    ensures |CollapseSpaces(s)| == 0 <==> |s| == 0
    ensures |s| > 0 ==> (IsSpace(CollapseSpaces(s)[0]) <==> IsSpace(s[0]))
    ensures |s| > 0 ==>
      (IsSpace(CollapseSpaces(s)[|CollapseSpaces(s)| - 1]) <==> IsSpace(s[|s| - 1]))
    ensures forall i :: 0 <= i < |CollapseSpaces(s)| && !IsSpace(CollapseSpaces(s)[i]) ==>
      CollapseSpaces(s)[i] in s
  {
    CollapseSpacesEnds(s);
    CollapseSpacesSingle(s);
    CollapseSpacesChars(s);
  }

  /** Text that is already single-spaced is left unchanged. */
  lemma {:induction false} CollapseSpacesIdentity(s: string)
    requires SingleSpaced(s)
    ensures CollapseSpaces(s) == s
    decreases |s|
  {
    if |s| > 0 {
      assert SingleSpaced(s[1..]) by {
        assert forall i :: 0 <= i < |s[1..]| ==> s[1..][i] == s[i + 1];
      }
      if IsSpace(s[0]) {
        if |s| > 1 {
          assert !IsSpace(s[1]);
        }
        assert SpaceRun(s, 0) == 1 by {
          if |s| > 1 {
            assert SpaceRun(s, 1) == 0;
          }
        }
        CollapseSpacesIdentity(s[1..]);
        assert s == " " + s[1..];
      } else {
        CollapseSpacesIdentity(s[1..]);
        assert s == [s[0]] + s[1..];
      }
    }
  }

  /** A substring of a single-spaced string is single-spaced. */
  lemma SingleSpacedSlice(s: string, a: nat, b: nat)
    requires a <= b <= |s| && SingleSpaced(s)
    ensures SingleSpaced(s[a..b])
  {
    assert forall i :: 0 <= i < b - a ==> s[a..b][i] == s[a + i];
  }

  // -------------------------------------------------------------------- norm

  function Lower(cc: CharClasses, s: string): (r: string)
  {
    seq(|s|, i requires 0 <= i < |s| => cc.lower(s[i]))
  }

  /** `s.replace(/[^\p{L}\p{N}\s]/gu, " ")` */
  function KeepWordChars(cc: CharClasses, s: string): (r: string)
  {
    seq(|s|, i requires 0 <= i < |s| =>
      if cc.isLetter(s[i]) || cc.isNumber(s[i]) || IsSpace(s[i]) then s[i] else ' ')
  }

  /** norm */
  function Norm(cc: CharClasses, s: string): string
  {
    Trim(CollapseSpaces(KeepWordChars(cc, Lower(cc, s))))
  }

  /** A lower-case letter or digit. */
  predicate WordChar(cc: CharClasses, c: char)
  {
    (cc.isLetter(c) || cc.isNumber(c)) && cc.lower(c) == c
  }

  /** What norm produces: trimmed, single-spaced, otherwise lower-case letters and
      digits only. */
  predicate IsNormForm(cc: CharClasses, s: string)
  {
    && IsTrimmed(s)
    && SingleSpaced(s)
    && forall i :: 0 <= i < |s| && !IsSpace(s[i]) ==> WordChar(cc, s[i])
  }

  /** norm's output is trimmed, uses single spaces as its only whitespace, and
      otherwise holds letters and digits only (lower-case ones, when lower-casing
      is idempotent). */
  lemma NormSound(cc: CharClasses, s: string)
    requires LowerIdempotent(cc)
    ensures IsNormForm(cc, Norm(cc, s))
  {
    var k := KeepWordChars(cc, Lower(cc, s));
    assert forall c :: c in k && !IsSpace(c) ==> WordChar(cc, c) by {
      forall c | c in k && !IsSpace(c)
        ensures WordChar(cc, c)
      {
        var i :| 0 <= i < |k| && k[i] == c;
        assert c == cc.lower(s[i]);
        assert cc.lower(cc.lower(s[i])) == cc.lower(s[i]);
      }
    }
    var m := CollapseSpaces(k);
    CollapseSpacesSound(k);
    var a, b := TrimSpan(m);
    SingleSpacedSlice(m, a, b);
    var r := Norm(cc, s);
    forall i | 0 <= i < |r| && !IsSpace(r[i])
      ensures WordChar(cc, r[i])
    {
      assert r[i] == m[a + i];
    }
  }

  /** norm leaves its own output unchanged. */
  lemma NormOfNormForm(cc: CharClasses, s: string)
    requires IsNormForm(cc, s) && cc.lower(' ') == ' '
    ensures Norm(cc, s) == s
  {
    assert Lower(cc, s) == s;
    assert KeepWordChars(cc, s) == s;
    CollapseSpacesIdentity(s);
    TrimOfTrimmed(s);
  }

  /** norm is idempotent when lower-casing is idempotent and keeps ' '. */
  lemma NormIdempotent(cc: CharClasses, s: string)
    requires LowerIdempotent(cc) && cc.lower(' ') == ' '
    ensures Norm(cc, Norm(cc, s)) == Norm(cc, s)
  {
    NormSound(cc, s);
    NormOfNormForm(cc, Norm(cc, s));
  }

  // ------------------------------------------------------- Greetings, thanks

  const Greetings: seq<string> :=
    ["اهلا", "أهلا", "هلا", "هلا والله", "السلام عليكم", "سلام عليكم", "مرحبا", "هاي", "hello", "hi"]

  const ThanksPhrases: seq<string> :=
    ["شكرا", "شكرًا", "شكراً", "يعطيك العافيه", "يعطيك العافية", "مشكور", "مشكوره", "thx", "thanks", "thank you"]

  /** `phrases.some((g) => m.includes(norm(g)))` */
  function SomeIncluded(cc: CharClasses, m: string, phrases: seq<string>): bool
  {
    if |phrases| == 0 then false
    else Contains(m, Norm(cc, phrases[0])) || SomeIncluded(cc, m, phrases[1..])
  }

  /** `Array.prototype.some` holds exactly when one of the phrases is included. */
  lemma {:induction false} SomeIncludedIff(cc: CharClasses, m: string, phrases: seq<string>)
    ensures SomeIncluded(cc, m, phrases)
      <==> exists i :: 0 <= i < |phrases| && Contains(m, Norm(cc, phrases[i]))
    decreases |phrases|
  {
    if |phrases| > 0 {
      SomeIncludedIff(cc, m, phrases[1..]);
      if SomeIncluded(cc, m, phrases[1..]) {
        var i :| 0 <= i < |phrases[1..]| && Contains(m, Norm(cc, phrases[1..][i]));
        assert phrases[i + 1] == phrases[1..][i];
      }
      if exists i :: 0 <= i < |phrases| && Contains(m, Norm(cc, phrases[i])) {
        var i :| 0 <= i < |phrases| && Contains(m, Norm(cc, phrases[i]));
        if i > 0 {
          assert phrases[1..][i - 1] == phrases[i];
        }
      }
    }
  }

  function IsGreeting(cc: CharClasses, msg: string): bool
  {
    SomeIncluded(cc, Norm(cc, msg), Greetings)
  }

  function IsThanks(cc: CharClasses, msg: string): bool
  {
    SomeIncluded(cc, Norm(cc, msg), ThanksPhrases)
  }

  /** isGreeting and isThanks hold exactly when the normalized message includes
      one normalized phrase of their list, and normalizing the message first does
      not change the answer. */
  lemma GreetingThanksSound(cc: CharClasses, msg: string)
    requires LowerIdempotent(cc) && cc.lower(' ') == ' '
    ensures IsGreeting(cc, msg)
      <==> exists i :: 0 <= i < |Greetings| && Contains(Norm(cc, msg), Norm(cc, Greetings[i]))
    ensures IsThanks(cc, msg)
      <==> exists i :: 0 <= i < |ThanksPhrases| && Contains(Norm(cc, msg), Norm(cc, ThanksPhrases[i]))
    ensures IsGreeting(cc, Norm(cc, msg)) == IsGreeting(cc, msg)
    ensures IsThanks(cc, Norm(cc, msg)) == IsThanks(cc, msg)
  {
    SomeIncludedIff(cc, Norm(cc, msg), Greetings);
    SomeIncludedIff(cc, Norm(cc, msg), ThanksPhrases);
    NormIdempotent(cc, msg);
  }

  /** `includes` finds the phrase at some position. */
  lemma {:induction false} ContainsAt(s: string, sub: string)
    ensures Contains(s, sub) <==> exists i :: 0 <= i <= |s| && sub <= s[i..]
    decreases |s|
  {
    if |s| > 0 {
      ContainsAt(s[1..], sub);
      if Contains(s[1..], sub) {
        var j :| 0 <= j <= |s[1..]| && sub <= s[1..][j..];
        assert s[1..][j..] == s[j + 1..];
      }
      if exists i :: 0 <= i <= |s| && sub <= s[i..] {
        var i :| 0 <= i <= |s| && sub <= s[i..];
        if i > 0 {
          assert s[1..][i - 1..] == s[i..];
        }
      }
    } else {
      assert s[0..] == s;
    }
  }

  /** A phrase holding a character the text lacks is not included. */
  lemma NotContainsChar(s: string, sub: string, k: nat)
    requires k < |sub| && sub[k] !in s
    ensures !Contains(s, sub)
  {
    ContainsAt(s, sub);
    forall i | 0 <= i <= |s|
      ensures !(sub <= s[i..])
    {
      if i + k < |s| {
        assert s[i..][k] == s[i + k];
        assert s[i + k] in s;
      }
    }
  }

  /** A phrase holding two neighbouring characters that never follow each other
      in the text is not included. */
  lemma NotContainsPair(s: string, sub: string, k: nat)
    requires k + 1 < |sub|
    requires forall j :: 0 <= j < |s| - 1 ==> !(s[j] == sub[k] && s[j + 1] == sub[k + 1])
    ensures !Contains(s, sub)
  {
    ContainsAt(s, sub);
    forall i | 0 <= i <= |s|
      ensures !(sub <= s[i..])
    {
      if i + k + 1 < |s| {
        assert s[i..][k] == s[i + k];
        assert s[i..][k + 1] == s[i + k + 1];
      }
    }
  }

  /** The phrase `w` occurs in `m` as whole words: bounded by a space or an end
      of `m` on both sides. */
  predicate ContainsWords(m: string, w: string)
  {
    Contains(" " + m + " ", " " + w + " ")
  }

  /** isGreeting as evidently intended: some normalized greeting occurs in the
      normalized message as whole words. */
  predicate IsGreetingWords(cc: CharClasses, msg: string)
  {
    exists i :: 0 <= i < |Greetings| && ContainsWords(Norm(cc, msg), Norm(cc, Greetings[i]))
  }

  /** Whole words are in particular a substring. */
  lemma ContainsWordsIncluded(m: string, w: string)
    requires ContainsWords(m, w)
    ensures Contains(m, w)
  {
    var pm := " " + m + " ";
    var pw := " " + w + " ";
    ContainsAt(pm, pw);
    ContainsAt(m, w);
    var i :| 0 <= i <= |pm| && pw <= pm[i..];
    assert pm[i..i + |pw|] == pw;
    assert pm[1..|m| + 1] == m && pw[1..|w| + 1] == w;
    assert m[i..i + |w|] == pm[i + 1..i + 1 + |w|] == pw[1..|w| + 1];
    assert w <= m[i..];
  }

  /** A whole-word greeting is a greeting as written. */
  lemma GreetingWordsAreGreetings(cc: CharClasses, msg: string)
    ensures IsGreetingWords(cc, msg) ==> IsGreeting(cc, msg)
  {
    SomeIncludedIff(cc, Norm(cc, msg), Greetings);
    if IsGreetingWords(cc, msg) {
      var i :| 0 <= i < |Greetings| && ContainsWords(Norm(cc, msg), Norm(cc, Greetings[i]));
      ContainsWordsIncluded(Norm(cc, msg), Norm(cc, Greetings[i]));
    }
  }

  /** The whole-word test is stricter than the substring test, and a greeting
      phrase sent on its own is a greeting under both. */
  lemma IsGreetingWordsSound(cc: CharClasses, msg: string)
    ensures IsGreetingWords(cc, msg) ==> IsGreeting(cc, msg)
    ensures forall i :: 0 <= i < |Greetings| ==> IsGreetingWords(cc, Greetings[i])
  {
    GreetingWordsAreGreetings(cc, msg);
    forall i | 0 <= i < |Greetings|
      ensures IsGreetingWords(cc, Greetings[i])
    {
      var w := " " + Norm(cc, Greetings[i]) + " ";
      assert w <= w[0..];
      ContainsAt(w, w);
    }
  }

  /** ASCII letters, lower-cased, and the Arabic letters hamza to yeh. */
  const AsciiArabic: CharClasses := CharClasses(
    c => if 'A' <= c <= 'Z' then (c as int + 32) as char else c,
    c => ('a' <= c <= 'z') || ('A' <= c <= 'Z') || ('\U{0621}' <= c <= '\U{064A}'),
    c => '0' <= c <= '9')

  const BookQuestion: string := "what is this book about"

  /** A lower-case ASCII letter or an Arabic letter of AsciiArabic. */
  predicate IsPlainLetter(c: char)
  {
    ('a' <= c <= 'z') || ('\U{0621}' <= c <= '\U{064A}')
  }

  /** From position `i` on, every character is a plain letter or a single ' '
      followed by one. */
  predicate PlainWordsFrom(s: string, i: nat)
    decreases |s| - i
  {
    i >= |s|
    || ((IsPlainLetter(s[i]) || (s[i] == ' ' && i + 1 < |s| && IsPlainLetter(s[i + 1])))
        && PlainWordsFrom(s, i + 1))
  }

  lemma {:induction false} PlainWordsAt(s: string, i: nat, j: nat)
    requires PlainWordsFrom(s, i) && i <= j < |s|
    ensures IsPlainLetter(s[j]) || (s[j] == ' ' && j + 1 < |s| && IsPlainLetter(s[j + 1]))
    decreases j - i
  {
    if i < j {
      PlainWordsAt(s, i + 1, j);
    }
  }

  /** Plain words separated by single spaces are left unchanged by norm under
      AsciiArabic. */
  lemma PlainWordsNormalized(s: string)
    requires |s| > 0 && IsPlainLetter(s[0]) && PlainWordsFrom(s, 0)
    ensures Norm(AsciiArabic, s) == s
  {
    var cc := AsciiArabic;
    forall j | 0 <= j < |s|
      ensures IsPlainLetter(s[j]) || (s[j] == ' ' && j + 1 < |s| && IsPlainLetter(s[j + 1]))
    {
      PlainWordsAt(s, 0, j);
    }
    assert IsNormForm(cc, s);
    NormOfNormForm(cc, s);
  }

  /** Under these classes every greeting phrase is already normalized. */
  lemma GreetingsNormalized()
    ensures forall i :: 0 <= i < |Greetings| ==> Norm(AsciiArabic, Greetings[i]) == Greetings[i]
  {
    assert forall i :: 0 <= i < |Greetings| ==>
      |Greetings[i]| > 0 && IsPlainLetter(Greetings[i][0]) && PlainWordsFrom(Greetings[i], 0);
    forall i | 0 <= i < |Greetings|
      ensures Norm(AsciiArabic, Greetings[i]) == Greetings[i]
    {
      PlainWordsNormalized(Greetings[i]);
    }
  }

  /** The question is already normalized. */
  lemma BookQuestionNormalized()
    ensures Norm(AsciiArabic, BookQuestion) == BookQuestion
  {
    var q := "what is this book about";
    assert PlainWordsFrom(q, 18);
    assert PlainWordsFrom(q, 12);
    assert PlainWordsFrom(q, 6);
    PlainWordsNormalized(q);
  }

  /** From position `i` on, the text holds only ASCII characters. */
  predicate AsciiFrom(s: string, i: nat)
    decreases |s| - i
  {
    i >= |s| || (s[i] <= '\U{007F}' && AsciiFrom(s, i + 1))
  }

  lemma {:induction false} AsciiAt(s: string, i: nat)
    requires AsciiFrom(s, i)
    ensures forall j :: i <= j < |s| ==> s[j] <= '\U{007F}'
    decreases |s| - i
  {
    if i < |s| {
      AsciiAt(s, i + 1);
    }
  }

  /** From position `i` on, `b` never directly follows `a`. */
  predicate NoPairFrom(s: string, a: char, b: char, i: nat)
    decreases |s| - i
  {
    i + 1 >= |s| || (!(s[i] == a && s[i + 1] == b) && NoPairFrom(s, a, b, i + 1))
  }

  lemma {:induction false} NoPairAt(s: string, a: char, b: char, i: nat)
    requires NoPairFrom(s, a, b, i)
    ensures forall j :: i <= j < |s| - 1 ==> !(s[j] == a && s[j + 1] == b)
    decreases |s| - i
  {
    if i + 1 < |s| {
      NoPairAt(s, a, b, i + 1);
    }
  }

  /** The question between two spaces, as the whole-word test reads it. */
  const PaddedQuestion: string := " what is this book about "

  /** The padded question is ASCII, has no 'e', and never has 'h' after a space. */
  lemma PaddedQuestionShape()
    ensures PaddedQuestion == " " + BookQuestion + " "
    ensures forall j :: 0 <= j < |PaddedQuestion| ==> PaddedQuestion[j] <= '\U{007F}'
    ensures 'e' !in PaddedQuestion
    ensures forall j :: 0 <= j < |PaddedQuestion| - 1 ==>
      !(PaddedQuestion[j] == ' ' && PaddedQuestion[j + 1] == 'h')
  {
    var pq := " what is this book about ";
    assert AsciiFrom(pq, 19);
    assert AsciiFrom(pq, 13);
    assert AsciiFrom(pq, 6);
    AsciiAt(pq, 0);
    assert NoPairFrom(pq, ' ', 'h', 19);
    assert NoPairFrom(pq, ' ', 'h', 13);
    assert NoPairFrom(pq, ' ', 'h', 6);
    NoPairAt(pq, ' ', 'h', 0);
  }

  /** No greeting occurs as whole words in the question. */
  lemma BookQuestionHasNoGreetingWords()
    ensures forall i :: 0 <= i < |Greetings| ==> !Contains(PaddedQuestion, " " + Greetings[i] + " ")
  {
    var pq := PaddedQuestion;
    PaddedQuestionShape();
    assert forall i :: 0 <= i < 8 ==> Greetings[i][0] > '\U{007F}';
    forall i | 0 <= i < |Greetings|
      ensures !Contains(pq, " " + Greetings[i] + " ")
    {
      var pw := " " + Greetings[i] + " ";
      if i < 8 {
        assert pw[1] == Greetings[i][0];
        NotContainsChar(pq, pw, 1);
      } else if i == 8 {
        assert pw == " hello ";
        NotContainsChar(pq, pw, 2);
      } else {
        assert pw == " hi ";
        NotContainsPair(pq, pw, 0);
      }
    }
  }

  /** Two neighbouring characters of a text form an included phrase. */
  lemma ContainsTwo(s: string, i: nat, a: char, b: char)
    requires i + 1 < |s| && s[i] == a && s[i + 1] == b
    ensures Contains(s, [a, b])
  {
    ContainsAt(s, [a, b]);
    assert [a, b] <= s[i..];
  }

  /** The question includes "hi", inside "this". */
  lemma BookQuestionIsGreeting()
    ensures IsGreeting(AsciiArabic, BookQuestion)
  {
    var q := "what is this book about";
    ContainsTwo(q, 9, 'h', 'i');
    assert q == BookQuestion;
    assert Greetings[9] == "hi";
    BookQuestionNormalized();
    PlainWordsNormalized("hi");
    SomeIncludedIff(AsciiArabic, q, Greetings);
  }

  /** isGreeting as written takes an ordinary question for a greeting, because
      "this" includes "hi"; the whole-word test does not. */
  lemma GreetingSubstringCounterexample()
    ensures IsGreeting(AsciiArabic, BookQuestion)
    ensures !IsGreetingWords(AsciiArabic, BookQuestion)
  {
    PaddedQuestionShape();
    BookQuestionIsGreeting();
    BookQuestionNormalized();
    GreetingsNormalized();
    BookQuestionHasNoGreetingWords();
  }

  // ---------------------------------------------------- extractMeaningTerm

  /** Number of "what does X mean" patterns, tried in order. */
  const PatternCount: nat := 4

  predicate IsQuote(c: char)
  {
    c == '"' || c == '\'' || c == '“' || c == '”'
  }

  /** Removes the run of quotes at the front (`^["'“”]+`). */
  function DropLeadingQuotes(s: string): (r: string)
    ensures |r| <= |s| && r == s[|s| - |r|..]
    ensures forall i :: 0 <= i < |s| - |r| ==> IsQuote(s[i])
    ensures |r| > 0 ==> !IsQuote(r[0])
  {
    if |s| > 0 && IsQuote(s[0]) then DropLeadingQuotes(s[1..]) else s
  }

  /** Removes the run of quotes at the end (`["'“”]+$`). */
  function DropTrailingQuotes(s: string): (r: string)
    ensures |r| <= |s| && r == s[..|r|]
    ensures forall i :: |r| <= i < |s| ==> IsQuote(s[i])
    ensures |r| > 0 ==> !IsQuote(r[|r| - 1])
  {
    if |s| > 0 && IsQuote(s[|s| - 1]) then DropTrailingQuotes(s[..|s| - 1]) else s
  }

  /** `s.replace(/^["'“”]+|["'“”]+$/g, "")` */
  function StripQuotes(s: string): string
  {
    DropTrailingQuotes(DropLeadingQuotes(s))
  }

  /** Stripping quotes keeps a contiguous piece of the text, removes only quotes
      around it, and leaves no quote at either end. */
  lemma StripQuotesSound(s: string) returns (a: nat, b: nat)
    ensures a <= b <= |s| && StripQuotes(s) == s[a..b]
    ensures forall i :: 0 <= i < a ==> IsQuote(s[i])
    ensures forall i :: b <= i < |s| ==> IsQuote(s[i])
    ensures |StripQuotes(s)| > 0 ==>
      !IsQuote(StripQuotes(s)[0]) && !IsQuote(StripQuotes(s)[|StripQuotes(s)| - 1])
  {
    var l := DropLeadingQuotes(s);
    a := |s| - |l|;
    b := a + |StripQuotes(s)|;
    assert l == s[a..];
  }

  /** The clean-up of one captured group: trim, strip quotes, trim, collapse
      whitespace, and accept 1 to 80 characters. A term keeps the non-space
      characters of the quote-stripped capture, and a capture of at most 80
      characters with something besides whitespace inside its quotes always
      gives a term. */
  function CleanTerm(group: Option<string>): (r: Option<string>)
    ensures group.None? ==> r.None?
    ensures r.Some? ==> 0 < |r.value| <= 80 && IsTrimmed(r.value) && SingleSpaced(r.value)
    ensures r.Some? ==> NonSpace(r.value) == NonSpace(StripQuotes(Trim(group.value)))
    ensures group.Some? && |group.value| <= 80 && NonSpace(StripQuotes(Trim(group.value))) != "" ==>
      r.Some?
  {
    match group
    case None => None
    case Some(g) =>
      if g == "" then None
      else
        var t := Trim(StripQuotes(Trim(g)));
        var term := CollapseSpaces(t);
        CollapseSpacesSound(t);
        CollapseSpacesNonSpace(t);
        NonSpaceTrim(StripQuotes(Trim(g)));
        if 0 < |term| <= 80 then Some(term) else None
  }

  /** The cleaned capture of each pattern, in order; `capture(k, m)` is the first
      group of pattern k matched against `m`, when it matches. */
  function CleanCaptures(capture: (nat, string) -> Option<string>, m: string): (r: seq<Option<string>>)
    ensures |r| == PatternCount
  {
    seq(PatternCount, k requires 0 <= k < PatternCount => CleanTerm(capture(k, m)))
  }

  /** extractMeaningTerm: the patterns are tried in order on the trimmed message and
      the first one whose capture survives the clean-up gives the term. */
  function ExtractMeaningTerm(capture: (nat, string) -> Option<string>, message: string): Option<string>
  {
    FirstSome(CleanCaptures(capture, Trim(message)))
  }

  /** extractMeaningTerm returns nothing, or a term of 1 to 80 characters with no
      surrounding whitespace and single spaces inside, taken from the first
      pattern whose capture qualifies; it returns nothing exactly when no
      pattern's capture qualifies. */
  lemma ExtractMeaningTermSound(capture: (nat, string) -> Option<string>, message: string)
    ensures ExtractMeaningTerm(capture, message).Some? ==>
      var t := ExtractMeaningTerm(capture, message).value;
      0 < |t| <= 80 && IsTrimmed(t) && SingleSpaced(t)
    ensures ExtractMeaningTerm(capture, message).Some? ==>
      exists j :: 0 <= j < PatternCount
        && ExtractMeaningTerm(capture, message) == CleanCaptures(capture, Trim(message))[j]
        && forall i :: 0 <= i < j ==> CleanCaptures(capture, Trim(message))[i].None?
    ensures ExtractMeaningTerm(capture, message).None? <==>
      forall i :: 0 <= i < PatternCount ==> CleanCaptures(capture, Trim(message))[i].None?
  {
    var cs := CleanCaptures(capture, Trim(message));
    FirstSomeSpec(cs);
    if FirstSome(cs).Some? {
      var j :| 0 <= j < |cs| && FirstSome(cs) == cs[j] && forall i :: 0 <= i < j ==> cs[i].None?;
      assert cs[j] == CleanTerm(capture(j, Trim(message)));
    }
  }

  // ----------------------------------------------------------------- History

  /** A history entry as the client sends it: `role` and `text`, "" when missing. */
  datatype RawEntry = RawEntry(role: string, text: string)

  datatype Role = User | Assistant

  datatype Turn = Turn(role: Role, content: string)

  function ToTurn(x: RawEntry): Turn
  {
    Turn(if x.role == "assistant" then Assistant else User, Trim(x.text))
  }

  function HasContent(t: Turn): bool
  {
    |t.content| > 0
  }

  /** The entries as turns, in order (the `map` over the raw history). */
  function Turns(raw: seq<RawEntry>): (r: seq<Turn>)
    ensures |r| == |raw|
    ensures forall i :: 0 <= i < |raw| ==> r[i] == ToTurn(raw[i])
  {
    MapSeq(raw, ToTurn)
  }

  /** The history passed to the model: map, drop empty entries, keep the last 8. */
  function TrimHistory(raw: seq<RawEntry>): seq<Turn>
  {
    LastN(Filter(Turns(raw), HasContent), 8)
  }

  /** How many entries have content once trimmed. */
  function ContentCount(raw: seq<RawEntry>): nat
  {
    if |raw| == 0 then 0 else (if Trim(raw[0].text) != "" then 1 else 0) + ContentCount(raw[1..])
  }

  /** Filtering the turns of a history one entry at a time. */
  lemma FilterTurnsCons(raw: seq<RawEntry>)
    requires |raw| > 0
    ensures Filter(Turns(raw), HasContent)
      == (if Trim(raw[0].text) != "" then [ToTurn(raw[0])] else []) + Filter(Turns(raw[1..]), HasContent)
  {
    assert Turns(raw)[1..] == Turns(raw[1..]);
  }

  lemma {:induction false} FilterTurnsCount(raw: seq<RawEntry>)
    ensures |Filter(Turns(raw), HasContent)| == ContentCount(raw)
    decreases |raw|
  {
    if |raw| > 0 {
      FilterTurnsCons(raw);
      FilterTurnsCount(raw[1..]);
    }
  }

  /** The kept turns are turns of the history with content, in order. */
  lemma TrimHistoryTurns(raw: seq<RawEntry>)
    ensures forall i :: 0 <= i < |TrimHistory(raw)| ==>
      TrimHistory(raw)[i].content != "" && IsTrimmed(TrimHistory(raw)[i].content)
      && TrimHistory(raw)[i] in Turns(raw)
    ensures IsSubseq(TrimHistory(raw), Turns(raw))
  {
    var turns := Turns(raw);
    var kept := Filter(turns, HasContent);
    var r := TrimHistory(raw);
    FilterIsSubseq(turns, HasContent);
    SuffixIsSubseq(kept, |kept| - |r|);
    SubseqTrans(r, kept, turns);
    forall i | 0 <= i < |r|
      ensures r[i].content != "" && IsTrimmed(r[i].content) && r[i] in turns
    {
      assert r[i] == kept[|kept| - |r| + i];
      assert r[i] in kept;
    }
  }

  /** The trimmed history holds min(8, number of entries with content) turns, each
      with non-empty trimmed content and a role of user or assistant as sent, in
      the original order, and they are the last such entries. */
  lemma TrimHistorySound(raw: seq<RawEntry>)
    ensures |TrimHistory(raw)| == if ContentCount(raw) < 8 then ContentCount(raw) else 8
    ensures forall i :: 0 <= i < |TrimHistory(raw)| ==>
      TrimHistory(raw)[i].content != "" && IsTrimmed(TrimHistory(raw)[i].content)
    ensures forall i :: 0 <= i < |TrimHistory(raw)| ==> TrimHistory(raw)[i] in Turns(raw)
    ensures IsSubseq(TrimHistory(raw), Turns(raw))
    ensures var kept := Filter(Turns(raw), HasContent);
      |kept| == ContentCount(raw) && TrimHistory(raw) == kept[|kept| - |TrimHistory(raw)|..]
  {
    FilterTurnsCount(raw);
    TrimHistoryTurns(raw);
  }

  /** The history entry by entry: an entry is kept exactly when it has content and
      fewer than 8 later entries have content. */
  function RecentTurns(raw: seq<RawEntry>): seq<Turn>
  {
    if |raw| == 0 then []
    else
      (if Trim(raw[0].text) != "" && ContentCount(raw[1..]) < 8 then [ToTurn(raw[0])] else [])
      + RecentTurns(raw[1..])
  }

  /** Taking the last `n` of a sequence with one more element in front. */
  lemma LastNCons<T>(x: T, ys: seq<T>, n: nat)
    requires n > 0
    ensures LastN([x] + ys, n) == if |ys| < n then [x] + ys else LastN(ys, n)
  {
  }

  /** `filter(...).slice(-8)` keeps exactly the entries with content that have fewer
      than 8 entries with content after them. */
  lemma {:induction false} TrimHistoryReference(raw: seq<RawEntry>)
    ensures TrimHistory(raw) == RecentTurns(raw)
    decreases |raw|
  {
    if |raw| > 0 {
      TrimHistoryReference(raw[1..]);
      FilterTurnsCount(raw[1..]);
      FilterTurnsCons(raw);
      if Trim(raw[0].text) != "" {
        LastNCons(ToTurn(raw[0]), Filter(Turns(raw[1..]), HasContent), 8);
      }
    }
  }

  // ------------------------------------------------------------- askBookChat

  datatype Error = InvalidArgument | NotFound | FailedPrecondition

  /** The book document as far as the chat reads it. */
  datatype BookDoc = BookDoc(vectorStoreId: string)

  /** What the handler does after its checks: a fixed reply, or a question to the
      model with the vector store, the trimmed history and the meaning term. */
  datatype Reply =
    | GreetingReply
    | ThanksReply
    | Ask(vectorStoreId: string, message: string, history: seq<Turn>, term: Option<string>)

  /** How a message is recognised as a greeting: as written, a normalised phrase
      anywhere in the normalised message (IsGreeting); corrected, only as whole
      words (IsGreetingWords). */
  datatype GreetingTest = Substring | WholeWords

  predicate Greets(test: GreetingTest, cc: CharClasses, msg: string)
  {
    match test
    case Substring => IsGreeting(cc, msg)
    case WholeWords => IsGreetingWords(cc, msg)
  }

  /** The handler's checks in order, with the greeting test as a parameter. */
  function HandleChat(test: GreetingTest, cc: CharClasses, capture: (nat, string) -> Option<string>,
                      bookId: string, message: string, history: seq<RawEntry>,
                      book: Option<BookDoc>): Result<Reply, Error>
  {
    var id := Trim(bookId);
    var msg := Trim(message);
    if id == "" then Failure(InvalidArgument)
    else if msg == "" then Failure(InvalidArgument)
    else if Greets(test, cc, msg) then Success(GreetingReply)
    else if IsThanks(cc, msg) then Success(ThanksReply)
    else match book
      case None => Failure(NotFound)
      case Some(doc) =>
        var vs := Trim(doc.vectorStoreId);
        if vs == "" then Failure(FailedPrecondition)
        else Success(Ask(vs, msg, TrimHistory(history), ExtractMeaningTerm(capture, msg)))
  }

  /** askBookChat up to the model call, as written: `book` is the looked-up
      document and a greeting is any substring match (isGreeting). */
  function AskBookChat(cc: CharClasses, capture: (nat, string) -> Option<string>,
                       bookId: string, message: string, history: seq<RawEntry>,
                       book: Option<BookDoc>): Result<Reply, Error>
  {
    HandleChat(Substring, cc, capture, bookId, message, history, book)
  }

  /** The corrected handler: a greeting phrase counts only as whole words. */
  function AskBookChatWholeWords(cc: CharClasses, capture: (nat, string) -> Option<string>,
                                 bookId: string, message: string, history: seq<RawEntry>,
                                 book: Option<BookDoc>): Result<Reply, Error>
  {
    HandleChat(WholeWords, cc, capture, bookId, message, history, book)
  }

  /** The argument checks come first, a greeting is answered before thanks, and
      both are answered without looking at the book; only a real question reads
      the book: a missing book is not found, a book without a vector store fails
      its precondition, and otherwise the question goes to the model with the
      trimmed message, the trimmed history and the meaning term. */
  lemma AskBookChatOrder(cc: CharClasses, capture: (nat, string) -> Option<string>,
                         bookId: string, message: string, history: seq<RawEntry>,
                         book: Option<BookDoc>, other: Option<BookDoc>)
    ensures IsBlank(bookId) || IsBlank(message) <==>
      AskBookChat(cc, capture, bookId, message, history, book) == Failure(InvalidArgument)
    ensures !IsBlank(bookId) && !IsBlank(message) && IsGreeting(cc, Trim(message)) ==>
      AskBookChat(cc, capture, bookId, message, history, book) == Success(GreetingReply)
    ensures !IsBlank(bookId) && !IsBlank(message) && !IsGreeting(cc, Trim(message))
            && IsThanks(cc, Trim(message)) ==>
      AskBookChat(cc, capture, bookId, message, history, book) == Success(ThanksReply)
    ensures (IsGreeting(cc, Trim(message)) || IsThanks(cc, Trim(message))) ==>
      AskBookChat(cc, capture, bookId, message, history, book)
      == AskBookChat(cc, capture, bookId, message, history, other)
    ensures (AskBookChat(cc, capture, bookId, message, history, book).Success?
             && AskBookChat(cc, capture, bookId, message, history, book).value.Ask?) ==>
      book.Some? && !IsBlank(book.value.vectorStoreId)
    ensures !IsBlank(bookId) && !IsBlank(message)
            && !IsGreeting(cc, Trim(message)) && !IsThanks(cc, Trim(message)) ==>
      && (book.None? ==>
            AskBookChat(cc, capture, bookId, message, history, book) == Failure(NotFound))
      && (book.Some? && IsBlank(book.value.vectorStoreId) ==>
            AskBookChat(cc, capture, bookId, message, history, book) == Failure(FailedPrecondition))
      && (book.Some? && !IsBlank(book.value.vectorStoreId) ==>
            AskBookChat(cc, capture, bookId, message, history, book)
            == Success(Ask(Trim(book.value.vectorStoreId), Trim(message), TrimHistory(history),
                           ExtractMeaningTerm(capture, Trim(message)))))
  {
  }

  /** Past the argument checks, a handler greets exactly when its test says so. */
  lemma HandleChatGreets(test: GreetingTest, cc: CharClasses, capture: (nat, string) -> Option<string>,
                         bookId: string, message: string, history: seq<RawEntry>,
                         book: Option<BookDoc>)
    ensures !IsBlank(bookId) && !IsBlank(message) ==>
      (HandleChat(test, cc, capture, bookId, message, history, book) == Success(GreetingReply)
       <==> Greets(test, cc, Trim(message)))
    ensures IsBlank(bookId) || IsBlank(message) <==>
      HandleChat(test, cc, capture, bookId, message, history, book) == Failure(InvalidArgument)
  {
  }

  /** Two handlers whose tests agree on a message answer it alike. */
  lemma HandleChatSameTest(t1: GreetingTest, t2: GreetingTest, cc: CharClasses,
                           capture: (nat, string) -> Option<string>, bookId: string, message: string,
                           history: seq<RawEntry>, book: Option<BookDoc>)
    requires IsBlank(bookId) || IsBlank(message) || Greets(t1, cc, Trim(message)) == Greets(t2, cc, Trim(message))
    ensures HandleChat(t1, cc, capture, bookId, message, history, book)
            == HandleChat(t2, cc, capture, bookId, message, history, book)
  {
  }

  /** The corrected handler greets exactly on whole-word greetings. It answers
      like the handler as written on every message without a greeting phrase, and
      it greets only where the handler as written greets too; the two differ only
      on a phrase found inside a word, which it treats as a real question. */
  lemma AskBookChatWholeWordsSound(cc: CharClasses, capture: (nat, string) -> Option<string>,
                                   bookId: string, message: string, history: seq<RawEntry>,
                                   book: Option<BookDoc>)
    ensures !IsBlank(bookId) && !IsBlank(message) ==>
      (AskBookChatWholeWords(cc, capture, bookId, message, history, book) == Success(GreetingReply)
       <==> IsGreetingWords(cc, Trim(message)))
    ensures AskBookChatWholeWords(cc, capture, bookId, message, history, book) == Success(GreetingReply) ==>
      AskBookChat(cc, capture, bookId, message, history, book) == Success(GreetingReply)
    ensures !IsGreeting(cc, Trim(message)) ==>
      AskBookChatWholeWords(cc, capture, bookId, message, history, book)
      == AskBookChat(cc, capture, bookId, message, history, book)
  {
    var msg := Trim(message);
    GreetingWordsAreGreetings(cc, msg);
    HandleChatGreets(WholeWords, cc, capture, bookId, message, history, book);
    HandleChatGreets(Substring, cc, capture, bookId, message, history, book);
    if !IsGreeting(cc, msg) {
      HandleChatSameTest(WholeWords, Substring, cc, capture, bookId, message, history, book);
    }
  }

  /** The handler as written greets "what is this book about", whatever the book,
      and never reads it; the corrected handler does not greet it. */
  lemma AskBookChatGreetsBookQuestion(capture: (nat, string) -> Option<string>, bookId: string,
                                      history: seq<RawEntry>, book: Option<BookDoc>)
    requires !IsBlank(bookId)
    ensures AskBookChat(AsciiArabic, capture, bookId, BookQuestion, history, book) == Success(GreetingReply)
    ensures AskBookChatWholeWords(AsciiArabic, capture, bookId, BookQuestion, history, book)
            != Success(GreetingReply)
  {
    assert BookQuestion[0] == 'w' && BookQuestion[|BookQuestion| - 1] == 't';
    TrimOfTrimmed(BookQuestion);
    GreetingSubstringCounterexample();
    HandleChatGreets(Substring, AsciiArabic, capture, bookId, BookQuestion, history, book);
    HandleChatGreets(WholeWords, AsciiArabic, capture, bookId, BookQuestion, history, book);
  }
}
