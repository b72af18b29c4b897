/**
 * The text normalisation and paragraph split shared, character for character,
 * by the three speech-chunking handlers, and the fixed-width slicing two of
 * them use for oversized paragraphs.
 */
module Reflow {
  import opened Text
  import opened Seqs

  predicate IsHSpace(c: char)
  {
    c == ' ' || c == '\t'
  }

  predicate NoCR(s: string)
  {
    forall i :: 0 <= i < |s| ==> s[i] != '\r'
  }

  predicate NoBlankBeforeNewline(s: string)
  {
    forall i :: 0 <= i < |s| - 1 ==> !(IsHSpace(s[i]) && s[i + 1] == '\n')
  }

  predicate NoTripleNewline(s: string)
  {
    forall i :: 0 <= i < |s| - 2 ==> !(s[i] == '\n' && s[i + 1] == '\n' && s[i + 2] == '\n')
  }

  /** What normalizeText promises of its output. */
  predicate IsNormalized(s: string)
  {
    NoCR(s) && NoBlankBeforeNewline(s) && NoTripleNewline(s) && IsTrimmed(s)
  }

  /** `.replace(/\r/g, "")` */
  function RemoveCR(s: string): (r: string)
    ensures NoCR(r)
  {
    if |s| == 0 then "" else (if s[0] == '\r' then "" else [s[0]]) + RemoveCR(s[1..])
  }

  /** `s` starts with a (possibly empty) run of spaces and tabs followed by a newline. */
  predicate BeforeNewline(s: string)
  {
    |s| > 0 && (s[0] == '\n' || (IsHSpace(s[0]) && BeforeNewline(s[1..])))
  }

  /** `.replace(/[ \t]+\n/g, "\n")`: every run of spaces and tabs that ends at a
      newline is deleted; the newline stays. */
  function DropBlanksBeforeNewline(s: string): string
  {
    if |s| == 0 then ""
    else if IsHSpace(s[0]) && BeforeNewline(s) then DropBlanksBeforeNewline(s[1..])
    else [s[0]] + DropBlanksBeforeNewline(s[1..])
  }

  /** `.replace(/\n{3,}/g, "\n\n")`: every run of three or more newlines becomes two. */
  function CollapseNewlines(s: string): string
    decreases |s|
  {
    if |s| == 0 then ""
    else if s[0] == '\n' then
      var k := RunOf(s, 0, '\n');
      (if k >= 3 then "\n\n" else s[..k]) + CollapseNewlines(s[k..])
    else [s[0]] + CollapseNewlines(s[1..])
  }

  /** normalizeText (generate_audio.ts, generateMyBookAudio.ts, generateSummaryAudio.ts). */
  function NormalizeText(t: string): string
  {
    Trim(CollapseNewlines(DropBlanksBeforeNewline(RemoveCR(t))))
  }

  // ---------------------------------------------------------------- RemoveCR

  lemma {:induction false} NonSpaceRemoveCR(s: string)
    ensures NonSpace(RemoveCR(s)) == NonSpace(s)
    decreases |s|
  {
    if |s| > 0 {
      NonSpaceRemoveCR(s[1..]);
      var h := if s[0] == '\r' then "" else [s[0]];
      NonSpaceAppend(h, RemoveCR(s[1..]));
      NonSpaceAppend([s[0]], s[1..]);
      assert [s[0]] + s[1..] == s;
    }
  }

  lemma {:induction false} RemoveCRIdentity(s: string)
    requires NoCR(s)
    ensures RemoveCR(s) == s
    decreases |s|
  {
    if |s| > 0 {
      RemoveCRIdentity(s[1..]);
    }
  }

  // ------------------------------------------------- DropBlanksBeforeNewline

  lemma {:induction false} DropHead(x: string)
    ensures |DropBlanksBeforeNewline(x)| > 0 && DropBlanksBeforeNewline(x)[0] == '\n' ==> BeforeNewline(x)
    decreases |x|
  {
    if |x| > 0 {
      DropHead(x[1..]);
    }
  }

  lemma {:induction false} DropNoCR(s: string)
    requires NoCR(s)
    ensures NoCR(DropBlanksBeforeNewline(s))
    decreases |s|
  {
    if |s| > 0 {
      DropNoCR(s[1..]);
    }
  }

  lemma {:induction false} DropNoBlank(s: string)
    ensures NoBlankBeforeNewline(DropBlanksBeforeNewline(s))
    decreases |s|
  {
    if |s| > 0 {
      DropNoBlank(s[1..]);
      var rest := DropBlanksBeforeNewline(s[1..]);
      if !(IsHSpace(s[0]) && BeforeNewline(s)) {
        var r := [s[0]] + rest;
        DropHead(s[1..]);
        assert IsHSpace(s[0]) ==> !BeforeNewline(s[1..]);
        forall i | 0 <= i < |r| - 1
          ensures !(IsHSpace(r[i]) && r[i + 1] == '\n')
        {
          if i > 0 {
            assert r[i] == rest[i - 1] && r[i + 1] == rest[i];
          }
        }
      }
    }
  }

  lemma {:induction false} NonSpaceDrop(s: string)
    ensures NonSpace(DropBlanksBeforeNewline(s)) == NonSpace(s)
    decreases |s|
  {
    if |s| > 0 {
      NonSpaceDrop(s[1..]);
      NonSpaceAppend([s[0]], s[1..]);
      assert [s[0]] + s[1..] == s;
      if !(IsHSpace(s[0]) && BeforeNewline(s)) {
        NonSpaceAppend([s[0]], DropBlanksBeforeNewline(s[1..]));
      }
    }
  }

  /** A space or tab that BeforeNewline accepts sits in a run ending at a newline. */
  lemma {:induction false} BeforeNewlineWitness(s: string)
    requires |s| > 0 && IsHSpace(s[0]) && BeforeNewline(s)
    ensures !NoBlankBeforeNewline(s)
    decreases |s|
  {
    if !(s[1] == '\n') {
      BeforeNewlineWitness(s[1..]);
      var i :| 0 <= i < |s[1..]| - 1 && IsHSpace(s[1..][i]) && s[1..][i + 1] == '\n';
      assert IsHSpace(s[i + 1]) && s[i + 2] == '\n';
    }
  }

  lemma {:induction false} DropIdentity(s: string)
    requires NoBlankBeforeNewline(s)
    ensures DropBlanksBeforeNewline(s) == s
    decreases |s|
  {
    if |s| > 0 {
      if IsHSpace(s[0]) && BeforeNewline(s) {
        BeforeNewlineWitness(s);
      }
      assert NoBlankBeforeNewline(s[1..]) by {
        forall i | 0 <= i < |s[1..]| - 1
          ensures !(IsHSpace(s[1..][i]) && s[1..][i + 1] == '\n')
        {
          assert s[1..][i] == s[i + 1] && s[1..][i + 1] == s[i + 2];
        }
      }
      DropIdentity(s[1..]);
    }
  }

  // -------------------------------------------------------- CollapseNewlines

  lemma {:induction false} CollapseHead(s: string)
    requires |s| > 0
    ensures |CollapseNewlines(s)| > 0 && CollapseNewlines(s)[0] == s[0]
  {
  }

  lemma {:induction false} CollapseNoTriple(s: string)
    ensures NoTripleNewline(CollapseNewlines(s))
    decreases |s|
  {
    if |s| > 0 {
      var r := CollapseNewlines(s);
      if s[0] == '\n' {
        var k := RunOf(s, 0, '\n');
        var piece := if k >= 3 then "\n\n" else s[..k];
        var rest := CollapseNewlines(s[k..]);
        CollapseNoTriple(s[k..]);
        assert k < 3 ==> forall i :: 0 <= i < k ==> piece[i] == s[i];
        if k < |s| {
          CollapseHead(s[k..]);
          assert rest[0] != '\n';
        }
        assert |piece| <= 2;
        forall i | 0 <= i < |r| - 2
          ensures !(r[i] == '\n' && r[i + 1] == '\n' && r[i + 2] == '\n')
        {
          if i >= |piece| {
            assert r[i] == rest[i - |piece|] && r[i + 1] == rest[i + 1 - |piece|]
              && r[i + 2] == rest[i + 2 - |piece|];
          } else if i + 1 == |piece| {
            assert r[i + 1] == rest[0];
          } else {
            assert r[i + 2] == rest[0];
          }
        }
      } else {
        CollapseNoTriple(s[1..]);
        var rest := CollapseNewlines(s[1..]);
        forall i | 0 <= i < |r| - 2
          ensures !(r[i] == '\n' && r[i + 1] == '\n' && r[i + 2] == '\n')
        {
          if i > 0 {
            assert r[i] == rest[i - 1] && r[i + 1] == rest[i] && r[i + 2] == rest[i + 1];
          }
        }
      }
    }
  }

  lemma {:induction false} CollapseNoCR(s: string)
    requires NoCR(s)
    ensures NoCR(CollapseNewlines(s))
    decreases |s|
  {
    if |s| > 0 {
      if s[0] == '\n' {
        var k := RunOf(s, 0, '\n');
        CollapseNoCR(s[k..]);
      } else {
        CollapseNoCR(s[1..]);
      }
    }
  }

  lemma {:induction false} CollapseNoBlank(s: string)
    requires NoBlankBeforeNewline(s)
    ensures NoBlankBeforeNewline(CollapseNewlines(s))
    decreases |s|
  {
    if |s| > 0 {
      var r := CollapseNewlines(s);
      if s[0] == '\n' {
        var k := RunOf(s, 0, '\n');
        var piece := if k >= 3 then "\n\n" else s[..k];
        var rest := CollapseNewlines(s[k..]);
        assert NoBlankBeforeNewline(s[k..]) by {
          forall i | 0 <= i < |s[k..]| - 1
            ensures !(IsHSpace(s[k..][i]) && s[k..][i + 1] == '\n')
          {
            assert s[k..][i] == s[k + i] && s[k..][i + 1] == s[k + i + 1];
          }
        }
        CollapseNoBlank(s[k..]);
        assert forall i :: 0 <= i < |piece| ==> piece[i] == '\n';
        forall i | 0 <= i < |r| - 1
          ensures !(IsHSpace(r[i]) && r[i + 1] == '\n')
        {
          if i >= |piece| {
            assert r[i] == rest[i - |piece|] && r[i + 1] == rest[i + 1 - |piece|];
          } else {
            assert r[i] == '\n';
          }
        }
      } else {
        var rest := CollapseNewlines(s[1..]);
        assert NoBlankBeforeNewline(s[1..]) by {
          forall i | 0 <= i < |s[1..]| - 1
            ensures !(IsHSpace(s[1..][i]) && s[1..][i + 1] == '\n')
          {
            assert s[1..][i] == s[i + 1] && s[1..][i + 1] == s[i + 2];
          }
        }
        CollapseNoBlank(s[1..]);
        if |s| > 1 {
          CollapseHead(s[1..]);
        }
        forall i | 0 <= i < |r| - 1
          ensures !(IsHSpace(r[i]) && r[i + 1] == '\n')
        {
          if i > 0 {
            assert r[i] == rest[i - 1] && r[i + 1] == rest[i];
          } else {
            assert r[1] == s[1];
          }
        }
      }
    }
  }

  lemma {:induction false} NonSpaceCollapse(s: string)
    ensures NonSpace(CollapseNewlines(s)) == NonSpace(s)
    decreases |s|
  {
    if |s| > 0 {
      if s[0] == '\n' {
        var k := RunOf(s, 0, '\n');
        var piece := if k >= 3 then "\n\n" else s[..k];
        NonSpaceCollapse(s[k..]);
        NonSpaceAppend(piece, CollapseNewlines(s[k..]));
        assert s == s[..k] + s[k..];
        NonSpaceAppend(s[..k], s[k..]);
        NonSpaceEmptyIffBlank(piece);
        NonSpaceEmptyIffBlank(s[..k]);
      } else {
        NonSpaceCollapse(s[1..]);
        NonSpaceAppend([s[0]], CollapseNewlines(s[1..]));
        NonSpaceAppend([s[0]], s[1..]);
        assert [s[0]] + s[1..] == s;
      }
    }
  }

  lemma {:induction false} CollapseIdentity(s: string)
    requires NoTripleNewline(s)
    ensures CollapseNewlines(s) == s
    decreases |s|
  {
    if |s| > 0 {
      if s[0] == '\n' {
        var k := RunOf(s, 0, '\n');
        if |s| > 2 {
          assert !(s[0] == '\n' && s[1] == '\n' && s[2] == '\n');
        }
        assert k < 3;
        assert NoTripleNewline(s[k..]) by {
          forall i | 0 <= i < |s[k..]| - 2
            ensures !(s[k..][i] == '\n' && s[k..][i + 1] == '\n' && s[k..][i + 2] == '\n')
          {
            assert s[k..][i] == s[k + i] && s[k..][i + 1] == s[k + i + 1] && s[k..][i + 2] == s[k + i + 2];
          }
        }
        CollapseIdentity(s[k..]);
        assert s[..k] + s[k..] == s;
      } else {
        assert NoTripleNewline(s[1..]) by {
          forall i | 0 <= i < |s[1..]| - 2
            ensures !(s[1..][i] == '\n' && s[1..][i + 1] == '\n' && s[1..][i + 2] == '\n')
          {
            assert s[1..][i] == s[i + 1] && s[1..][i + 1] == s[i + 2] && s[1..][i + 2] == s[i + 3];
          }
        }
        CollapseIdentity(s[1..]);
      }
    }
  }

  // ------------------------------------------------------------ NormalizeText

  lemma TrimKeepsLocalProperties(s: string)
    ensures NoCR(s) ==> NoCR(Trim(s))
    ensures NoBlankBeforeNewline(s) ==> NoBlankBeforeNewline(Trim(s))
    ensures NoTripleNewline(s) ==> NoTripleNewline(Trim(s))
  {
    var a, b := TrimSpan(s);
    var t := Trim(s);
    assert forall i :: 0 <= i < |t| ==> t[i] == s[a + i];
  }

  /** The output of normalizeText has no carriage return, no space or tab before a
      newline, no three consecutive newlines, and no surrounding whitespace; it keeps
      every non-whitespace character of the input in order, and it is empty exactly
      for blank input. */
  lemma NormalizeTextSound(t: string)
    ensures IsNormalized(NormalizeText(t))
    ensures NonSpace(NormalizeText(t)) == NonSpace(t)
    ensures NormalizeText(t) == "" <==> IsBlank(t)
  {
    var a := RemoveCR(t);
    var b := DropBlanksBeforeNewline(a);
    var c := CollapseNewlines(b);
    DropNoCR(a);
    DropNoBlank(a);
    CollapseNoCR(b);
    CollapseNoBlank(b);
    CollapseNoTriple(b);
    TrimKeepsLocalProperties(c);
    NonSpaceRemoveCR(t);
    NonSpaceDrop(a);
    NonSpaceCollapse(b);
    NonSpaceTrim(c);
    NonSpaceEmptyIffBlank(t);
    NonSpaceEmptyIffBlank(NormalizeText(t));
  }

  /** normalizeText leaves normalized text unchanged, so it is idempotent. */
  lemma NormalizeTextIdempotent(t: string)
    ensures NormalizeText(NormalizeText(t)) == NormalizeText(t)
  {
    var n := NormalizeText(t);
    NormalizeTextSound(t);
    RemoveCRIdentity(n);
    DropIdentity(n);
    CollapseIdentity(n);
    TrimOfTrimmed(n);
  }

  // -------------------------------------------------------------- Paragraphs

  /** `cleaned.split(/\n{2,}/).map((p) => p.trim()).filter(Boolean)` */
  function Paragraphs(cleaned: string): (r: seq<string>)
    ensures forall i :: 0 <= i < |r| ==> r[i] != "" && IsTrimmed(r[i])
  {
    TrimNonEmpty(Split(cleaned, BlankLines))
  }

  /** The paragraph split loses only whitespace. */
  lemma NonSpaceParagraphs(cleaned: string)
    ensures NonSpace(Concat(Paragraphs(cleaned))) == NonSpace(cleaned)
  {
    NonSpaceTrimNonEmpty(Split(cleaned, BlankLines));
    NonSpaceSplit(cleaned, BlankLines);
  }

  /** The empty string has no paragraph. */
  lemma EmptyHasNoParagraphs()
    ensures Paragraphs("") == []
  {
    assert Split("", BlankLines) == [""];
  }

  /** Text with a non-whitespace character has at least one paragraph. */
  lemma ParagraphsOfNonBlank(cleaned: string)
    requires !IsBlank(cleaned)
    ensures |Paragraphs(cleaned)| > 0
  {
    NonSpaceParagraphs(cleaned);
    NonSpaceEmptyIffBlank(cleaned);
    assert NonSpace(Concat(Paragraphs(cleaned))) != "";
  }
}
