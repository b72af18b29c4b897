/**
 * Strings as sequences of characters: whitespace, trimming, the whitespace-free
 * projection of a string, joining, substring tests and the regular-expression
 * splits the pipeline performs.
 */
module Text {
  import opened Seqs

  /** Whitespace as String.prototype.trim and the regex class \s see it
      (ECMAScript WhiteSpace and LineTerminator code points). */
  predicate IsSpace(c: char)
  {
    || c == ' ' || c == '\t' || c == '\n' || c == '\r' || c == '\U{000B}' || c == '\U{000C}'
    || c == '\U{00A0}' || c == '\U{1680}' || ('\U{2000}' <= c <= '\U{200A}')
    || c == '\U{2028}' || c == '\U{2029}' || c == '\U{202F}' || c == '\U{205F}'
    || c == '\U{3000}' || c == '\U{FEFF}'
  }

  predicate IsBlank(s: string)
  {
    forall i :: 0 <= i < |s| ==> IsSpace(s[i])
  }

  /** No whitespace at either end. */
  predicate IsTrimmed(s: string)
  {
    |s| == 0 || (!IsSpace(s[0]) && !IsSpace(s[|s| - 1]))
  }

  function LeadingSpaces(s: string): (k: nat)
    ensures k <= |s|
    ensures forall i :: 0 <= i < k ==> IsSpace(s[i])
    ensures k < |s| ==> !IsSpace(s[k])
  {
    if |s| > 0 && IsSpace(s[0]) then 1 + LeadingSpaces(s[1..]) else 0
  }

  function TrailingSpaces(s: string): (k: nat)
    ensures k <= |s|
    ensures forall i :: |s| - k <= i < |s| ==> IsSpace(s[i])
    ensures k < |s| ==> !IsSpace(s[|s| - 1 - k])
  {
    if |s| > 0 && IsSpace(s[|s| - 1]) then 1 + TrailingSpaces(s[..|s| - 1]) else 0
  }

  function TrimStart(s: string): string
  {
    s[LeadingSpaces(s)..]
  }

  /** String.prototype.trim. */
  function Trim(s: string): (r: string)
    ensures IsTrimmed(r)
    ensures |r| <= |s|
    ensures r == "" <==> IsBlank(s)
  {
    var t := TrimStart(s);
    t[..|t| - TrailingSpaces(t)]
  }

  /** Trim cuts a blank prefix and a blank suffix and keeps what lies between. */
  lemma TrimSpan(s: string) returns (a: nat, b: nat)
    ensures a <= b <= |s|
    ensures Trim(s) == s[a..b]
    ensures IsBlank(s[..a]) && IsBlank(s[b..])
  {
    a := LeadingSpaces(s);
    var t := s[a..];
    b := a + |t| - TrailingSpaces(t);
    assert Trim(s) == s[a..b];
  }

  lemma TrimOfTrimmed(s: string)
    requires IsTrimmed(s)
    ensures Trim(s) == s
  {
  }

  /** The non-whitespace characters of a string, in order. */
  function NonSpace(s: string): string
  {
    if |s| == 0 then "" else (if IsSpace(s[0]) then "" else [s[0]]) + NonSpace(s[1..])
  }

  lemma {:induction false} NonSpaceAppend(a: string, b: string)
    ensures NonSpace(a + b) == NonSpace(a) + NonSpace(b)
    decreases |a|
  {
    if |a| == 0 {
      assert a + b == b;
    } else {
      assert (a + b)[0] == a[0];
      assert (a + b)[1..] == a[1..] + b;
      NonSpaceAppend(a[1..], b);
    }
  }

  lemma {:induction false} NonSpaceEmptyIffBlank(s: string)
    ensures NonSpace(s) == "" <==> IsBlank(s)
    decreases |s|
  {
    if |s| > 0 {
      NonSpaceEmptyIffBlank(s[1..]);
      if IsBlank(s[1..]) && IsSpace(s[0]) {
        assert forall i :: 1 <= i < |s| ==> s[i] == s[1..][i - 1];
      }
    }
  }

  lemma NonSpaceTrim(s: string)
    ensures NonSpace(Trim(s)) == NonSpace(s)
  {
    var a, b := TrimSpan(s);
    assert s == s[..a] + s[a..b] + s[b..];
    NonSpaceAppend(s[..a] + s[a..b], s[b..]);
    NonSpaceAppend(s[..a], s[a..b]);
    NonSpaceEmptyIffBlank(s[..a]);
    NonSpaceEmptyIffBlank(s[b..]);
  }

  /** Array.prototype.join. */
  function Join(xs: seq<string>, sep: string): string
  {
    if |xs| == 0 then "" else if |xs| == 1 then xs[0] else xs[0] + sep + Join(xs[1..], sep)
  }

  lemma {:induction false} NonSpaceJoin(xs: seq<string>, sep: string)
    requires IsBlank(sep)
    ensures NonSpace(Join(xs, sep)) == NonSpace(Concat(xs))
    decreases |xs|
  {
    if |xs| == 1 {
      assert xs[1..] == [];
      assert Concat(xs) == xs[0] + Concat(xs[1..]) == xs[0] + [];
      assert xs[0] + [] == xs[0];
    } else if |xs| > 1 {
      NonSpaceJoin(xs[1..], sep);
      NonSpaceAppend(xs[0] + sep, Join(xs[1..], sep));
      NonSpaceAppend(xs[0], sep);
      NonSpaceAppend(xs[0], Concat(xs[1..]));
      NonSpaceEmptyIffBlank(sep);
    }
  }

  /** Joining non-empty strings yields the empty string only for the empty list. */
  lemma {:induction false} JoinEmptyIff(xs: seq<string>, sep: string)
    requires forall i :: 0 <= i < |xs| ==> xs[i] != ""
    ensures Join(xs, sep) == "" <==> |xs| == 0
  {
    if |xs| > 1 {
      assert |Join(xs, sep)| >= |xs[0]|;
    }
  }

  /** String.prototype.includes. */
  predicate Contains(s: string, sub: string)
    decreases |s|
  {
    sub <= s || (|s| > 0 && Contains(s[1..], sub))
  }

  /** The maps `x => x.trim()` followed by `filter(Boolean)`. */
  function TrimNonEmpty(xs: seq<string>): (r: seq<string>)
    ensures |r| <= |xs|
    ensures forall i :: 0 <= i < |r| ==> r[i] != "" && IsTrimmed(r[i])
  {
    if |xs| == 0 then []
    else (if Trim(xs[0]) != "" then [Trim(xs[0])] else []) + TrimNonEmpty(xs[1..])
  }

  lemma {:induction false} NonSpaceTrimNonEmpty(xs: seq<string>)
    ensures NonSpace(Concat(TrimNonEmpty(xs))) == NonSpace(Concat(xs))
    decreases |xs|
  {
    if |xs| > 0 {
      NonSpaceTrimNonEmpty(xs[1..]);
      var head := if Trim(xs[0]) != "" then [Trim(xs[0])] else [];
      ConcatAppend(head, TrimNonEmpty(xs[1..]));
      NonSpaceAppend(Concat(head), Concat(TrimNonEmpty(xs[1..])));
      NonSpaceAppend(xs[0], Concat(xs[1..]));
      NonSpaceTrim(xs[0]);
      if Trim(xs[0]) == "" {
        assert Concat(head) == [];
      } else {
        assert head[1..] == [];
        assert Concat(head) == Trim(xs[0]) + Concat(head[1..]) == Trim(xs[0]) + [];
        assert Trim(xs[0]) + [] == Trim(xs[0]);
      }
    }
  }

  lemma {:induction false} TrimNonEmptyAppend(a: seq<string>, b: seq<string>)
    ensures TrimNonEmpty(a + b) == TrimNonEmpty(a) + TrimNonEmpty(b)
    decreases |a|
  {
    if |a| == 0 {
      assert a + b == b;
    } else {
      assert (a + b)[0] == a[0];
      assert (a + b)[1..] == a[1..] + b;
      TrimNonEmptyAppend(a[1..], b);
    }
  }

  /** Trimming never lengthens a piece. */
  lemma {:induction false} TrimNonEmptyBound(xs: seq<string>, m: nat)
    requires forall i :: 0 <= i < |xs| ==> |xs[i]| <= m
    ensures forall i :: 0 <= i < |TrimNonEmpty(xs)| ==> |TrimNonEmpty(xs)[i]| <= m
    decreases |xs|
  {
    if |xs| > 0 {
      TrimNonEmptyBound(xs[1..], m);
      var head := if Trim(xs[0]) != "" then [Trim(xs[0])] else [];
      var r := TrimNonEmpty(xs);
      assert r == head + TrimNonEmpty(xs[1..]);
      assert forall i :: |head| <= i < |r| ==> r[i] == TrimNonEmpty(xs[1..])[i - |head|];
    }
  }

  /** Number of consecutive copies of `c` starting at index `q`. */
  function RunOf(s: string, q: nat, c: char): (k: nat)
    requires q <= |s|
    ensures q + k <= |s|
    ensures forall i :: q <= i < q + k ==> s[i] == c
    ensures q + k < |s| ==> s[q + k] != c
    ensures q < |s| && s[q] == c ==> k >= 1
    decreases |s| - q
  {
    if q < |s| && s[q] == c then 1 + RunOf(s, q + 1, c) else 0
  }

  /** Number of consecutive whitespace characters starting at index `q`. */
  function SpaceRun(s: string, q: nat): (k: nat)
    requires q <= |s|
    ensures q + k <= |s|
    ensures forall i :: q <= i < q + k ==> IsSpace(s[i])
    decreases |s| - q
  {
    if q < |s| && IsSpace(s[q]) then 1 + SpaceRun(s, q + 1) else 0
  }

  /** A whitespace run is maximal, and not empty at a whitespace character. */
  lemma {:induction false} SpaceRunMaximal(s: string, q: nat)
    requires q <= |s|
    ensures q + SpaceRun(s, q) < |s| ==> !IsSpace(s[q + SpaceRun(s, q)])
    ensures q < |s| && IsSpace(s[q]) ==> SpaceRun(s, q) >= 1
    decreases |s| - q
  {
    if q < |s| && IsSpace(s[q]) {
      SpaceRunMaximal(s, q + 1);
    }
  }

  /** Sentence-ending marks of the speech chunker's look-behind: . ! ؟ ؛ … */
  predicate IsSentenceEnd(c: char)
  {
    c == '.' || c == '!' || c == '؟' || c == '؛' || c == '…'
  }

  /** The separators the pipeline splits on:
      LineBreaks   = /\r?\n+/
      BlankLines   = /\n{2,}/
      SentenceGaps = /(?<=[.!؟؛…])\s+/
      Char(c)      = the one-character string c */
  datatype Sep = LineBreaks | BlankLines | SentenceGaps | Char(c: char)

  /** Length of the separator match starting exactly at index q (0 when none). */
  function MatchLen(s: string, sep: Sep, q: nat): (m: nat)
    requires q < |s|
    ensures q + m <= |s|
  {
    match sep
    case LineBreaks =>
      if s[q] == '\n' then RunOf(s, q, '\n')
      else if s[q] == '\r' && q + 1 < |s| && s[q + 1] == '\n' then 1 + RunOf(s, q + 1, '\n')
      else 0
    case BlankLines =>
      var k := RunOf(s, q, '\n');
      if k >= 2 then k else 0
    case SentenceGaps =>
      if q > 0 && IsSentenceEnd(s[q - 1]) then SpaceRun(s, q) else 0
    case Char(c) =>
      if s[q] == c then 1 else 0
  }

  /** A separator made of whitespace only. */
  predicate BlankSep(sep: Sep)
  {
    !sep.Char? || IsSpace(sep.c)
  }

  lemma MatchIsBlank(s: string, sep: Sep, q: nat)
    requires q < |s| && BlankSep(sep)
    ensures IsBlank(s[q..q + MatchLen(s, sep, q)])
  {
  }

  /** The String.prototype.split loop: `p` is the start of the current piece and
      `q` the position where a separator match is tried next. */
  function SplitFrom(s: string, sep: Sep, p: nat, q: nat): (r: seq<string>)
    requires p <= q <= |s|
    ensures |r| >= 1
    decreases |s| - q
  {
    if q == |s| then [s[p..]]
    else
      var m := MatchLen(s, sep, q);
      if m == 0 then SplitFrom(s, sep, p, q + 1)
      else [s[p..q]] + SplitFrom(s, sep, q + m, q + m)
  }

  /** String.prototype.split with one of the separators above. */
  function Split(s: string, sep: Sep): (r: seq<string>)
    ensures |r| >= 1
  {
    SplitFrom(s, sep, 0, 0)
  }

  /** One split step: a piece, a blank separator, then the pieces of the rest. */
  lemma NonSpaceGlue(a: string, b: string, c: string, rest: seq<string>)
    requires NonSpace(b) == "" && NonSpace(Concat(rest)) == NonSpace(c)
    ensures NonSpace(Concat([a] + rest)) == NonSpace(a + b + c)
  {
    assert ([a] + rest)[1..] == rest;
    NonSpaceAppend(a + b, c);
    NonSpaceAppend(a, b);
    NonSpaceAppend(a, Concat(rest));
    assert NonSpace(a) + NonSpace(b) == NonSpace(a);
  }

  /** A split step at a separator match loses only the separator's whitespace. */
  lemma NonSpaceSplitStep(s: string, sep: Sep, p: nat, q: nat)
    requires p <= q < |s| && BlankSep(sep) && MatchLen(s, sep, q) > 0
    requires NonSpace(Concat(SplitFrom(s, sep, q + MatchLen(s, sep, q), q + MatchLen(s, sep, q))))
      == NonSpace(s[q + MatchLen(s, sep, q)..])
    ensures NonSpace(Concat(SplitFrom(s, sep, p, q))) == NonSpace(s[p..])
  {
    var m := MatchLen(s, sep, q);
    var rest := SplitFrom(s, sep, q + m, q + m);
    assert SplitFrom(s, sep, p, q) == [s[p..q]] + rest;
    MatchIsBlank(s, sep, q);
    NonSpaceEmptyIffBlank(s[q..q + m]);
    NonSpaceSliceStep(s, p, q, q + m, rest);
  }

  /** A piece `s[p..q]` followed by pieces standing for `s[e..]`, with blank text
      between them, keeps the non-space characters of `s[p..]`. */
  lemma NonSpaceSliceStep(s: string, p: nat, q: nat, e: nat, rest: seq<string>)
    requires p <= q <= e <= |s| && NonSpace(s[q..e]) == ""
    requires NonSpace(Concat(rest)) == NonSpace(s[e..])
    ensures NonSpace(Concat([s[p..q]] + rest)) == NonSpace(s[p..])
  {
    assert s[p..] == s[p..q] + s[q..e] + s[e..];
    NonSpaceGlue(s[p..q], s[q..e], s[e..], rest);
  }

  lemma {:induction false} NonSpaceSplitFrom(s: string, sep: Sep, p: nat, q: nat)
    requires p <= q <= |s| && BlankSep(sep)
    ensures NonSpace(Concat(SplitFrom(s, sep, p, q))) == NonSpace(s[p..])
    decreases |s| - q
  {
    var r := SplitFrom(s, sep, p, q);
    if q == |s| {
      assert r == [s[p..]];
      assert Concat(r) == s[p..] + Concat([]);
      assert s[p..] + [] == s[p..];
    } else if MatchLen(s, sep, q) == 0 {
      assert r == SplitFrom(s, sep, p, q + 1);
      NonSpaceSplitFrom(s, sep, p, q + 1);
    } else {
      var m := MatchLen(s, sep, q);
      NonSpaceSplitFrom(s, sep, q + m, q + m);
      NonSpaceSplitStep(s, sep, p, q);
    }
  }

  /** Splitting on whitespace separators loses only whitespace. */
  lemma NonSpaceSplit(s: string, sep: Sep)
    requires BlankSep(sep)
    ensures NonSpace(Concat(Split(s, sep))) == NonSpace(s)
  {
    NonSpaceSplitFrom(s, sep, 0, 0);
  }

  lemma {:induction false} SplitFromNoMatch(s: string, c: char, p: nat, q: nat, e: nat)
    requires p <= q <= e <= |s|
    requires forall i :: q <= i < e ==> s[i] != c
    ensures SplitFrom(s, Char(c), p, q) == SplitFrom(s, Char(c), p, e)
    decreases e - q
  {
    if q < e {
      SplitFromNoMatch(s, c, p, q + 1, e);
    }
  }

  /** Splitting on a character undoes joining with it, when no piece holds it. */
  lemma {:induction false} SplitJoinChar(pre: string, xs: seq<string>, c: char)
    requires |xs| >= 1
    requires forall i :: 0 <= i < |xs| ==> c !in xs[i]
    ensures SplitFrom(pre + Join(xs, [c]), Char(c), |pre|, |pre|) == xs
    decreases |xs|
  {
    var s := pre + Join(xs, [c]);
    var p := |pre|;
    if |xs| == 1 {
      assert s[p..] == xs[0];
      SplitFromNoMatch(s, c, p, p, |s|);
    } else {
      var x := xs[0];
      var pre' := pre + x + [c];
      assert s == pre' + Join(xs[1..], [c]);
      assert forall i :: p <= i < p + |x| ==> s[i] == x[i - p];
      SplitFromNoMatch(s, c, p, p, p + |x|);
      assert s[p + |x|] == c;
      assert MatchLen(s, Char(c), p + |x|) == 1;
      assert s[p..p + |x|] == x;
      SplitJoinChar(pre', xs[1..], c);
    }
  }

  lemma SplitJoin(xs: seq<string>, c: char)
    requires |xs| >= 1
    requires forall i :: 0 <= i < |xs| ==> c !in xs[i]
    ensures Split(Join(xs, [c]), Char(c)) == xs
  {
    SplitJoinChar("", xs, c);
    assert "" + Join(xs, [c]) == Join(xs, [c]);
  }

  /** Joining the pieces of a split with the separator character gives back the
      split text. */
  lemma {:induction false} JoinSplitFrom(s: string, c: char, p: nat, q: nat)
    requires p <= q <= |s|
    ensures Join(SplitFrom(s, Char(c), p, q), [c]) == s[p..]
    decreases |s| - q
  {
    if q < |s| {
      if MatchLen(s, Char(c), q) == 0 {
        JoinSplitFrom(s, c, p, q + 1);
      } else {
        var rest := SplitFrom(s, Char(c), q + 1, q + 1);
        JoinSplitFrom(s, c, q + 1, q + 1);
        assert SplitFrom(s, Char(c), p, q) == [s[p..q]] + rest;
        assert ([s[p..q]] + rest)[1..] == rest;
        assert s[p..] == s[p..q] + [c] + s[q + 1..];
      }
    }
  }

  /** No piece of a split on a character holds that character. */
  lemma {:induction false} SplitFromNoSep(s: string, c: char, p: nat, q: nat)
    requires p <= q <= |s|
    requires forall i :: p <= i < q ==> s[i] != c
    ensures forall k :: 0 <= k < |SplitFrom(s, Char(c), p, q)| ==> c !in SplitFrom(s, Char(c), p, q)[k]
    decreases |s| - q
  {
    var r := SplitFrom(s, Char(c), p, q);
    if q == |s| {
      assert r == [s[p..]];
    } else if MatchLen(s, Char(c), q) == 0 {
      SplitFromNoSep(s, c, p, q + 1);
    } else {
      var rest := SplitFrom(s, Char(c), q + 1, q + 1);
      SplitFromNoSep(s, c, q + 1, q + 1);
      assert r == [s[p..q]] + rest;
      assert forall k :: 1 <= k < |r| ==> r[k] == rest[k - 1];
    }
  }

  /** Splitting on a character and joining the pieces with it is the identity, and
      the pieces do not hold the character. */
  lemma SplitSound(s: string, c: char)
    ensures Join(Split(s, Char(c)), [c]) == s
    ensures forall k :: 0 <= k < |Split(s, Char(c))| ==> c !in Split(s, Char(c))[k]
  {
    JoinSplitFrom(s, c, 0, 0);
    SplitFromNoSep(s, c, 0, 0);
  }

  /** Joining the first `k` pieces gives a prefix of joining all of them. */
  lemma {:induction false} JoinTakePrefix(xs: seq<string>, sep: string, k: nat)
    requires 1 <= k <= |xs|
    ensures Join(xs[..k], sep) <= Join(xs, sep)
    decreases k
  {
    if k == 1 {
      assert xs[..1] == [xs[0]];
    } else {
      JoinTakePrefix(xs[1..], sep, k - 1);
      assert xs[..k][1..] == xs[1..][..k - 1];
    }
  }

  lemma {:induction false} LeadingSpacesOfBlankPrefix(a: string, t: string)
    requires IsBlank(a) && |t| > 0 && !IsSpace(t[0])
    ensures LeadingSpaces(a + t) == |a|
    decreases |a|
  {
    if |a| > 0 {
      assert (a + t)[1..] == a[1..] + t;
      LeadingSpacesOfBlankPrefix(a[1..], t);
    } else {
      assert a + t == t;
    }
  }

  lemma {:induction false} TrailingSpacesOfBlankSuffix(t: string, b: string)
    requires IsBlank(b) && |t| > 0 && !IsSpace(t[|t| - 1])
    ensures TrailingSpaces(t + b) == |b|
    decreases |b|
  {
    if |b| > 0 {
      assert (t + b)[..|t + b| - 1] == t + b[..|b| - 1];
      TrailingSpacesOfBlankSuffix(t, b[..|b| - 1]);
    } else {
      assert t + b == t;
    }
  }

  /** Trimming removes exactly the whitespace around a trimmed, non-empty core. */
  lemma TrimAround(a: string, m: string, b: string)
    requires IsBlank(a) && IsBlank(b) && m != "" && IsTrimmed(m)
    ensures Trim(a + m + b) == m
  {
    LeadingSpacesOfBlankPrefix(a, m + b);
    assert (a + m + b)[|a|..] == m + b;
    TrailingSpacesOfBlankSuffix(m, b);
    assert (m + b)[..|m|] == m;
  }
}
