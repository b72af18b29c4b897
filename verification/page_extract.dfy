/**
 * Page text from the OCR layout tree: text anchors resolved against the shard's
 * full text, and the fixed order in which the page's layout levels are tried.
 */
module PageExtract {
  import opened Wrappers
  import opened Seqs
  import opened Text

  /** An offset as `Number(...)` yields it: an integer, or NaN. */
  datatype Offset = At(n: int) | NaN

  /** One text segment `[start, end)` of the full text. */
  datatype Segment = Segment(start: Offset, end: Offset)

  /** A text anchor: inline content when it is a string, and the segment list when
      it is an array (None when it is not). */
  datatype Anchor = Anchor(content: Option<string>, segments: Option<seq<Segment>>)

  /** A layout node: the anchor under `layout.textAnchor` and the one directly
      under `textAnchor`. */
  datatype Node = Node(layoutAnchor: Option<Anchor>, directAnchor: Option<Anchor>)

  /** A page: its own node and its layout levels, each None when not an array. */
  datatype Page = Page(
    self: Node,
    paragraphs: Option<seq<Node>>,
    lines: Option<seq<Node>>,
    blocks: Option<seq<Node>>,
    tokens: Option<seq<Node>>)

  /** An index clamped into `[0, len]`, as String.prototype.substring does. */
  function Clamp(x: int, len: nat): (r: nat)
    ensures r <= len
    ensures 0 <= x <= len ==> r == x
  {
    if x < 0 then 0 else if x > len then len else x
  }

  /** String.prototype.substring: both indices clamped, then swapped if needed. */
  function Substring(s: string, start: int, end: int): (r: string)
    ensures 0 <= start <= end <= |s| ==> r == s[start..end]
    ensures |r| <= |s|
  {
    var a := Clamp(start, |s|);
    var b := Clamp(end, |s|);
    if a <= b then s[a..b] else s[b..a]
  }

  /** Substring does not care about the order of its indices. */
  lemma SubstringSymmetric(s: string, start: int, end: int)
    ensures Substring(s, start, end) == Substring(s, end, start)
  {
  }

  /** A segment is used when both offsets are numbers and it is not empty. */
  predicate IsUsable(seg: Segment)
  {
    seg.start.At? && seg.end.At? && seg.end.n > seg.start.n
  }

  /** The text of a usable segment. */
  function SegmentText(fullText: string, seg: Segment): string
    requires IsUsable(seg)
  {
    Substring(fullText, seg.start.n, seg.end.n)
  }

  /** The segment loop: `out += fullText.substring(start, end)` for each usable
      segment, in order. */
  function SliceSegments(segs: seq<Segment>, fullText: string): (r: string)
    decreases |segs|
  {
    if |segs| == 0 then ""
    else
      var last := segs[|segs| - 1];
      SliceSegments(segs[..|segs| - 1], fullText) + (if IsUsable(last) then SegmentText(fullText, last) else "")
  }

  /** sliceFromAnyAnchor: no anchor gives "", inline content wins, then the segments;
      an anchor with neither gives "". */
  function SliceFromAnyAnchor(anchor: Option<Anchor>, fullText: string): (r: string)
    ensures anchor.None? ==> r == ""
    ensures anchor.Some? && anchor.value.content.Some? ==> r == anchor.value.content.value
  {
    if anchor.None? then ""
    else if anchor.value.content.Some? then anchor.value.content.value
    else if anchor.value.segments.Some? then SliceSegments(anchor.value.segments.value, fullText)
    else ""
  }

  /** Slicing distributes over the segment list. */
  lemma {:induction false} SliceSegmentsAppend(a: seq<Segment>, b: seq<Segment>, fullText: string)
    ensures SliceSegments(a + b, fullText) == SliceSegments(a, fullText) + SliceSegments(b, fullText)
    decreases |b|
  {
    if |b| == 0 {
      assert a + b == a;
    } else {
      var last := b[|b| - 1];
      assert (a + b)[..|a + b| - 1] == a + b[..|b| - 1];
      SliceSegmentsAppend(a, b[..|b| - 1], fullText);
    }
  }

  /** The anchor's text is the texts of its usable segments, in order; unusable
      segments contribute nothing. */
  lemma {:induction false} SliceSegmentsReference(segs: seq<Segment>, fullText: string)
    ensures SliceSegments(segs, fullText)
      == Concat(MapSeq(Filter(segs, IsUsable), (s: Segment) => if IsUsable(s) then SegmentText(fullText, s) else ""))
    decreases |segs|
  {
    var f := (s: Segment) => if IsUsable(s) then SegmentText(fullText, s) else "";
    if |segs| > 0 {
      var head := segs[0];
      var tail := segs[1..];
      assert segs == [head] + tail;
      SliceSegmentsAppend([head], tail, fullText);
      assert [head][..0] == [];
      assert SliceSegments([head], fullText) == f(head);
      SliceSegmentsReference(tail, fullText);
      var kept := Filter(tail, IsUsable);
      if IsUsable(head) {
        assert Filter(segs, IsUsable) == [head] + kept;
        ConcatMapCons(head, kept, f);
      } else {
        assert Filter(segs, IsUsable) == kept;
        assert f(head) == "";
        assert "" + SliceSegments(tail, fullText) == SliceSegments(tail, fullText);
      }
    }
  }

  lemma ConcatMapCons<T>(head: T, rest: seq<T>, f: T -> string)
    ensures Concat(MapSeq([head] + rest, f)) == f(head) + Concat(MapSeq(rest, f))
  {
    var m := MapSeq([head] + rest, f);
    assert m[1..] == MapSeq(rest, f);
  }

  /** pickLayoutAnchor: `layout.textAnchor` first, then `textAnchor`. */
  function PickLayoutAnchor(node: Node): (r: Option<Anchor>)
    ensures node.layoutAnchor.Some? ==> r == node.layoutAnchor
    ensures node.layoutAnchor.None? ==> r == node.directAnchor
  {
    if node.layoutAnchor.Some? then node.layoutAnchor else node.directAnchor
  }

  /** concatIf: a non-blank addition is trimmed and appended on a new line (no line
      break in front of an empty text); a blank one changes nothing. */
  function ConcatIf(str: string, add: string): (r: string)
    ensures IsBlank(add) ==> r == str
    ensures !IsBlank(add) && str == "" ==> r == Trim(add)
    ensures !IsBlank(add) && str != "" ==> r == str + "\n" + Trim(add)
  {
    if add != "" && Trim(add) != "" then (if str != "" then str + "\n" else "") + Trim(add) else str
  }

  /** The loop `for (x of xs) pageText = concatIf(pageText, x)`. */
  function ConcatAll(acc: string, xs: seq<string>): string
    decreases |xs|
  {
    if |xs| == 0 then acc else ConcatAll(ConcatIf(acc, xs[0]), xs[1..])
  }

  /** `a` and `j` on two lines, either one left out when empty. */
  function Glue(a: string, j: string): string
  {
    if j == "" then a else if a == "" then j else a + "\n" + j
  }

  lemma {:induction false} JoinTrimmed(xs: seq<string>, sep: string)
    requires forall i :: 0 <= i < |xs| ==> xs[i] != "" && IsTrimmed(xs[i])
    ensures IsTrimmed(Join(xs, sep))
    ensures |xs| > 0 ==> Join(xs, sep) != ""
    decreases |xs|
  {
    if |xs| > 1 {
      JoinTrimmed(xs[1..], sep);
      var j := Join(xs[1..], sep);
      var r := xs[0] + sep + j;
      assert r[0] == xs[0][0];
      assert r[|r| - 1] == j[|j| - 1];
    }
  }

  /** Gluing a non-empty line and then more text is gluing the two together. */
  lemma GlueCons(acc: string, t: string, j: string)
    requires t != ""
    ensures Glue(Glue(acc, t), j) == Glue(acc, if j == "" then t else t + "\n" + j)
  {
    if j != "" && acc != "" {
      assert (acc + "\n" + t) + "\n" + j == acc + "\n" + (t + "\n" + j);
    }
  }

  /** The concatIf loop puts the trimmed non-blank additions on lines of their own
      after the starting text. */
  lemma {:induction false} ConcatAllGlue(acc: string, xs: seq<string>)
    ensures ConcatAll(acc, xs) == Glue(acc, Join(TrimNonEmpty(xs), "\n"))
    decreases |xs|
  {
    if |xs| > 0 {
      var x := xs[0];
      var rest := TrimNonEmpty(xs[1..]);
      var jr := Join(rest, "\n");
      ConcatAllGlue(ConcatIf(acc, x), xs[1..]);
      if Trim(x) != "" {
        var t := Trim(x);
        assert ConcatIf(acc, x) == Glue(acc, t);
        assert TrimNonEmpty(xs) == [t] + rest;
        JoinEmptyIff(rest, "\n");
        assert ([t] + rest)[1..] == rest;
        assert Join([t] + rest, "\n") == if jr == "" then t else t + "\n" + jr;
        GlueCons(acc, t, jr);
      } else {
        assert TrimNonEmpty(xs) == rest;
      }
    }
  }

  /** From a blank starting text, the trimmed result of the concatIf loop is the
      trimmed non-blank additions joined by line feeds. */
  lemma ConcatAllFromBlank(acc: string, xs: seq<string>)
    requires IsBlank(acc)
    ensures Trim(ConcatAll(acc, xs)) == Join(TrimNonEmpty(xs), "\n")
    ensures IsTrimmed(Join(TrimNonEmpty(xs), "\n"))
  {
    var j := Join(TrimNonEmpty(xs), "\n");
    ConcatAllGlue(acc, xs);
    JoinTrimmed(TrimNonEmpty(xs), "\n");
    if j != "" {
      if acc != "" {
        assert IsBlank(acc + "\n");
        TrimAround(acc + "\n", j, "");
        assert acc + "\n" + j + "" == acc + "\n" + j;
      } else {
        TrimOfTrimmed(j);
      }
    }
  }

  /** The anchor texts of some nodes. */
  function NodeTexts(nodes: seq<Node>, fullText: string): (r: seq<string>)
    ensures |r| == |nodes|
  {
    MapSeq(nodes, (n: Node) => SliceFromAnyAnchor(PickLayoutAnchor(n), fullText))
  }

  /** The inline content under `layout.textAnchor.content` of some nodes, "" when
      there is none. */
  function NodeContents(nodes: seq<Node>): (r: seq<string>)
    ensures |r| == |nodes|
  {
    MapSeq(nodes, (n: Node) =>
      if n.layoutAnchor.Some? && n.layoutAnchor.value.content.Some? then n.layoutAnchor.value.content.value else "")
  }

  /** One level of paragraphs, lines or blocks, tried while the text is blank. */
  function LevelStep(pageText: string, level: Option<seq<Node>>, fullText: string): string
  {
    if Trim(pageText) == "" && level.Some? then ConcatAll(pageText, NodeTexts(level.value, fullText))
    else pageText
  }

  /** The non-empty token texts. */
  function TokenParts(tokens: seq<Node>, fullText: string): seq<string>
  {
    Filter(NodeTexts(tokens, fullText), (s: string) => s != "")
  }

  /** The token level, tried while the text is blank: the non-empty token texts
      joined with nothing in between, when there are any. */
  function TokenStep(pageText: string, tokens: Option<seq<Node>>, fullText: string): string
  {
    if Trim(pageText) == "" && tokens.Some? then
      var parts := TokenParts(tokens.value, fullText);
      if |parts| > 0 then Concat(parts) else pageText
    else pageText
  }

  /** The final fallback: inline contents of the first level that is an array. */
  function FallbackContents(page: Page): seq<string>
  {
    if page.paragraphs.Some? then NodeContents(page.paragraphs.value)
    else if page.lines.Some? then NodeContents(page.lines.value)
    else if page.blocks.Some? then NodeContents(page.blocks.value)
    else []
  }

  /** The fallback level, tried while the text is blank. */
  function FallbackStep(pageText: string, page: Page): string
  {
    if Trim(pageText) == "" then ConcatAll(pageText, FallbackContents(page)) else pageText
  }

  /** extractOnePageText: the page's own anchor, then paragraphs, lines and blocks
      (concatIf over their anchors), then tokens joined with nothing in between,
      then the inline contents of the first level present; the result is trimmed. */
  function ExtractOnePageText(page: Page, fullText: string): (r: string)
    ensures IsTrimmed(r)
  {
    var t0 := SliceFromAnyAnchor(PickLayoutAnchor(page.self), fullText);
    var t1 := LevelStep(t0, page.paragraphs, fullText);
    var t2 := LevelStep(t1, page.lines, fullText);
    var t3 := LevelStep(t2, page.blocks, fullText);
    var t4 := TokenStep(t3, page.tokens, fullText);
    var t5 := FallbackStep(t4, page);
    Trim(t5)
  }

  // ------------------------------------------------- reference definition

  /** What a paragraphs, lines or blocks level gives on its own. */
  function LevelCandidate(level: Option<seq<Node>>, fullText: string): string
  {
    if level.Some? then Join(TrimNonEmpty(NodeTexts(level.value, fullText)), "\n") else ""
  }

  /** The text each source would give on its own, in the order they are tried. */
  function Candidates(page: Page, fullText: string): (r: seq<string>)
    ensures |r| == 6
  {
    [ SliceFromAnyAnchor(PickLayoutAnchor(page.self), fullText),
      LevelCandidate(page.paragraphs, fullText),
      LevelCandidate(page.lines, fullText),
      LevelCandidate(page.blocks, fullText),
      if page.tokens.Some? then Concat(TokenParts(page.tokens.value, fullText)) else "",
      Join(TrimNonEmpty(FallbackContents(page)), "\n") ]
  }

  /** The first text that is not blank, or "" when all are. */
  function FirstNonBlank(cs: seq<string>): (r: string)
    ensures r == "" || exists i :: 0 <= i < |cs| && cs[i] == r && !IsBlank(r)
  {
    if |cs| == 0 then ""
    else if Trim(cs[0]) != "" then cs[0]
    else FirstNonBlank(cs[1..])
  }

  /** A step of the chain: a non-blank text is kept, and a blank one is replaced by
      something that trims to what the level gives on its own. */
  predicate IsStep(prev: string, next: string, candidate: string)
  {
    (Trim(prev) != "" ==> next == prev) && (Trim(prev) == "" ==> Trim(next) == Trim(candidate))
  }

  /** A paragraphs, lines or blocks level is a step of the chain. */
  lemma LevelStepSound(pageText: string, level: Option<seq<Node>>, fullText: string)
    ensures IsStep(pageText, LevelStep(pageText, level, fullText), LevelCandidate(level, fullText))
  {
    if Trim(pageText) == "" && level.Some? {
      var xs := NodeTexts(level.value, fullText);
      ConcatAllFromBlank(pageText, xs);
      TrimOfTrimmed(Join(TrimNonEmpty(xs), "\n"));
    }
  }

  /** The token level is a step of the chain. */
  lemma TokenStepSound(pageText: string, tokens: Option<seq<Node>>, fullText: string)
    ensures IsStep(pageText, TokenStep(pageText, tokens, fullText),
                   if tokens.Some? then Concat(TokenParts(tokens.value, fullText)) else "")
  {
  }

  /** The fallback level is a step of the chain. */
  lemma FallbackStepSound(pageText: string, page: Page)
    ensures IsStep(pageText, FallbackStep(pageText, page), Join(TrimNonEmpty(FallbackContents(page)), "\n"))
  {
    if Trim(pageText) == "" {
      ConcatAllFromBlank(pageText, FallbackContents(page));
      TrimOfTrimmed(Join(TrimNonEmpty(FallbackContents(page)), "\n"));
    }
  }

  /** A chain of five steps over six candidates ends, once trimmed, at the first
      non-blank candidate. */
  lemma ChainPicksFirst(c0: string, c1: string, c2: string, c3: string, c4: string, c5: string,
                        t1: string, t2: string, t3: string, t4: string, t5: string)
    requires IsStep(c0, t1, c1) && IsStep(t1, t2, c2) && IsStep(t2, t3, c3)
    requires IsStep(t3, t4, c4) && IsStep(t4, t5, c5)
    ensures Trim(t5) == Trim(FirstNonBlank([c0, c1, c2, c3, c4, c5]))
  {
    FirstNonBlankSix([c0, c1, c2, c3, c4, c5]);
    if Trim(c0) != "" {
      assert t5 == c0;
    } else if Trim(c1) != "" {
      assert t5 == t1;
    } else if Trim(c2) != "" {
      assert t5 == t2;
    } else if Trim(c3) != "" {
      assert t5 == t3;
    } else if Trim(c4) != "" {
      assert t5 == t4;
    }
  }

  /** The extracted text is the trimmed first non-blank candidate: each level is
      consulted only when everything before it was blank. */
  lemma ExtractOnePageTextReference(page: Page, fullText: string)
    ensures ExtractOnePageText(page, fullText) == Trim(FirstNonBlank(Candidates(page, fullText)))
  {
    var t0 := SliceFromAnyAnchor(PickLayoutAnchor(page.self), fullText);
    var t1 := LevelStep(t0, page.paragraphs, fullText);
    var t2 := LevelStep(t1, page.lines, fullText);
    var t3 := LevelStep(t2, page.blocks, fullText);
    var t4 := TokenStep(t3, page.tokens, fullText);
    var t5 := FallbackStep(t4, page);
    var c4 := if page.tokens.Some? then Concat(TokenParts(page.tokens.value, fullText)) else "";
    var c5 := Join(TrimNonEmpty(FallbackContents(page)), "\n");
    LevelStepSound(t0, page.paragraphs, fullText);
    LevelStepSound(t1, page.lines, fullText);
    LevelStepSound(t2, page.blocks, fullText);
    TokenStepSound(t3, page.tokens, fullText);
    FallbackStepSound(t4, page);
    ChainPicksFirst(t0, LevelCandidate(page.paragraphs, fullText), LevelCandidate(page.lines, fullText),
                    LevelCandidate(page.blocks, fullText), c4, c5, t1, t2, t3, t4, t5);
  }

  /** FirstNonBlank on six texts, unfolded. */
  lemma FirstNonBlankSix(c: seq<string>)
    requires |c| == 6
    ensures FirstNonBlank(c)
      == if Trim(c[0]) != "" then c[0] else if Trim(c[1]) != "" then c[1]
         else if Trim(c[2]) != "" then c[2] else if Trim(c[3]) != "" then c[3]
         else if Trim(c[4]) != "" then c[4] else if Trim(c[5]) != "" then c[5] else ""
  {
    var c1 := c[1..];
    var c2 := c1[1..];
    var c3 := c2[1..];
    var c4 := c3[1..];
    var c5 := c4[1..];
    assert c5 == [c[5]] && c5[1..] == [];
    assert FirstNonBlank(c5) == if Trim(c[5]) != "" then c[5] else "";
    assert c4[0] == c[4] && FirstNonBlank(c4) == if Trim(c[4]) != "" then c[4] else FirstNonBlank(c5);
    assert c3[0] == c[3] && FirstNonBlank(c3) == if Trim(c[3]) != "" then c[3] else FirstNonBlank(c4);
    assert c2[0] == c[2] && FirstNonBlank(c2) == if Trim(c[2]) != "" then c[2] else FirstNonBlank(c3);
    assert c1[0] == c[1] && FirstNonBlank(c1) == if Trim(c[1]) != "" then c[1] else FirstNonBlank(c2);
  }
}
