/** Generic sequence vocabulary: flattening, subsequences, filtering and suffixes. */
module Seqs {

  /** Flattens a sequence of sequences in order (Array.prototype.flat on one level). */
  function Concat<T>(xss: seq<seq<T>>): seq<T>
  {
    if |xss| == 0 then [] else xss[0] + Concat(xss[1..])
  }

  lemma {:induction false} ConcatAppend<T>(a: seq<seq<T>>, b: seq<seq<T>>)
    ensures Concat(a + b) == Concat(a) + Concat(b)
  {
    if |a| == 0 {
      assert a + b == b;
    } else {
      assert (a + b)[1..] == a[1..] + b;
      ConcatAppend(a[1..], b);
    }
  }

  /** An element of a flattened sequence comes from one of its parts. */
  lemma {:induction false} ConcatMember<T>(xss: seq<seq<T>>, x: T)
    requires x in Concat(xss)
    ensures exists i :: 0 <= i < |xss| && x in xss[i]
  {
    if x !in xss[0] {
      ConcatMember(xss[1..], x);
      var i :| 0 <= i < |xss[1..]| && x in xss[1..][i];
      assert x in xss[i + 1];
    }
  }

  /** `a` can be obtained from `b` by deleting elements, keeping the order of the rest. */
  predicate IsSubseq<T(==)>(a: seq<T>, b: seq<T>)
    decreases |b|
  {
    if |a| == 0 then true
    else if |b| == 0 then false
    else (a[0] == b[0] && IsSubseq(a[1..], b[1..])) || IsSubseq(a, b[1..])
  }

  lemma {:induction false} SubseqRefl<T>(a: seq<T>)
    ensures IsSubseq(a, a)
    decreases |a|
  {
    if |a| > 0 {
      SubseqRefl(a[1..]);
    }
  }

  lemma {:induction false} SubseqOfTail<T>(a: seq<T>, b: seq<T>)
    requires |b| > 0 && IsSubseq(a, b[1..])
    ensures IsSubseq(a, b)
  {
  }

  lemma {:induction false} SubseqDropHead<T>(a: seq<T>, b: seq<T>)
    requires |a| > 0 && IsSubseq(a, b)
    ensures IsSubseq(a[1..], b)
    decreases |b|
  {
    assert |b| > 0;
    if a[0] == b[0] && IsSubseq(a[1..], b[1..]) {
      SubseqOfTail(a[1..], b);
    } else {
      SubseqDropHead(a, b[1..]);
      SubseqOfTail(a[1..], b);
    }
  }

  lemma {:induction false} SubseqTrans<T>(a: seq<T>, b: seq<T>, c: seq<T>)
    requires IsSubseq(a, b) && IsSubseq(b, c)
    ensures IsSubseq(a, c)
    decreases |c|, |b|
  {
    if |a| == 0 {
    } else {
      assert |b| > 0 && |c| > 0;
      if b[0] == c[0] && IsSubseq(b[1..], c[1..]) {
        if a[0] == b[0] && IsSubseq(a[1..], b[1..]) {
          SubseqTrans(a[1..], b[1..], c[1..]);
        } else {
          SubseqTrans(a, b[1..], c[1..]);
          SubseqOfTail(a, c);
        }
      } else {
        SubseqTrans(a, b, c[1..]);
        SubseqOfTail(a, c);
      }
    }
  }

  /** Every prefix of a sequence is a subsequence of it. */
  lemma {:induction false} PrefixIsSubseq<T>(b: seq<T>, k: nat)
    requires k <= |b|
    ensures IsSubseq(b[..k], b)
    decreases |b|
  {
    if k > 0 {
      assert b[..k][0] == b[0];
      assert b[..k][1..] == b[1..][..k - 1];
      PrefixIsSubseq(b[1..], k - 1);
    }
  }

  /** Every suffix of a sequence is a subsequence of it. */
  lemma {:induction false} SuffixIsSubseq<T>(b: seq<T>, k: nat)
    requires k <= |b|
    ensures IsSubseq(b[k..], b)
    decreases k
  {
    if k == 0 {
      assert b[0..] == b;
      SubseqRefl(b);
    } else {
      SuffixIsSubseq(b[1..], k - 1);
      assert b[1..][k - 1..] == b[k..];
      if |b[k..]| > 0 {
        SubseqOfTail(b[k..], b);
      }
    }
  }

  /** Keeps the elements satisfying `keep`, in order (Array.prototype.filter). */
  function Filter<T>(xs: seq<T>, keep: T -> bool): (r: seq<T>)
    ensures |r| <= |xs|
    ensures forall x :: x in r ==> x in xs && keep(x)
  {
    if |xs| == 0 then []
    else (if keep(xs[0]) then [xs[0]] else []) + Filter(xs[1..], keep)
  }

  lemma {:induction false} FilterIsSubseq<T>(xs: seq<T>, keep: T -> bool)
    ensures IsSubseq(Filter(xs, keep), xs)
    decreases |xs|
  {
    if |xs| > 0 {
      FilterIsSubseq(xs[1..], keep);
      var r := Filter(xs, keep);
      if keep(xs[0]) {
        assert r[0] == xs[0] && r[1..] == Filter(xs[1..], keep);
      } else {
        assert r == Filter(xs[1..], keep);
        if |r| > 0 {
          SubseqOfTail(r, xs);
        }
      }
    }
  }

  /** Filtering keeps a sequence whose every element passes. */
  lemma {:induction false} FilterAll<T>(xs: seq<T>, keep: T -> bool)
    requires forall i :: 0 <= i < |xs| ==> keep(xs[i])
    ensures Filter(xs, keep) == xs
    decreases |xs|
  {
    if |xs| > 0 {
      FilterAll(xs[1..], keep);
      assert [xs[0]] + xs[1..] == xs;
    }
  }

  /** Applies `f` to every element, in order (Array.prototype.map). */
  function MapSeq<A, B>(xs: seq<A>, f: A -> B): (r: seq<B>)
    ensures |r| == |xs|
    ensures forall i :: 0 <= i < |xs| ==> r[i] == f(xs[i])
  {
    seq(|xs|, i requires 0 <= i < |xs| => f(xs[i]))
  }

  /** Number of elements satisfying `p` (the length of a filter or of a global match). */
  function Count<T>(xs: seq<T>, p: T -> bool): nat
  {
    if |xs| == 0 then 0 else (if p(xs[0]) then 1 else 0) + Count(xs[1..], p)
  }

  /** Counting is the length of the filtered sequence, so it never exceeds the length. */
  lemma {:induction false} CountFilter<T>(xs: seq<T>, p: T -> bool)
    ensures Count(xs, p) == |Filter(xs, p)|
    ensures Count(xs, p) <= |xs|
    decreases |xs|
  {
    if |xs| > 0 {
      CountFilter(xs[1..], p);
    }
  }

  /** The first `n` elements (Array.prototype.slice(0, n)). */
  function FirstN<T>(xs: seq<T>, n: nat): (r: seq<T>)
    ensures |r| == if |xs| < n then |xs| else n
    ensures r == xs[..|r|]
  {
    if |xs| <= n then xs else xs[..n]
  }

  /** The last `n` elements (Array.prototype.slice(-n) for n > 0). */
  function LastN<T>(xs: seq<T>, n: nat): (r: seq<T>)
    ensures |r| == if |xs| < n then |xs| else n
    ensures r == xs[|xs| - |r|..]
  {
    if |xs| <= n then xs else xs[|xs| - n..]
  }

  /** Consecutive slices of width `w`:
      `for (i = 0; i < p.length; i += w) out.push(p.slice(i, i + w))` */
  function FixedSlices<T>(p: seq<T>, w: nat): (r: seq<seq<T>>)
    requires w > 0
    decreases |p|
  {
    if |p| == 0 then [] else if |p| <= w then [p] else [p[..w]] + FixedSlices(p[w..], w)
  }

  /** The slices concatenate back to the sliced sequence. */
  lemma {:induction false} FixedSlicesConcat<T>(p: seq<T>, w: nat)
    requires w > 0
    ensures Concat(FixedSlices(p, w)) == p
    decreases |p|
  {
    var r := FixedSlices(p, w);
    if |p| == 0 {
    } else if |p| <= w {
      assert r[1..] == [];
      assert Concat(r) == p + Concat(r[1..]) == p + [];
      assert p + [] == p;
    } else {
      FixedSlicesConcat(p[w..], w);
      assert r[1..] == FixedSlices(p[w..], w);
      assert p[..w] + p[w..] == p;
    }
  }

  /** The slices are non-empty, at most `w` long and all but the last exactly `w` long. */
  lemma {:induction false} FixedSlicesSizes<T>(p: seq<T>, w: nat)
    requires w > 0
    ensures forall i :: 0 <= i < |FixedSlices(p, w)| ==> 0 < |FixedSlices(p, w)[i]| <= w
    ensures forall i :: 0 <= i < |FixedSlices(p, w)| - 1 ==> |FixedSlices(p, w)[i]| == w
    decreases |p|
  {
    if |p| > w {
      FixedSlicesSizes(p[w..], w);
      var r := FixedSlices(p, w);
      var rest := FixedSlices(p[w..], w);
      assert r == [p[..w]] + rest;
      assert forall i :: 1 <= i < |r| ==> r[i] == rest[i - 1];
    }
  }

  /** There are ceil(|p| / w) slices: exactly enough to hold |p| characters. */
  lemma {:induction false} FixedSlicesCount<T>(p: seq<T>, w: nat)
    requires w > 0
    ensures |p| <= |FixedSlices(p, w)| * w
    ensures |p| > 0 ==> (|FixedSlices(p, w)| - 1) * w < |p|
    decreases |p|
  {
    if |p| > w {
      FixedSlicesCount(p[w..], w);
      var k := |FixedSlices(p[w..], w)|;
      assert (k + 1) * w == k * w + w;
    }
  }
}
