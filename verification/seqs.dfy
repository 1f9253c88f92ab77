/**
 * Order-preserving subsequences. The gallery's catalog is built by two
 * filters and a map over a list of file names, and the "view more" list is
 * one more filter; each of them keeps the relative order of what it keeps,
 * which is what `IsSubseq` states.
 */
module Seqs {

  /** `a` can be obtained from `b` by deleting elements, keeping the order of the rest. */
  ghost predicate IsSubseq<T>(a: seq<T>, b: seq<T>)
    decreases |b|
  {
    || |a| == 0
    || (&& |b| > 0
        && ((a[0] == b[0] && IsSubseq(a[1..], b[1..])) || IsSubseq(a, b[1..])))
  }

  /** A subsequence of a subsequence is a subsequence. */
  lemma {:induction false} SubseqTrans<T>(a: seq<T>, b: seq<T>, c: seq<T>)
    requires IsSubseq(a, b) && IsSubseq(b, c)
    ensures IsSubseq(a, c)
    decreases |c|
  {
    if |a| > 0 {
      if IsSubseq(b, c[1..]) {
        SubseqTrans(a, b, c[1..]);
      } else if a[0] == b[0] && IsSubseq(a[1..], b[1..]) {
        SubseqTrans(a[1..], b[1..], c[1..]);
      } else {
        SubseqTrans(a, b[1..], c[1..]);
      }
    }
  }

  /** The elements of `xs` that satisfy `keep`, in their original order: Array.prototype.filter. */
  function Filter<T>(keep: T -> bool, xs: seq<T>): (r: seq<T>)
    ensures |r| <= |xs|
  {
    if |xs| == 0 then []
    else if keep(xs[0]) then [xs[0]] + Filter(keep, xs[1..])
    else Filter(keep, xs[1..])
  }

  /** `Filter` keeps exactly the elements that satisfy `keep`. */
  lemma {:induction false} FilterMembers<T>(keep: T -> bool, xs: seq<T>)
    ensures forall x :: x in Filter(keep, xs) ==> x in xs && keep(x)
    ensures forall x :: x in xs && keep(x) ==> x in Filter(keep, xs)
  {
    if |xs| > 0 {
      FilterMembers(keep, xs[1..]);
      assert xs == [xs[0]] + xs[1..];
    }
  }

  /** `Filter` keeps the order of `xs`. */
  lemma {:induction false} FilterSubseq<T>(keep: T -> bool, xs: seq<T>)
    ensures IsSubseq(Filter(keep, xs), xs)
  {
    if |xs| > 0 {
      FilterSubseq(keep, xs[1..]);
      var rest := Filter(keep, xs[1..]);
      if keep(xs[0]) {
        var r := [xs[0]] + rest;
        assert r[0] == xs[0] && r[1..] == rest;
      }
    }
  }

  /** Filtering distributes over concatenation. */
  lemma {:induction false} FilterAppend<T>(keep: T -> bool, a: seq<T>, b: seq<T>)
    ensures Filter(keep, a + b) == Filter(keep, a) + Filter(keep, b)
    decreases |a|
  {
    if |a| == 0 {
      assert a + b == b;
    } else {
      assert (a + b)[0] == a[0];
      assert (a + b)[1..] == a[1..] + b;
      FilterAppend(keep, a[1..], b);
    }
  }

  /**
   * When `xs[k]` is kept, the filtered prefix `xs[..k + 1]` is a prefix of the
   * filtered whole that ends with `xs[k]`.
   */
  lemma FilterPrefixEndsAt<T>(keep: T -> bool, xs: seq<T>, k: int)
    requires 0 <= k < |xs| && keep(xs[k])
    ensures var m := |Filter(keep, xs[..k + 1])|;
      && 0 < m <= |Filter(keep, xs)|
      && Filter(keep, xs)[m - 1] == xs[k]
      && forall i :: 0 <= i < m ==> Filter(keep, xs)[i] in xs[..k + 1]
  {
    var pre := xs[..k + 1];
    var front := Filter(keep, pre);
    FilterMembers(keep, pre);
    assert xs == xs[..k + 1] + xs[k + 1..];
    FilterAppend(keep, xs[..k + 1], xs[k + 1..]);
    assert xs[..k + 1] == xs[..k] + [xs[k]];
    FilterAppend(keep, xs[..k], [xs[k]]);
    assert Filter(keep, [xs[k]]) == [xs[k]];
    var whole := Filter(keep, xs);
    forall i | 0 <= i < |front|
      ensures whole[i] in xs[..k + 1]
    {
      assert whole[i] == front[i];
      assert front[i] in front;
      assert front[i] in pre;
    }
  }
}
