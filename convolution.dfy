/** The full discrete linear convolution that `ArrayCtVector.conv` computes,
    as a function on sequences of reals, with the laws it obeys. */
module Convolution {

  import opened JavaLang

  /** The contribution of `a[i]` to entry `k` of `a * f`: `a[i] * f[k - i]`
      when both indices are in range, otherwise nothing. */
  function Term(a: seq<real>, f: seq<real>, i: int, k: int): real
  {
    if 0 <= i < |a| && 0 <= k - i < |f| then a[i] * f[k - i] else 0.0
  }

  /** The sum of `Term(a, f, i, k)` over `i` in `[lo, |a|)`: what entry `k`
      holds once conv's outer (descending) loop has handled positions
      `lo .. |a| - 1` of the receiver. */
  function ConvFrom(a: seq<real>, f: seq<real>, lo: nat, k: int): real
    decreases |a| - lo
  {
    if lo >= |a| then 0.0 else Term(a, f, lo, k) + ConvFrom(a, f, lo + 1, k)
  }

  /** What entry `k` holds inside conv's inner loop: the positions after
      `h` are done, and of `a[h]`'s products those with filter positions
      above `fp` are added. */
  function ConvPartial(a: seq<real>, f: seq<real>, h: nat, fp: int, k: int): real
    requires h < |a| && -1 <= fp
  {
    ConvFrom(a, f, h + 1, k) + (if fp < k - h < |f| then a[h] * f[k - h] else 0.0)
  }

  /** One inner step adds `a[h] * f[fp]` to entry `h + fp` and to no other. */
  lemma ConvPartialStep(a: seq<real>, f: seq<real>, h: nat, fp: nat, k: int)
    requires h < |a| && fp < |f|
    ensures ConvPartial(a, f, h, fp - 1, k)
         == ConvPartial(a, f, h, fp, k) + (if k == h + fp then a[h] * f[fp] else 0.0)
  {
  }

  /** With every filter position added, position `h` is done. */
  lemma ConvPartialDone(a: seq<real>, f: seq<real>, h: nat, k: int)
    requires h < |a|
    ensures ConvPartial(a, f, h, -1, k) == ConvFrom(a, f, h, k)
  {
  }

  /** The full convolution: entry `k` is the sum of `a[i] * f[j]` over all
      `i + j == k`. */
  function Conv(a: seq<real>, f: seq<real>): (r: seq<real>)
    requires |a| >= 1 && |f| >= 1
    ensures |r| == |a| + |f| - 1
  {
    seq(|a| + |f| - 1, k => ConvFrom(a, f, 0, k))
  }

  /** The sum of `Term(a, f, i, k)` over `i` in `[lo, hi)`, for any integer
      bounds (terms outside `a` are zero). */
  function TermSum(a: seq<real>, f: seq<real>, k: int, lo: int, hi: int): real
    decreases hi - lo
  {
    if lo >= hi then 0.0 else Term(a, f, lo, k) + TermSum(a, f, k, lo + 1, hi)
  }

  lemma {:induction false} ConvFromIsTermSum(a: seq<real>, f: seq<real>, lo: nat, k: int)
    ensures ConvFrom(a, f, lo, k) == TermSum(a, f, k, lo, |a|)
    decreases |a| - lo
  {
    if lo < |a| {
      ConvFromIsTermSum(a, f, lo + 1, k);
    }
  }

  /** Peeling the last term instead of the first. */
  lemma {:induction false} TermSumSplitLast(a: seq<real>, f: seq<real>, k: int, lo: int, hi: int)
    requires lo < hi
    ensures TermSum(a, f, k, lo, hi) == TermSum(a, f, k, lo, hi - 1) + Term(a, f, hi - 1, k)
    decreases hi - lo
  {
    if lo < hi - 1 {
      TermSumSplitLast(a, f, k, lo + 1, hi);
    }
  }

  /** Starting the range below 0 adds only zero terms. */
  lemma {:induction false} TermSumWidenLow(a: seq<real>, f: seq<real>, k: int, lo: int, hi: int)
    requires lo <= 0 <= hi
    ensures TermSum(a, f, k, lo, hi) == TermSum(a, f, k, 0, hi)
    decreases -lo
  {
    if lo < 0 {
      TermSumWidenLow(a, f, k, lo + 1, hi);
    }
  }

  /** Ending the range beyond `|a|` adds only zero terms. */
  lemma {:induction false} TermSumWidenHigh(a: seq<real>, f: seq<real>, k: int, lo: int, hi: int)
    requires lo <= |a| <= hi
    ensures TermSum(a, f, k, lo, hi) == TermSum(a, f, k, lo, |a|)
    decreases hi
  {
    if |a| < hi {
      TermSumSplitLast(a, f, k, lo, hi);
      TermSumWidenHigh(a, f, k, lo, hi - 1);
    }
  }

  /** The term of `a[i]` in `a * f` is the term of `f[k - i]` in `f * a`, so
      a sum over `[lo, hi)` is the mirrored sum over `[k - hi + 1, k - lo + 1)`. */
  lemma {:induction false} TermSumReflect(a: seq<real>, f: seq<real>, k: int, lo: int, hi: int)
    ensures TermSum(a, f, k, lo, hi) == TermSum(f, a, k, k - hi + 1, k - lo + 1)
    decreases hi - lo
  {
    if lo < hi {
      assert Term(a, f, lo, k) == Term(f, a, k - lo, k) by {
        assert k - (k - lo) == lo;
      }
      TermSumReflect(a, f, k, lo + 1, hi);
      TermSumSplitLast(f, a, k, k - hi + 1, k - lo + 1);
    }
  }

  /** Convolution is commutative. */
  lemma ConvCommutes(a: seq<real>, f: seq<real>)
    requires |a| >= 1 && |f| >= 1
    ensures Conv(a, f) == Conv(f, a)
  {
    forall k | 0 <= k < |a| + |f| - 1
      ensures Conv(a, f)[k] == Conv(f, a)[k]
    {
      ConvEntryCommutes(a, f, k);
    }
  }

  lemma ConvEntryCommutes(a: seq<real>, f: seq<real>, k: int)
    ensures ConvFrom(a, f, 0, k) == ConvFrom(f, a, 0, k)
  {
    var lo := Min(0, k - |f| + 1);
    var hi := Max(|a|, k + 1);
    ConvFromIsTermSum(a, f, 0, k);
    ConvFromIsTermSum(f, a, 0, k);
    TermSumWidenLow(a, f, k, lo, hi);
    TermSumWidenHigh(a, f, k, 0, hi);
    TermSumReflect(a, f, k, lo, hi);
    TermSumWidenLow(f, a, k, k - hi + 1, k - lo + 1);
    TermSumWidenHigh(f, a, k, 0, k - lo + 1);
  }

  /** Convolving with the one-element kernel `[1]` is the identity. */
  lemma ConvUnitKernel(a: seq<real>)
    requires |a| >= 1
    ensures Conv(a, [1.0]) == a
  {
    forall k | 0 <= k < |a|
      ensures Conv(a, [1.0])[k] == a[k]
    {
      ConvFromUnit(a, 0, k);
    }
  }

  lemma {:induction false} ConvFromUnit(a: seq<real>, lo: nat, k: int)
    ensures ConvFrom(a, [1.0], lo, k) == if lo <= k < |a| then a[k] else 0.0
    decreases |a| - lo
  {
    if lo < |a| {
      ConvFromUnit(a, lo + 1, k);
    }
  }
}
