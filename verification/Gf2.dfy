/** Polynomials over GF(2) as bit sequences; the index is the exponent. */
module Gf2 {
  import opened Bits

  /** Coefficient i of a, zero outside the sequence. */
  predicate At(a: seq<bool>, i: int) {
    0 <= i < |a| && a[i]
  }

  /** The parity of the number of i in [lo, hi) with a_i = b_(k - i) = 1. */
  predicate Par(a: seq<bool>, b: seq<bool>, k: int, lo: int, hi: int)
    decreases hi - lo
  {
    if hi <= lo then false else Par(a, b, k, lo, hi - 1) != (At(a, hi - 1) && At(b, k - (hi - 1)))
  }

  /** The product, with room for its highest coefficient. */
  function Mul(a: seq<bool>, b: seq<bool>): (r: seq<bool>)
    ensures |r| == |a| + |b| && forall k :: 0 <= k < |a| + |b| ==> r[k] == Par(a, b, k, 0, |a|)
  {
    seq(|a| + |b|, k requires 0 <= k < |a| + |b| => Par(a, b, k, 0, |a|))
  }

  /** Taking off the first term. */
  lemma {:induction false} ParFirst(a: seq<bool>, b: seq<bool>, k: int, lo: int, hi: int)
    requires lo < hi
    ensures Par(a, b, k, lo, hi) == ((At(a, lo) && At(b, k - lo)) != Par(a, b, k, lo + 1, hi))
    decreases hi - lo
  {
    if lo + 1 < hi {
      ParFirst(a, b, k, lo, hi - 1);
    }
  }

  lemma {:induction false} ParSplit(a: seq<bool>, b: seq<bool>, k: int, lo: int, mid: int, hi: int)
    requires lo <= mid <= hi
    ensures Par(a, b, k, lo, hi) == (Par(a, b, k, lo, mid) != Par(a, b, k, mid, hi))
    decreases hi - mid
  {
    if mid < hi {
      ParSplit(a, b, k, lo, mid, hi - 1);
    }
  }

  /** Terms outside the sequences vanish. */
  lemma {:induction false} ParNone(a: seq<bool>, b: seq<bool>, k: int, lo: int, hi: int)
    requires lo >= |a| || hi <= 0 || k - lo < 0 || k - (hi - 1) >= |b|
    ensures !Par(a, b, k, lo, hi)
    decreases hi - lo
  {
    if lo < hi {
      ParNone(a, b, k, lo, hi - 1);
    }
  }

  /** Only the terms inside both sequences count. */
  lemma ParWindow(a: seq<bool>, b: seq<bool>, k: int, hi: int)
    requires hi >= |a|
    ensures Par(a, b, k, 0, hi) == Par(a, b, k, 0, |a|)
  {
    ParSplit(a, b, k, 0, |a|, hi);
    ParNone(a, b, k, |a|, hi);
  }

  lemma {:induction false} ParLeftXor(a: seq<bool>, a': seq<bool>, b: seq<bool>, k: int, lo: int, hi: int)
    requires |a| == |a'|
    ensures Par(Xor(a, a'), b, k, lo, hi) == (Par(a, b, k, lo, hi) != Par(a', b, k, lo, hi))
    decreases hi - lo
  {
    if lo < hi {
      ParLeftXor(a, a', b, k, lo, hi - 1);
    }
  }

  lemma {:induction false} ParRightXor(a: seq<bool>, b: seq<bool>, b': seq<bool>, k: int, lo: int, hi: int)
    requires |b| == |b'|
    ensures Par(a, Xor(b, b'), k, lo, hi) == (Par(a, b, k, lo, hi) != Par(a, b', k, lo, hi))
    decreases hi - lo
  {
    if lo < hi {
      ParRightXor(a, b, b', k, lo, hi - 1);
    }
  }

  lemma MulLeftXor(a: seq<bool>, a': seq<bool>, b: seq<bool>)
    requires |a| == |a'|
    ensures Mul(Xor(a, a'), b) == Xor(Mul(a, b), Mul(a', b))
  {
    forall k | 0 <= k < |a| + |b|
      ensures Mul(Xor(a, a'), b)[k] == Xor(Mul(a, b), Mul(a', b))[k]
    {
      ParLeftXor(a, a', b, k, 0, |a|);
    }
  }

  /** The same terms, counted from the other end of the second factor. */
  lemma {:induction false} ParSwap(a: seq<bool>, b: seq<bool>, k: int, lo: int, hi: int)
    requires lo <= hi
    ensures Par(a, b, k, lo, hi) == Par(b, a, k, k - hi + 1, k - lo + 1)
    decreases hi - lo
  {
    if lo < hi {
      ParSwap(a, b, k, lo, hi - 1);
      ParFirst(b, a, k, k - hi + 1, k - lo + 1);
    }
  }

  lemma MulCommutative(a: seq<bool>, b: seq<bool>)
    ensures Mul(a, b) == Mul(b, a)
  {
    forall k | 0 <= k < |a| + |b|
      ensures Par(a, b, k, 0, |a|) == Par(b, a, k, 0, |b|)
    {
      var n := |a| + |b|;
      ParWindow(a, b, k, n);
      ParSwap(a, b, k, 0, n);
      ParSplit(b, a, k, k - n + 1, 0, k + 1);
      ParNone(b, a, k, k - n + 1, 0);
      if k + 1 >= |b| {
        ParWindow(b, a, k, k + 1);
      } else {
        ParSplit(b, a, k, 0, k + 1, |b|);
        ParNone(b, a, k, k + 1, |b|);
      }
    }
  }

  /** The reversed sequence. */
  function Rev(a: seq<bool>): (r: seq<bool>)
    ensures |r| == |a| && forall i :: 0 <= i < |a| ==> r[i] == a[|a| - 1 - i]
  {
    seq(|a|, i requires 0 <= i < |a| => a[|a| - 1 - i])
  }

  /** Multiplying reversed polynomials reverses the product. */
  lemma {:induction false} ParRev(a: seq<bool>, b: seq<bool>, k: int, m: nat)
    requires |a| == |b| && m <= |a|
    ensures Par(Rev(a), Rev(b), k, 0, m) == Par(a, b, 2 * |a| - 2 - k, |a| - m, |a|)
  {
    if m > 0 {
      ParRev(a, b, k, m - 1);
      ParFirst(a, b, 2 * |a| - 2 - k, |a| - m, |a|);
    }
  }

  // ---- factors in pieces ----

  /** The left factor shifted up. */
  lemma {:induction false} ParLeftShift(a: seq<bool>, s: nat, b: seq<bool>, k: int, lo: int, hi: int)
    requires lo >= 0
    ensures Par(Zeros(s) + a, b, k, lo + s, hi + s) == Par(a, b, k - s, lo, hi)
    decreases hi - lo
  {
    if lo < hi {
      ParLeftShift(a, s, b, k, lo, hi - 1);
    }
  }

  /** A factor's own lower part. */
  lemma {:induction false} ParLeftPrefix(u: seq<bool>, v: seq<bool>, b: seq<bool>, k: int, lo: int, hi: int)
    requires lo >= 0 && hi <= |u|
    ensures Par(u + v, b, k, lo, hi) == Par(u, b, k, lo, hi)
    decreases hi - lo
  {
    if lo < hi {
      ParLeftPrefix(u, v, b, k, lo, hi - 1);
    }
  }

  /** A factor's own upper part. */
  lemma {:induction false} ParLeftSuffix(u: seq<bool>, v: seq<bool>, b: seq<bool>, k: int, lo: int, hi: int)
    requires lo >= 0
    ensures Par(u + v, b, k, lo + |u|, hi + |u|) == Par(v, b, k - |u|, lo, hi)
    decreases hi - lo
  {
    if lo < hi {
      ParLeftSuffix(u, v, b, k, lo, hi - 1);
    }
  }

  /** A product by the pieces of its left factor. */
  lemma ParConcat(u: seq<bool>, v: seq<bool>, b: seq<bool>, k: int)
    ensures Par(u + v, b, k, 0, |u| + |v|) == (Par(u, b, k, 0, |u|) != Par(v, b, k - |u|, 0, |v|))
  {
    ParSplit(u + v, b, k, 0, |u|, |u| + |v|);
    ParLeftPrefix(u, v, b, k, 0, |u|);
    ParLeftSuffix(u, v, b, k, 0, |v|);
  }

  lemma ParBeyond(a: seq<bool>, b: seq<bool>, k: int)
    requires k < 0 || k >= |a| + |b|
    ensures !Par(a, b, k, 0, |a|)
  {
    ParNone(a, b, k, 0, |a|);
  }

  lemma MulConcat(u: seq<bool>, v: seq<bool>, b: seq<bool>)
    ensures Mul(u + v, b) == Xor(Mul(u, b) + Zeros(|v|), Zeros(|u|) + Mul(v, b))
  {
    forall k | 0 <= k < |u| + |v| + |b|
      ensures Mul(u + v, b)[k] == Xor(Mul(u, b) + Zeros(|v|), Zeros(|u|) + Mul(v, b))[k]
    {
      ParConcat(u, v, b, k);
      if k >= |u| + |b| {
        ParBeyond(u, b, k);
      }
      if k < |u| {
        ParBeyond(v, b, k - |u|);
      }
    }
  }

  /** A one-bit factor. */
  lemma MulBit(e: bool, b: seq<bool>)
    ensures Mul([e], b) == Sel(e, b) + [false]
  {
    forall k | 0 <= k < 1 + |b|
      ensures Mul([e], b)[k] == (Sel(e, b) + [false])[k]
    {
      assert Par([e], b, k, 0, 1) == (Par([e], b, k, 0, 0) != (At([e], 0) && At(b, k)));
    }
  }

  lemma MulNothing(b: seq<bool>)
    ensures Mul([], b) == Zeros(|b|)
  {
  }

  /** A factor with constant coefficient 1 kills low zeros: the other factor starts with zeros too. */
  lemma {:induction false} LowZeros(d: seq<bool>, p: seq<bool>, n: nat)
    requires n <= |d| && p != [] && p[0] && forall k :: 0 <= k < n ==> !Mul(d, p)[k]
    ensures forall i :: 0 <= i < n ==> !d[i]
  {
    if n > 0 {
      LowZeros(d, p, n - 1);
      var k := n - 1;
      ParSplit(d, p, k, 0, k, |d|);
      ParZeroPrefix(d, p, k, k);
      ParFirst(d, p, k, k, |d|);
      ParNone(d, p, k, k + 1, |d|);
      assert !Mul(d, p)[k];
    }
  }

  lemma {:induction false} ParZeroPrefix(d: seq<bool>, p: seq<bool>, k: int, hi: nat)
    requires hi <= |d| && forall i :: 0 <= i < hi ==> !d[i]
    ensures !Par(d, p, k, 0, hi)
  {
    if hi > 0 {
      ParZeroPrefix(d, p, k, hi - 1);
    }
  }
}
