/** Division by precomputed reciprocals: the 2/1 and 3/2 steps and the 3/2 inverse. */
module MiniGmpRecip {
  import opened Arith
  import opened Limbs
  import opened BignumCore

  // ---- reciprocals in an arbitrary base b ----

  /** v = floor((b^3 - 1) / D) - b for a normalised two-digit D. */
  ghost predicate IsInverse32(b: nat, D: nat, v: nat) {
    && b >= 2 && D < b * b <= 2 * D
    && D * (b + v) < b * b * b <= D * (b + v) + D
  }

  /** v = floor((b^2 - 1) / d) - b for a normalised digit d. */
  ghost predicate IsInverse21(b: nat, d: nat, v: nat) {
    && b >= 2 && d < b <= 2 * d
    && d * (b + v) < b * b <= d * (b + v) + d
  }

  // ---- the 2/1 step ----

  /** b times the candidate remainder of the 2/1 step. */
  lemma Identity21(b: int, d: int, v: int, k: int, nh: int, nl: int, q1: int, q0: int)
    requires d * (b + v) == b * b - k && q1 * b + q0 == nh * (b + v) + nl
    ensures b * (nh * b + nl - (q1 + 1) * d) == nh * k + nl * (b - d) + q0 * d - b * d
  {
    assert (q1 * b + q0) * d == (nh * (b + v) + nl) * d;
    Regroup21(b, d, v, nh, nl);
    Distribute(b * b, k, nh);
    Expand21(b, d, nh, nl, q1, q0, k);
  }

  lemma Regroup21(b: int, d: int, v: int, nh: int, nl: int)
    ensures (nh * (b + v) + nl) * d == nh * (d * (b + v)) + nl * d
  {
  }

  lemma Expand21(b: int, d: int, nh: int, nl: int, q1: int, q0: int, k: int)
    requires (q1 * b + q0) * d == nh * (b * b) - nh * k + nl * d
    ensures b * (nh * b + nl - (q1 + 1) * d) == nh * k + nl * (b - d) + q0 * d - b * d
  {
  }

  /** The candidate remainder r of the 2/1 step lies in a window of width b that tells its sign. */
  lemma Step21(b: nat, d: nat, v: nat, nh: nat, nl: nat, q1: nat, q0: nat, r: int)
    requires IsInverse21(b, d, v) && nh < d && nl < b && q0 < b
    requires q1 * b + q0 == nh * (b + v) + nl && r == nh * b + nl - (q1 + 1) * d
    ensures q1 < b
    ensures r + d >= 0 && q0 < r + b && (r < b - d || r < q0)
  {
    var k := b * b - d * (b + v);
    Identity21(b, d, v, k, nh, nl, q1, q0);
    Lower21(b, d, k, nh, nl, q0, r);
    Upper21(b, d, k, nh, nl, q0, r, if b - d < q0 then q0 else b - d);
    QuotientFits21(b, d, v, nh, nl, q1, q0);
  }

  lemma QuotientFits21(b: nat, d: nat, v: nat, nh: nat, nl: nat, q1: nat, q0: nat)
    requires d > 0 && d * (b + v) < b * b && nh < d && nl < b && b + v >= b
    requires q1 * b + q0 == nh * (b + v) + nl
    ensures q1 < b
  {
    MulMonotone(b + v, nh + 1, d);
    Distribute(nh, 1, b + v);
    MulCancelLt(q1, b, b);
  }

  lemma Lower21(b: int, d: int, k: int, nh: int, nl: int, q0: int, r: int)
    requires 0 < d < b && 0 <= nh && 0 <= nl && 0 <= q0 < b && 1 <= k
    requires b * r == nh * k + nl * (b - d) + q0 * d - b * d
    ensures r + d >= 0 && q0 < r + b
  {
    assert nh * k >= 0 && nl * (b - d) >= 0;
    LowerBound(b, d, b, q0, r);
    MulCancelLt(q0, r + b, b);
  }

  lemma LowerBound(b: int, d: int, m: int, q0: int, r: int)
    requires 0 < d < m && 0 <= q0 < b && b * r >= q0 * d - b * d
    ensures r + d >= 0 && q0 * m < b * (r + m)
  {
    assert q0 * d >= 0;
    assert b * (r + d) >= 0;
    MulCancelLt(-1, r + d, b);
    MulStrict(b - q0, d, m);
    Distribute(b, q0, d);
    Distribute(b, q0, m);
  }

  lemma MulStrict(c: int, a: int, b: int)
    requires c > 0 && a < b
    ensures c * a < c * b
  {
  }

  lemma Upper21(b: int, d: int, k: int, nh: int, nl: int, q0: int, r: int, c: int)
    requires 0 < d < b && 0 <= nh < d && 0 <= nl < b && 0 <= q0 < b && 1 <= k <= d
    requires b * r == nh * k + nl * (b - d) + q0 * d - b * d
    requires b - d <= c && q0 <= c
    ensures r < c
  {
    MulMonotone(nh, k, d);
    MulMonotone(d, nh, d - 1);
    MulMonotone(b - d, nl, b - 1);
    UpperInts21(b, d, q0, c);
    MulCancelLt(r, c, b);
  }

  lemma UpperInts21(b: int, d: int, q0: int, c: int)
    requires 0 < d < b && b - d <= c && q0 <= c
    ensures (d - 1) * d + (b - 1) * (b - d) + q0 * d - b * d < c * b
  {
    MulMonotone(b - d, b - d, c);
    MulMonotone(d, q0, c);
    assert (d - 1) * d + (b - 1) * (b - d) - b * d == (b - d) * (b - d) - b;
    assert c * (b - d) + c * d == c * b;
  }

  // ---- the 3/2 step ----

  lemma Identity32(b: int, D: int, v: int, K: int, n2: int, n1: int, n0: int, q1: int, q0: int)
    requires D * (b + v) == b * b * b - K && q1 * b + q0 == n2 * (b + v) + n1
    ensures b * (n2 * (b * b) + n1 * b + n0 - (q1 + 1) * D)
         == n2 * K + n1 * (b * b - D) + n0 * b + q0 * D - b * D
  {
    assert (q1 * b + q0) * D == n2 * (D * (b + v)) + n1 * D;
    assert n2 * (b * b * b - K) == n2 * (b * b * b) - n2 * K;
  }

  /** The candidate remainder of the 3/2 step lies in a window of width b^2 that tells its sign. */
  lemma Step32(b: nat, D: nat, v: nat, n2: nat, n1: nat, n0: nat, q1: nat, q0: nat, r: int)
    requires IsInverse32(b, D, v) && n1 < b && n0 < b && n2 * b + n1 < D && q0 < b
    requires q1 * b + q0 == n2 * (b + v) + n1
    requires r == n2 * (b * b) + n1 * b + n0 - (q1 + 1) * D
    ensures q1 < b
    ensures r + D >= 0 && q0 * b < r + b * b && (r < b * b - D || r < q0 * b)
  {
    var K := b * b * b - D * (b + v);
    Identity32(b, D, v, K, n2, n1, n0, q1, q0);
    QuotientFits32(b, D, v, n2, n1, q1, q0);
    Lower32(b, D, K, n2, n1, n0, q0, r);
    if (b * b - D) * b >= D {
      Upper32(b, D, K, n2, n1, n0, q0, r);
    } else {
      LargeDivisor32(b, D, v, n2, n1, n0, q1, q0, r);
    }
  }

  lemma QuotientFits32(b: nat, D: nat, v: nat, n2: nat, n1: nat, q1: nat, q0: nat)
    requires b > 0 && D * (b + v) < b * b * b && n2 * b + n1 < D
    requires q1 * b + q0 == n2 * (b + v) + n1
    ensures q1 < b
  {
    var w := b + v;
    var c := n2 * w + n1;
    assert c * b <= D * w by {
      MulMonotone(w, n2 * b + n1, D);
      MulMonotone(n1, b, w);
      SwapFactors(n2, n1, w, b);
    }
    assert q1 * (b * b) < b * (b * b) by {
      MulMonotone(b, q1 * b, c);
      MulAssoc(q1, b, b);
      MulAssoc(b, b, b);
    }
    MulPositive(b, b);
    MulCancelLt(q1, b, b * b);
  }

  lemma MulPositive(a: int, b: int)
    requires a > 0 && b > 0
    ensures a * b > 0
  {
  }

  lemma SwapFactors(n2: int, n1: int, w: int, b: int)
    ensures (n2 * b + n1) * w == (n2 * w + n1) * b - n1 * b + n1 * w
  {
  }

  lemma Lower32(b: int, D: int, K: int, n2: int, n1: int, n0: int, q0: int, r: int)
    requires 0 < D < b * b && b > 0 && n2 >= 0 && n1 >= 0 && n0 >= 0 && 0 <= q0 < b && K >= 1
    requires b * r == n2 * K + n1 * (b * b - D) + n0 * b + q0 * D - b * D
    ensures r + D >= 0 && q0 * b < r + b * b
  {
    assert n2 * K >= 0 && n1 * (b * b - D) >= 0 && n0 * b >= 0;
    LowerBound(b, D, b * b, q0, r);
    MulAssoc(q0, b, b);
    MulCommutes(b, r + b * b);
    MulCancelLt(q0 * b, r + b * b, b);
  }

  lemma Upper32(b: int, D: int, K: int, n2: int, n1: int, n0: int, q0: int, r: int)
    requires 0 < D < b * b && b > 0 && n2 >= 0 && 0 <= n1 < b && 0 <= n0 < b && 0 <= q0 < b && 1 <= K <= D
    requires n2 * b + n1 < D && (b * b - D) * b >= D
    requires b * r == n2 * K + n1 * (b * b - D) + n0 * b + q0 * D - b * D
    ensures r < b * b - D || r < q0 * b
  {
    var X := b * b - D;
    var c := if X < q0 * b then q0 * b else X;
    UpperTimesB(b, D, K, X, n2, n1, n0, q0, r);
    UpperCollected(b, D, X, n2, n1, n0, q0);
    SquareForm(b, D, X, q0);
    assert b * b * r < X * X + q0 * b * D by {
      MulAssoc(b, b, r);
    }
    UpperCancels(b, D, X, c, q0 * b, r);
  }

  /** n2 * K replaced by its bound, times b. */
  lemma UpperTimesB(b: int, D: int, K: int, X: int, n2: int, n1: int, n0: int, q0: int, r: int)
    requires b > 0 && n2 >= 0 && K <= D
    requires b * r == n2 * K + n1 * X + n0 * b + q0 * D - b * D
    ensures b * (b * r) <= n2 * b * D + n1 * X * b + n0 * (b * b) + q0 * b * D - b * b * D
  {
    MulMonotone(n2, K, D);
    MulMonotone(b, b * r, n2 * D + n1 * X + n0 * b + q0 * D - b * D);
    ExpandTimesB(b, D, X, n2, n1, n0, q0);
  }

  /** The digits replaced by their largest values. */
  lemma UpperCollected(b: int, D: int, X: int, n2: int, n1: int, n0: int, q0: int)
    requires b > 0 && D > 0 && n1 < b && n0 < b && n2 * b + n1 < D && X * b >= D
    ensures n2 * b * D + n1 * X * b + n0 * (b * b) <= (D - 1) * D + (b - 1) * (X * b - D) + (b - 1) * (b * b)
  {
    MulMonotone(D, n2 * b, D - 1 - n1);
    CollectN1(b, D, X, n1);
    MulMonotone(X * b - D, n1, b - 1);
    MulPositive(b, b);
    MulMonotone(b * b, n0, b - 1);
  }

  lemma UpperCancels(b: int, D: int, X: int, c: int, z: int, r: int)
    requires b > 0 && D > 0 && X + D == b * b && X >= 0 && X <= c && z <= c && b * b * r < X * X + z * D
    ensures r < c
  {
    MulMonotone(X, X, c);
    MulMonotone(D, z, c);
    Distribute(X, D, c);
    MulCommutes(c, b * b);
    MulPositive(b, b);
    MulCommutes(b * b, r);
    MulCancelLt(r, c, b * b);
  }

  lemma ExpandTimesB(b: int, D: int, X: int, n2: int, n1: int, n0: int, q0: int)
    ensures b * (n2 * D + n1 * X + n0 * b + q0 * D - b * D)
         == n2 * b * D + n1 * X * b + n0 * (b * b) + q0 * b * D - b * b * D
  {
  }

  lemma CollectN1(b: int, D: int, X: int, n1: int)
    ensures (D - 1 - n1) * D + n1 * X * b == (D - 1) * D + n1 * (X * b - D)
  {
  }

  lemma SquareForm(b: int, D: int, X: int, q0: int)
    requires X == b * b - D && b > 0
    ensures (D - 1) * D + (b - 1) * (X * b - D) + (b - 1) * (b * b) + q0 * b * D - b * b * D
          < X * X + q0 * b * D
  {
    SquareExpand(b, D, X);
    SquarePieces(b, D, X);
    MulPositive(b, b);
  }

  lemma SquareExpand(b: int, D: int, X: int)
    ensures (b - 1) * (X * b - D) == X * (b * b) - X * b - b * D + D
    ensures (b - 1) * (b * b) == b * (b * b) - b * b
    ensures (D - 1) * D == D * D - D && b * b * D == D * (b * b)
  {
  }

  lemma SquarePieces(b: int, D: int, X: int)
    requires X == b * b - D
    ensures X * X == X * (b * b) - X * D && X * D == D * (b * b) - D * D
    ensures X * b == b * (b * b) - b * D
  {
  }

  lemma ZeroInverse(b: nat, D: nat, v: nat)
    requires IsInverse32(b, D, v) && (b * b - D) * b < D
    ensures v == 0
  {
    assert (b * b - D) * b == b * b * b - D * b;
    assert D * (b + 1) == D * b + D;
    MulCommutes(D, b + v);
    MulCommutes(D, b + 1);
    MulCancelLt(b + v, b + 1, D);
  }

  /** For the largest divisors the inverse is 0 and the candidate is read off directly. */
  lemma LargeDivisor32(b: nat, D: nat, v: nat, n2: nat, n1: nat, n0: nat, q1: nat, q0: nat, r: int)
    requires IsInverse32(b, D, v) && n1 < b && n0 < b && n2 * b + n1 < D && q0 < b
    requires q1 * b + q0 == n2 * (b + v) + n1 && (b * b - D) * b < D
    requires r == n2 * (b * b) + n1 * b + n0 - (q1 + 1) * D
    ensures r < q0 * b
  {
    var X := b * b - D;
    ZeroInverse(b, D, v);
    DivModUnique(q1 * b + q0, b, q1, q0);
    DivModUnique(q1 * b + q0, b, n2, n1);
    Distribute(b * b, D, n2);
    Distribute(n2, 1, D);
    assert r == n2 * X - D + n1 * b + n0;
    MulCancelLt(X, b, b);
    MulCancelLt(n2, b, b);
    MulMonotone(X, n2, b - 1);
    MulMonotone(b - 1, X, b - 1);
    assert (b - 1) * (b - 1) + (b - 1) == b * b - b;
  }

  // ---- two-limb words ----

  const BASE_SQ: nat := BASE * BASE

  function Pair(h: limb, l: limb): nat {
    h * BASE + l
  }

  function Triple(n2: limb, n1: limb, n0: limb): nat {
    n2 * (BASE * BASE) + n1 * BASE + n0
  }

  /** n - (q + 1) * d, the remainder left by an estimate q + 1. */
  function Excess(n: int, q: int, d: int): int {
    n - (q + 1) * d
  }

  /** d once or not at all, as the corrections add and subtract it. */
  function Times(e: int, d: int): int {
    e * d
  }

  lemma TimesBit(d: int)
    ensures Times(0, d) == 0 && Times(1, d) == d
  {
  }

  lemma PairBound(h: limb, l: limb)
    ensures Pair(h, l) < BASE_SQ
  {
    MulMonotone(BASE, h, BASE - 1);
    Distribute(BASE, 1, BASE);
  }

  lemma PairOrder(h: limb, l: limb, x: limb, y: limb)
    ensures Pair(h, l) >= Pair(x, y) <==> h > x || (h == x && l >= y)
  {
    if h > x {
      MulMonotone(BASE, x + 1, h);
      Distribute(x, 1, BASE);
    } else if h < x {
      MulMonotone(BASE, h + 1, x);
      Distribute(h, 1, BASE);
    }
  }

  /** The pieces of the double-word product: y is x1 + x2 with its carry weighed HALF. */
  lemma UmulPieces(u: limb, v: limb, x0: limb, p1: limb, x2: limb, x3: limb, y: limb, carry: nat)
    requires x0 == LowHalf(u) * LowHalf(v) && p1 == LowHalf(u) * HighHalf(v)
    requires x2 == HighHalf(u) * LowHalf(v) && x3 == HighHalf(u) * HighHalf(v)
    requires y as int == p1 + HighHalf(x0) + x2 - (if carry == 0 then 0 else BASE)
    requires carry == 0 || carry == HALF
    ensures x3 + carry + HighHalf(y) < BASE
    ensures (x3 + carry + HighHalf(y)) * BASE + (ShiftHalf(y) + LowHalf(x0)) == u * v
  {
    hide *;
    UmulJoin(u, v, x0, p1, x2, x3, y, carry);
    LimbProduct(u, v);
    PairFits(x3 + carry + HighHalf(y), ShiftHalf(y) + LowHalf(x0), u * v);
  }

  lemma LimbProduct(u: limb, v: limb)
    ensures 0 <= u * v < BASE * BASE
  {
    BasePos();
    SquareBound(u, v, BASE);
  }

  lemma UmulJoin(u: limb, v: limb, x0: limb, p1: limb, x2: limb, x3: limb, y: limb, carry: nat)
    requires x0 == LowHalf(u) * LowHalf(v) && p1 == LowHalf(u) * HighHalf(v)
    requires x2 == HighHalf(u) * LowHalf(v) && x3 == HighHalf(u) * HighHalf(v)
    requires y as int == p1 + HighHalf(x0) + x2 - (if carry == 0 then 0 else BASE)
    requires carry == 0 || carry == HALF
    ensures (x3 + carry + HighHalf(y)) * BASE + (ShiftHalf(y) + LowHalf(x0)) == u * v
  {
    hide *;
    BaseFacts();
    UmulTotal(LowHalf(u), HighHalf(u), LowHalf(v), HighHalf(v), HighHalf(x0), LowHalf(x0), y, HighHalf(y), LowHalf(y),
              carry, HALF, BASE);
  }

  lemma SmallSums(p: limb, q: nat, h: limb)
    requires q < HALF
    ensures p <= (HALF - 1) * (HALF - 1) ==> p + q < BASE
    ensures ShiftHalf(h) + q < BASE
  {
    hide ShiftHalf, LowHalf;
    BaseFacts();
    ShiftSplit(HALF, 0, LowHalf(h));
  }

  /** The double-word product from half-word products, with the one carry that can occur. */
  method UmulPpmm(u: limb, v: limb) returns (w1: limb, w0: limb)
    ensures Pair(w1, w0) == u * v
  {
    hide *;
    var ul, uh, vl, vh := LowHalf(u), HighHalf(u), LowHalf(v), HighHalf(v);
    HalfProduct(ul, vl); HalfProduct(ul, vh); HalfProduct(uh, vl); HalfProduct(uh, vh);
    SquareBound(ul, vh, HALF);
    var x0: limb, x1: limb, x2: limb, x3: limb := ul * vl, ul * vh, uh * vl, uh * vh;
    ghost var p1 := x1;
    SmallSums(x1, HighHalf(x0), 0);
    x1 := x1 + HighHalf(x0);
    WrapAdd(x1, x2);
    x1 := Wrap(x1 + x2);
    ghost var carry := if x1 < x2 then HALF else 0;
    UmulPieces(u, v, x0, p1, x2, x3, x1, carry);
    if x1 < x2 {
      x3 := x3 + HALF;
    }
    SmallSums(0, LowHalf(x0), x1);
    w1 := x3 + HighHalf(x1);
    w0 := ShiftHalf(x1) + LowHalf(x0);
    PairIs(w1, w0);
  }

  lemma PairIs(h: limb, l: limb)
    ensures Pair(h, l) == h * BASE + l
  {
  }

  lemma PairFits(h: nat, l: nat, x: nat)
    requires h * BASE + l == x < BASE * BASE
    ensures h < BASE
  {
    BasePos();
    MulCancelLt(h, BASE, BASE);
  }

  lemma UmulInts(x0: int, x0h: int, x0l: int, p1: int, x2: int, x3: int, y: int, yh: int, yl: int, carry: int, b: int)
    requires x0 == x0h * b + x0l && y == yh * b + yl
    requires y == p1 + x0h + x2 - (if carry == 0 then 0 else b * b) && (carry == b || carry == 0)
    ensures (x3 + carry + yh) * (b * b) + (yl * b + x0l) == x0 + p1 * b + x2 * b + x3 * (b * b)
  {
    assert (yh * b + yl) * b == yh * (b * b) + yl * b;
    assert (p1 + x0h + x2 - carry * b) * b == p1 * b + x0h * b + x2 * b - carry * (b * b);
  }

  lemma UmulTotal(ul: int, uh: int, vl: int, vh: int, x0h: int, x0l: int, y: int, yh: int, yl: int, carry: int, b: int, base: int)
    requires base == b * b && ul * vl == x0h * b + x0l && y == yh * b + yl
    requires y == ul * vh + x0h + uh * vl - (if carry == 0 then 0 else base) && (carry == b || carry == 0)
    ensures (uh * vh + carry + yh) * base + (yl * b + x0l) == (uh * b + ul) * (vh * b + vl)
  {
    UmulInts(ul * vl, x0h, x0l, ul * vh, uh * vl, uh * vh, y, yh, yl, carry, b);
    CrossProducts(ul, uh, vl, vh, b);
  }

  /** Two-limb addition; k is the lost carry. */
  method AddPair(ah: limb, al: limb, bh: limb, bl: limb) returns (sh: limb, sl: limb, ghost k: nat)
    ensures k <= 1 && Pair(sh, sl) + k * BASE_SQ == Pair(ah, al) + Pair(bh, bl)
  {
    BaseFacts();
    WrapAdd(al, bl);
    sl := Wrap(al + bl);
    var c := if sl < al then 1 else 0;
    var x := ah + bh + c;
    k := if x >= BASE then 1 else 0;
    WrapIs(x, k, x - k * BASE);
    sh := Wrap(ah + bh + c);
    PairSumInts(ah, al, bh, bl, sh, sl, c, k, BASE);
  }

  lemma PairSumInts(ah: int, al: int, bh: int, bl: int, sh: int, sl: int, c: int, k: int, b: int)
    requires al + bl == sl + c * b && ah + bh + c == sh + k * b
    ensures sh * b + sl + k * (b * b) == (ah * b + al) + (bh * b + bl)
  {
    assert (ah + bh + c) * b == (sh + k * b) * b;
  }

  /** Two-limb subtraction; k is the borrow out. */
  method SubPair(ah: limb, al: limb, bh: limb, bl: limb) returns (sh: limb, sl: limb, ghost k: nat)
    ensures k <= 1 && Pair(sh, sl) == Pair(ah, al) - Pair(bh, bl) + k * BASE_SQ
  {
    BaseFacts();
    WrapSub(al, bl);
    sl := Wrap(al - bl);
    var c := if al < bl then 1 else 0;
    var x := ah as int - bh - c;
    k := if x < 0 then 1 else 0;
    WrapIs(x, -(k as int), x + k * BASE);
    sh := Wrap(ah as int - bh - c);
    PairSumInts(ah, al, 0 - bh as int, 0 - bl as int, sh, sl, -c, -(k as int), BASE);
  }

  // ---- the 3/2 step in machine words ----

  /** Any word R that agrees modulo M with a candidate r in the window around threshold c. */
  lemma Outcome(R: nat, r: int, D: nat, c: nat, m: int, M: nat)
    requires R < M && R == r + m * M && c <= M
    requires r + D >= 0 && D < M <= 2 * D
    requires c < r + M && (r < M - D || r < c)
    ensures r >= 0 ==> R == r
    ensures r < 0 ==> R == r + M && R > c
    ensures r >= 0 && R >= c ==> R + D < M
  {
    WindowFactor(R, r, m, M);
  }

  lemma WindowFactor(R: int, r: int, m: int, n: int)
    requires n > 0 && 0 <= R < n && R == r + m * n && -n <= r < n
    ensures r >= 0 ==> m == 0
    ensures r < 0 ==> m == 1
  {
    if m >= 2 {
      MulMonotone(n, 2, m);
    } else if m <= -1 {
      MulMonotone(n, m, -1);
    }
  }

  /** The two-limb inverse of the code, with D = d1 * B + d0. */
  ghost predicate IsInv3(d1: limb, d0: limb, dinv: limb) {
    IsInverse32(BASE, Pair(d1, d0), dinv)
  }

  /** The quotient estimate and candidate remainder of the step. */
  lemma Candidate32(n2: limb, n1: limb, n0: limb, d1: limb, d0: limb, dinv: limb, q1: limb, q0: limb)
    requires IsInv3(d1, d0, dinv) && Pair(n2, n1) < Pair(d1, d0)
    requires Pair(q1, q0) == n2 * dinv + Pair(n2, n1)
    ensures var r := Excess(Triple(n2, n1, n0), q1, Pair(d1, d0));
      r + Pair(d1, d0) >= 0 && q0 * BASE < r + BASE_SQ
      && (r < BASE_SQ - Pair(d1, d0) || r < q0 * BASE) && BASE_SQ <= 2 * Pair(d1, d0)
  {
    var D := Pair(d1, d0);
    Distribute(BASE, dinv, n2);
    CandidateCall(n2, n1, n0, D, dinv, q1, q0);
  }

  lemma CandidateCall(n2: limb, n1: limb, n0: limb, D: nat, dinv: limb, q1: limb, q0: limb)
    requires IsInverse32(BASE, D, dinv) && n2 * BASE + n1 < D
    requires q1 * BASE + q0 == n2 * (BASE + dinv) + n1
    ensures var r := Excess(Triple(n2, n1, n0), q1, D);
      r + D >= 0 && q0 * BASE < r + BASE_SQ && (r < BASE_SQ - D || r < q0 * BASE) && BASE_SQ <= 2 * D
  {
    Step32(BASE, D, dinv, n2, n1, n0, q1, q0, Excess(Triple(n2, n1, n0), q1, D));
  }

  lemma EstimateFits(n2: limb, n1: limb, d1: limb, d0: limb, dinv: limb)
    requires IsInv3(d1, d0, dinv) && Pair(n2, n1) < Pair(d1, d0)
    ensures n2 * dinv + Pair(n2, n1) < BASE_SQ
  {
    var D, w, x := Pair(d1, d0), BASE + dinv, n2 * dinv + Pair(n2, n1);
    BasePos();
    Distribute(BASE, dinv, n2);
    assert x == n2 * w + n1;
    EstimateInts(BASE, D, w, n2, n1);
  }

  lemma EstimateInts(b: nat, D: nat, w: nat, n2: nat, n1: nat)
    requires b > 0 && D * w < b * b * b && n2 * b + n1 < D && w >= b
    ensures n2 * w + n1 < b * b
  {
    MulMonotone(w, n2 * b + n1, D);
    MulMonotone(n1, b, w);
    assert (n2 * b + n1) * w == n2 * w * b + n1 * w;
    assert (n2 * w + n1) * b == n2 * w * b + n1 * b;
    MulCommutes(n1, w);
    MulCommutes(n1, b);
    MulAssoc(b, b, b);
    MulCancelLt(n2 * w + n1, b * b, b);
  }

  /** The wrapped two-limb remainder agrees with the candidate modulo B^2. */
  lemma RemainderFactor(n2: int, n1: int, n0: int, d1: int, d0: int, q: int, x: int, k1: int, k2: int, k3: int, b: int)
    requires x == n1 - d1 * q + k1 * b
    ensures x * b + n0 - (d1 * b + d0) + k2 * (b * b) - d0 * q + k3 * (b * b)
         == n2 * (b * b) + n1 * b + n0 - (q + 1) * (d1 * b + d0) + (k1 + k2 + k3 - n2) * (b * b)
  {
    assert (n1 - d1 * q + k1 * b) * b == n1 * b - d1 * q * b + k1 * (b * b);
  }

  lemma TopFactor(n1: limb, d1: limb, q: limb) returns (k: int)
    ensures Wrap(n1 - Wrap(d1 * q)) == n1 - d1 * q + k * BASE
  {
    hide Wrap;
    BasePos();
    WrapCong(d1 * q);
    var j1 := CongElim(Wrap(d1 * q), d1 * q, BASE);
    WrapCong(n1 - Wrap(d1 * q));
    var j2 := CongElim(Wrap(n1 - Wrap(d1 * q)), n1 - Wrap(d1 * q), BASE);
    Distribute(j2, j1, BASE);
    k := j2 - j1;
  }

  lemma RemainderPairs(n2: limb, n1: limb, n0: limb, d1: limb, d0: limb, q: limb, x: limb, k1: int, k2: int, k3: int, R: int)
    requires x == n1 - d1 * q + k1 * BASE
    requires R == Pair(x, n0) - Pair(d1, d0) + k2 * BASE_SQ - d0 * q + k3 * BASE_SQ
    ensures R == Excess(Triple(n2, n1, n0), q, Pair(d1, d0)) + (k1 + k2 + k3 - n2) * BASE_SQ
  {
    RemainderFactor(n2, n1, n0, d1, d0, q, x, k1, k2, k3, BASE);
  }

  /** (n2, n1, n0) minus the estimated multiple of D, modulo B^2. */
  method CandidateRemainder(n2: limb, n1: limb, n0: limb, d1: limb, d0: limb, q: limb)
    returns (r1: limb, r0: limb, ghost m: int)
    ensures Pair(r1, r0) == Excess(Triple(n2, n1, n0), q, Pair(d1, d0)) + m * BASE_SQ
  {
    hide *;
    ghost var k1 := TopFactor(n1, d1, q);
    r1 := Wrap(n1 - Wrap(d1 * q));
    ghost var x := r1;
    ghost var k2, k3;
    r1, r0, k2 := SubPair(r1, n0, d1, d0);
    var t1, t0 := UmulPpmm(d0, q);
    r1, r0, k3 := SubPair(r1, r0, t1, t0);
    RemainderPairs(n2, n1, n0, d1, d0, q, x, k1, k2, k3, Pair(r1, r0));
    m := k1 + k2 + k3 - n2;
  }

  lemma DividendBound(n2: limb, n1: limb, n0: limb, D: nat)
    requires Pair(n2, n1) < D
    ensures Triple(n2, n1, n0) < D * BASE
  {
    MulMonotone(BASE, n2 * BASE + n1 + 1, D);
    MulAssoc(n2, BASE, BASE);
    Distribute(n2 * BASE, n1, BASE);
    Distribute(n2 * BASE + n1, 1, BASE);
  }

  /** r1 >= q0 compares the top limb only. */
  lemma TopCompare(r1: limb, r0: limb, q0: limb)
    ensures r1 >= q0 <==> Pair(r1, r0) >= q0 * BASE
  {
    if r1 >= q0 {
      MulMonotone(BASE, q0, r1);
    } else {
      MulMonotone(BASE, r1 + 1, q0);
      Distribute(r1, 1, BASE);
    }
  }

  lemma CarryIs(p: nat, k: nat, x: nat, n: nat)
    requires p + k * n == x && k <= 1 && p < n
    ensures x < n ==> k == 0 && p == x
    ensures x >= n ==> k == 1 && p == x - n
  {
    assert k == 0 || k == 1;
  }

  lemma WrapAgain(x: int, y: int)
    ensures Wrap(Wrap(x) + y) == Wrap(x + y)
  {
    hide Wrap;
    BasePos();
    WrapCong(x);
    CongAdd(Wrap(x), x, y, y, BASE);
    WrapCong(Wrap(x) + y);
    CongTrans(Wrap(Wrap(x) + y), Wrap(x) + y, x + y, BASE);
    WrapCong(x + y);
    var k := CongElim(x + y, Wrap(Wrap(x) + y), BASE);
    WrapIs(x + y, k, Wrap(Wrap(x) + y));
  }

  lemma ThresholdBound(q0: limb)
    ensures 0 <= q0 * BASE <= BASE_SQ
  {
    MulMonotone(BASE, q0, BASE);
  }

  /** First correction: add D back when the candidate's top limb reaches q0. e counts the additions. */
  method AddBack32(q: limb, q0: limb, r1: limb, r0: limb, d1: limb, d0: limb, ghost r: int)
    returns (q': limb, s1: limb, s0: limb, ghost e: int)
    requires r + Pair(d1, d0) >= 0
    requires r >= 0 ==> Pair(r1, r0) == r && (Pair(r1, r0) >= q0 * BASE ==> r + Pair(d1, d0) < BASE_SQ)
    requires r < 0 ==> Pair(r1, r0) == r + BASE_SQ && Pair(r1, r0) >= q0 * BASE
    ensures 0 <= e <= 1 && (r < 0 ==> e == 1) && Pair(s1, s0) == r + Times(e, Pair(d1, d0))
    ensures q' == Wrap(q + 1 - e)
  {
    hide *;
    TopCompare(r1, r0, q0);
    TimesBit(Pair(d1, d0));
    q' := Wrap(q + 1);
    s1, s0, e := r1, r0, 0;
    if r1 >= q0 {
      WrapAgain(q + 1, -1);
      q' := Wrap(q' - 1);
      ghost var k;
      s1, s0, k := AddPair(r1, r0, d1, d0);
      PairBound(s1, s0);
      CarryIs(Pair(s1, s0), k, Pair(r1, r0) + Pair(d1, d0), BASE_SQ);
      e := 1;
    }
  }

  /** Second correction: subtract D once more if the remainder still allows it. */
  method SubtractOnce32(q: int, r1: limb, r0: limb, d1: limb, d0: limb) returns (q': limb, s1: limb, s0: limb, ghost f: int)
    ensures 0 <= f <= 1 && Pair(s1, s0) == Pair(r1, r0) - Times(f, Pair(d1, d0)) && q' == Wrap(q + f)
    ensures f == 1 <==> Pair(r1, r0) >= Pair(d1, d0)
  {
    hide *;
    PairOrder(r1, r0, d1, d0);
    TimesBit(Pair(d1, d0));
    q', s1, s0, f := Wrap(q), r1, r0, 0;
    if r1 >= d1 {
      if r1 > d1 || r0 >= d0 {
        WrapAgain(q, 1);
        q' := Wrap(q' + 1);
        ghost var k;
        s1, s0, k := SubPair(r1, r0, d1, d0);
        PairBound(s1, s0);
        PairBound(r1, r0);
        BorrowIs(Pair(s1, s0), k, Pair(r1, r0) - Pair(d1, d0), BASE_SQ);
        f := 1;
      }
    }
  }

  lemma BorrowIs(p: nat, k: nat, x: int, n: nat)
    requires p == x + k * n && k <= 1 && p < n && 0 <= x
    ensures k == 0 && p == x
  {
    assert k == 0 || k == 1;
  }

  lemma RegroupQuotient(N: int, D: int, q: int, e: int, f: int, r: int, R: int)
    requires r == Excess(N, q, D) && R == r + Times(e, D) - Times(f, D)
    ensures N == (q + 1 - e + f) * D + R
  {
    assert (q + 1 - e + f) * D == (q + 1) * D - e * D + f * D;
  }

  lemma QuotientInRange(N: nat, D: nat, q: int, R: nat)
    requires N == q * D + R && R < D && N < D * BASE
    ensures 0 <= q < BASE
  {
    MulCancelLt(-1, q, D);
    MulCommutes(D, BASE);
    MulCancelLt(q, BASE, D);
  }

  /** Both corrections applied: the wrapped quotient is the true one. */
  lemma SettledQuotient(N: nat, D: nat, q1: int, e: int, f: int, x: int, r: int, R: nat, q: limb)
    requires x == Excess(N, q1, D) && r == x + Times(e, D) && R == r - Times(f, D) && R < D && N < D * BASE
    requires q == Wrap(q1 + 1 - e + f)
    ensures N == q * D + R
  {
    hide *;
    var z := q1 + 1 - e + f;
    RegroupQuotient(N, D, q1, e, f, x, R);
    QuotientInRange(N, D, z, R);
    WrapIs(z, 0, z);
  }

  /** The 3/2 step: exact quotient and remainder of a three-limb number by a normalised two-limb one. */
  method UdivQr3by2(n2: limb, n1: limb, n0: limb, d1: limb, d0: limb, dinv: limb) returns (q: limb, r1: limb, r0: limb)
    requires IsInv3(d1, d0, dinv) && Pair(n2, n1) < Pair(d1, d0)
    ensures Triple(n2, n1, n0) == q * Pair(d1, d0) + Pair(r1, r0)
    ensures Pair(r1, r0) < Pair(d1, d0)
  {
    hide *;
    BasePos();
    EstimateFits(n2, n1, d1, d0, dinv);
    var q0;
    q, q0 := UmulPpmm(n2, dinv);
    ghost var k;
    q, q0, k := AddPair(q, q0, n2, n1);
    PairBound(q, q0);
    CarryIs(Pair(q, q0), k, n2 * dinv + Pair(n2, n1), BASE_SQ);
    Candidate32(n2, n1, n0, d1, d0, dinv, q, q0);
    ghost var D := Pair(d1, d0);
    ghost var N := Triple(n2, n1, n0);
    ghost var r := Excess(N, q, D);
    ghost var q1, m := q, 0;
    r1, r0, m := CandidateRemainder(n2, n1, n0, d1, d0, q);
    PairBound(r1, r0);
    PairBound(d1, d0);
    ThresholdBound(q0);
    Outcome(Pair(r1, r0), r, D, q0 * BASE, m, BASE_SQ);
    ghost var e, f;
    q, r1, r0, e := AddBack32(q, q0, r1, r0, d1, d0, r);
    PairBound(r1, r0);
    RemainderRange(r, D, e, Pair(r1, r0), BASE_SQ);
    ghost var r2 := Pair(r1, r0);
    q, r1, r0, f := SubtractOnce32(q, r1, r0, d1, d0);
    BelowDivisor(r2, D, f, Pair(r1, r0));
    DividendBound(n2, n1, n0, D);
    WrapAgain(q1 + 1 - e, f);
    SettledQuotient(N, D, q1, e, f, r, r2, Pair(r1, r0), q);
  }

  lemma BelowDivisor(r: nat, D: nat, f: int, R: int)
    requires R == r - Times(f, D) && 0 <= f <= 1 && (f == 1 <==> r >= D) && r < 2 * D
    ensures 0 <= R < D
  {
    TimesBit(D);
  }

  lemma RemainderRange(r: int, D: nat, e: int, R: nat, n: nat)
    requires R == r + Times(e, D) && 0 <= e <= 1 && R < n <= 2 * D
    ensures R < 2 * D
  {
  }

  // ---- the 2/1 step in machine words ----

  /** nl - (q + 1) * d modulo B, against the exact excess. */
  lemma ExcessFactor21(nh: limb, nl: limb, d: limb, q1: nat, qh: limb) returns (m: int)
    requires qh == Wrap(q1 + 1)
    ensures Wrap(nl - Wrap(qh * d)) == Excess(Pair(nh, nl), q1, d) + m * BASE
  {
    hide Wrap;
    BasePos();
    WrapCong(q1 + 1);
    CongMul(qh, q1 + 1, d, d, BASE);
    WrapCong(qh * d);
    CongTrans(Wrap(qh * d), qh * d, (q1 + 1) * d, BASE);
    CongIntro(nh * BASE + nl, nl, BASE, nh);
    CongAdd(nl, nh * BASE + nl, Wrap(qh * d), (q1 + 1) * d, BASE);
    WrapCong(nl - Wrap(qh * d));
    CongTrans(Wrap(nl - Wrap(qh * d)), nl - Wrap(qh * d), nh * BASE + nl - (q1 + 1) * d, BASE);
    m := CongElim(Wrap(nl - Wrap(qh * d)), nh * BASE + nl - (q1 + 1) * d, BASE);
  }

  lemma EstimateShift(x: int, ql: int, nh: int, di: int, nl: int, b: int)
    requires x * b + ql == nh * di + (nh + 1) * b + nl
    requires b > 0 && 0 <= ql < b && nh >= 0 && di >= 0 && nl >= 0
    ensures x >= 1 && (x - 1) * b + ql == nh * (b + di) + nl
  {
    assert nh * di >= 0 && nh * b >= 0;
    Distribute(nh, 1, b);
    Distribute(x, 1, b);
    Distribute(b, di, nh);
    assert 0 * b < x * b + b - b + ql;
    MulCancelLt(0, x, b);
  }

  lemma CarriedPair(qh: limb, ql: limb, k: nat)
    ensures Pair(qh, ql) + k * BASE_SQ == (qh + k * BASE) * BASE + ql
  {
    Distribute(qh, k * BASE, BASE);
    MulAssoc(k, BASE, BASE);
  }

  /** The estimate of the 2/1 step, with its window. */
  lemma Candidate21(nh: limb, nl: limb, d: limb, di: limb, qh: limb, ql: limb, k: nat) returns (q1: nat)
    requires IsInverse21(BASE, d, di) && nh < d && k <= 1
    requires Pair(qh, ql) + k * BASE_SQ == nh * di + (nh + 1) * BASE + nl
    ensures q1 < BASE && qh == Wrap(q1 + 1)
    ensures var r := Excess(Pair(nh, nl), q1, d);
      r + d >= 0 && ql < r + BASE && (r < BASE - d || r < ql) && BASE <= 2 * d && d < BASE
  {
    hide Wrap, Pair;
    BasePos();
    PairIs(nh, nl);
    CarriedPair(qh, ql, k);
    var x := qh as int + k * BASE;
    EstimateShift(x, ql, nh, di, nl, BASE);
    q1 := x - 1;
    Step21(BASE, d, di, nh, nl, q1, ql, Excess(nh * BASE + nl, q1, d));
    WrapIs(q1 + 1, k, qh);
  }

  /** The single-limb correction shared by the 2/1 step and the half-limb step of the inverse. */
  method AddBack(r': limb, D: limb, adjust: bool, ghost r: int) returns (s: limb, ghost e: int)
    requires r + D >= 0
    requires r >= 0 ==> r' == r && (adjust ==> r + D < BASE)
    requires r < 0 ==> r' == r + BASE && adjust
    ensures 0 <= e <= 1 && (r < 0 ==> e == 1) && (e == 1 <==> adjust) && s == r + Times(e, D)
  {
    hide Wrap;
    s, e := r', 0;
    if adjust {
      WrapAdd(r', D);
      s := Wrap(r' + D);
      e := 1;
    }
  }

  method SubtractOnce(r': limb, D: limb) returns (s: limb, ghost f: int)
    ensures 0 <= f <= 1 && (f == 1 <==> r' >= D) && s == r' - Times(f, D)
  {
    hide Wrap;
    s, f := r', 0;
    if r' >= D {
      WrapSub(r', D);
      s := Wrap(r' - D);
      f := 1;
    }
  }

  /** The 2/1 step: exact quotient and remainder of a two-limb number by a normalised limb. */
  method UdivQrnndPreinv(nh: limb, nl: limb, d: limb, di: limb) returns (q: limb, r: limb)
    requires IsInverse21(BASE, d, di) && nh < d
    ensures nh * BASE + nl == q * d + r && r < d
  {
    hide *;
    BasePos();
    var qh, ql := UmulPpmm(nh, di);
    ghost var k;
    qh, ql, k := AddPair(qh, ql, nh + 1, nl);
    PairIs(nh + 1, nl);
    ghost var q1 := Candidate21(nh, nl, d, di, qh, ql, k);
    ghost var N := Pair(nh, nl);
    ghost var x := Excess(N, q1, d);
    ghost var m := ExcessFactor21(nh, nl, d, q1, qh);
    r := Wrap(nl - Wrap(qh * d));
    Outcome(r, x, d, ql, m, BASE);
    q := qh;
    ghost var e, f;
    var adjust := r > ql;
    if adjust {
      WrapAgain(q1 + 1, -1);
      q := Wrap(q - 1);
    }
    r, e := AddBack(r, d, adjust, x);
    RemainderRange(x, d, e, r, BASE);
    ghost var q2 := q1 + 1 - e;
    if r >= d {
      WrapAgain(q2, 1);
      q := Wrap(q + 1);
    }
    ghost var r1 := r;
    r, f := SubtractOnce(r, d);
    BelowDivisor(r1, d, f, r);
    TwoLimbBound(nh, nl, d);
    SettledQuotient(N, d, q1, e, f, x, r1, r, q);
    PairIs(nh, nl);
  }

  lemma TwoLimbBound(nh: limb, nl: limb, d: limb)
    requires nh < d
    ensures Pair(nh, nl) < d * BASE
  {
    MulMonotone(BASE, nh + 1, d);
    Distribute(nh, 1, BASE);
  }

  // ---- computing the inverse ----

  /** The high half of a normalised limb. */
  lemma NormalisedHigh(u1: limb)
    requires BASE <= 2 * u1
    ensures HALF <= 2 * HighHalf(u1)
    ensures 0 < HighHalf(u1) && BASE - 1 - u1 < HighHalf(u1) * HALF <= u1
  {
    hide HighHalf, LowHalf;
    BaseFacts();
    var uh, b := HighHalf(u1), HALF;
    assert u1 == uh * b + LowHalf(u1);
    NormalisedInts(u1, uh, LowHalf(u1), b);
  }

  lemma NormalisedInts(u: int, uh: int, ul: int, b: int)
    requires u == uh * b + ul && 0 <= ul < b && b * b <= 2 * u && b % 16 == 0
    ensures b <= 2 * uh && b * b - 1 - u < uh * b
  {
    var h := b / 2;
    assert b == 2 * h;
    assert b * b == 2 * (h * b);
    assert h * b < (uh + 1) * b by { Distribute(uh, 1, b); }
    MulCancelLt(h, uh + 1, b);
    MulMonotone(b, h, uh);
  }

  /** The two corrections of the high half; j counts them. */
  method CorrectHigh(q0: int, r0: limb, p: limb, u1: limb) returns (qh: int, r: limb, ghost j: int)
    requires r0 < u1 && BASE <= 2 * u1
    ensures 0 <= j <= 2 && qh == q0 - j && r == r0 + j * u1 - p && r < u1
  {
    hide Wrap;
    qh, r, j := q0, r0, 0;
    ghost var x: int := r0;
    if r < p {
      WrapAdd(r, u1);
      qh, x, j := qh - 1, x + u1, 1;
      r := Wrap(r + u1);
      if r >= u1 {
        if r < p {
          WrapAdd(r, u1);
          qh, x, j := qh - 1, x + u1, 2;
          r := Wrap(r + u1);
        }
      }
    }
    WrapSub(r, p);
    r := Wrap(r - p);
  }

  /** Half-limb quotient of b * ~u1 + b - 1 by u1: estimate from the high half, at most two corrections. */
  method InvertHigh(u1: limb) returns (qh: nat, r: limb)
    requires BASE <= 2 * u1
    ensures qh < HALF && r < u1 && HALF * (BASE - 1 - u1) + HALF - 1 == qh * u1 + r
  {
    hide *;
    BaseFacts();
    NormalisedHigh(u1);
    var ul, uh, n: nat := LowHalf(u1), HighHalf(u1), BASE - 1 - u1;
    var q0 := n / uh;
    HighEstimate(u1, uh, ul, n, q0, HALF);
    ShiftSplit(HALF, 0, n - q0 * uh);
    HalfProduct(q0, ul);
    var r0: limb, p: limb := (n - q0 * uh) * HALF + (HALF - 1), q0 * ul;
    ghost var j;
    var q;
    q, r, j := CorrectHigh(q0, r0, p, u1);
    HighCorrected(u1, uh, ul, n, q0, r0, p, j, HALF);
    qh := q;
  }

  lemma HighEstimate(u1: nat, uh: nat, ul: nat, n: nat, qh: int, b: nat)
    requires uh > 0 && u1 == uh * b + ul && ul < b && n < uh * b && qh == n / uh && uh < b
    ensures 0 <= qh < b && 0 <= n - qh * uh < uh
    ensures (n - qh * uh) * b + b - 1 < u1
    ensures b * n + b - 1 == qh * u1 + ((n - qh * uh) * b + b - 1) - qh * ul
    ensures qh * ul >= 0
  {
    DivMod(n, uh);
    HighQuotient(n, uh, qh, b);
    var t := n - qh * uh;
    MulMonotone(b, t + 1, uh);
    Distribute(t, 1, b);
    HighIdentity(uh, ul, n, qh, b);
    NonNegativeProduct(qh, ul);
  }

  lemma HighQuotient(n: nat, uh: nat, qh: int, b: nat)
    requires uh > 0 && n < uh * b && 0 <= n - qh * uh < uh
    ensures 0 <= qh < b
  {
    MulCommutes(uh, b);
    MulCancelLt(qh, b, uh);
    MulCancelLt(-1, qh, uh);
  }

  lemma NonNegativeProduct(x: nat, y: nat)
    ensures x * y >= 0
  {
  }

  lemma HighIdentity(uh: int, ul: int, n: int, qh: int, b: int)
    ensures b * n + b - 1 == qh * (uh * b + ul) + ((n - qh * uh) * b + b - 1) - qh * ul
  {
  }

  lemma HighCorrected(u1: nat, uh: nat, ul: nat, n: nat, q0: nat, r0: nat, p: nat, j: int, b: nat)
    requires b * n + b - 1 == q0 * u1 + r0 - p && r0 < u1 && 0 <= j <= 2 && b > 0
    requires 0 <= r0 + j * u1 - p < u1
    ensures q0 - j >= 0 && b * n + b - 1 == (q0 - j) * u1 + (r0 + j * u1 - p)
  {
    Distribute(q0, j, u1);
    assert b * n >= 0;
    MulCancelLt(-1, q0 - j, u1);
  }

  /** The high half is the 3/2 inverse of u1 in the half-limb base. */
  lemma HalfInverse(u1: limb, qh: nat, r: limb)
    requires BASE <= 2 * u1 && r < u1 && HALF * (BASE - 1 - u1) + HALF - 1 == qh * u1 + r
    ensures IsInverse32(HALF, u1, qh)
  {
    BaseFacts();
    HalfInverseInts(u1, qh, r, HALF, BASE);
  }

  lemma HalfInverseInts(u1: int, qh: int, r: int, b: int, base: int)
    requires base == b * b && b * (base - 1 - u1) + b - 1 == qh * u1 + r
    ensures u1 * (b + qh) == b * b * b - 1 - r
  {
    assert b * (base - 1 - u1) == b * (b * b) - b - b * u1;
    assert u1 * (b + qh) == b * u1 + qh * u1;
  }

  /** b * r + b - 1. */
  function LowDividend(r: limb): int {
    r * HALF + (HALF - 1)
  }

  /** The half-limb quotient estimate of the low half. */
  lemma LowCandidate(u1: limb, qh: nat, r: limb, q1: nat, q0: nat)
    requires IsInverse32(HALF, u1, qh) && r < u1 && BASE <= 2 * u1 && q0 < HALF
    requires q1 * HALF + q0 == HighHalf(r) * qh + r
    ensures q1 < HALF
    ensures var x := Excess(LowDividend(r), q1, u1);
      x + u1 >= 0 && q0 * HALF < x + BASE && (x < BASE - u1 || x < q0 * HALF)
  {
    hide HighHalf, LowHalf, IsInverse32;
    BaseFacts();
    var n2, n1 := HighHalf(r), LowHalf(r);
    assert r == n2 * HALF + n1;
    LowInts(n2, n1, qh, HALF);
    Step32(HALF, u1, qh, n2, n1, HALF - 1, q1, q0, Excess(LowDividend(r), q1, u1));
  }

  lemma LowInts(n2: int, n1: int, qh: int, b: int)
    ensures n2 * qh + (n2 * b + n1) == n2 * (b + qh) + n1
    ensures (n2 * b + n1) * b == n2 * (b * b) + n1 * b
  {
  }

  lemma LowFactor(u1: limb, r: limb, ql: nat) returns (m: int)
    requires ql >= 1 && ShiftHalf(r) + (HALF - 1) < BASE
    ensures Wrap(ShiftHalf(r) + (HALF - 1) - Wrap(ql * u1)) == Excess(LowDividend(r), ql - 1, u1) + m * BASE
  {
    hide Wrap, ShiftHalf, LowHalf, HighHalf;
    BaseFacts();
    var h := HighHalf(r);
    assert r * HALF == h * BASE + ShiftHalf(r) by { ShiftedHalves(r); }
    WrapCong(ql * u1);
    CongIntro(r * HALF + (HALF - 1), ShiftHalf(r) + (HALF - 1), BASE, h);
    CongAdd(ShiftHalf(r) + (HALF - 1), r * HALF + (HALF - 1), Wrap(ql * u1), ql * u1, BASE);
    var y := ShiftHalf(r) + (HALF - 1) - Wrap(ql * u1);
    WrapCong(y);
    CongTrans(Wrap(y), y, r * HALF + (HALF - 1) - ql * u1, BASE);
    m := CongElim(Wrap(y), r * HALF + (HALF - 1) - ql * u1, BASE);
  }

  lemma ShiftedHalves(r: limb)
    ensures r * HALF == HighHalf(r) * BASE + ShiftHalf(r)
  {
    hide ShiftHalf, LowHalf, HighHalf;
    BaseFacts();
    LowInts(HighHalf(r), LowHalf(r), 0, HALF);
    assert r == HighHalf(r) * HALF + LowHalf(r);
  }

  /** Joining the two half-limb quotients. */
  lemma JoinHalves(u1: limb, qh: nat, r: limb, q: nat, r2: limb)
    requires HALF * (BASE - 1 - u1) + HALF - 1 == qh * u1 + r
    requires LowDividend(r) == q * u1 + r2 && qh < HALF && q < HALF
    ensures qh * HALF + q < BASE && (BASE + (qh * HALF + q)) * u1 + r2 == BASE_SQ - 1
  {
    BaseFacts();
    ShiftSplit(HALF, 0, qh);
    JoinInts(u1, qh, r, q, r2, HALF, BASE);
  }

  lemma JoinInts(u1: int, qh: int, r: int, q: int, r2: int, b: int, base: int)
    requires base == b * b && b * (base - 1 - u1) + b - 1 == qh * u1 + r && r * b + (b - 1) == q * u1 + r2
    ensures (base + (qh * b + q)) * u1 + r2 == base * base - 1
  {
    assert (b * (base - 1 - u1) + b - 1) * b == (qh * u1 + r) * b;
    JoinLeft(u1, b, base);
    JoinRight(u1, qh, r, q, b, base);
  }

  lemma JoinLeft(u1: int, b: int, base: int)
    requires base == b * b
    ensures (b * (base - 1 - u1) + b - 1) * b == base * base - base * u1 - b
  {
    assert (b * (base - 1 - u1) + b - 1) * b == base * (base - 1 - u1) + base - b;
  }

  lemma JoinRight(u1: int, qh: int, r: int, q: int, b: int, base: int)
    ensures (qh * u1 + r) * b == qh * b * u1 + r * b
    ensures (base + (qh * b + q)) * u1 == base * u1 + qh * b * u1 + q * u1
  {
  }

  lemma HalfQuotientInRange(r: limb, u1: limb, q: int, r2: nat)
    requires r < u1 && LowDividend(r) == q * u1 + r2 && r2 < u1
    ensures 0 <= q < HALF
  {
    BaseFacts();
    MulMonotone(HALF, r + 1, u1);
    Distribute(r, 1, HALF);
    MulCancelLt(-1, q, u1);
    MulCommutes(HALF, u1);
    MulCancelLt(q, HALF, u1);
  }

  /** The window of the half-limb step, with the threshold the code compares against. */
  lemma LowWindow(u1: limb, qh: nat, r: limb, p: limb)
    requires IsInverse32(HALF, u1, qh) && r < u1 && BASE <= 2 * u1 && qh < HALF && p == LowSum(u1, qh, r)
    ensures var x := Excess(LowDividend(r), HighHalf(p), u1);
      x + u1 >= 0 && ShiftHalf(p) < x + BASE && (x < BASE - u1 || x < ShiftHalf(p))
    ensures ShiftHalf(r) + (HALF - 1) < BASE
  {
    hide *;
    LowCandidate(u1, qh, r, HighHalf(p), LowHalf(p));
    SmallSums(0, HALF - 1, r);
  }

  /** The half-limb quotient after its first correction. */
  method LowStep(u1: limb, qh: nat, r: limb) returns (ql: nat, r2: limb, ghost q1: int, ghost e: int)
    requires IsInverse32(HALF, u1, qh) && r < u1 && BASE <= 2 * u1 && qh < HALF
    ensures ql == q1 + 1 - e && 0 <= e <= 1 && r2 < 2 * u1 && ql <= HALF
    ensures r2 == Excess(LowDividend(r), q1, u1) + Times(e, u1)
  {
    hide *;
    BasePos();
    var p: limb := LowSum(u1, qh, r);
    LowWindow(u1, qh, r, p);
    q1 := HighHalf(p);
    ghost var x := Excess(LowDividend(r), q1, u1);
    ql := HighHalf(p) + 1;
    ghost var k := LowFactor(u1, r, ql);
    r2 := Wrap(ShiftHalf(r) + (HALF - 1) - Wrap(ql * u1));
    Outcome(r2, x, u1, ShiftHalf(p), k, BASE);
    var adjust := r2 >= ShiftHalf(p);
    if adjust {
      ql := ql - 1;
    }
    r2, e := AddBack(r2, u1, adjust, x);
    RemainderRange(x, u1, e, r2, BASE);
  }

  /** The low half by a 3/2 step on half-limbs: m is the 2/1 inverse of u1 and r2 its remainder. */
  method InvertLow(u1: limb, qh: nat, r: limb) returns (m: limb, r2: limb)
    requires BASE <= 2 * u1 && qh < HALF && r < u1
    requires HALF * (BASE - 1 - u1) + HALF - 1 == qh * u1 + r
    ensures r2 < u1 && (BASE + m) * u1 + r2 == BASE_SQ - 1
  {
    hide *;
    HalfInverse(u1, qh, r);
    ghost var e, f, q1;
    var ql;
    ql, r2, q1, e := LowStep(u1, qh, r);
    m := Wrap(Halves(qh, ql));
    var again := r2 >= u1;
    ghost var r1 := r2;
    r2, f := SubtractOnce(r2, u1);
    BelowDivisor(r1, u1, f, r2);
    LowResult(u1, qh, r, q1, e, f, r2);
    if again {
      HalvesNext(qh, ql);
      WrapAgain(Halves(qh, ql), 1);
      m := Wrap(m + 1);
    }
  }

  function Halves(h: nat, l: int): int {
    h * HALF + l
  }

  lemma HalvesNext(h: nat, l: int)
    ensures Halves(h, l + 1) == Halves(h, l) + 1
  {
  }

  lemma LowResult(u1: limb, qh: nat, r: limb, q1: int, e: int, f: int, r2: limb)
    requires HALF * (BASE - 1 - u1) + HALF - 1 == qh * u1 + r && qh < HALF && r < u1
    requires r2 < u1 && r2 == Excess(LowDividend(r), q1, u1) + Times(e, u1) - Times(f, u1)
    ensures (BASE + Wrap(Halves(qh, q1 + 1 - e + f))) * u1 + r2 == BASE_SQ - 1
  {
    hide *;
    var q := q1 + 1 - e + f;
    RegroupQuotient(LowDividend(r), u1, q1, e, f, Excess(LowDividend(r), q1, u1), r2);
    HalfQuotientInRange(r, u1, q, r2);
    JoinedLow(u1, qh, r, q, r2);
  }

  lemma JoinedLow(u1: limb, qh: nat, r: limb, q: nat, r2: limb)
    requires HALF * (BASE - 1 - u1) + HALF - 1 == qh * u1 + r && qh < HALF && q < HALF
    requires LowDividend(r) == q * u1 + r2
    ensures (BASE + Wrap(Halves(qh, q))) * u1 + r2 == BASE_SQ - 1
  {
    hide LowDividend, Wrap;
    JoinHalves(u1, qh, r, q, r2);
    JoinNonNegative(qh, q);
    WrapIs(Halves(qh, q), 0, Halves(qh, q));
  }

  lemma JoinNonNegative(qh: nat, q: nat)
    ensures qh * HALF + q >= 0
  {
  }

  /** (r >> biH) * qh + r, which does not overflow. */
  function LowSum(u1: limb, qh: nat, r: limb): (p: limb)
    requires IsInverse32(HALF, u1, qh) && r < u1 && qh < HALF
    ensures HighHalf(p) * HALF + LowHalf(p) == HighHalf(r) * qh + r
  {
    LowSumFits(u1, qh, r);
    HighHalf(r) * qh + r
  }

  lemma LowSumFits(u1: limb, qh: nat, r: limb)
    requires IsInverse32(HALF, u1, qh) && r < u1
    ensures 0 <= HighHalf(r) * qh + r < BASE
  {
    hide *;
    BaseFacts();
    InverseProduct(HALF, u1, qh);
    LowInts(HighHalf(r), LowHalf(r), qh, HALF);
    EstimateInts(HALF, u1, HALF + qh, HighHalf(r), LowHalf(r));
    MulMonotone(qh, 0, HighHalf(r));
  }

  lemma InverseProduct(b: nat, D: nat, v: nat)
    requires IsInverse32(b, D, v)
    ensures b >= 2 && D * (b + v) < b * b * b
  {
  }

  // ---- from the 2/1 inverse to the 3/2 inverse ----

  /** (B + v) * u1 + u0 - B^2, which the correction brings into [-u1, 0). */
  function Deficit(u1: limb, u0: limb, v: int): int {
    (BASE + v) * u1 + u0 - BASE_SQ
  }

  lemma DeficitStep(u1: limb, u0: limb, v: int)
    ensures Deficit(u1, u0, v - 1) == Deficit(u1, u0, v) - u1
  {
    Distribute(BASE + v, 1, u1);
  }

  lemma DeficitKeepsSign(u1: limb, u0: limb, v: int)
    requires Deficit(u1, u0, v) + u1 >= 0 && u1 > 0
    ensures v >= 0
  {
    DeficitInts(u1, u0, v, BASE);
  }

  lemma DeficitInts(u1: int, u0: int, v: int, b: int)
    requires (b + v) * u1 + u0 - b * b + u1 >= 0 && 0 < u1 < b && u0 < b
    ensures v >= 0
  {
    assert (b + v) * u1 + u1 == (b + v + 1) * u1;
    MulMonotone(b, u1, b - 1);
    assert (b - 1) * b == b * b - b;
    MulCancelLt(b, b + v + 1, u1);
  }

  /** Absorb u0 into the one-limb inverse: at most two decrements. */
  method AbsorbLow(u1: limb, u0: limb, m: limb, r: limb) returns (v: limb, s: limb)
    requires BASE <= 2 * u1 && r < u1 && (BASE + m) * u1 + r == BASE_SQ - 1
    ensures 0 <= Deficit(u1, u0, v) + u1 < u1 && s == Deficit(u1, u0, v) + BASE
  {
    hide Deficit, Wrap, BASE_SQ;
    ghost var d := Deficit(u1, u0, m);
    DeficitStart(u1, u0, m, r);
    WrapIs(-1 - r, -1, BASE - 1 - r);
    s := Wrap(-1 - r);
    WrapAdd(s, u0);
    s := Wrap(s + u0);
    v := m;
    if s < u0 {
      DeficitStep(u1, u0, m);
      ghost var x: int := m - 1;
      var twice := s >= u1;
      if twice {
        DeficitStep(u1, u0, m - 1);
        WrapSub(s, u1);
        s := Wrap(s - u1);
        x := m - 2;
      }
      WrapSub(s, u1);
      s := Wrap(s - u1);
      DeficitKeepsSign(u1, u0, x);
      WrapIs(m - 1, 0, m - 1);
      v := Wrap(m - 1);
      if twice {
        WrapIs(v - 1, 0, v - 1);
        v := Wrap(v - 1);
      }
    }
  }

  lemma DeficitStart(u1: limb, u0: limb, m: limb, r: limb)
    requires (BASE + m) * u1 + r == BASE_SQ - 1
    ensures Deficit(u1, u0, m) == u0 - 1 - r
  {
  }

  /** (B + v) * D against B^3. */
  lemma OvershootInts(u1: int, u0: int, v: int, th: int, tl: int, d: int, b: int)
    requires d == (b + v) * u1 + u0 - b * b && th * b + tl == u0 * v
    ensures (u1 * b + u0) * (b + v) == b * b * b + b * (d + th) + tl
  {
    var x := (b + v) * u1;
    OvershootLeft(u1, u0, v, b);
    Distribute(d, th, b);
    OvershootRight(x, u0, b);
    MulCommutes(b, th);
  }

  lemma OvershootLeft(u1: int, u0: int, v: int, b: int)
    ensures (u1 * b + u0) * (b + v) == (b + v) * u1 * b + b * u0 + u0 * v
  {
  }

  lemma OvershootRight(x: int, u0: int, b: int)
    ensures b * (x + u0 - b * b) == x * b + b * u0 - b * b * b
  {
  }

  lemma Overshoot(u1: limb, u0: limb, v: limb, th: limb, tl: limb)
    requires Pair(th, tl) == u0 * v
    ensures Pair(u1, u0) * (BASE + v) == BASE * BASE * BASE + BASE * (Deficit(u1, u0, v) + th) + tl
  {
    OvershootInts(u1, u0, v, th, tl, Deficit(u1, u0, v), BASE);
  }

  lemma InverseIntro(D: nat, v: int, e: int)
    requires D * (BASE + v) == BASE * BASE * BASE + e && e < 0 && e + D >= 0
    requires D < BASE * BASE <= 2 * D
    ensures v >= 0 && IsInverse32(BASE, D, v)
  {
    BaseFacts();
    Distribute(BASE + v, 1, D);
    MulMonotone(BASE, D + 1, BASE * BASE);
    assert (D + 1) * BASE == D * BASE + BASE;
    assert D * (BASE + v + 1) > D * BASE;
    MulCommutes(D, BASE + v + 1);
    MulCommutes(D, BASE);
    MulCancelLt(BASE, BASE + v + 1, D);
  }

  lemma {:induction false} PowTwoDivisor(a: nat, w: nat, n: nat) returns (k: nat)
    requires a * w == Pow2(n)
    ensures k <= n && a == Pow2(k)
    decreases n
  {
    hide Pow2;
    Pow2Facts(n);
    if n == 0 {
      k := 0;
      UnitFactor(a, w);
    } else if a % 2 == 0 {
      HalfFactor(a, w, Pow2(n - 1));
      k := PowTwoDivisor(a / 2, w, n - 1);
      Pow2Facts(k + 1);
      k := k + 1;
    } else {
      OddTimes(a, w, Pow2(n - 1));
      HalfFactor(w, a, Pow2(n - 1));
      MulCommutes(a, w / 2);
      k := PowTwoDivisor(a, w / 2, n - 1);
    }
  }

  lemma Pow2Facts(n: nat)
    ensures Pow2(0) == 1
    ensures n > 0 ==> Pow2(n) == 2 * Pow2(n - 1)
  {
  }

  lemma UnitFactor(a: nat, w: nat)
    requires a * w == 1
    ensures a == 1
  {
    if a >= 2 {
      if w >= 1 {
        MulMonotone(a, 1, w);
      }
    }
  }

  lemma HalfFactor(a: nat, w: nat, p: nat)
    requires a % 2 == 0 && (a * w == 2 * p || w * a == 2 * p)
    ensures a / 2 * w == p
  {
    var h := a / 2;
    assert a == 2 * h;
    MulCommutes(a, w);
    MulAssoc(2, h, w);
  }

  lemma OddTimes(a: nat, w: nat, p: nat)
    requires a % 2 == 1 && a * w == 2 * p
    ensures w % 2 == 0
  {
    var m, n, t := a / 2, w / 2, w % 2;
    assert a == 2 * m + 1 && w == 2 * n + t;
    assert (2 * m + 1) * (2 * n + t) == 2 * (2 * (m * n) + m * t + n) + t;
  }

  /** A normalised divisor with a nonzero low limb does not divide B^3. */
  lemma NoExactCube(u1: limb, u0: limb, w: nat)
    requires BASE <= 2 * u1 && u0 > 0
    ensures Pair(u1, u0) * w != BASE * BASE * BASE
  {
    if Pair(u1, u0) * w == BASE * BASE * BASE {
      hide Pow2, Pair;
      CubeIsPow2();
      var k := PowTwoDivisor(Pair(u1, u0), w, 3 * LIMB_BITS);
      PowerGap(k);
      AboveHalf(u1, u0);
    }
  }

  lemma CubeIsPow2()
    ensures BASE * BASE * BASE == Pow2(3 * LIMB_BITS) && BASE_SQ == Pow2(2 * LIMB_BITS)
  {
    hide Pow2;
    BaseIsPow2();
    PowTwoAdd(LIMB_BITS, LIMB_BITS);
    PowTwoAdd(2 * LIMB_BITS, LIMB_BITS);
  }

  /** No power of two lies strictly between B^2 / 2 and B^2. */
  lemma PowerGap(k: nat)
    ensures Pow2(k) < BASE_SQ ==> 2 * Pow2(k) <= BASE_SQ
  {
    hide Pow2, BASE_SQ;
    CubeIsPow2();
    if k >= 2 * LIMB_BITS {
      Pow2Monotone(2 * LIMB_BITS, k);
    } else {
      Pow2Monotone(k + 1, 2 * LIMB_BITS);
      Pow2Facts(k + 1);
    }
  }

  lemma AboveHalf(u1: limb, u0: limb)
    requires BASE <= 2 * u1 && u0 > 0
    ensures BASE_SQ < 2 * Pair(u1, u0) && Pair(u1, u0) < BASE_SQ
  {
    PairBound(u1, u0);
    MulMonotone(BASE, BASE, 2 * u1);
    MulAssoc(2, u1, BASE);
  }

  /** (s, tl) > (u1, u0) exactly when one decrement is not enough; equality cannot occur. */
  lemma SecondDecrement(u1: limb, u0: limb, v: limb, x: nat, tl: limb)
    requires BASE <= 2 * u1 && u0 > 0 && x < BASE
    requires Pair(u1, u0) * (BASE + v) == BASE * BASE * BASE + BASE * x + tl
    requires BASE * x + tl < 2 * Pair(u1, u0)
    ensures x > u1 || (x == u1 && tl > u0) ==> v >= 2 && IsInv3(u1, u0, v - 2)
    ensures !(x > u1 || (x == u1 && tl > u0)) ==> v >= 1 && IsInv3(u1, u0, v - 1)
  {
    hide Pair, IsInverse32;
    var D, e := Pair(u1, u0), BASE * x + tl;
    assert e == Pair(x, tl) by { PairIs(x, tl); MulCommutes(BASE, x); }
    PairOrder(x, tl, u1, u0);
    AboveHalf(u1, u0);
    Distribute(BASE + v, 1, D);
    Distribute(BASE + v, 2, D);
    if x > u1 || (x == u1 && tl > u0) {
      PairOrder(u1, u0, x, tl);
      InverseIntro(D, v - 2, e - 2 * D);
    } else {
      if x == u1 && tl == u0 {
        NoExactCube(u1, u0, BASE + v - 1);
      }
      PairOrder(u1, u0, x, tl);
      InverseIntro(D, v - 1, e - D);
    }
  }

  lemma SumBound(u1: limb, u0: limb, v: limb, th: limb, tl: limb, d: int)
    requires Pair(th, tl) == u0 * v && 0 <= d + u1 < u1 && BASE <= 2 * u1
    ensures BASE * (d + th) + tl < 2 * Pair(u1, u0)
    ensures BASE * (d + th) + tl + Pair(u1, u0) >= 0
    ensures d + th < 0 ==> BASE * (d + th) + tl < 0
    ensures Pair(u1, u0) < BASE * BASE <= 2 * Pair(u1, u0)
  {
    hide BASE;
    PairBound(u1, u0);
    SquareBound(u0, v, BASE);
    SumBoundInts(u1, u0, th, tl, d, u0 * v, BASE);
  }

  lemma SumBoundInts(u1: int, u0: int, th: int, tl: int, d: int, p: int, b: int)
    requires th * b + tl == p < b * b && 0 <= d + u1 && d < 0 && 0 < b <= 2 * u1 && 0 <= tl < b && 0 <= u0
    ensures b * (d + th) + tl < 2 * (u1 * b + u0)
    ensures 0 <= p ==> b * (d + th) + tl + (u1 * b + u0) >= 0
    ensures d + th < 0 ==> b * (d + th) + tl < 0
    ensures b * b <= 2 * (u1 * b + u0)
  {
    Distribute(d, th, b);
    MulCommutes(th, b);
    MulMonotone(b, d, -1);
    MulMonotone(b, -u1, d);
    MulMonotone(b, b, 2 * u1);
    MulAssoc(2, u1, b);
    assert b * -u1 == -(u1 * b);
    if d + th < 0 {
      MulMonotone(b, d + th, -1);
    }
  }

  /** Turn the 2/1 inverse into the 3/2 inverse for u0 > 0. */
  method AdjustInverse(u1: limb, u0: limb, m: limb, r: limb) returns (v: limb)
    requires BASE <= 2 * u1 && u0 > 0 && r < u1 && (BASE + m) * u1 + r == BASE_SQ - 1
    ensures IsInv3(u1, u0, v)
  {
    hide *;
    BasePos();
    var s;
    v, s := AbsorbLow(u1, u0, m, r);
    var th, tl := UmulPpmm(u0, v);
    Overshoot(u1, u0, v, th, tl);
    ghost var d := Deficit(u1, u0, v);
    SumBound(u1, u0, v, th, tl, d);
    WrapAdd(s, th);
    s := Wrap(s + th);
    if s < th {
      SecondDecrement(u1, u0, v, s, tl);
      WrapIs(v - 1, 0, v - 1);
      v := Wrap(v - 1);
      if s > u1 || (s == u1 && tl > u0) {
        WrapIs(v - 1, 0, v - 1);
        v := Wrap(v - 1);
      }
    } else {
      InverseIntro(Pair(u1, u0), v, BASE * (d + th) + tl);
      IsInv3Intro(u1, u0, v);
    }
  }

  lemma IsInv3Intro(u1: limb, u0: limb, v: limb)
    requires IsInverse32(BASE, Pair(u1, u0), v)
    ensures IsInv3(u1, u0, v)
  {
  }

  /** For u0 = 0 the one-limb inverse is already the 3/2 inverse. */
  lemma InverseOfOneLimb(u1: limb, m: limb, r: limb)
    requires BASE <= 2 * u1 && r < u1 && (BASE + m) * u1 + r == BASE_SQ - 1
    ensures IsInv3(u1, 0, m) && IsInverse21(BASE, u1, m)
  {
    BaseFacts();
    MulCommutes(u1, BASE + m);
    OneLimbInts(u1, m, r, BASE);
    MulMonotone(BASE, BASE, 2 * u1);
    MulAssoc(2, u1, BASE);
    PairBound(u1, 0);
  }

  lemma OneLimbInts(u1: int, m: int, r: int, b: int)
    requires (b + m) * u1 + r == b * b - 1 && 0 <= r < u1 && b > 0
    ensures u1 * b * (b + m) < b * b * b <= u1 * b * (b + m) + u1 * b
  {
    OneLimbProduct(u1, m, b);
    OneLimbScale(r, b);
    MulMonotone(b, 1 + r, u1);
    MulMonotone(b, 1, 1 + r);
  }

  lemma OneLimbProduct(u1: int, m: int, b: int)
    ensures u1 * b * (b + m) == (b + m) * u1 * b
  {
  }

  lemma OneLimbScale(r: int, b: int)
    ensures (b * b - 1 - r) * b == b * b * b - (1 + r) * b
  {
  }

  /** floor((B^3 - 1) / (B u1 + u0)) - B for a normalised u1. */
  method MpnInvert3by2(u1: limb, u0: limb) returns (m: limb)
    requires BASE <= 2 * u1
    ensures IsInv3(u1, u0, m)
    ensures u0 == 0 ==> IsInverse21(BASE, u1, m)
  {
    hide *;
    var qh, r := InvertHigh(u1);
    m, r := InvertLow(u1, qh, r);
    if u0 > 0 {
      m := AdjustInverse(u1, u0, m, r);
    } else {
      InverseOfOneLimb(u1, m, r);
    }
  }

  /** The inverse is the closed form of its definition. */
  lemma InverseClosedForm(b: nat, D: nat, v: nat)
    requires D > 0 && IsInverse32(b, D, v)
    ensures v == (b * b * b - 1) / D - b
  {
    MulCommutes(D, b + v);
    DivModUnique(b * b * b - 1, D, b + v, b * b * b - 1 - D * (b + v));
  }
}
