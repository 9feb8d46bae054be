/** Multi-limb division by precomputed inverses. */
module MiniGmpDiv {
  import opened Arith
  import opened Limbs
  import opened BignumCore
  import opened MiniGmpRecip

  // ---- rp -= up * v ----

  /** r holds, up to pos, the low part of r0 - u * v, and c is the pending borrow. */
  ghost predicate SubMulInv(r: seq<limb>, r0: seq<limb>, u: seq<limb>, v: limb, c: limb, pos: nat) {
    && |r| == |r0| == |u| && pos <= |r|
    && r[pos..] == r0[pos..]
    && Val(r[..pos]) - c * Pb(pos) == Val(r0[..pos]) - Val(u[..pos]) * v
  }

  lemma SubMulStart(r: seq<limb>, u: seq<limb>, v: limb)
    requires |r| == |u|
    ensures BASE > 0 && SubMulInv(r, r, u, v, 0, 0)
  {
    BasePos();
    ValEmpty(r[..0]);
    ValEmpty(u[..0]);
  }

  lemma SubMulStep(r: seq<limb>, r0: seq<limb>, u: seq<limb>, v: limb, c: limb, pos: nat, lo: limb, c': limb)
    requires SubMulInv(r, r0, u, v, c, pos) && pos < |r|
    requires lo - c' * BASE == r[pos] - (u[pos] * v + c)
    ensures SubMulInv(r[pos := lo], r0, u, v, c', pos + 1)
  {
    hide Val, Pb;
    PrefixPut(r, pos, lo);
    ValStep(r0, pos);
    ValStep(u, pos);
    PbStep(pos);
    assert r[pos] == r[pos..][0] == r0[pos];
    assert r[pos := lo][pos + 1..] == r[pos..][1..] == r0[pos + 1..];
    SubMulDigit(Val(r[..pos]), Val(r0[..pos]), Val(u[..pos]), c, v, lo, c', u[pos], r0[pos], Pb(pos), BASE);
  }

  lemma SubMulDigit(vd: int, v0: int, vs: int, c: int, b: int, lo: int, hi: int, x: int, y: int, p: int, base: int)
    requires vd - c * p == v0 - vs * b
    requires lo - hi * base == y - (x * b + c)
    ensures vd + lo * p - hi * (base * p) == v0 + y * p - (vs + x * p) * b
  {
    assert (lo - hi * base) * p == (y - (x * b + c)) * p;
  }

  /** One limb of the multiply-and-subtract. */
  method SubMulDigitStep(rl: limb, ul: limb, v: limb, cl: limb) returns (lo: limb, c: limb)
    ensures lo - c * BASE == rl - (ul * v + cl)
  {
    hide Wrap, Pair;
    BaseFacts();
    var hpl, lpl := UmulPpmm(ul, v);
    PairIs(hpl, lpl);
    SquareBound(ul, v, BASE);
    WrapAdd(lpl, cl);
    lpl := Wrap(lpl + cl);
    ghost var carry := if lpl < cl then 1 else 0;
    HighProductBound(hpl, lpl, carry, ul * v + cl, BASE);
    c := (if lpl < cl then 1 else 0) + hpl;
    WrapSub(rl, lpl);
    lo := Wrap(rl - lpl);
    BorrowFits(c, lpl, if lo > rl then 1 else 0, ul * v + cl, BASE);
    c := c + if lo > rl then 1 else 0;
  }

  lemma HighProductBound(h: int, l: int, carry: int, x: int, b: int)
    requires h * b + l + carry * b == x && x <= b * b - 2 * b + 1 + b - 1 && b > 0 && l >= 0
    ensures h + carry < b && (h + carry) * b + l == x
  {
    Distribute(h, carry, b);
    assert b * b - b == (b - 1) * b;
    MulCancelLt(h + carry, b, b);
  }

  lemma BorrowFits(c: int, l: int, borrow: int, x: int, b: int)
    requires c * b + l == x && x <= b * b - b && b > 0 && 0 <= l && 0 <= borrow <= 1 && (borrow == 1 ==> l > 0)
    ensures c + borrow < b
    ensures (c + borrow) * b == c * b + borrow * b
  {
    assert b * b - b == (b - 1) * b;
    if borrow == 1 {
      MulCancelLt(c, b - 1, b);
    } else {
      MulCancelLt(c, b, b);
    }
  }

  /** np[off..off+n] -= dp[..n] * v; the result is the borrow. */
  method SubMul1(np: array<limb>, off: nat, dp: array<limb>, n: nat, v: limb) returns (cl: limb)
    requires off + n <= np.Length && n <= dp.Length && np != dp
    modifies np
    ensures Val(np[off..off + n]) - cl * Pb(n) == Val(old(np[off..off + n])) - Val(dp[..n]) * v
    ensures np[..off] == old(np[..off]) && np[off + n..] == old(np[off + n..])
  {
    hide Val, Pb;
    BasePos();
    ghost var r0, u := np[off..off + n], dp[..n];
    SubMulStart(r0, u, v);
    cl := 0;
    var i := 0;
    while i < n
      invariant i <= n && dp[..n] == u
      invariant SubMulInv(np[off..off + n], r0, u, v, cl, i)
      invariant np[..off] == old(np[..off]) && np[off + n..] == old(np[off + n..])
    {
      ghost var w := np[off..off + n];
      assert u[i] == dp[i] && w[i] == np[off + i];
      var lo, c := SubMulDigitStep(np[off + i], dp[i], v, cl);
      SubMulStep(w, r0, u, v, cl, i, lo, c);
      np[off + i] := lo;
      assert np[off..off + n] == w[i := lo];
      cl, i := c, i + 1;
    }
    assert np[off..off + n][..n] == np[off..off + n] && r0[..n] == r0 && u[..n] == u;
  }

  /** np[off..off+n] += dp[..n]; the result is the carry. */
  method AddN(np: array<limb>, off: nat, dp: array<limb>, n: nat) returns (c: limb)
    requires off + n <= np.Length && n <= dp.Length && np != dp
    modifies np
    ensures Val(np[off..off + n]) + c * Pb(n) == Val(old(np[off..off + n])) + Val(dp[..n])
    ensures np[..off] == old(np[..off]) && np[off + n..] == old(np[off + n..])
  {
    hide Val, Pb;
    BaseFacts();
    ghost var r0, u := np[off..off + n], dp[..n];
    MlaInvStart(r0, u, 1);
    c := 0;
    var i := 0;
    while i < n
      invariant i <= n && dp[..n] == u && c <= 1
      invariant MlaInv(np[off..off + n], r0, u, 1, c, i)
      invariant np[..off] == old(np[..off]) && np[off + n..] == old(np[off + n..])
    {
      ghost var w := np[off..off + n];
      assert u[i] == dp[i] && w[i] == np[off + i];
      var t, c' := AddDigit(np[off + i], dp[i], c);
      MlaInvStep(w, r0, u, 1, c, i, t, c');
      np[off + i] := t;
      assert np[off..off + n] == w[i := t];
      c, i := c', i + 1;
    }
    assert np[off..off + n][..n] == np[off..off + n] && r0[..n] == r0 && u[..n] == u;
  }

  // ---- one quotient limb ----

  /** The value of a window of k + 2 limbs by its top two limbs. */
  lemma TopTwoOfWindow(w: seq<limb>, k: nat)
    requires |w| == k + 2
    ensures Val(w) == Val(w[..k]) + Pair(w[k + 1], w[k]) * Pb(k)
  {
    hide Val, Pb;
    ValStep(w, k);
    ValStep(w, k + 1);
    assert w[..k + 2] == w;
    PbStep(k);
    TopTwoInts(w[k + 1], w[k], Pb(k), BASE);
  }

  lemma TopTwoInts(h: int, l: int, p: int, b: int)
    ensures l * p + h * (b * p) == (h * b + l) * p
  {
  }

  /** n1 followed by a window of k + 2 limbs. */
  lemma TopThreeOfWindow(n1: limb, w: seq<limb>, k: nat)
    requires |w| == k + 2
    ensures n1 * Pb(k + 2) + Val(w) == Val(w[..k]) + Triple(n1, w[k + 1], w[k]) * Pb(k)
  {
    hide Val, Pb;
    TopTwoOfWindow(w, k);
    PbStep(k);
    PbStep(k + 1);
    TopThreeInts(n1, w[k + 1], w[k], Pb(k), BASE);
  }

  lemma TopThreeInts(n: int, h: int, l: int, p: int, b: int)
    ensures n * (b * (b * p)) + (h * b + l) * p == (n * (b * b) + h * b + l) * p
  {
  }

  /** The partial remainder: n1 over the lower limbs. */
  function Partial(n1: limb, low: seq<limb>): nat {
    n1 * Pb(|low|) + Val(low)
  }

  /** A partial remainder below d has top two limbs at most those of d. */
  lemma PartialTop(n1: limb, n0: limb, low: seq<limb>, dl: nat, D: nat, k: nat)
    requires |low| == k + 1 && low[k] == n0 && Partial(n1, low) < dl + D * Pb(k) && dl < Pb(k)
    ensures Pair(n1, n0) <= D
  {
    hide Val, Pb, Pair;
    ValStep(low, k);
    assert low[..k + 1] == low;
    PbStep(k);
    TopTwoInts(n1, n0, Pb(k), BASE);
    PairIs(n1, n0);
    Distribute(D, 1, Pb(k));
    MulCancelLt(Pair(n1, n0), D + 1, Pb(k));
  }

  /** Equal top limbs: the quotient limb is B - 1. */
  lemma MaximalQuotient(U: nat, D: nat, dl: nat, low: nat, n0: limb, P: nat)
    requires U == low + (D * BASE + n0) * P && dl < P && P > 0 && low >= 0
    requires U < (dl + D * P) * BASE && D + 1 >= BASE
    ensures 0 <= U - (BASE - 1) * (dl + D * P) < dl + D * P
  {
    MaximalInts(U, D, dl, low, n0, P, BASE);
  }

  lemma MaximalInts(U: int, D: int, dl: int, low: int, n0: int, P: int, b: int)
    requires U == low + (D * b + n0) * P && 0 <= dl < P && low >= 0 && n0 >= 0 && b > 0
    requires U < (dl + D * P) * b && D + 1 >= b
    ensures 0 <= U - (b - 1) * (dl + D * P) < dl + D * P
  {
    var d := dl + D * P;
    Distribute(b, 1, d);
    MulCommutes(b, d);
    assert U - (b - 1) * d == U - d * b + d;
    MulMonotone(b - 1, dl, P);
    assert (b - 1) * d == (b - 1) * dl + (b - 1) * D * P;
    assert (D * b + n0) * P == (b - 1) * D * P + D * P + n0 * P;
    assert n0 * P >= 0;
    MulMonotone(P, b - 1, D);
  }

  /** n1 over a window, as the partial remainder of the upper limbs and the lowest limb. */
  lemma BringDown(n1: limb, w: seq<limb>, d: nat)
    requires w != [] && Partial(n1, w[1..]) < d
    ensures n1 * Pb(|w|) + Val(w) == Partial(n1, w[1..]) * BASE + w[0]
    ensures n1 * Pb(|w|) + Val(w) < d * BASE
  {
    hide *;
    ValHead(w);
    PbStep(|w| - 1);
    PartialIs(n1, w[1..]);
    BringDownInts(n1, Pb(|w| - 1), Val(w[1..]), w[0], BASE);
    BelowMultiple(Partial(n1, w[1..]), d, w[0]);
  }

  lemma BelowMultiple(v: nat, d: nat, x: limb)
    requires v < d
    ensures v * BASE + x < d * BASE
  {
    MulMonotone(BASE, v + 1, d);
    Distribute(v, 1, BASE);
  }

  lemma BringDownInts(n1: int, p: int, v: int, x: int, b: int)
    ensures n1 * (b * p) + (x + b * v) == (n1 * p + v) * b + x
  {
  }

  /** The number d by its top two limbs, which are normalised. */
  lemma DivisorParts(dp: seq<limb>, dinv: limb)
    requires |dp| >= 2 && IsInv3(dp[|dp| - 1], dp[|dp| - 2], dinv)
    ensures Val(dp) == Val(dp[..|dp| - 2]) + Pair(dp[|dp| - 1], dp[|dp| - 2]) * Pb(|dp| - 2)
    ensures Val(dp[..|dp| - 2]) < Pb(|dp| - 2)
    ensures BASE_SQ <= 2 * Pair(dp[|dp| - 1], dp[|dp| - 2])
  {
    hide Val, Pb, Pair;
    TopTwoOfWindow(dp, |dp| - 2);
    ValBound(dp[..|dp| - 2]);
  }

  lemma LargePair(D: nat)
    requires BASE_SQ <= 2 * D
    ensures D >= BASE
  {
    BaseFacts();
    MulMonotone(BASE, 256, BASE);
  }

  /** The case of equal top limbs. */
  method EqualTopLimb(np: array<limb>, i: nat, n1: limb, dp: array<limb>, dn: nat, ghost dinv: limb) returns (q: limb, n1': limb)
    requires dn > 2 && i + dn <= np.Length && dn <= dp.Length && np != dp
    requires IsInv3(dp[dn - 1], dp[dn - 2], dinv) && n1 == dp[dn - 1] && np[i + dn - 1] == dp[dn - 2]
    requires Partial(n1, np[i + 1..i + dn]) < Val(dp[..dn])
    modifies np
    ensures n1 * Pb(dn) + Val(old(np[i..i + dn])) == q * Val(dp[..dn]) + Partial(n1', np[i..i + dn - 1])
    ensures Partial(n1', np[i..i + dn - 1]) < Val(dp[..dn])
    ensures np[..i] == old(np[..i]) && np[i + dn..] == old(np[i + dn..])
  {
    hide *;
    BasePos();
    ghost var w, dv, k := np[i..i + dn], dp[..dn], dn - 2;
    ghost var d, U := Val(dv), n1 * Pb(dn) + Val(w);
    assert w[1..] == np[i + 1..i + dn];
    BringDown(n1, w, d);
    DivisorParts(dv, dinv);
    TopThreeOfWindow(n1, w, k);
    PbPositive(k);
    ghost var D := Pair(dp[dn - 1], dp[dn - 2]);
    TripleOfPair(n1, w[k + 1], w[k]);
    assert dv[..k] == dp[..k];
    LargePair(D);
    MaximalQuotient(U, D, Val(dp[..k]), Val(w[..k]), w[k], Pb(k));
    q := BASE - 1;
    var cl := SubMul1(np, i, dp, dn, q);
    assert dp[..dn] == dv;
    n1' := np[i + dn - 1];
    ghost var w' := np[i..i + dn];
    ValBound(w');
    ValBound(dv);
    MulCommutes(d, q);
    NoTopBorrow(n1, cl, Val(w'), U, q * d, Pb(dn), d);
    assert np[i..i + dn - 1] == w'[..dn - 1];
    LastLimb(w');
  }

  lemma TripleOfPair(n2: limb, n1: limb, n0: limb)
    ensures Triple(n2, n1, n0) == Pair(n2, n1) * BASE + n0
  {
    Distribute(n2 * BASE, n1, BASE);
    MulAssoc(n2, BASE, BASE);
  }

  lemma LastLimb(w: seq<limb>)
    requires w != []
    ensures Partial(w[|w| - 1], w[..|w| - 1]) == Val(w)
  {
  }

  lemma NoTopBorrow(n1: int, cl: int, v: int, U: int, qd: int, p: int, d: int)
    requires U - qd == n1 * p + v - cl * p && 0 <= U - qd < d < p && 0 <= v < p
    ensures v == U - qd
  {
    Distribute(n1, cl, p);
    assert U - qd == (n1 - cl) * p + v;
    if n1 - cl >= 1 {
      MulMonotone(p, 1, n1 - cl);
    } else if n1 - cl <= -1 {
      MulMonotone(p, n1 - cl, -1);
    }
  }

  /** After the 3/2 step and the low subtraction the remainder is right or short by one divisor. */
  lemma LowSubtraction(U: int, dl: int, D: int, P: int, low: int, low': int, cy: int, q: int, R: int, t: int)
    requires U == low + t * P && t == q * D + R && low' - cy * P == low - dl * q
    ensures U - q * (dl + D * P) == low' + (R - cy) * P
  {
    assert (q * D + R) * P == q * D * P + R * P;
    assert q * (dl + D * P) == q * dl + q * D * P;
    MulCommutes(dl, q);
  }

  lemma RemainderBelow(dl: nat, D: nat, P: nat, low: nat, q: nat, R: nat)
    requires R < D && low < P && dl < P && q < BASE && BASE <= D
    ensures low - dl * q + R * P < dl + D * P
    ensures low - dl * q + R * P + (dl + D * P) >= 0
  {
    MulMonotone(P, R, D - 1);
    Distribute(D, 1, P);
    assert dl * q >= 0;
    MulMonotone(q, dl, P);
    MulMonotone(P, q, D);
    MulCommutes(P, q);
    assert R * P >= 0;
  }

  /** (n1, n0) - cy with the borrow as a flag. */
  method SubLow(n1: limb, n0: limb, cy: limb) returns (m1: limb, m0: limb, borrow: bool)
    ensures Pair(m1, m0) == Pair(n1, n0) - cy + if borrow then BASE_SQ else 0
  {
    BaseFacts();
    WrapSub(n0, cy);
    var cy1: limb := if n0 < cy then 1 else 0;
    m0 := Wrap(n0 - cy);
    WrapSub(n1, cy1);
    borrow := n1 < cy1;
    m1 := Wrap(n1 - cy1);
    PairSumInts(n1, n0, 0, 0 - cy as int, m1, m0, 0 - cy1 as int, if borrow then -1 else 0, BASE);
  }

  /** A partial remainder written with its top two limbs. */
  lemma PartialSplit(n1: limb, v: seq<limb>, k: nat)
    requires |v| == k + 1
    ensures Partial(n1, v) == Val(v[..k]) + Pair(n1, v[k]) * Pb(k)
  {
    hide Val, Pb;
    ValStep(v, k);
    assert v[..k + 1] == v;
    PbStep(k);
    TopTwoInts(n1, v[k], Pb(k), BASE);
  }

  lemma ScaledBorrow(x: int, P: int, b: bool)
    ensures (x + if b then BASE_SQ else 0) * P == x * P + if b then BASE_SQ * P else 0
  {
    Distribute(x, BASE_SQ, P);
  }

  /** The top two limbs of the partial remainder are below the divisor's. */
  lemma EstimateDefined(w: seq<limb>, dv: seq<limb>, n1: limb, k: nat, dinv: limb)
    requires |w| == |dv| == k + 2 && IsInv3(dv[k + 1], dv[k], dinv)
    requires !(n1 == dv[k + 1] && w[k + 1] == dv[k]) && Partial(n1, w[1..]) < Val(dv)
    ensures Pair(n1, w[k + 1]) < Pair(dv[k + 1], dv[k])
  {
    hide *;
    DivisorParts(dv, dinv);
    PartialTop(n1, w[k + 1], w[1..], Val(dv[..k]), Pair(dv[k + 1], dv[k]), k);
    PairOrder(n1, w[k + 1], dv[k + 1], dv[k]);
    PairOrder(dv[k + 1], dv[k], n1, w[k + 1]);
  }

  /** U - q * d for a window w with high limb n1. */
  function SignedRemainder(n1: limb, w: seq<limb>, q: limb, d: nat): int {
    n1 * Pb(|w|) + Val(w) - q * d
  }

  lemma SignedRemainderIs(n1: limb, w: seq<limb>, q: limb, d: nat)
    ensures SignedRemainder(n1, w, q, d) == n1 * Pb(|w|) + Val(w) - q * d
  {
  }

  /** After the 3/2 step and the low subtraction: the signed remainder and its range. */
  lemma EstimateOutcome(w: seq<limb>, dv: seq<limb>, n1: limb, k: nat, dinv: limb, q: limb, R: nat, cy: limb, low: nat)
    requires |w| == |dv| == k + 2 && IsInv3(dv[k + 1], dv[k], dinv)
    requires Triple(n1, w[k + 1], w[k]) == q * Pair(dv[k + 1], dv[k]) + R && R < Pair(dv[k + 1], dv[k])
    requires low - cy * Pb(k) == Val(w[..k]) - Val(dv[..k]) * q
    ensures SignedRemainder(n1, w, q, Val(dv)) == low + (R - cy) * Pb(k)
    ensures -(Val(dv) as int) <= SignedRemainder(n1, w, q, Val(dv)) < Val(dv)
  {
    hide *;
    var D, P := Pair(dv[k + 1], dv[k]), Pb(k);
    DivisorParts(dv, dinv);
    LargePair(D);
    SignedRemainderIs(n1, w, q, Val(dv));
    TopThreeOfWindow(n1, w, k);
    LowSubtraction(n1 * Pb(k + 2) + Val(w), Val(dv[..k]), D, P, Val(w[..k]), low, cy, q, R, Triple(n1, w[k + 1], w[k]));
    ValBound(w[..k]);
    RemainderBelow(Val(dv[..k]), D, P, Val(w[..k]), q, R);
    ScaledSub(low, cy, P, Val(w[..k]), Val(dv[..k]) * q, R);
  }

  /** What a borrow out of the top limb stands for. */
  function BorrowValue(k: nat): nat {
    BASE_SQ * Pb(k)
  }

  lemma BorrowValueIs(k: nat)
    ensures BorrowValue(k) == BASE_SQ * Pb(k)
  {
  }

  /** The signed remainder in limbs: a borrow means that it is negative. */
  lemma EstimateLimbs(m1: limb, m0: limb, low: seq<limb>, R: nat, cy: limb, borrow: bool, V: int)
    requires Pair(m1, m0) == R - cy + if borrow then BASE_SQ else 0
    requires V == Val(low) + (R - cy) * Pb(|low|)
    ensures Partial(m1, low + [m0]) == V + if borrow then BorrowValue(|low|) else 0
  {
    hide *;
    BorrowValueIs(|low|);
    assert (low + [m0])[..|low|] == low;
    PartialSplit(m1, low + [m0], |low|);
    ScaledBorrow(R - cy, Pb(|low|), borrow);
  }

  /** The 3/2 estimate with the lower limbs subtracted: V is the signed remainder. */
  method EstimatedRemainder(np: array<limb>, i: nat, n1: limb, dp: array<limb>, dn: nat, dinv: limb)
    returns (q: limb, m1: limb, borrow: bool, ghost V: int)
    requires dn > 2 && i + dn <= np.Length && dn <= dp.Length && np != dp
    requires IsInv3(dp[dn - 1], dp[dn - 2], dinv) && !(n1 == dp[dn - 1] && np[i + dn - 1] == dp[dn - 2])
    requires Partial(n1, np[i + 1..i + dn]) < Val(dp[..dn])
    modifies np
    ensures V == SignedRemainder(n1, old(np[i..i + dn]), q, Val(dp[..dn]))
    ensures -(Val(dp[..dn]) as int) <= V < Val(dp[..dn])
    ensures Partial(m1, np[i..i + dn - 1]) == V + if borrow then BorrowValue(dn - 2) else 0
    ensures np[..i] == old(np[..i]) && np[i + dn..] == old(np[i + dn..])
  {
    hide *;
    ghost var w, dv, k := np[i..i + dn], dp[..dn], dn - 2;
    assert w[1..] == np[i + 1..i + dn];
    EstimateDefined(w, dv, n1, k, dinv);
    var r1, r0;
    q, r1, r0 := UdivQr3by2(n1, np[i + dn - 1], np[i + dn - 2], dp[dn - 1], dp[dn - 2], dinv);
    assert w[..k] == np[i..i + k] && dv[..k] == dp[..k];
    var cy := SubMul1(np, i, dp, dn - 2, q);
    ghost var low := np[i..i + k];
    assert dp[..dn] == dv;
    EstimateOutcome(w, dv, n1, k, dinv, q, Pair(r1, r0), cy, Val(low));
    V := SignedRemainder(n1, w, q, Val(dv));
    var m0;
    m1, m0, borrow := SubLow(r1, r0, cy);
    np[i + dn - 2] := m0;
    assert np[i..i + dn - 1] == low + [m0];
    EstimateLimbs(m1, m0, low, Pair(r1, r0), cy, borrow, V);
  }

  lemma ScaledSub(low': int, cy: int, P: int, low: int, dlq: int, R: int)
    requires low' - cy * P == low - dlq
    ensures low' + (R - cy) * P == low - dlq + R * P
  {
    Distribute(R, cy, P);
  }

  /** The add-back: after a borrow the remainder is in range again. */
  lemma AddBackLimb(m1: limb, d1: limb, c: limb, v: int, v': int, dlow: int, V: int, d: int, pb: int)
    requires 0 <= v' < pb && 0 <= V + d
    requires m1 * pb + v == V + BASE * pb && v' + c * pb == v + dlow && d == dlow + d1 * pb && c <= 1
    ensures Wrap(m1 + d1 + c) == m1 + d1 + c - BASE
    ensures (m1 + d1 + c - BASE) * pb + v' == V + d
  {
    var x := m1 as int + d1 + c - BASE;
    AddBackInts(m1, d1, c, x, pb, BASE);
    if x <= -1 {
      MulMonotone(pb, x, -1);
    }
    WrapIs(m1 as int + d1 + c, 1, x);
  }

  lemma AddBackInts(m1: int, d1: int, c: int, x: int, pb: int, b: int)
    requires x == m1 + d1 + c - b
    ensures x * pb == m1 * pb + d1 * pb + c * pb - b * pb
  {
  }

  lemma SignOfBorrow(V: int, m1: limb, v: seq<limb>, k: nat, d: int)
    requires |v| == k + 1 && Partial(m1, v) == V + BorrowValue(k)
    ensures V < 0
  {
    hide Val, Pb;
    ValBound(v);
    PbStep(k);
    MulMonotone(Pb(k + 1), m1, BASE - 1);
    Distribute(BASE, 1, Pb(k + 1));
    MulAssoc(BASE, BASE, Pb(k));
  }

  /** The case of an estimated quotient limb, with its single add-back. */
  method EstimatedLimb(np: array<limb>, i: nat, n1: limb, dp: array<limb>, dn: nat, dinv: limb) returns (q: limb, n1': limb)
    requires dn > 2 && i + dn <= np.Length && dn <= dp.Length && np != dp
    requires IsInv3(dp[dn - 1], dp[dn - 2], dinv) && !(n1 == dp[dn - 1] && np[i + dn - 1] == dp[dn - 2])
    requires Partial(n1, np[i + 1..i + dn]) < Val(dp[..dn])
    modifies np
    ensures n1 * Pb(dn) + Val(old(np[i..i + dn])) == q * Val(dp[..dn]) + Partial(n1', np[i..i + dn - 1])
    ensures Partial(n1', np[i..i + dn - 1]) < Val(dp[..dn])
    ensures np[..i] == old(np[..i]) && np[i + dn..] == old(np[i + dn..])
  {
    hide *;
    ghost var V, w, dv, k := 0, np[i..i + dn], dp[..dn], dn - 2;
    var borrow;
    q, n1', borrow, V := EstimatedRemainder(np, i, n1, dp, dn, dinv);
    assert dp[..dn] == dv;
    SignedRemainderIs(n1, w, q, Val(dv));
    if borrow {
      ghost var v, tail := np[i..i + dn - 1], np[i + (dn - 1)..];
      assert tail[1..] == np[i + dn..];
      var c := AddN(np, i, dp, dn - 1);
      assert np[i + dn..] == np[i + (dn - 1)..][1..] == tail[1..];
      assert np[i..i + (dn - 1)] == np[i..i + dn - 1] && dv[..k + 1] == dp[..dn - 1] && dp[..dn] == dv;
      AddBackResult(w, dv, n1, q, V, n1', v, np[i..i + dn - 1], c, k);
      n1' := Wrap(n1' + dp[dn - 1] + c);
      q := q - 1;
    }
  }

  /** One divisor added back: the quotient was one too large. */
  lemma AddBackResult(w: seq<limb>, dv: seq<limb>, n1: limb, q: limb, V: int, m1: limb, v: seq<limb>, v': seq<limb>, c: limb, k: nat)
    requires |w| == |dv| == k + 2 && |v| == |v'| == k + 1 && V == SignedRemainder(n1, w, q, Val(dv))
    requires Partial(m1, v) == V + BorrowValue(k) && -(Val(dv) as int) <= V
    requires Val(v') + c * Pb(k + 1) == Val(v) + Val(dv[..k + 1])
    ensures q >= 1 && n1 * Pb(k + 2) + Val(w) == (q - 1) * Val(dv) + Partial(Wrap(m1 + dv[k + 1] + c), v')
    ensures Partial(Wrap(m1 + dv[k + 1] + c), v') < Val(dv)
  {
    hide *;
    var d, m := Val(dv), Wrap(m1 + dv[k + 1] + c);
    SignedRemainderIs(n1, w, q, d);
    SignOfBorrow(V, m1, v, k, d);
    NonNegative(n1, Pb(k + 2));
    PositiveQuotient(n1 * Pb(k + 2) + Val(w), q, d, V);
    CarryBit(Val(v'), c, Pb(k + 1), v, dv[..k + 1]);
    ValBound(v');
    TopLimbOf(dv);
    BorrowIsBase(k);
    PartialIs(m1, v);
    AddBackLimb(m1, dv[k + 1], c, Val(v), Val(v'), Val(dv[..k + 1]), V, d, Pb(k + 1));
    PartialIs(m, v');
    Distribute(q, 1, d);
  }

  lemma NonNegative(x: nat, y: nat)
    ensures x * y >= 0
  {
  }

  lemma BorrowIsBase(k: nat)
    ensures BorrowValue(k) == BASE * Pb(k + 1)
  {
    hide Pb;
    PbStep(k);
    SquareTimes(Pb(k));
  }

  lemma PositiveQuotient(U: nat, q: nat, d: nat, V: int)
    requires V == U - q * d && V < 0
    ensures q >= 1
  {
  }

  lemma CarryBit(v: nat, c: limb, p: nat, x: seq<limb>, y: seq<limb>)
    requires v + c * p == Val(x) + Val(y) && |x| == |y| && p == Pb(|x|)
    ensures c <= 1
  {
    hide Val, Pb;
    ValBound(x);
    ValBound(y);
    if c >= 2 {
      MulMonotone(p, 2, c);
    }
  }

  lemma TopLimbOf(s: seq<limb>)
    requires s != []
    ensures Val(s) == Val(s[..|s| - 1]) + s[|s| - 1] * Pb(|s| - 1)
  {
  }

  lemma SquareTimes(p: nat)
    ensures BASE_SQ * p == BASE * (BASE * p)
  {
    MulAssoc(BASE, BASE, p);
  }

  lemma PartialIs(n1: limb, low: seq<limb>)
    ensures Partial(n1, low) == n1 * Pb(|low|) + Val(low)
  {
  }

  // ---- the quotient loop ----

  /** Quotient limbs found so far, the partial remainder, and the limbs still to be brought down. */
  ghost predicate QuotInv(total: nat, d: nat, qs: seq<limb>, n1: limb, mid: seq<limb>, low: seq<limb>) {
    && total == (Val(qs) * d + Partial(n1, mid)) * Pb(|low|) + Val(low)
    && Partial(n1, mid) < d
  }

  lemma QuotStart(n1: limb, np: seq<limb>, i: nat, d: nat)
    requires i <= |np| && Partial(n1, np[i..]) < d
    ensures QuotInv(n1 * Pb(|np|) + Val(np), d, [], n1, np[i..], np[..i])
  {
    hide Val, Pb, Partial;
    ValSplit(np, i);
    PbAdd(i, |np| - i);
    ValEmpty([]);
    PartialIs(n1, np[i..]);
    QuotStartInts(n1, Pb(i), Pb(|np| - i), Val(np[i..]), d);
  }

  lemma QuotStartInts(n1: int, p: int, r: int, v: int, d: int)
    ensures n1 * (p * r) + p * v == (0 * d + (n1 * r + v)) * p
  {
  }

  lemma QuotStep(total: nat, d: nat, qs: seq<limb>, n1: limb, mid: seq<limb>, low: seq<limb>,
                 q: limb, m1: limb, mid': seq<limb>)
    requires QuotInv(total, d, qs, n1, mid, low) && low != []
    requires var x := low[|low| - 1];
      Partial(n1, mid) * BASE + x == q * d + Partial(m1, mid') && Partial(m1, mid') < d
    ensures QuotInv(total, d, [q] + qs, m1, mid', low[..|low| - 1])
  {
    hide Val, Pb;
    var i, x := |low| - 1, low[|low| - 1];
    TopLimbOf(low);
    PbStep(i);
    ValHead([q] + qs);
    assert ([q] + qs)[1..] == qs;
    QuotStepInts(Val(qs), d, Partial(n1, mid), q, Partial(m1, mid'), x, Pb(i), BASE);
  }

  lemma QuotStepInts(vq: int, d: int, w: int, q: int, w': int, x: int, p: int, b: int)
    requires w * b + x == q * d + w'
    ensures (vq * d + w) * (b * p) + x * p == ((q + b * vq) * d + w') * p
  {
    assert (w * b + x) * p == (q * d + w') * p;
    assert (vq * d + w) * (b * p) == vq * d * b * p + w * b * p;
    assert (q + b * vq) * d == q * d + vq * d * b;
  }

  /** One round of the loop: the next quotient limb. */
  method DivStepPi1(np: array<limb>, i: nat, n1: limb, dp: array<limb>, dn: nat, dinv: limb) returns (q: limb, n1': limb)
    requires dn > 2 && i + dn <= np.Length && dn <= dp.Length && np != dp
    requires IsInv3(dp[dn - 1], dp[dn - 2], dinv) && Partial(n1, np[i + 1..i + dn]) < Val(dp[..dn])
    modifies np
    ensures Partial(n1, old(np[i + 1..i + dn])) * BASE + old(np[i]) == q * Val(dp[..dn]) + Partial(n1', np[i..i + dn - 1])
    ensures Partial(n1', np[i..i + dn - 1]) < Val(dp[..dn])
    ensures np[..i] == old(np[..i]) && np[i + dn..] == old(np[i + dn..])
  {
    hide *;
    ghost var w := np[i..i + dn];
    assert w[1..] == np[i + 1..i + dn] && w[0] == np[i];
    BringDown(n1, w, Val(dp[..dn]));
    if n1 == dp[dn - 1] && np[i + dn - 1] == dp[dn - 2] {
      q, n1' := EqualTopLimb(np, i, n1, dp, dn, dinv);
    } else {
      q, n1' := EstimatedLimb(np, i, n1, dp, dn, dinv);
    }
  }

  /** A quotient area, which may be missing, holds qs from index i on. */
  ghost predicate Stored(qp: array?<limb>, i: nat, qs: seq<limb>)
    reads qp
  {
    qp != null ==> i + |qs| <= qp.Length && qp[i..i + |qs|] == qs
  }

  /** One more quotient limb in front. */
  method Store(qp: array?<limb>, i: nat, q: limb, ghost qs: seq<limb>)
    requires (qp != null ==> i < qp.Length) && Stored(qp, i + 1, qs)
    modifies qp
    ensures Stored(qp, i, [q] + qs)
    ensures qp != null ==> qp[..i] == old(qp[..i]) && qp[i + 1..] == old(qp[i + 1..])
  {
    if qp != null {
      qp[i] := q;
    }
  }

  /** The quotient limbs qs of np, with high limb nh, by a normalised divisor of more than two limbs. */
  method DivQrPi1(qp: array?<limb>, np: array<limb>, nn: nat, nh: limb, dp: array<limb>, dn: nat, dinv: limb)
    returns (ghost qs: seq<limb>)
    requires nn >= dn > 2 && nn <= np.Length && (qp != null ==> nn - dn < qp.Length) && dn <= dp.Length
    requires qp != np && qp != dp && np != dp && IsInv3(dp[dn - 1], dp[dn - 2], dinv)
    requires Partial(nh, np[nn - dn + 1..nn]) < Val(dp[..dn])
    modifies qp, np
    ensures |qs| == nn - dn + 1 && Stored(qp, 0, qs)
    ensures nh * Pb(nn) + Val(old(np[..nn])) == Val(qs) * Val(old(dp[..dn])) + Val(np[..dn])
    ensures Val(np[..dn]) < Val(old(dp[..dn])) && dp[..] == old(dp[..])
  {
    hide *;
    ghost var n0, dv := np[..nn], dp[..dn];
    ghost var d := Val(dv);
    ghost var total := nh * Pb(nn) + Val(n0);
    var i, n1 := nn - dn + 1, nh;
    assert n0[i..] == np[nn - dn + 1..nn];
    QuotStart(nh, n0, i, d);
    assert np[i..i + dn - 1] == n0[i..] && np[..i] == n0[..i];
    qs := [];
    NothingStored(qp, i);
    while i > 0
      invariant 0 <= i <= nn - dn + 1 && dp[..dn] == dv && dp[..] == old(dp[..])
      invariant |qs| == nn - dn + 1 - i && Stored(qp, i, qs)
      invariant QuotInv(total, d, qs, n1, np[i..i + dn - 1], np[..i])
    {
      ghost var mid, low := np[i..i + dn - 1], np[..i];
      i := i - 1;
      assert np[i + 1..i + dn] == mid && np[i] == low[i];
      QuotBelow(total, d, qs, n1, mid, low);
      ghost var m1 := n1;
      var q;
      q, n1 := DivStepPi1(np, i, n1, dp, dn, dinv);
      assert dp[..dn] == dv;
      QuotStep(total, d, qs, m1, mid, low, q, n1, np[i..i + dn - 1]);
      Store(qp, i, q, qs);
      qs := [q] + qs;
      assert np[..i] == low[..i] && low[..|low| - 1] == low[..i];
    }
    ghost var mid := np[0..dn - 1];
    QuotDone(total, d, qs, n1, mid, np[..0]);
    np[dn - 1] := n1;
    assert np[..dn] == mid + [n1];
    ValSnoc(mid, n1);
    PartialIs(n1, mid);
  }

  lemma NothingStored(qp: array?<limb>, i: nat)
    requires qp != null ==> i <= qp.Length
    ensures Stored(qp, i, [])
  {
  }

  /** What the quotient area, if it is there, holds in the end. */
  lemma StoredAll(qp: array?<limb>, qs: seq<limb>)
    requires Stored(qp, 0, qs)
    ensures qp != null ==> |qs| <= qp.Length && qp[..|qs|] == qs
  {
  }

  lemma QuotBelow(total: nat, d: nat, qs: seq<limb>, n1: limb, mid: seq<limb>, low: seq<limb>)
    requires QuotInv(total, d, qs, n1, mid, low)
    ensures Partial(n1, mid) < d
  {
  }

  lemma QuotDone(total: nat, d: nat, qs: seq<limb>, n1: limb, mid: seq<limb>, low: seq<limb>)
    requires QuotInv(total, d, qs, n1, mid, low) && low == []
    ensures total == Val(qs) * d + Partial(n1, mid) && Partial(n1, mid) < d
  {
    hide Val, Partial;
    ValEmpty(low);
    PbStep(0);
  }

  // ---- shifts ----

  /** A limb shifted left by cnt: what leaves it and what stays. */
  lemma ShiftParts(x: limb, cnt: nat)
    requires cnt <= LIMB_BITS
    ensures x * Pow2(cnt) == Shr(x, LIMB_BITS - cnt) * BASE + Shl(x, cnt)
    ensures Shr(x, LIMB_BITS - cnt) < Pow2(cnt) && Shl(x, cnt) + Pow2(cnt) <= BASE
  {
    hide Wrap, Pow2;
    var p, m := Pow2(cnt), Pow2(LIMB_BITS - cnt);
    BaseIsPow2();
    PowTwoAdd(cnt, LIMB_BITS - cnt);
    DivMod(x, m);
    var h, l := x / m, x % m;
    MulCancelLt(h, p, m);
    MulMonotone(p, l, m - 1);
    Distribute(m, 1, p);
    MulCommutes(m, p);
    assert x * p == h * (p * m) + l * p by { Distribute(h * m, l, p); MulAssoc(h, m, p); }
    WrapIs(x * p, h, l * p);
  }

  /** Limb j of u shifted left by cnt. */
  function ShlLimb(u: seq<limb>, j: nat, cnt: nat): nat
    requires cnt <= LIMB_BITS && j < |u|
  {
    var own: nat := Shl(u[j], cnt);
    if j > 0 then own + Shr(u[j - 1], LIMB_BITS - cnt) else own
  }

  /** r holds u shifted left by cnt, limb by limb. */
  ghost predicate IsShl(r: seq<limb>, u: seq<limb>, cnt: nat)
    requires cnt <= LIMB_BITS
  {
    && |r| == |u|
    && forall j: nat :: j < |r| ==> r[j] == ShlLimb(u, j, cnt)
  }

  /** The lowest limbs, and the top limb, of a left shift. */
  lemma ShlParts(r: seq<limb>, u: seq<limb>, cnt: nat)
    requires cnt <= LIMB_BITS && IsShl(r, u, cnt) && r != []
    ensures IsShl(r[..|r| - 1], u[..|r| - 1], cnt)
    ensures |r| == |u| && r[|r| - 1] == Shl(u[|r| - 1], cnt) + if |r| > 1 then Shr(u[|r| - 2], LIMB_BITS - cnt) else 0
  {
    hide Shl, Shr;
  }

  /** What a left shift moves out of a sequence of limbs. */
  function ShiftedOut(u: seq<limb>, cnt: nat): nat
    requires cnt <= LIMB_BITS
  {
    if u == [] then 0 else Shr(u[|u| - 1], LIMB_BITS - cnt)
  }

  lemma {:induction false} ShlValue(r: seq<limb>, u: seq<limb>, cnt: nat)
    requires cnt <= LIMB_BITS && IsShl(r, u, cnt)
    ensures Val(r) + ShiftedOut(u, cnt) * Pb(|r|) == Val(u) * Pow2(cnt)
  {
    hide Pow2, Shl, Shr, Pb, Val, IsShl;
    if r == [] {
      ShlLength(r, u, cnt);
      ValEmpty(r);
      ValEmpty(u);
    } else {
      var n := |r| - 1;
      ShlParts(r, u, cnt);
      ShlValue(r[..n], u[..n], cnt);
      ShiftParts(u[n], cnt);
      TopLimbOf(r);
      TopLimbOf(u);
      PbStep(n);
      ShlInts(Val(r[..n]), ShiftedOut(u[..n], cnt), Pb(n), Val(u[..n]), Pow2(cnt), u[n],
              Shr(u[n], LIMB_BITS - cnt), Shl(u[n], cnt), BASE);
    }
  }

  lemma ShlLength(r: seq<limb>, u: seq<limb>, cnt: nat)
    requires cnt <= LIMB_BITS && IsShl(r, u, cnt)
    ensures |r| == |u|
  {
  }

  lemma ShlInts(vr: int, carry: int, p: int, vu: int, c: int, x: int, h: int, l: int, b: int)
    requires vr + carry * p == vu * c && x * c == h * b + l
    ensures vr + (l + carry) * p + h * (b * p) == (vu + x * p) * c
  {
    assert x * c * p == (h * b + l) * p;
  }

  /** rp = up << cnt from the top limb down; rp may be up. The result is what is shifted out. */
  method LShift(rp: array<limb>, up: array<limb>, n: nat, cnt: nat) returns (ret: limb)
    requires 1 <= n <= rp.Length && n <= up.Length && 1 <= cnt < LIMB_BITS
    modifies rp
    ensures Val(rp[..n]) + ret * Pb(n) == Val(old(up[..n])) * Pow2(cnt)
    ensures ret < Pow2(cnt) && rp[n..] == old(rp[n..])
  {
    hide Val, Pb, Shr, Shl, Pow2;
    ghost var u := up[..n];
    var tnc := LIMB_BITS - cnt;
    var low := up[n - 1];
    ShiftParts(low, cnt);
    BaseShr(low, tnc);
    ret := Shr(low, tnc);
    var high := Shl(low, cnt);
    var j := n - 1;
    while j > 0
      invariant 0 <= j < n && low == u[j] && high == Shl(u[j], cnt)
      invariant forall k :: 0 <= k <= j ==> up[k] == u[k]
      invariant forall k :: j < k < n ==> rp[k] == Shl(u[k], cnt) + Shr(u[k - 1], tnc)
      invariant rp[n..] == old(rp[n..])
    {
      low := up[j - 1];
      ShiftParts(u[j], cnt);
      ShiftParts(low, cnt);
      rp[j] := high + Shr(low, tnc);
      high := Shl(low, cnt);
      j := j - 1;
    }
    rp[0] := high;
    ShlValue(rp[..n], u, cnt);
  }

  lemma BaseShr(x: limb, k: nat)
    ensures Shr(x, k) < BASE
  {
    DivMod(x, Pow2(k));
    if x / Pow2(k) >= BASE {
      MulMonotone(x / Pow2(k), 1, Pow2(k));
    }
  }

  /** Limb j of u shifted right by cnt. */
  function ShrLimb(u: seq<limb>, j: nat, cnt: nat): nat
    requires cnt <= LIMB_BITS && j < |u|
  {
    var own := Shr(u[j], cnt);
    if j + 1 < |u| then own + Shl(u[j + 1], LIMB_BITS - cnt) else own
  }

  /** r holds u shifted right by cnt, limb by limb. */
  ghost predicate IsShr(r: seq<limb>, u: seq<limb>, cnt: nat)
    requires cnt <= LIMB_BITS
  {
    && |r| == |u|
    && forall j: nat :: j < |r| ==> r[j] == ShrLimb(u, j, cnt)
  }

  /** The bits a right shift drops from a limb. */
  function LowBits(x: limb, cnt: nat): nat {
    x % Pow2(cnt)
  }

  lemma ShrParts(x: limb, cnt: nat)
    requires cnt <= LIMB_BITS
    ensures x == Shr(x, cnt) * Pow2(cnt) + LowBits(x, cnt) && LowBits(x, cnt) < Pow2(cnt)
    ensures Shl(x, LIMB_BITS - cnt) * Pow2(cnt) == LowBits(x, cnt) * BASE
    ensures Shr(x, cnt) + Shl(x, LIMB_BITS - cnt) < BASE
  {
    hide Pow2, Shl;
    ShiftParts(x, LIMB_BITS - cnt);
    var p, m := Pow2(cnt), Pow2(LIMB_BITS - cnt);
    DivMod(x, p);
    BaseIsPow2();
    PowTwoAdd(cnt, LIMB_BITS - cnt);
    var h, l := x / p, x % p;
    assert x * m == h * (p * m) + l * m by { Distribute(h * p, l, m); MulAssoc(h, p, m); }
    assert Shl(x, LIMB_BITS - cnt) == l * m;
    assert l * m * p == l * (p * m) by { MulAssoc(l, m, p); MulCommutes(m, p); }
  }

  /** The value of a prefix of a right shift. */
  lemma {:induction false} ShrPrefix(r: seq<limb>, u: seq<limb>, cnt: nat, j: nat)
    requires cnt <= LIMB_BITS && IsShr(r, u, cnt) && 0 < |u| && j < |u|
    ensures Val(r[..j]) * Pow2(cnt) + LowBits(u[0], cnt) == Val(u[..j]) + LowBits(u[j], cnt) * Pb(j)
  {
    hide Pow2, Shl, Shr, Pb, LowBits, Val;
    if j == 0 {
      ValEmpty(r[..0]);
      ValEmpty(u[..0]);
      PbStep(0);
    } else {
      ShrPrefix(r, u, cnt, j - 1);
      ShrParts(u[j - 1], cnt);
      ShrParts(u[j], cnt);
      ValStep(r, j - 1);
      ValStep(u, j - 1);
      PbStep(j - 1);
      ShrInts(Val(r[..j - 1]), Pow2(cnt), LowBits(u[0], cnt), Val(u[..j - 1]), LowBits(u[j - 1], cnt), Pb(j - 1),
              Shr(u[j - 1], cnt), Shl(u[j], LIMB_BITS - cnt), LowBits(u[j], cnt), u[j - 1], BASE);
    }
  }

  lemma ShrInts(vr: int, c: int, l0: int, vu: int, l: int, p: int, h: int, s: int, l': int, x: int, b: int)
    requires vr * c + l0 == vu + l * p && x == h * c + l && s * c == l' * b
    ensures (vr + (h + s) * p) * c + l0 == vu + x * p + l' * (b * p)
  {
    assert (h * c + l) * p == x * p;
    assert s * c * p == l' * b * p;
  }

  lemma ShrValue(r: seq<limb>, u: seq<limb>, cnt: nat)
    requires cnt <= LIMB_BITS && IsShr(r, u, cnt) && 0 < |u|
    ensures Val(r) == Shr(Val(u), cnt)
  {
    hide Pow2, Shl, Pb, LowBits, Val, IsShr;
    var n := |u| - 1;
    ShrPrefix(r, u, cnt, n);
    ShrLast(r, u, cnt);
    TopLimbOf(r);
    TopLimbOf(u);
    ShrParts(u[n], cnt);
    ShrParts(u[0], cnt);
    ShrInts(Val(r[..n]), Pow2(cnt), LowBits(u[0], cnt), Val(u[..n]), LowBits(u[n], cnt), Pb(n), Shr(u[n], cnt), 0, 0, u[n], BASE);
    DivModUnique(Val(u), Pow2(cnt), Val(r), LowBits(u[0], cnt));
  }

  lemma ShrLast(r: seq<limb>, u: seq<limb>, cnt: nat)
    requires cnt <= LIMB_BITS && IsShr(r, u, cnt) && 0 < |u|
    ensures |r| == |u| && r[|u| - 1] == Shr(u[|u| - 1], cnt)
  {
    hide Shl, Shr;
    assert r[|u| - 1] == ShrLimb(u, |u| - 1, cnt);
  }

  /** np >>= cnt in place on n limbs. */
  method RShift(np: array<limb>, n: nat, cnt: nat)
    requires 1 <= n <= np.Length && 1 <= cnt < LIMB_BITS
    modifies np
    ensures Val(np[..n]) == Shr(Val(old(np[..n])), cnt) && np[n..] == old(np[n..])
  {
    hide Val, Pb, Shr, Shl, Pow2;
    ghost var u := np[..n];
    var tnc := LIMB_BITS - cnt;
    var high := np[0];
    ShrParts(high, cnt);
    var low: limb := Shr(high, cnt);
    var j := 0;
    while j < n - 1
      invariant 0 <= j < n && low == Shr(u[j], cnt)
      invariant forall k :: j <= k < n ==> np[k] == u[k]
      invariant forall k :: 0 <= k < j ==> np[k] == Shr(u[k], cnt) + Shl(u[k + 1], tnc)
      invariant np[n..] == old(np[n..])
    {
      high := np[j + 1];
      MergeFits(u[j], high, cnt);
      np[j] := low + Shl(high, tnc);
      ShrParts(high, cnt);
      low := Shr(high, cnt);
      j := j + 1;
    }
    np[n - 1] := low;
    ShrValue(np[..n], u, cnt);
  }

  /** The bits of two neighbouring limbs do not overlap. */
  lemma MergeFits(x: limb, y: limb, cnt: nat)
    requires cnt <= LIMB_BITS
    ensures Shr(x, cnt) + Shl(y, LIMB_BITS - cnt) < BASE
  {
    hide Shl, Shr, Pow2;
    ShiftParts(y, LIMB_BITS - cnt);
    ShiftParts(x, LIMB_BITS - cnt);
  }

  // ---- normalisation ----

  /** cnt brings the top bit of x to the top of a limb. */
  ghost predicate Normalises(x: nat, cnt: nat) {
    cnt < LIMB_BITS && x * Pow2(cnt) < BASE <= 2 * (x * Pow2(cnt))
  }

  lemma ShiftOnce(x: nat, c: nat, k: nat, y: limb)
    requires k <= LIMB_BITS && y == x * Pow2(c) && Shr(y, LIMB_BITS - k) == 0
    ensures Shl(y, k) == x * Pow2(c + k)
  {
    hide Shl, Shr, Pow2;
    ShiftParts(y, k);
    PowTwoAdd(c, k);
    MulAssoc(x, Pow2(c), Pow2(k));
  }

  lemma TopBitOf(y: limb)
    requires Shr(y, LIMB_BITS - 1) != 0
    ensures BASE <= 2 * y
  {
    BaseIsPow2();
    assert Pow2(LIMB_BITS) == 2 * Pow2(LIMB_BITS - 1);
    DivMod(y, Pow2(LIMB_BITS - 1));
    MulMonotone(Pow2(LIMB_BITS - 1), 1, Shr(y, LIMB_BITS - 1));
  }

  lemma CountBound(x: nat, c: nat)
    requires x > 0 && x * Pow2(c) < BASE
    ensures c < LIMB_BITS
  {
    BaseIsPow2();
    MulMonotone(Pow2(c), 1, x);
    if c >= LIMB_BITS {
      Pow2Monotone(LIMB_BITS, c);
    }
  }

  lemma Doubles(x: nat, c: nat, k: nat)
    requires x > 0 && k > 0
    ensures x * Pow2(c) < x * Pow2(c + k)
  {
    PowTwoAdd(c, k);
    Pow2Monotone(1, k);
    assert Pow2(1) == 2;
    MulMonotone(Pow2(c), 2, Pow2(k));
    MulCommutes(Pow2(c), Pow2(k));
    MulMonotone(x, Pow2(c) + 1, Pow2(c + k));
    Distribute(Pow2(c), 1, x);
  }

  /** Leading zero bits: eight at a time, then one at a time. */
  method GmpClz(x: limb) returns (c: nat)
    requires x > 0
    ensures Normalises(x, c)
  {
    hide Pow2, Shl, Shr;
    var y := x;
    c := 0;
    assert Pow2(0) == 1 by { PowTwoZero(); }
    if LIMB_BITS > 8 {
      while Shr(y, LIMB_BITS - 8) == 0
        invariant y == x * Pow2(c)
        decreases BASE - y
      {
        ShiftOnce(x, c, 8, y);
        Doubles(x, c, 8);
        y := Shl(y, 8);
        c := c + 8;
      }
    }
    while Shr(y, LIMB_BITS - 1) == 0
      invariant y == x * Pow2(c)
      decreases BASE - y
    {
      ShiftOnce(x, c, 1, y);
      Doubles(x, c, 1);
      y := Shl(y, 1);
      c := c + 1;
    }
    TopBitOf(y);
    CountBound(x, c);
  }

  lemma PowTwoZero()
    ensures Pow2(0) == 1
  {
  }

  /** u shifted left by cnt, without what is shifted out. */
  ghost function Shifted(u: seq<limb>, cnt: nat): (r: seq<limb>)
    requires cnt <= LIMB_BITS
    ensures |r| == |u| && IsShl(r, u, cnt)
  {
    forall j: nat | j < |u|
      ensures ShlLimb(u, j, cnt) < BASE
    {
      ShlLimbFits(u, j, cnt);
    }
    seq(|u|, (j: nat) requires j < |u| => ShlLimb(u, j, cnt) as limb)
  }

  lemma ShlLimbFits(u: seq<limb>, j: nat, cnt: nat)
    requires cnt <= LIMB_BITS && j < |u|
    ensures ShlLimb(u, j, cnt) < BASE
  {
    hide Shl, Shr, Pow2;
    ShiftParts(u[j], cnt);
    if j > 0 {
      ShiftParts(u[j - 1], cnt);
    }
  }

  /** A normalising shift loses nothing and makes the top limb large. */
  lemma NormalShift(u: seq<limb>, cnt: nat)
    requires cnt < LIMB_BITS && u != [] && Normalises(u[|u| - 1], cnt)
    ensures BASE <= 2 * (Shifted(u, cnt)[|u| - 1] as int)
    ensures Val(Shifted(u, cnt)) == Val(u) * Pow2(cnt)
  {
    hide Val, Shl, Shr, Pow2;
    var r, n := Shifted(u, cnt), |u| - 1;
    ShlValue(r, u, cnt);
    ShiftParts(u[n], cnt);
    NothingLeaves(u[n], cnt);
    assert r[n] == ShlLimb(u, n, cnt);
  }

  lemma NothingLeaves(x: limb, cnt: nat)
    requires Normalises(x, cnt)
    ensures Shr(x, LIMB_BITS - cnt) == 0 && Shl(x, cnt) == x * Pow2(cnt)
  {
    hide Shl, Shr, Pow2;
    ShiftParts(x, cnt);
    if Shr(x, LIMB_BITS - cnt) >= 1 {
      MulMonotone(BASE, 1, Shr(x, LIMB_BITS - cnt));
    }
  }

  /** A shift by no bits. */
  lemma ShiftByZero(u: seq<limb>)
    ensures Shifted(u, 0) == u
  {
    hide Shl, Shr, Pow2;
    PowTwoZero();
    var r := Shifted(u, 0);
    forall j: nat | j < |u|
      ensures r[j] == u[j]
    {
      assert r[j] == ShlLimb(u, j, 0);
      ShlByZero(u[j]);
      if j > 0 {
        ShlByZero(u[j - 1]);
      }
    }
  }

  lemma ShlByZero(x: limb)
    ensures Shl(x, 0) == x && Shr(x, LIMB_BITS) == 0
  {
    hide Wrap, Pow2;
    PowTwoZero();
    WrapIs(x, 0, x);
    BaseIsPow2();
    DivModUnique(x, BASE, 0, x);
  }

  // ---- the inverse of a divisor ----

  /** Shift count, normalised top limbs and inverse of a divisor. */
  datatype DivInverse = DivInverse(shift: nat, d1: limb, d0: limb, di: limb)

  /** inv belongs to the divisor with limbs u. */
  ghost predicate InverseFor(inv: DivInverse, u: seq<limb>) {
    && u != [] && Normalises(u[|u| - 1], inv.shift)
    && var r := Shifted(u, inv.shift);
    && inv.d1 == r[|u| - 1]
    && (|u| == 1 ==> IsInverse21(BASE, inv.d1, inv.di))
    && (|u| >= 2 ==> inv.d0 == r[|u| - 2] && IsInv3(inv.d1, inv.d0, inv.di))
  }

  /** One limb of the normalised divisor, as the code forms it. */
  method NormalisedLimb(hi: limb, lo: limb, shift: nat, ghost u: seq<limb>, ghost j: nat) returns (d: limb)
    requires 0 < j < |u| && hi == u[j] && lo == u[j - 1] && 0 < shift < LIMB_BITS
    ensures d == Shifted(u, shift)[j]
  {
    hide Shl, Shr, Pow2;
    ShlLimbFits(u, j, shift);
    assert Shifted(u, shift)[j] == ShlLimb(u, j, shift);
    d := Shl(hi, shift) + Shr(lo, LIMB_BITS - shift);
  }

  /** mpn_div_qr_1_invert. */
  method DivQr1Invert(d: limb) returns (inv: DivInverse)
    requires d > 0
    ensures InverseFor(inv, [d])
  {
    hide Shl, Shr, Pow2, ShlLimb, IsInv3, IsInverse21, Normalises, IsShl;
    var shift := GmpClz(d);
    NormalBound(d, shift);
    NormalShift([d], shift);
    LowestLimb([d], shift);
    var d1 := Shl(d, shift);
    var di := MpnInvert3by2(d1, 0);
    inv := DivInverse(shift, d1, 0, di);
  }

  /** Normalises the divisor and inverts its top limbs. */
  method DivQrInvert(dp: array<limb>, dn: nat) returns (inv: DivInverse)
    requires 1 <= dn <= dp.Length && dp[dn - 1] > 0
    ensures InverseFor(inv, dp[..dn])
  {
    hide Shl, Shr, Pow2, ShlLimb, IsInv3, IsInverse21, Normalises, IsShl;
    ghost var u := dp[..dn];
    if dn == 1 {
      inv := DivQr1Invert(dp[0]);
      assert u == [dp[0]];
    } else {
      var shift := GmpClz(dp[dn - 1]);
      assert u[dn - 1] == dp[dn - 1];
      NormalBound(dp[dn - 1], shift);
      NormalShift(u, shift);
      var d1, d0 := dp[dn - 1], dp[dn - 2];
      if shift > 0 {
        d1 := NormalisedLimb(d1, d0, shift, u, dn - 1);
        if dn == 2 {
          LowestLimb(u, shift);
          d0 := Shl(d0, shift);
        } else {
          d0 := NormalisedLimb(d0, dp[dn - 3], shift, u, dn - 2);
        }
      } else {
        ShiftByZero(u);
      }
      var di := MpnInvert3by2(d1, d0);
      inv := DivInverse(shift, d1, d0, di);
    }
  }

  lemma NormalBound(x: limb, shift: nat)
    requires Normalises(x, shift)
    ensures shift < LIMB_BITS
  {
  }

  lemma LowestLimb(u: seq<limb>, shift: nat)
    requires u != [] && shift <= LIMB_BITS
    ensures |Shifted(u, shift)| == |u| && Shifted(u, shift)[0] == Shl(u[0], shift)
  {
    hide Shl, Shr;
    assert Shifted(u, shift)[0] == ShlLimb(u, 0, shift);
  }

  // ---- one, two and more limbs ----

  /** A quotient of scaled numbers is the quotient, with a scaled remainder. */
  lemma Unscale(N: nat, d: nat, q: nat, R: nat, c: nat)
    requires c > 0 && N * c == q * (d * c) + R && R < d * c
    ensures N == q * d + R / c && R / c < d
  {
    MulAssoc(q, d, c);
    Distribute(N, q * d, c);
    MulCancelLt(N - q * d, d, c);
    DivModUnique(R, c, N - q * d, 0);
  }

  /** One step of a one-limb division. */
  lemma SingleLimbPartial(r: limb)
    ensures Partial(r, []) == r
  {
    PbStep(0);
    ValEmpty([]);
  }

  lemma DivisorPositive(u: seq<limb>, inv: DivInverse)
    requires InverseFor(inv, u)
    ensures Val(u) >= Pb(|u| - 1) > 0 && inv.shift < LIMB_BITS
    ensures Val(Shifted(u, inv.shift)) == Val(u) * Pow2(inv.shift)
  {
    hide Val, Pb, Shifted, IsInv3, IsInverse21;
    NormalBound(u[|u| - 1], inv.shift);
    NormalShift(u, inv.shift);
    TopLimbOf(u);
    MulMonotone(Pb(|u| - 1), 1, u[|u| - 1]);
  }

  /** The shifted dividend starts with a partial remainder below the shifted divisor. */
  lemma PartialFits(N: nat, nn: nat, nh: limb, v: seq<limb>, i: nat, c: nat, d: nat)
    requires nh * Pb(nn) + Val(v) == N * c && N < Pb(nn) && |v| == nn && i <= nn && c > 0
    requires d >= Pb(nn - i)
    ensures Partial(nh, v[i..]) < d * c
  {
    hide Val, Pb;
    ValSplit(v, i);
    PbAdd(i, nn - i);
    PartialIs(nh, v[i..]);
    PartialFitsInts(N, nh, Pb(i), Pb(nn - i), Val(v[..i]), Val(v[i..]), c, d);
  }

  lemma PartialFitsInts(N: int, nh: int, p: int, r: int, lo: int, hi: int, c: int, d: int)
    requires nh * (p * r) + (lo + p * hi) == N * c && N < p * r && c > 0 && p > 0 && lo >= 0 && d >= r
    ensures nh * r + hi < d * c
  {
    assert nh * (p * r) == p * (nh * r);
    Distribute(nh * r, hi, p);
    MulStrict(c, N, p * r);
    MulAssoc(p, r, c);
    MulCommutes(p * r, c);
    MulCommutes(p, r * c);
    MulCommutes(p, nh * r + hi);
    MulCancelLt(nh * r + hi, r * c, p);
    MulMonotone(c, r, d);
  }

  /** The dividend shifted left in place, or left alone when no shift is needed. */
  method ShiftDividend(rp: array<limb>, np: array<limb>, nn: nat, shift: nat) returns (nh: limb)
    requires 1 <= nn <= np.Length && nn <= rp.Length && shift < LIMB_BITS && (shift == 0 ==> rp == np)
    modifies rp
    ensures nh * Pb(nn) + Val(rp[..nn]) == Val(old(np[..nn])) * Pow2(shift)
    ensures rp[nn..] == old(rp[nn..])
  {
    hide Val, Pb, Pow2;
    BasePos();
    if shift > 0 {
      nh := LShift(rp, np, nn, shift);
    } else {
      nh := 0;
      PowTwoZero();
    }
  }

  lemma OneLimbDivisor(inv: DivInverse, d: limb)
    requires InverseFor(inv, [d])
    ensures inv.shift < LIMB_BITS && inv.d1 == d * Pow2(inv.shift) && IsInverse21(BASE, inv.d1, inv.di) && d >= 1
  {
    hide Val, Shl, Shr, Pow2, IsInverse21;
    NothingLeaves(d, inv.shift);
    LowestLimb([d], inv.shift);
    NonZeroLimb(d, inv.shift);
  }

  lemma NonZeroLimb(d: limb, cnt: nat)
    requires Normalises(d, cnt)
    ensures d >= 1
  {
    BasePos();
  }

  lemma ShrIs(r: limb, cnt: nat)
    ensures Pow2(cnt) > 0 && Shr(r, cnt) == r / Pow2(cnt) && Shr(r, cnt) < BASE
  {
    BaseShr(r, cnt);
  }

  /** Division by one limb with quotient qs; it may overwrite the dividend, and its area may be missing. */
  method DivQr1Preinv(qp: array?<limb>, np: array<limb>, nn: nat, inv: DivInverse, ghost d: limb)
    returns (rem: limb, ghost qs: seq<limb>)
    requires 1 <= nn <= np.Length && (qp != null ==> nn <= qp.Length) && InverseFor(inv, [d])
    modifies qp
    ensures |qs| == nn && Val(old(np[..nn])) == Val(qs) * d + rem && rem < d
    ensures qp != null ==> qp[..nn] == qs && qp[nn..] == old(qp[nn..])
  {
    hide *;
    ghost var N := np[..nn];
    OneLimbDivisor(inv, d);
    var tp := np;
    var r: limb;
    BasePos();
    if inv.shift > 0 {
      if qp != null {
        tp := qp;
      } else {
        tp := new limb[nn](_ => 0);
      }
      r := LShift(tp, np, nn, inv.shift);
    } else {
      PowTwoZero();
      r := 0;
    }
    assert qp != null ==> qp[nn..] == old(qp[nn..]);
    ghost var t, D, total := tp[..nn], d * Pow2(inv.shift), Val(N) * Pow2(inv.shift);
    ValBound(N);
    PbPositive(0);
    PbStep(0);
    PartialFits(Val(N), nn, r, t, nn, Pow2(inv.shift), d);
    var i := nn;
    assert t[nn..] == [] && t[..nn] == t;
    QuotStart(r, t, nn, D);
    qs := [];
    NothingStored(qp, nn);
    while i > 0
      invariant 0 <= i <= nn && |qs| == nn - i && tp[..i] == t[..i] && (qp != null ==> qp[nn..] == old(qp[nn..]))
      invariant Stored(qp, i, qs) && QuotInv(total, D, qs, r, [], t[..i])
      modifies qp
    {
      ghost var low, r0 := t[..i], r;
      i := i - 1;
      assert tp[i] == tp[..i + 1][i] == t[i] && low[i] == t[i];
      QuotBelow(total, D, qs, r, [], low);
      SingleLimbPartial(r);
      var q;
      q, r := UdivQrnndPreinv(r, tp[i], inv.d1, inv.di);
      SingleLimbPartial(r);
      QuotStep(total, D, qs, r0, [], low, q, r, []);
      Prefixes(tp[..i + 1], t[..i + 1], i);
      Store(qp, i, q, qs);
      assert qp != null ==> qp[nn..] == qp[i + 1..][nn - i - 1..];
      qs := [q] + qs;
      assert low[..|low| - 1] == t[..i];
    }
    QuotDone(total, D, qs, r, [], t[..0]);
    SingleLimbPartial(r);
    Unscale(Val(N), d, Val(qs), r, Pow2(inv.shift));
    StoredAll(qp, qs);
    ShrIs(r, inv.shift);
    rem := Shr(r, inv.shift);
  }

  lemma Prefixes(a: seq<limb>, b: seq<limb>, i: nat)
    requires i < |a| == |b| && a == b
    ensures a[..i] == b[..i]
  {
  }

  /** The last limbs of a two-limb division, shifted back. */
  method UnshiftTwo(r1: limb, r0: limb, shift: nat) returns (s1: limb, s0: limb)
    requires shift < LIMB_BITS
    ensures Pair(s1, s0) == Shr(Pair(r1, r0), shift)
  {
    hide Shl, Shr, Pow2, Val, Pair;
    s1, s0 := r1, r0;
    if shift > 0 {
      ghost var u := [r0, r1];
      MergeFits(r0, r1, shift);
      BaseShr(r1, shift);
      s0 := Shr(r0, shift) + Shl(r1, LIMB_BITS - shift);
      s1 := Shr(r1, shift);
      assert ShrLimb(u, 0, shift) == s0 && ShrLimb(u, 1, shift) == s1;
      ShrValue([s0, s1], u, shift);
      TwoLimbs(s0, s1);
      TwoLimbs(r0, r1);
    } else {
      ShrByZero(Pair(r1, r0));
    }
  }

  lemma ShrByZero(x: nat)
    ensures Shr(x, 0) == x
  {
    PowTwoZero();
  }

  lemma TwoLimbs(l: limb, h: limb)
    ensures Val([l, h]) == Pair(h, l)
  {
    hide Val, Pb;
    TopTwoOfWindow([l, h], 0);
    ValEmpty([l, h][..0]);
    PbStep(0);
  }

  /** Division by two limbs. */
  method DivQr2Preinv(qp: array?<limb>, np: array<limb>, nn: nat, inv: DivInverse, ghost u: seq<limb>) returns (ghost qs: seq<limb>)
    requires 2 <= nn <= np.Length && (qp != null ==> nn - 1 <= qp.Length) && qp != np && |u| == 2 && InverseFor(inv, u)
    modifies qp, np
    ensures |qs| == nn - 1 && Stored(qp, 0, qs)
    ensures Val(old(np[..nn])) == Val(qs) * Val(u) + Val(np[..2]) && Val(np[..2]) < Val(u)
  {
    hide *;
    ghost var N, c := np[..nn], Pow2(inv.shift);
    ghost var D, total := Val(u) * c, Val(N) * c;
    DivisorPositive(u, inv);
    TwoLimbDivisor(u, inv);
    var r1 := ShiftDividend(np, np, nn, inv.shift);
    ghost var t := np[..nn];
    ValBound(N);
    PartialFits(Val(N), nn, r1, t, nn - 1, c, Val(u));
    var r0 := np[nn - 1];
    assert t[nn - 1..] == [r0];
    QuotStart(r1, t, nn - 1, D);
    var i := nn - 1;
    assert np[..i] == t[..i];
    qs := [];
    NothingStored(qp, i);
    while i > 0
      invariant 0 <= i <= nn - 1 && |qs| == nn - 1 - i && np[..i] == t[..i]
      invariant Stored(qp, i, qs) && QuotInv(total, D, qs, r1, [r0], t[..i])
      modifies qp
    {
      ghost var low, m1, m0 := t[..i], r1, r0;
      i := i - 1;
      assert np[i] == np[..i + 1][i] == t[i] && low[i] == t[i];
      QuotBelow(total, D, qs, r1, [r0], low);
      PairPartial(r1, r0);
      var q;
      TripleOfPair(r1, r0, np[i]);
      q, r1, r0 := UdivQr3by2(r1, r0, np[i], inv.d1, inv.d0, inv.di);
      PairPartial(r1, r0);
      QuotStep(total, D, qs, m1, [m0], low, q, r1, [r0]);
      Prefixes(np[..i + 1], t[..i + 1], i);
      Store(qp, i, q, qs);
      qs := [q] + qs;
      assert low[..|low| - 1] == t[..i];
    }
    QuotDone(total, D, qs, r1, [r0], t[..0]);
    PairPartial(r1, r0);
    ShrDef(Pair(r1, r0), inv.shift);
    Unscale(Val(N), Val(u), Val(qs), Pair(r1, r0), c);
    r1, r0 := UnshiftTwo(r1, r0, inv.shift);
    np[1] := r1;
    np[0] := r0;
    assert np[..2] == [r0, r1];
    TwoLimbs(r0, r1);
  }

  lemma ShrDef(v: nat, k: nat)
    ensures Pow2(k) > 0 && Shr(v, k) == v / Pow2(k)
  {
  }

  lemma PairPartial(r1: limb, r0: limb)
    ensures Partial(r1, [r0]) == Pair(r1, r0)
  {
    hide Val, Pb;
    PbStep(0);
    TopLimbOf([r0]);
    ValEmpty([r0][..0]);
    PartialIs(r1, [r0]);
  }

  lemma TwoLimbDivisor(u: seq<limb>, inv: DivInverse)
    requires |u| == 2 && InverseFor(inv, u)
    ensures Pair(inv.d1, inv.d0) == Val(u) * Pow2(inv.shift) && IsInv3(inv.d1, inv.d0, inv.di)
  {
    hide Val, Pb, Pair, Shifted, IsInv3, IsInverse21;
    DivisorPositive(u, inv);
    var r := Shifted(u, inv.shift);
    NormalShift(u, inv.shift);
    assert r == [r[0], r[1]];
    TwoLimbs(r[0], r[1]);
  }

  lemma LongDivisor(u: seq<limb>, inv: DivInverse)
    requires |u| > 2 && InverseFor(inv, u)
    ensures inv.shift < LIMB_BITS && |Shifted(u, inv.shift)| == |u|
    ensures inv.d1 == Shifted(u, inv.shift)[|u| - 1] && inv.d0 == Shifted(u, inv.shift)[|u| - 2]
    ensures IsInv3(inv.d1, inv.d0, inv.di)
  {
    hide Val, Pb, Pair, Shifted, IsInv3, IsInverse21;
    NormalBound(u[|u| - 1], inv.shift);
    NormalShift(u, inv.shift);
  }

  /** Division by the divisor with limbs u; for more than two limbs dp holds it normalised. */
  method DivQrPreinv(qp: array?<limb>, np: array<limb>, nn: nat, dp: array<limb>, dn: nat, inv: DivInverse, ghost u: seq<limb>)
    returns (ghost qs: seq<limb>)
    requires 1 <= dn <= nn <= np.Length && (qp != null ==> nn - dn < qp.Length) && dn <= dp.Length
    requires qp != np && qp != dp && np != dp && |u| == dn && InverseFor(inv, u)
    requires dn > 2 ==> inv.shift < LIMB_BITS && dp[..dn] == Shifted(u, inv.shift)
    modifies qp, np
    ensures |qs| == nn - dn + 1 && Stored(qp, 0, qs)
    ensures Val(old(np[..nn])) == Val(qs) * Val(u) + Val(np[..dn]) && Val(np[..dn]) < Val(u)
  {
    hide *;
    if dn == 1 {
      assert u == [u[0]];
      SingleLimb(u[0]);
      var r;
      r, qs := DivQr1Preinv(qp, np, nn, inv, u[0]);
      StoredIntro(qp, qs);
      np[0] := r;
      assert np[..1] == [np[0]];
      SingleLimb(np[0]);
    } else if dn == 2 {
      qs := DivQr2Preinv(qp, np, nn, inv, u);
    } else {
      ghost var N, c, r := np[..nn], Pow2(inv.shift), dp[..dn];
      DivisorPositive(u, inv);
      LongDivisor(u, inv);
      assert dp[dn - 1] == r[dn - 1] && dp[dn - 2] == r[dn - 2];
      var nh := ShiftDividend(np, np, nn, inv.shift);
      assert dp[..dn] == r;
      ghost var t := np[..nn];
      ValBound(N);
      PartialFits(Val(N), nn, nh, t, nn - dn + 1, c, Val(u));
      assert t[nn - dn + 1..] == np[nn - dn + 1..nn];
      qs := DivQrPi1(qp, np, nn, nh, dp, dn, inv.di);
      ShrDef(Val(np[..dn]), inv.shift);
      Unscale(Val(N), Val(u), Val(qs), Val(np[..dn]), c);
      if inv.shift > 0 {
        RShift(np, dn, inv.shift);
      } else {
        ShrByZero(Val(np[..dn]));
      }
    }
  }

  lemma StoredIntro(qp: array?<limb>, qs: seq<limb>)
    requires qp != null ==> |qs| <= qp.Length && qp[..|qs|] == qs
    ensures Stored(qp, 0, qs)
  {
  }

  lemma SingleLimb(x: limb)
    ensures Val([x]) == x
  {
    hide Val, Pb;
    TopLimbOf([x]);
    ValEmpty([x][..0]);
    PbStep(0);
  }

  /** The quotient qs goes to qp, unless that is missing, and the remainder replaces the dividend. */
  method MpnDivQr(qp: array?<limb>, np: array<limb>, nn: nat, dp: array<limb>, dn: nat) returns (ghost qs: seq<limb>)
    requires 1 <= dn <= nn <= np.Length && (qp != null ==> nn - dn < qp.Length) && dn <= dp.Length
    requires qp != np && qp != dp && np != dp && dp[dn - 1] > 0
    modifies qp, np
    ensures |qs| == nn - dn + 1 && (qp != null ==> qp[..nn - dn + 1] == qs)
    ensures Val(old(np[..nn])) == Val(qs) * Val(old(dp[..dn])) + Val(np[..dn])
    ensures Val(np[..dn]) < Val(old(dp[..dn]))
  {
    hide *;
    ghost var u := dp[..dn];
    var inv := DivQrInvert(dp, dn);
    var tp := dp;
    if dn > 2 {
      LongDivisor(u, inv);
    }
    if dn > 2 && inv.shift > 0 {
      tp := new limb[dn];
      DivisorPositive(u, inv);
      var cy := LShift(tp, dp, dn, inv.shift);
      ghost var r := Shifted(u, inv.shift);
      ValBound(r);
      assert tp[..dn] == tp[..];
      NoCarryOut(tp[..dn], cy, Val(r));
      ValInjective(tp[..dn], r);
    } else if dn > 2 {
      ShiftByZero(u);
    }
    qs := DivQrPreinv(qp, np, nn, tp, dn, inv, u);
    StoredAll(qp, qs);
  }

  lemma NoCarryOut(v: seq<limb>, cy: limb, x: nat)
    requires Val(v) + cy * Pb(|v|) == x && x < Pb(|v|)
    ensures cy == 0 && Val(v) == x
  {
    hide Val, Pb;
    if cy >= 1 {
      MulMonotone(Pb(|v|), 1, cy);
    }
  }
}
