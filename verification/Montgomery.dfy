/** Montgomery multiplication and the Montgomery representation. */
module Montgomery {
  import opened Arith
  import opened Limbs
  import opened BignumCore

  // ---- the constant mm = -N^-1 mod B ----

  lemma CongDivides(a: int, b: int, n: int, d: int, e: int)
    requires d > 0 && e > 0 && n == d * e && n > 0 && Cong(a, b, n)
    ensures Cong(a, b, d)
  {
    var k := CongElim(a, b, n);
    assert k * (d * e) == k * e * d;
    CongIntro(a, b, d, k * e);
  }

  /** The seed is an inverse modulo 16. */
  lemma SeedIsInverse(n: nat, x: nat)
    requires n % 2 == 1
    requires x == n + 8 * ((n + 2) / 4 % 2)
    ensures Cong(n * x, 1, 16)
  {
    var q, r := n / 16, n % 16;
    DivMod(n, 16);
    ModSixteen(n, q, r);
    var y := r + 8 * ((r + 2) / 4 % 2);
    SeedOfResidue(r);
    CongIntro(n, r, 16, q);
    CongIntro(x, y, 16, q);
    CongMul(n, r, x, y, 16);
  }

  lemma ModSixteen(n: nat, q: nat, r: nat)
    requires n == 16 * q + r && n % 2 == 1
    ensures r % 2 == 1 && (n + 2) / 4 % 2 == (r + 2) / 4 % 2
  {
    var a, b := (r + 2) / 4, (r + 2) % 4;
    DivMod(r + 2, 4);
    DivModUnique(n + 2, 4, 4 * q + a, b);
    SameParity(2 * q, a);
    SameParity(8 * q, r);
  }

  lemma SameParity(m: int, a: int)
    ensures (2 * m + a) % 2 == a % 2
  {
  }

  lemma SeedOfResidue(r: nat)
    requires r % 2 == 1 && r < 16
    ensures Cong(r * (r + 8 * ((r + 2) / 4 % 2)), 1, 16)
  {
    assert r == 1 || r == 3 || r == 5 || r == 7 || r == 9 || r == 11 || r == 13 || r == 15;
  }

  /** One Newton step squares the modulus of the inverse. */
  lemma NewtonSquares(n: int, x: int, m: int)
    requires m > 0 && Cong(n * x, 1, m)
    ensures m * m > 0 && Cong(n * (x * (2 - n * x)), 1, m * m)
  {
    var q := CongElim(n * x, 1, m);
    NewtonIdentity(n, x, q, m);
    CongIntro(n * (x * (2 - n * x)), 1, m * m, -(q * q));
  }

  lemma NewtonIdentity(n: int, x: int, q: int, m: int)
    requires n * x == 1 + q * m
    ensures n * (x * (2 - n * x)) == 1 + -(q * q) * (m * m)
  {
    assert n * (x * (2 - n * x)) == (n * x) * (2 - n * x);
  }

  /** The wrapped step agrees with the exact one modulo B. */
  lemma WrappedStep(n: limb, x: limb)
    ensures BASE > 0 && Cong(n * Wrap(x * Wrap(2 - Wrap(n * x))), n * (x * (2 - n * x)), BASE)
  {
    BasePos();
    WrapCong(n * x);
    CongAdd(2, 2, Wrap(n * x), n * x, BASE);
    WrapCong(2 - Wrap(n * x));
    CongMul(x, x, Wrap(2 - Wrap(n * x)), 2 - n * x, BASE);
    WrapCong(x * Wrap(2 - Wrap(n * x)));
    CongMul(n, n, Wrap(x * Wrap(2 - Wrap(n * x))), x * (2 - n * x), BASE);
  }

  lemma BaseFactors(k: nat)
    requires k <= LOG_BITS
    ensures Pow2(k) <= LIMB_BITS
    ensures BASE == Pow2(Pow2(k)) * Pow2(LIMB_BITS - Pow2(k))
  {
    BaseFacts();
    PowMonotone(2, k, LOG_BITS);
    PowAdd(2, Pow2(k), LIMB_BITS - Pow2(k));
  }

  lemma MontStep(n: limb, x: limb, j: nat)
    requires j + 3 <= LOG_BITS && Cong(n * x, 1, Pow2(Pow2(j + 2)))
    ensures Cong(n * Wrap(x * Wrap(2 - Wrap(n * x))), 1, Pow2(Pow2(j + 3)))
  {
    hide *;
    var m := Pow2(Pow2(j + 2));
    NewtonSquares(n, x, m);
    SquarePow(j + 2);
    WrappedStep(n, x);
    BaseFactors(j + 3);
    CongDivides(n * Wrap(x * Wrap(2 - Wrap(n * x))), n * (x * (2 - n * x)), BASE, m * m,
                Pow2(LIMB_BITS - Pow2(j + 3)));
    CongTrans(n * Wrap(x * Wrap(2 - Wrap(n * x))), n * (x * (2 - n * x)), 1, m * m);
  }

  lemma SquarePow(k: nat)
    ensures Pow2(Pow2(k)) * Pow2(Pow2(k)) == Pow2(Pow2(k + 1))
  {
    PowAdd(2, Pow2(k), Pow2(k));
  }

  /** mm * N = -1 (mod B). */
  predicate IsMontConstant(mm: limb, n0: limb)
  {
    BasePos();
    Cong(mm * n0, -1, BASE)
  }

  lemma PowBelowEight(e: nat)
    ensures Pow2(e) < 8 <==> e <= 2
    ensures e > 0 ==> Pow2(e) / 2 == Pow2(e - 1)
  {
    assert Pow(2, 2) == 4 && Pow(2, 3) == 8;
    if e <= 2 {
      PowMonotone(2, e, 2);
    } else {
      PowMonotone(2, 3, e);
    }
  }

  lemma BitTwo(a: int, b: int, k: int, e: int)
    requires a == b + k * (16 * e)
    ensures a / 4 % 2 == b / 4 % 2
  {
    var m := k * e;
    assert a == b + 16 * m;
    assert a / 4 == b / 4 + 4 * m;
  }

  /** Adding four times bit two of n + 2, shifted once, is the seed of the iteration. */
  lemma SeedInvariant(n0: limb, x: limb)
    requires n0 % 2 == 1 && x == Wrap(n0 + Wrap(n0 + 2) / 4 % 2 * 4 * 2)
    ensures Cong(n0 * x, 1, Pow2(Pow2(2)))
  {
    hide Wrap;
    assert Pow(2, 2) == 4 && Pow(2, 4) == 16;
    BaseFacts();
    var e := BASE / 16;
    assert BASE == 16 * e;
    WrapCong(n0 + 2);
    var k := CongElim(Wrap(n0 + 2), n0 + 2, BASE);
    BitTwo(Wrap(n0 + 2), n0 + 2, k, e);
    var y := n0 as int + 8 * ((n0 + 2) / 4 % 2);
    SeedIsInverse(n0, y);
    WrapCong(y);
    CongDivides(x, y, BASE, 16, e);
    CongMul(n0, n0, x, y, 16);
  }

  /** Fast Montgomery initialisation: Newton iteration on the low limb. */
  method MontmulInit(N: array<limb>) returns (mm: limb)
    requires N.Length > 0 && N[0] % 2 == 1
    ensures IsMontConstant(mm, N[0])
  {
    hide *;
    BaseFacts();
    var n0 := N[0];
    var x: limb := Wrap(n0 + Wrap(n0 + 2) / 4 % 2 * 4 * 2);
    SeedInvariant(n0, x);
    var i := LIMB_BITS;
    ghost var j := 0;
    PowBelowEight(LOG_BITS);
    while i >= 8
      invariant j <= LOG_BITS - 2 && i == Pow2(LOG_BITS - j)
      invariant Cong(n0 * x, 1, Pow2(Pow2(j + 2)))
      decreases i
    {
      PowBelowEight(LOG_BITS - j);
      MontStep(n0, x, j);
      x := Wrap(x * Wrap(2 - Wrap(n0 * x)));
      i, j := i / 2, j + 1;
    }
    PowBelowEight(LOG_BITS - j);
    mm := Wrap(Wrap(-1 - x) + 1);
    NegatedInverse(n0, x, mm);
  }

  /** ~x + 1 is -x. */
  lemma NegatedInverse(n0: limb, x: limb, mm: limb)
    requires Cong(n0 * x, 1, Pow2(Pow2(LOG_BITS))) && mm == Wrap(Wrap(-1 - x) + 1)
    ensures IsMontConstant(mm, n0)
  {
    hide Pow2, Pow;
    BaseFacts();
    WrapCong(-1 - x);
    CongAdd(Wrap(-1 - x), -1 - x, 1, 1, BASE);
    WrapCong(Wrap(-1 - x) + 1);
    CongTrans(mm, Wrap(-1 - x) as int + 1, 0 - x as int, BASE);
    CongMul(mm, 0 - x as int, n0, n0, BASE);
    CongAdd(0, 0, n0 * x, 1, BASE);
    assert (0 - x as int) * n0 == 0 - n0 * x;
  }

  // ---- Montgomery multiplication ----

  /** R^-1 modulo N for R = B^n: (N+1)/2 inverts 2. */
  function RInv(nv: nat, n: nat): int {
    Pow((nv + 1) / 2, LIMB_BITS * n)
  }

  lemma RInvInverts(nv: nat, n: nat)
    requires nv % 2 == 1
    ensures Cong(Pb(n) * RInv(nv, n), 1, nv)
  {
    PowPow(2, LIMB_BITS, n);
    PowTwoInvertible(LIMB_BITS * n, nv);
  }

  /** The Montgomery product A * B * R^-1 mod N as a number. */
  function MontProd(a: int, b: int, nv: nat, n: nat): (r: nat)
    requires nv > 0
    ensures r < nv
  {
    a * b * RInv(nv, n) % nv
  }

  /** What determines the product: X < N and X * R = A * B (mod N). */
  lemma MontProdUnique(x: nat, a: int, b: int, nv: nat, n: nat, k: int)
    requires nv % 2 == 1 && x < nv && x * Pb(n) == a * b + k * nv
    ensures x == MontProd(a, b, nv, n)
  {
    hide Pb, RInv;
    var r, inv := Pb(n), RInv(nv, n);
    RInvInverts(nv, n);
    CongIntro(x * r, a * b, nv, k);
    CongMul(x * r, a * b, inv, inv, nv);
    CongMul(x, x, r * inv, 1, nv);
    MulAssoc(x, r, inv);
    CongTrans(x, x * r * inv, a * b * inv, nv);
    CongSmall(x, a * b * inv, nv);
  }

  lemma MontProdCong(a: int, b: int, nv: nat, n: nat)
    requires nv % 2 == 1
    ensures Cong(MontProd(a, b, nv, n) * Pb(n), a * b, nv)
  {
    hide Pb, RInv;
    var r, inv := Pb(n), RInv(nv, n);
    RInvInverts(nv, n);
    CongMod(a * b * inv, nv);
    CongMul(MontProd(a, b, nv, n), a * b * inv, r, r, nv);
    CongMul(a * b, a * b, r * inv, 1, nv);
    assert a * b * inv * r == a * b * (r * inv) by { MulAssoc(a * b, inv, r); }
    CongTrans(MontProd(a, b, nv, n) * r, a * b * (r * inv), a * b, nv);
  }

  /** After i rounds the accumulator, i limbs up, holds (A_i * B + U * N) / B^i. */
  ghost predicate MontInv(t: seq<limb>, i: nat, n: nat, a: seq<limb>, bv: nat, nv: nat, u: nat) {
    && |t| == 2 * n + 1 && |a| == n && i <= n
    && (forall k :: i + n + 1 <= k < |t| ==> t[k] == 0)
    && Val(t[i..i + n + 1]) * Pb(i) == Val(a[..i]) * bv + u * nv
    && u < Pb(i)
  }

  lemma AccumulatorBelow(w: nat, p: nat, av: nat, bv: nat, u: nat, nv: nat)
    requires w * p == av * bv + u * nv && av < p && u < p && nv > 0
    ensures w < bv + nv
  {
    MulMonotone(bv, av, p - 1);
    MulMonotone(nv, u, p - 1);
    assert (p - 1) * bv + (p - 1) * nv == p * (bv + nv) - (bv + nv);
    MulCancelLt(w, bv + nv, p);
  }

  lemma AccumulatorBound(t: seq<limb>, i: nat, n: nat, a: seq<limb>, bv: nat, nv: nat, u: nat)
    requires MontInv(t, i, n, a, bv, nv, u) && nv > 0
    ensures Val(t[i..i + n + 1]) < bv + nv
  {
    hide Val, Pb;
    ValBound(a[..i]);
    AccumulatorBelow(Val(t[i..i + n + 1]), Pb(i), Val(a[..i]), bv, u, nv);
  }

  /** The round's sum stays below B * (B_value + N) <= B^(n+2). */
  lemma RoundBound(w: nat, bv: nat, nv: nat, u0: limb, u1: limb, n: nat)
    requires w < bv + nv && bv <= nv < Pb(n)
    ensures w + u0 * bv + u1 * nv < BASE * (bv + nv) < Pb(n + 2)
    ensures u0 * bv >= 0 && u1 * nv >= 0
  {
    hide *;
    BaseFacts();
    PbStep(n);
    PbStep(n + 1);
    RoundBoundInts(w, bv, nv, u0, u1, Pb(n), BASE);
  }

  lemma RoundBoundInts(w: nat, bv: nat, nv: nat, u0: nat, u1: nat, p: nat, base: nat)
    requires w < bv + nv && bv <= nv < p && u0 < base && u1 < base && base >= 2
    ensures w + u0 * bv + u1 * nv < base * (bv + nv) < base * (base * p)
    ensures u0 * bv >= 0 && u1 * nv >= 0
  {
    RoundSum(w, bv, nv, u0, u1, base);
    assert bv + nv < base * p by {
      MulMonotone(p, 2, base);
    }
    MulBelow(base, bv + nv, base * p);
  }

  lemma RoundSum(w: nat, bv: nat, nv: nat, u0: nat, u1: nat, base: nat)
    requires w < bv + nv && u0 < base && u1 < base
    ensures w + u0 * bv + u1 * nv < base * (bv + nv)
    ensures u0 * bv >= 0 && u1 * nv >= 0
  {
    MulMonotone(bv, u0, base - 1);
    MulMonotone(nv, u1, base - 1);
    LessOne(base, bv, nv);
  }

  lemma LessOne(c: int, a: int, b: int)
    ensures (c - 1) * a + (c - 1) * b == c * (a + b) - (a + b)
  {
  }

  lemma MulBelow(c: int, a: int, b: int)
    requires c > 0 && a < b
    ensures c * a < c * b
  {
  }

  lemma NoCarryOut(v: int, c: nat, p: nat, total: int)
    requires v + c * p == total && v >= 0 && p > 0 && total < p
    ensures c == 0
  {
    if c >= 1 {
      MulMonotone(p, 1, c);
    }
  }

  /** The round's multiplier, computed modulo B. */
  function Multiplier(t0: limb, u0: limb, b0: limb, mm: limb): limb {
    Wrap(Wrap(t0 + Wrap(u0 * b0)) * mm)
  }

  /** The round's multiplier clears the low limb. */
  lemma LowLimbClears(t0: limb, u0: limb, b0: limb, n0: limb, mm: limb, u1: limb)
    requires IsMontConstant(mm, n0)
    requires u1 == Multiplier(t0, u0, b0, mm)
    ensures BASE > 0 && Cong(t0 + u0 * b0 + u1 * n0, 0, BASE)
  {
    BasePos();
    WrapCong(u0 * b0);
    CongAdd(t0, t0, Wrap(u0 * b0), u0 * b0, BASE);
    WrapCong(t0 + Wrap(u0 * b0));
    var s := t0 as int + u0 * b0;
    CongTrans(Wrap(t0 + Wrap(u0 * b0)), t0 + Wrap(u0 * b0), s, BASE);
    CongMul(Wrap(t0 + Wrap(u0 * b0)), s, mm, mm, BASE);
    WrapCong(Wrap(t0 + Wrap(u0 * b0)) * mm);
    CongTrans(u1, Wrap(t0 + Wrap(u0 * b0)) * mm, s * mm, BASE);
    CongMul(u1, s * mm, n0, n0, BASE);
    CongMul(s, s, mm * n0, -1, BASE);
    MulAssoc(s, mm, n0);
    CongTrans(u1 * n0, s * mm * n0, 0 - s, BASE);
    CongAdd(s, s, u1 * n0, 0 - s, BASE);
  }

  lemma ValMod(s: seq<limb>)
    requires s != []
    ensures BASE > 0 && Cong(Val(s), s[0], BASE)
  {
    hide Val;
    BasePos();
    ValHead(s);
    CongIntro(Val(s), s[0], BASE, Val(s[1..]));
  }

  /** A value congruent to 0 modulo B has a zero low limb, and dropping it divides by B. */
  lemma DropZeroLimb(s: seq<limb>, v: int)
    requires s != [] && Val(s) == v && BASE > 0 && Cong(v, 0, BASE)
    ensures v == BASE * Val(s[1..])
  {
    ValMod(s);
    CongSmall(s[0], 0, BASE);
    DivModUnique(0, BASE, 0, 0);
    ValHead(s);
  }

  lemma RoundCong(w: nat, bv: nat, nv: nat, t0: limb, b0: limb, n0: limb, u0: limb, u1: limb)
    requires BASE > 0 && Cong(w, t0, BASE) && Cong(bv, b0, BASE) && Cong(nv, n0, BASE)
    requires Cong(t0 + u0 * b0 + u1 * n0, 0, BASE)
    ensures Cong(w + u0 * bv + u1 * nv, 0, BASE)
  {
    CongMul(u0, u0, bv, b0, BASE);
    CongMul(u1, u1, nv, n0, BASE);
    CongAdd(w, t0, u0 * bv, u0 * b0, BASE);
    CongAdd(w + u0 * bv, t0 as int + u0 * b0, u1 * nv, u1 * n0, BASE);
  }

  lemma RoundValue(w: int, w': int, p: int, av: int, bv: int, nv: int, u: int, u0: int, u1: int, base: int)
    requires w * p == av * bv + u * nv
    requires base * w' == w + u0 * bv + u1 * nv
    ensures w' * (base * p) == (av + u0 * p) * bv + (u + u1 * p) * nv
  {
    assert w' * (base * p) == (base * w') * p;
    assert (w + u0 * bv + u1 * nv) * p == w * p + u0 * p * bv + u1 * p * nv;
  }

  /** The round's sum: it ends in a zero limb and leaves no carry. */
  lemma RoundFacts(t: seq<limb>, i: nat, n: nat, a: seq<limb>, y: seq<limb>, nn: seq<limb>, u: nat, u0: limb, u1: limb, mm: limb)
    requires MontInv(t, i, n, a, Val(y), Val(nn), u) && i < n && |t| == 2 * n + 1 && y != [] && |nn| == n && 0 < Val(nn) && Val(y) <= Val(nn)
    requires IsMontConstant(mm, nn[0]) && u1 == Multiplier(t[i], u0, y[0], mm)
    ensures u0 * Val(y) >= 0 && u1 * Val(nn) >= 0 && u1 * Pb(i) >= 0
    ensures var s := Val(t[i..i + n + 1]) + u0 * Val(y) + u1 * Val(nn); s < Pb(n + 2) && BASE > 0 && Cong(s, 0, BASE)
    ensures forall k :: i + n + 1 <= k < |t| ==> t[k] == 0
  {
    hide *;
    BaseFacts();
    NonNegative(u1, Pb(i));
    var win := t[i..i + n + 1];
    MontInvParts(t, i, n, a, Val(y), Val(nn), u);
    LowLimbClears(t[i], u0, y[0], nn[0], mm, u1);
    ValMod(y);
    ValMod(nn);
    ValMod(win);
    RoundCong(Val(win), Val(y), Val(nn), t[i], y[0], nn[0], u0, u1);
    ValBound(nn);
    RoundBound(Val(win), Val(y), Val(nn), u0, u1, n);
  }

  lemma NonNegative(x: nat, y: nat)
    ensures x * y >= 0
  {
  }

  /** Limbs above those that a number needs are zero. */
  lemma ClippedValue(s: seq<limb>, m: nat)
    requires m <= |s| && Val(s) < Pb(m)
    ensures Val(s[..m]) == Val(s)
  {
    hide *;
    ValSplit(s, m);
    PbPositive(m);
    MulCommutes(Pb(m), Val(s[m..]));
    NoCarryOut(Val(s[..m]), Val(s[m..]), Pb(m), Val(s));
  }

  /** What the multiply-accumulate over n + 2 limbs reads of a factor not above N. */
  lemma FactorInWindow(y: seq<limb>, nn: seq<limb>, m: nat)
    requires Val(y) <= Val(nn) && m == if |nn| + 2 < |y| then |nn| + 2 else |y|
    ensures Val(y[..m]) == Val(y)
  {
    hide *;
    if m < |y| {
      ValBound(nn);
      PbAdd(|nn|, 2);
      PbPositive(2);
      MulMonotone(Pb(|nn|), 1, Pb(2));
      MulCommutes(Pb(2), Pb(|nn|));
      ClippedValue(y, m);
    } else {
      assert y[..m] == y;
    }
  }

  /** The two multiply-accumulates over the window: no carry is lost. */
  method AddTwo(T: array<limb>, i: nat, n: nat, u0: limb, Y: array<limb>, yLimbs: nat, N: array<limb>, u1: limb, ghost w: nat)
    requires T != Y && T != N && n <= N.Length && yLimbs <= Y.Length && i + n + 2 <= T.Length && Val(Y[..yLimbs]) <= Val(N[..n])
    requires Val(T[i..i + n + 2]) == w && w + u0 * Val(Y[..yLimbs]) + u1 * Val(N[..n]) < Pb(n + 2)
    requires u0 * Val(Y[..yLimbs]) >= 0 && u1 * Val(N[..n]) >= 0
    modifies T
    ensures Val(T[i..i + n + 2]) == w + u0 * Val(Y[..yLimbs]) + u1 * Val(N[..n])
    ensures T[..i] == old(T[..i]) && T[i + n + 2..] == old(T[i + n + 2..])
  {
    hide *;
    ghost var bv, nv := Val(Y[..yLimbs]), Val(N[..n]);
    PbPositive(n + 2);
    ghost var m := if n + 2 < yLimbs then n + 2 else yLimbs;
    FactorInWindow(Y[..yLimbs], N[..n], m);
    assert Y[..yLimbs][..m] == Y[..m];
    var c1 := CoreMla(T, i, n + 2, Y, yLimbs, u0);
    MulCommutes(bv, u0);
    NoCarryOut(Val(T[i..i + n + 2]), c1, Pb(n + 2), w + u0 * bv);
    var c2 := CoreMla(T, i, n + 2, N, n, u1);
    MulCommutes(nv, u1);
    NoCarryOut(Val(T[i..i + n + 2]), c2, Pb(n + 2), w + u0 * bv + u1 * nv);
  }

  /** The window slides up by one limb. */
  lemma WindowSlides(t: seq<limb>, t': seq<limb>, i: nat, n: nat, a: seq<limb>, bv: nat, nv: nat, u: nat, u0: limb, u1: limb)
    requires MontInv(t, i, n, a, bv, nv, u) && i < n && u0 == a[i] && |t'| == |t| == 2 * n + 1 && BASE > 0
    requires t'[i + n + 2..] == t[i + n + 2..] && (forall k :: i + n + 1 <= k < |t| ==> t[k] == 0)
    requires var s := Val(t[i..i + n + 1]) + u0 * bv + u1 * nv; Val(t'[i..i + n + 2]) == s && Cong(s, 0, BASE)
    ensures u1 * Pb(i) >= 0 && MontInv(t', i + 1, n, a, bv, nv, u + u1 * Pb(i))
  {
    hide *;
    var w2 := t'[i..i + n + 2];
    DropZeroLimb(w2, Val(t[i..i + n + 1]) + u0 * bv + u1 * nv);
    assert t'[i + 1..i + 1 + n + 1] == w2[1..];
    forall k | i + 1 + n + 1 <= k < |t'|
      ensures t'[k] == 0
    {
      assert t'[k] == t'[i + n + 2..][k - (i + n + 2)] == t[i + n + 2..][k - (i + n + 2)] == t[k];
    }
    MontInvNext(t, t', i, n, a, bv, nv, u, u0, u1);
  }

  /** One round: add u0 * B and u1 * N to the window at T[i], which clears T[i]. */
  method MontRound(T: array<limb>, i: nat, n: nat, u0: limb, Y: array<limb>, yLimbs: nat, N: array<limb>, mm: limb,
                   ghost a: seq<limb>, ghost u: nat)
    returns (ghost u': nat)
    requires T != Y && T != N && n <= N.Length && 1 <= yLimbs <= Y.Length && T.Length >= 2 * n + 1
    requires i < n && IsMontConstant(mm, N[0]) && 0 < Val(N[..n]) && Val(Y[..yLimbs]) <= Val(N[..n])
    requires MontInv(T[..2 * n + 1], i, n, a, Val(Y[..yLimbs]), Val(N[..n]), u) && |a| == n && u0 == a[i]
    modifies T
    ensures MontInv(T[..2 * n + 1], i + 1, n, a, Val(Y[..yLimbs]), Val(N[..n]), u')
  {
    hide *;
    ghost var t, y, nn := T[..2 * n + 1], Y[..yLimbs], N[..n];
    var u1 := Multiplier(T[i], u0, Y[0], mm);
    RoundFacts(t, i, n, a, y, nn, u, u0, u1, mm);
    ghost var w0 := T[i..i + n + 2];
    assert w0 == t[i..i + n + 1] + Zeros(1) by { ZeroWindow(t, i, n, w0); }
    ValPadded(t[i..i + n + 1], 1);
    AddTwo(T, i, n, u0, Y, yLimbs, N, u1, Val(w0));
    ghost var t' := T[..2 * n + 1];
    SuffixKept(t, t', i + n + 2, T[..], old(T[..]));
    assert t'[i..i + n + 2] == T[i..i + n + 2];
    u' := u + u1 * Pb(i);
    WindowSlides(t, t', i, n, a, Val(y), Val(nn), u, u0, u1);
  }

  lemma SuffixKept(t: seq<limb>, t': seq<limb>, m: nat, T': seq<limb>, T: seq<limb>)
    requires m <= |t| == |t'| <= |T| == |T'| && t == T[..|t|] && t' == T'[..|t|] && T'[m..] == T[m..]
    ensures t'[m..] == t[m..]
  {
    assert t[m..] == T[m..][..|t| - m] && t'[m..] == T'[m..][..|t| - m];
  }

  lemma ZeroWindow(t: seq<limb>, i: nat, n: nat, w0: seq<limb>)
    requires |t| == 2 * n + 1 && i < n && w0 == t[i..i + n + 2] && t[i + n + 1] == 0
    ensures w0 == t[i..i + n + 1] + Zeros(1)
  {
  }

  lemma MontInvParts(t: seq<limb>, i: nat, n: nat, a: seq<limb>, bv: nat, nv: nat, u: nat)
    requires MontInv(t, i, n, a, bv, nv, u) && nv > 0
    ensures |t| == 2 * n + 1 && |a| == n && i <= n
    ensures forall k :: i + n + 1 <= k < |t| ==> t[k] == 0
    ensures Val(t[i..i + n + 1]) < bv + nv
  {
    AccumulatorBound(t, i, n, a, bv, nv, u);
  }

  lemma MontInvNext(t: seq<limb>, t': seq<limb>, i: nat, n: nat, a: seq<limb>, bv: nat, nv: nat, u: nat, u0: limb, u1: limb)
    requires MontInv(t, i, n, a, bv, nv, u) && i < n && u0 == a[i] && |t'| == |t|
    requires forall k :: i + 1 + n + 1 <= k < |t'| ==> t'[k] == 0
    requires Val(t[i..i + n + 1]) + u0 * bv + u1 * nv == BASE * Val(t'[i + 1..i + 1 + n + 1])
    ensures u1 * Pb(i) >= 0
    ensures MontInv(t', i + 1, n, a, bv, nv, u + u1 * Pb(i))
  {
    hide Val, Pb;
    ValStep(a, i);
    PbStep(i);
    RoundValue(Val(t[i..i + n + 1]), Val(t'[i + 1..i + 1 + n + 1]), Pb(i), Val(a[..i]), bv, nv, u, u0, u1, BASE);
    MulMonotone(Pb(i), u1, BASE - 1);
    Distribute(BASE, 1, Pb(i));
  }

  /** The last subtraction: t < 2N split into n limbs and a carry, against the borrow of t - N. */
  lemma FinalSubtraction(t: nat, low: nat, carry: nat, p: nat, nv: nat, x: nat, borrow: nat)
    requires t == low + carry * p && low < p && 0 < nv < p && t < 2 * nv
    requires x - borrow * p == low - nv && x < p && borrow <= 1
    ensures carry <= 1 && !(carry == 1 && borrow == 0)
    ensures (if carry != borrow then low else x) == if t >= nv then t - nv else t
  {
    if carry >= 2 {
      MulMonotone(p, 2, carry);
    }
    assert carry == 0 || carry == 1;
  }

  /**
   * Montgomery multiplication: X = A * Y * R^-1 mod N. X may be A, Y or N, and Y may have more limbs
   * than N. The carries out of the inner multiply-accumulates and the case (carry, borrow) = (1, 0)
   * are shown impossible.
   */
  method CoreMontmul(X: array<limb>, A: array<limb>, Y: array<limb>, yLimbs: nat, N: array<limb>, n: nat, mm: limb,
                     T: array<limb>)
    requires 1 <= n <= X.Length && n <= A.Length && 1 <= yLimbs <= Y.Length && n <= N.Length
    requires T.Length >= 2 * n + 1 && T != X && T != A && T != Y && T != N
    requires N[0] % 2 == 1 && IsMontConstant(mm, N[0]) && Val(Y[..yLimbs]) <= Val(N[..n])
    modifies X, T
    ensures 0 < Val(old(N[..n]))
    ensures Val(X[..n]) == MontProd(Val(old(A[..n])), Val(old(Y[..yLimbs])), Val(old(N[..n])), n)
    ensures X[n..] == old(X[n..])
  {
    hide *;
    ghost var a, y, nn := A[..n], Y[..yLimbs], N[..n];
    OddValue(nn);
    ghost var u := MontRounds(A, Y, yLimbs, N, n, mm, T);
    assert X[..] == old(X[..]) && N[..n] == nn;
    MontReduce(X, N, n, T, a, Val(y), u);
  }

  /** The main loop: after n rounds the result, below 2N, sits in T[n..2n+1]. */
  method MontRounds(A: array<limb>, Y: array<limb>, yLimbs: nat, N: array<limb>, n: nat, mm: limb, T: array<limb>)
    returns (ghost u: nat)
    requires n <= A.Length && 1 <= yLimbs <= Y.Length && 1 <= n <= N.Length
    requires T.Length >= 2 * n + 1 && T != A && T != Y && T != N
    requires IsMontConstant(mm, N[0]) && 0 < Val(N[..n]) && Val(Y[..yLimbs]) <= Val(N[..n])
    modifies T
    ensures MontInv(T[..2 * n + 1], n, n, A[..n], Val(Y[..yLimbs]), Val(N[..n]), u)
  {
    hide *;
    BasePos();
    ghost var a, y, nn := A[..n], Y[..yLimbs], N[..n];
    forall k | 0 <= k < 2 * n + 1 {
      T[k] := 0;
    }
    u := 0;
    MontInvStart(T[..2 * n + 1], n, a, Val(y), Val(nn));
    for i := 0 to n
      invariant A[..n] == a && Y[..yLimbs] == y && N[..n] == nn
      invariant MontInv(T[..2 * n + 1], i, n, a, Val(y), Val(nn), u)
    {
      assert A[i] == a[i];
      u := MontRound(T, i, n, A[i], Y, yLimbs, N, mm, a, u);
    }
  }

  /** The constant-flow final step: always subtract, then keep the right one of T and T - N. */
  method MontReduce(X: array<limb>, N: array<limb>, n: nat, T: array<limb>, ghost a: seq<limb>, ghost bv: nat, ghost u: nat)
    requires n <= X.Length && n <= N.Length && T.Length >= 2 * n + 1 && T != X
    requires Val(N[..n]) % 2 == 1 && bv <= Val(N[..n])
    requires MontInv(T[..2 * n + 1], n, n, a, bv, Val(N[..n]), u)
    modifies X
    ensures Val(old(N[..n])) > 0 && Val(X[..n]) == MontProd(Val(a), bv, Val(old(N[..n])), n)
    ensures X[n..] == old(X[n..])
  {
    hide *;
    ghost var t, nn := T[..2 * n + 1], N[..n];
    ghost var nv := Val(nn);
    MontInvParts(t, n, n, a, bv, nv, u);
    ghost var tv := Val(t[n..2 * n + 1]);
    var carry := T[2 * n];
    SplitTop(t, n);
    var borrow := CoreSub(X, T, n, N, n);
    ghost var xv := Val(X[..n]);
    assert T[n..2 * n] == t[n..2 * n] && T[n..n + n] == T[n..2 * n];
    ValBound(X[..n]); ValBound(nn); ValBound(t[n..2 * n]);
    FinalSubtraction(tv, Val(t[n..2 * n]), carry, Pb(n), nv, xv, borrow);
    if carry != borrow {
      forall k | 0 <= k < n {
        X[k] := T[n + k];
      }
      assert X[..n] == t[n..2 * n];
    }
    MontResult(t, n, a, bv, nv, u, Val(X[..n]));
  }

  lemma OddValue(s: seq<limb>)
    requires s != [] && s[0] % 2 == 1
    ensures Val(s) % 2 == 1 && Val(s) > 0
  {
    hide Val;
    ValHead(s);
    BaseFacts();
    assert BASE == 16 * (BASE / 16);
    OddSum(s[0], BASE / 16, Val(s[1..]));
  }

  lemma OddSum(x: int, e: int, v: int)
    requires x % 2 == 1
    ensures (x + (16 * e) * v) % 2 == 1
  {
    assert (16 * e) * v == 16 * (e * v);
  }

  lemma MontInvStart(t: seq<limb>, n: nat, a: seq<limb>, bv: nat, nv: nat)
    requires |t| == 2 * n + 1 && |a| == n && forall k :: 0 <= k < |t| ==> t[k] == 0
    ensures MontInv(t, 0, n, a, bv, nv, 0)
  {
    ValZeros(t[0..n + 1]);
    PbStep(0);
  }

  lemma SplitTop(t: seq<limb>, n: nat)
    requires |t| == 2 * n + 1
    ensures Val(t[n..2 * n + 1]) == Val(t[n..2 * n]) + t[2 * n] * Pb(n)
  {
    ValStep(t[n..2 * n + 1], n);
    assert t[n..2 * n + 1][..n] == t[n..2 * n];
    assert t[n..2 * n + 1][..n + 1] == t[n..2 * n + 1];
  }

  lemma MontResult(t: seq<limb>, n: nat, a: seq<limb>, bv: nat, nv: nat, u: nat, x: nat)
    requires MontInv(t, n, n, a, bv, nv, u) && nv % 2 == 1 && bv <= nv
    requires var tv := Val(t[n..2 * n + 1]); x == if tv >= nv then tv - nv else tv
    ensures x == MontProd(Val(a), bv, nv, n)
  {
    hide Val, Pb, MontProd;
    AccumulatorBound(t, n, n, a, bv, nv, u);
    var tv := Val(t[n..2 * n + 1]);
    assert a[..n] == a;
    if tv >= nv {
      Distribute(tv, nv, Pb(n));
      assert x * Pb(n) == Val(a) * bv + (u - Pb(n)) * nv by { Distribute(u, Pb(n), nv); MulCommutes(nv, Pb(n)); }
      MontProdUnique(x, Val(a), bv, nv, n, u - Pb(n));
    } else {
      MontProdUnique(x, Val(a), bv, nv, n, u);
    }
  }

  // ---- Montgomery representation ----

  /** v * R mod N. */
  function ToRep(v: int, nv: nat, n: nat): (r: nat)
    requires nv > 0
    ensures r < nv
  {
    v * Pb(n) % nv
  }

  /** v * R^-1 mod N. */
  function FromRep(v: int, nv: nat, n: nat): (r: nat)
    requires nv > 0
    ensures r < nv
  {
    v * RInv(nv, n) % nv
  }

  /** A residue is determined by its product with R. */
  lemma RepInjective(a: int, b: int, nv: nat, n: nat)
    requires nv % 2 == 1 && Cong(a * Pb(n), b * Pb(n), nv)
    ensures Cong(a, b, nv)
  {
    hide Pb, RInv;
    RInvInverts(nv, n);
    CongCancel(a, b, Pb(n), RInv(nv, n), nv);
  }

  lemma FromRepCong(v: int, nv: nat, n: nat)
    requires nv % 2 == 1
    ensures Cong(FromRep(v, nv, n) * Pb(n), v, nv)
  {
    hide Pb, RInv, MontProd;
    MontProdCong(v, 1, nv, n);
    assert MontProd(v, 1, nv, n) == FromRep(v, nv, n) by { MontProdByOne(v, nv, n); }
  }

  lemma MontProdByOne(v: int, nv: nat, n: nat)
    requires nv > 0
    ensures MontProd(v, 1, nv, n) == FromRep(v, nv, n)
  {
    assert v * 1 == v;
  }

  /** To Montgomery form and back, and back and forth, is the identity on [0, N). */
  lemma RepRoundTrip(v: nat, nv: nat, n: nat)
    requires nv % 2 == 1 && v < nv
    ensures FromRep(ToRep(v, nv, n), nv, n) == v
    ensures ToRep(FromRep(v, nv, n), nv, n) == v
  {
    hide Pb, RInv;
    var r := Pb(n);
    var t, f := ToRep(v, nv, n), FromRep(v, nv, n);
    CongMod(v * r, nv);
    FromRepCong(t, nv, n);
    CongTrans(FromRep(t, nv, n) * r, t, v * r, nv);
    RepInjective(FromRep(t, nv, n), v, nv, n);
    CongSmall(FromRep(t, nv, n), v, nv);
    CongSmall(v, v, nv);
    FromRepCong(v, nv, n);
    CongSmall(v, f * r, nv);
  }

  /** Multiplying with the residue of R^2 converts to Montgomery form. */
  lemma MontProdByRR(v: int, rr: nat, nv: nat, n: nat)
    requires nv % 2 == 1 && rr == Pb(n) * Pb(n) % nv
    ensures MontProd(v, rr, nv, n) == ToRep(v, nv, n)
  {
    hide Pb, RInv, MontProd;
    var r, x := Pb(n), MontProd(v, rr, nv, n);
    MontProdCong(v, rr, nv, n);
    CongMod(r * r, nv);
    CongMul(v, v, rr, r * r, nv);
    MulAssoc(v, r, r);
    CongTrans(x * r, v * rr, v * r * r, nv);
    RepInjective(x, v * r, nv, n);
    CongSmall(x, v * r, nv);
  }

  /** The Montgomery product of two representations represents the product. */
  lemma MontProdOfReps(a: int, b: int, nv: nat, n: nat)
    requires nv % 2 == 1
    ensures MontProd(ToRep(a, nv, n), ToRep(b, nv, n), nv, n) == ToRep(a * b, nv, n)
  {
    hide Pb, RInv, MontProd;
    var r, x := Pb(n), MontProd(ToRep(a, nv, n), ToRep(b, nv, n), nv, n);
    MontProdCong(ToRep(a, nv, n), ToRep(b, nv, n), nv, n);
    CongMod(a * r, nv);
    CongMod(b * r, nv);
    CongMul(ToRep(a, nv, n), a * r, ToRep(b, nv, n), b * r, nv);
    assert (a * r) * (b * r) == a * b * r * r by { MulSwap(a, r, b, r); MulAssoc(a * b, r, r); }
    CongTrans(x * r, ToRep(a, nv, n) * ToRep(b, nv, n), a * b * r * r, nv);
    RepInjective(x, a * b * r, nv, n);
    CongSmall(x, a * b * r, nv);
  }

  /** Conversion in place, with the modulus's stored R^2 mod N and scratch space. */
  method ToMontRep(X: array<limb>, RR: array<limb>, N: array<limb>, n: nat, mm: limb)
    requires 1 <= n <= X.Length && n <= RR.Length && n <= N.Length
    requires N[0] % 2 == 1 && IsMontConstant(mm, N[0])
    requires Val(N[..n]) > 0 && Val(RR[..n]) == Pb(n) * Pb(n) % Val(N[..n])
    modifies X
    ensures Val(X[..n]) == ToRep(Val(old(X[..n])), Val(old(N[..n])), n)
  {
    hide *;
    BasePos();
    ghost var nn := N[..n];
    OddValue(nn);
    var T := new limb[2 * n + 1](_ => 0);
    DivMod(Pb(n) * Pb(n), Val(nn));
    MontProdByRR(Val(X[..n]), Val(RR[..n]), Val(nn), n);
    CoreMontmul(X, X, RR, n, N, n, mm, T);
  }

  /** Conversion back in place: a Montgomery product with the one-limb number 1. */
  method FromMontRep(X: array<limb>, N: array<limb>, n: nat, mm: limb)
    requires 1 <= n <= X.Length && n <= N.Length
    requires N[0] % 2 == 1 && IsMontConstant(mm, N[0])
    modifies X
    ensures Val(old(N[..n])) > 0
    ensures Val(X[..n]) == FromRep(Val(old(X[..n])), Val(old(N[..n])), n)
  {
    hide *;
    BaseFacts();
    ghost var nn := N[..n];
    OddValue(nn);
    var one := new limb[1](_ => 1);
    ValOne(one[..1]);
    var T := new limb[2 * n + 1](_ => 0);
    MontProdByOne(Val(X[..n]), Val(nn), n);
    assert N[..n] == nn;
    CoreMontmul(X, X, one, 1, N, n, mm, T);
  }

  lemma ValOne(s: seq<limb>)
    requires |s| == 1 && s[0] == 1
    ensures Val(s) == 1
  {
    PbStep(0);
    ValEmpty(s[..0]);
  }

  // ---- the products of the modular exponentiation ----

  /** An odd modulus and its Montgomery constant. */
  ghost predicate Modulus(N: array<limb>, mm: limb)
    reads N
  {
    N.Length > 0 && N[0] % 2 == 1 && IsMontConstant(mm, N[0])
  }

  lemma ModulusFacts(N: array<limb>, mm: limb)
    requires Modulus(N, mm)
    ensures N.Length > 0 && N[0] % 2 == 1 && IsMontConstant(mm, N[0])
    ensures N[..N.Length] == N[..] && Val(N[..]) % 2 == 1 && Val(N[..]) > 0 && Val(N[..]) < Pb(N.Length)
  {
    OddValue(N[..]);
    ValBound(N[..]);
  }

  /** Limbs from n on that stay zero. */
  lemma LowLimbsOnly(a: seq<limb>, a': seq<limb>, n: nat)
    requires n <= |a| == |a'| && a'[n..] == a[n..] && Val(a) < Pb(n)
    ensures Val(a[..n]) == Val(a) && Val(a'[..n]) == Val(a')
  {
    hide *;
    ClippedValue(a, n);
    ValSplit(a, n);
    PbPositive(n);
    ZeroFactor(Pb(n), Val(a[n..]));
    ValSplit(a', n);
  }

  lemma ZeroFactor(p: nat, x: nat)
    requires p > 0 && p * x == 0
    ensures x == 0
  {
  }

  /** mpi_montmul: A = A * Y * R^-1 mod N over whatever limbs the objects have; Y may be A. */
  method MpiMontmul(A: array<limb>, Y: array<limb>, N: array<limb>, mm: limb, T: array<limb>)
    requires Modulus(N, mm) && N.Length <= A.Length && 0 < Y.Length && T.Length >= 2 * N.Length + 1
    requires A != N && T != A && T != Y && T != N && Val(Y[..]) <= Val(N[..])
    modifies A, T
    ensures 0 < Val(N[..])
    ensures Val(A[..N.Length]) == MontProd(Val(old(A[..N.Length])), Val(old(Y[..])), Val(N[..]), N.Length)
    ensures A[N.Length..] == old(A[N.Length..])
    ensures Val(old(A[..])) < Pb(N.Length) ==>
      Val(A[..]) == MontProd(Val(old(A[..])), Val(old(Y[..])), Val(N[..]), N.Length)
  {
    hide *;
    ModulusFacts(N, mm);
    ghost var a := A[..];
    assert Y[..Y.Length] == Y[..];
    CoreMontmul(A, A, Y, Y.Length, N, N.Length, mm, T);
    if Val(a) < Pb(N.Length) {
      LowLimbsOnly(a, A[..], N.Length);
      assert a[..N.Length] == old(A[..N.Length]) && A[..][..N.Length] == A[..N.Length];
    }
  }

  /** mpi_montred: A = A * R^-1 mod N, as a product with the one-limb number 1. */
  method MpiMontred(A: array<limb>, N: array<limb>, mm: limb, T: array<limb>)
    requires Modulus(N, mm) && N.Length <= A.Length && T.Length >= 2 * N.Length + 1
    requires A != N && T != A && T != N && Val(A[..]) < Pb(N.Length)
    modifies A, T
    ensures 0 < Val(N[..]) && Val(A[..]) == FromRep(Val(old(A[..])), Val(N[..]), N.Length)
  {
    hide *;
    BaseFacts();
    ModulusFacts(N, mm);
    var one := new limb[1](_ => 1);
    ValOne(one[..]);
    MontProdByOne(Val(A[..]), Val(N[..]), N.Length);
    MpiMontmul(A, one, N, mm, T);
  }
}
