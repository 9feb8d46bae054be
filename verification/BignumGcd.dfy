/** Binary greatest common divisor and modular inverse. */
module BignumGcd {
  import opened Arith
  import opened Divisibility
  import opened Limbs
  import opened BignumMpi
  import opened BignumMod

  const BAD_INPUT_DATA := -0x4
  const NOT_ACCEPTABLE := -0xE

  // ---- binary gcd ----

  /** The pair at the loop head: after removing factors of two its gcd is g; TA = 0 leaves g in TB. */
  ghost predicate GcdInv(g: int, ta: nat, tb: nat) {
    && tb > 0
    && (ta > 0 ==> IsGcd(g, Shr(ta, Lsb(ta)), Shr(tb, Lsb(tb))))
    && (ta == 0 ==> tb == g)
  }

  /** Halving the difference of two odd numbers. */
  lemma GcdHalfDifference(g: int, a: nat, b: nat)
    requires IsGcd(g, a, b) && a % 2 == 1 && b % 2 == 1 && a > b
    ensures IsGcd(g, Shr((a - b) / 2, Lsb((a - b) / 2)), b)
  {
    hide IsGcd, Pow2, Shr, Lsb;
    var h := (a - b) / 2;
    assert a - b == 2 * h;
    GcdSubtract(g, a, b);
    GcdHalve(g, h, b);
    LsbSplit(h);
    GcdHalves(g, Shr(h, Lsb(h)), b, Lsb(h));
  }

  lemma OddIsItsPart(b: nat)
    requires b % 2 == 1
    ensures Shr(b, Lsb(b)) == b
  {
    assert Pow2(0) == 1;
  }

  /** One pass of the loop body on two odd numbers. */
  lemma GcdBody(g: int, a: nat, b: nat)
    requires IsGcd(g, a, b) && a % 2 == 1 && b % 2 == 1
    ensures a >= b ==> GcdInv(g, (a - b) / 2, b)
    ensures a < b ==> GcdInv(g, a, (b - a) / 2)
  {
    hide IsGcd, Shr, Lsb;
    OddIsItsPart(a);
    OddIsItsPart(b);
    if a > b {
      GcdHalfDifference(g, a, b);
    } else if a == b {
      GcdOfEqual(g, a);
    } else {
      GcdSwap(g, a, b);
      GcdHalfDifference(g, b, a);
      GcdSwap(g, Shr((b - a) / 2, Lsb((b - a) / 2)), a);
    }
  }

  lemma GcdAbs(g: int, a: int, b: int)
    requires IsGcd(g, Abs(a), Abs(b))
    ensures IsGcd(g, a, b)
  {
    hide IsGcd;
    if a < 0 {
      GcdNegate(g, -a, Abs(b));
    }
    if b < 0 {
      GcdSwap(g, a, -b);
      GcdNegate(g, -b, a);
      GcdSwap(g, b, a);
    }
  }

  /** The loop on magnitudes: shift out the factors of two, subtract and halve. */
  method BinaryGcd(a: nat, b: nat) returns (g: nat)
    requires b > 0
    ensures IsGcd(g, a, b)
  {
    hide IsGcd, Lsb, Shr, Pow2, GcdInv;
    var TA: nat, TB: nat := a, b;
    var lz, lzt := Lsb(TA), Lsb(TB);
    if lzt < lz {
      lz := lzt;
    }
    ghost var g0 := GcdExists(if TA == 0 then 0 else Shr(TA, Lsb(TA)), Shr(TB, Lsb(TB)));
    if TA == 0 {
      LsbZero();
      assert Pow2(0) == 1 by { PowTwoZero(); }
      GcdIntro(TB, 0, TB, 0, 1, 0, 1);
      g0 := TB;
      GcdInvZero(TB);
    } else {
      GcdInvStart(g0, TA, TB);
      OddPart(TA);
      OddPart(TB);
      LsbSplit(TA);
      LsbSplit(TB);
      GcdOfParts(g0, Shr(TA, Lsb(TA)), Shr(TB, Lsb(TB)), Lsb(TA), Lsb(TB));
    }
    while TA != 0
      invariant GcdInv(g0, TA, TB)
      decreases TA + TB
    {
      GcdInvParts(g0, TA, TB);
      OddPart(TA);
      OddPart(TB);
      TA := Shr(TA, Lsb(TA));
      TB := Shr(TB, Lsb(TB));
      GcdBody(g0, TA, TB);
      if TA >= TB {
        TA := (TA - TB) / 2;
      } else {
        TB := (TB - TA) / 2;
      }
    }
    GcdInvDone(g0, TB);
    g := TB * Pow2(lz);
    MulCommutes(TB, Pow2(lz));
  }

  /**
   * mbedtls_mpi_gcd: the gcd, except that B = 0 returns A itself, which is the negated gcd exactly when
   * A is negative. G may be A, B or both.
   */
  method Gcd(G: Mpi, A: Mpi, B: Mpi) returns (ret: int)
    requires G.Valid() && A.Valid() && B.Valid() && Apart(G, A) && Apart(G, B)
    modifies G, G.p
    ensures ret == 0 && G.Valid() && (G.p == old(G.p) || fresh(G.p))
    ensures IsGcd(Abs(G.Value()), old(A.Value()), old(B.Value()))
    ensures IsGcd(G.Value(), old(A.Value()), old(B.Value())) <==> !(old(B.Value()) == 0 && old(A.Value()) < 0)
  {
    hide IsGcd, Val, Pb, Lsb, Trimmed;
    ghost var a, b := A.Value(), B.Value();
    var va, vb := Val(A.p[..]), Val(B.p[..]);
    LsbOdd(vb);
    ret := 0;
    if Lsb(vb) == 0 && vb % 2 == 0 {
      GcdWithZero(a);
      G.Copy(A);
      return;
    }
    var g := BinaryGcd(va, vb);
    GcdFits(g, va, B.p[..]);
    GcdAbs(g, a, b);
    StoreNumber(G, g, B.p.Length, 1);
  }

  lemma GcdFits(g: int, a: int, b: seq<limb>)
    requires IsGcd(g, a, Val(b)) && Val(b) > 0
    ensures 0 <= g <= Val(b) < Pb(|b|)
  {
    hide Val, Pb;
    var k, l, x, y := GcdElim(g, a, Val(b));
    ValBound(b);
    if l > 0 {
      MulMonotone(g, 1, l);
    } else {
      MulMonotone(g, l, 0);
    }
  }

  /** gcd(-4, 0) comes out as -4. */
  method GcdOfNegativeAndZero() returns (ret: int, G: Mpi)
    ensures ret == 0 && G.Valid() && G.Value() == -4
  {
    hide IsGcd, Val, Pb;
    BaseFacts();
    PbStep(0);
    G := new Mpi();
    var A := FromNumber(4, 1);
    A.s := -1;
    var B := new Mpi();
    ret := Gcd(G, A, B);
    GcdWithZero(4);
    GcdNegate(4, 4, 0);
    GcdUnique(Abs(G.Value()), 4, -4, 0);
    GcdWithZero(G.Value());
  }

  lemma LsbOdd(v: nat)
    ensures Lsb(v) == 0 && v % 2 == 0 <==> v == 0
  {
  }

  lemma LsbZero()
    ensures Lsb(0) == 0
  {
  }

  lemma PowTwoZero()
    ensures Pow2(0) == 1
  {
  }

  lemma GcdInvZero(b: nat)
    requires b > 0
    ensures GcdInv(b, 0, b)
  {
  }

  lemma GcdInvStart(g: int, a: nat, b: nat)
    requires a > 0 && b > 0 && IsGcd(g, Shr(a, Lsb(a)), Shr(b, Lsb(b)))
    ensures GcdInv(g, a, b)
  {
  }

  lemma GcdInvParts(g: int, a: nat, b: nat)
    requires GcdInv(g, a, b) && a > 0
    ensures b > 0 && IsGcd(g, Shr(a, Lsb(a)), Shr(b, Lsb(b)))
  {
  }

  lemma GcdInvDone(g: int, b: nat)
    requires GcdInv(g, 0, b)
    ensures b == g
  {
  }

  lemma GcdWithZero(a: int)
    ensures IsGcd(Abs(a), a, 0)
    ensures IsGcd(a, a, 0) <==> a >= 0
  {
    if a >= 0 {
      GcdIntro(a, a, 0, 1, 0, 1, 0);
    } else {
      GcdIntro(-a, a, 0, -1, 0, -1, 0);
    }
  }

  // ---- modular inverse ----

  /** (u1, u2) writes u as a combination of ta and tb. */
  ghost predicate Row(u1: int, u2: int, ta: int, tb: int, u: int) {
    u1 * ta + u2 * tb == u
  }

  /** If the row is even but its coefficients are not, adding (tb, -ta) makes both even. */
  lemma RowAdjust(u1: int, u2: int, ta: int, tb: int, u: int)
    requires Row(u1, u2, ta, tb, u) && u % 2 == 0 && NotBothEven(ta, tb)
    requires u1 % 2 != 0 || u2 % 2 != 0
    ensures (u1 + tb) % 2 == 0 && (u2 - ta) % 2 == 0
    ensures Row(u1 + tb, u2 - ta, ta, tb, u)
  {
    hide NotBothEven;
    RowParity(u1, u2, ta, tb, u1 * ta, u2 * tb);
    Distribute(u1, tb, ta);
    Distribute(u2, ta, tb);
    MulCommutes(ta, tb);
  }

  /** With p = u1 * ta and q = u2 * tb adding up to an even number. */
  lemma RowParity(u1: int, u2: int, ta: int, tb: int, p: int, q: int)
    requires p == u1 * ta && q == u2 * tb && (p + q) % 2 == 0 && NotBothEven(ta, tb)
    requires u1 % 2 != 0 || u2 % 2 != 0
    ensures (u1 + tb) % 2 == 0 && (u2 - ta) % 2 == 0
  {
    ParityProduct(u1, ta);
    ParityProduct(u2, tb);
    SumParity(p, q);
    SumParity(u1, tb);
    DifferenceParity(u2, ta);
  }

  lemma SumParity(a: int, b: int)
    ensures (a + b) % 2 == 0 <==> a % 2 == b % 2
  {
  }

  lemma DifferenceParity(a: int, b: int)
    ensures (a - b) % 2 == 0 <==> a % 2 == b % 2
  {
  }

  lemma RowHalve(u1: int, u2: int, ta: int, tb: int, u: int)
    requires Row(u1, u2, ta, tb, u) && u % 2 == 0 && u1 % 2 == 0 && u2 % 2 == 0
    ensures Row(u1 / 2, u2 / 2, ta, tb, u / 2)
  {
    HalveTwo(u1 / 2, ta, u2 / 2, tb, u / 2);
  }

  lemma HalveTwo(a: int, ta: int, b: int, tb: int, u: int)
    requires 2 * a * ta + 2 * b * tb == 2 * u
    ensures a * ta + b * tb == u
  {
    MulAssoc(2, a, ta);
    MulAssoc(2, b, tb);
  }

  lemma RowSubtract(u1: int, u2: int, v1: int, v2: int, ta: int, tb: int, u: int, v: int)
    requires Row(u1, u2, ta, tb, u) && Row(v1, v2, ta, tb, v)
    ensures Row(u1 - v1, u2 - v2, ta, tb, u - v)
  {
    Distribute(u1, v1, ta);
    Distribute(u2, v2, tb);
  }

  // ---- how large the coefficients get ----

  /** Within k halves of n. */
  predicate Within(x: int, k: nat, n: nat) {
    2 * Abs(x) <= k * n
  }

  /** What the limb limit allows for a sum. */
  predicate Fits(x: int) {
    Abs(x) < Pb(MAX_LIMBS)
  }

  lemma WithinMore(x: int, k: nat, m: nat, n: nat)
    requires Within(x, k, n) && k <= m
    ensures Within(x, m, n)
  {
    MulMonotone(n, k, m);
  }

  /** A number within 2 * k halves, or k + 1, with n added or not, halved: within k + 1 again. */
  lemma HalfWithin(x: int, d: int, k: nat, n: nat)
    requires k >= 1 && Abs(d) <= n && (Within(x, 2 * k, n) || Within(x, k + 1, n)) && (x + d) % 2 == 0
    ensures Within((x + d) / 2, k + 1, n) && Abs(x + d) <= (k + 1) * n
  {
    MulAssoc(2, k, n);
    Distribute(k, 1, n);
    MulMonotone(n, k + 1, 2 * k);
    if Within(x, k + 1, n) {
      WithinMore(x, k + 1, 2 * k, n);
    }
    HalfOf(x + d);
  }

  lemma HalfOf(x: int)
    requires x % 2 == 0
    ensures 2 * Abs(x / 2) == Abs(x)
  {
  }

  lemma DifferenceWithin(x: int, y: int, k: nat, n: nat)
    requires Within(x, k, n) && Within(y, k, n)
    ensures Within(x - y, 2 * k, n) && Abs(x - y) <= k * n
  {
    MulAssoc(2, k, n);
  }

  lemma FitsBelow(x: int, b: int)
    requires Abs(x) <= b < Pb(MAX_LIMBS)
    ensures Fits(x)
  {
  }

  lemma HalfBits(u: nat)
    requires u > 0 && u % 2 == 0
    ensures BitLen(u / 2) == BitLen(u) - 1
  {
  }

  lemma {:induction false} BitLenMonotone(a: nat, b: nat)
    requires a <= b
    ensures BitLen(a) <= BitLen(b)
  {
    if a > 0 {
      BitLenMonotone(a / 2, b / 2);
    }
  }

  /** As many halves as the bits of two numbers below n stay within three limbs more. */
  lemma HalvesFit(n: nat, k: nat, bits: nat)
    requires n < Pb(MAX_LIMBS - 3) && bits == BitLen(n) && k <= 2 * bits + 1
    ensures (k + 1) * n < Pb(MAX_LIMBS)
  {
    hide Pb, BitLen, Pow2;
    BitLenBelow(n, MAX_LIMBS - 3);
    ThreeLimbs();
    MulMonotone(LIMB_BITS, MAX_LIMBS - 3, MAX_LIMBS);
    PbAdd(3, MAX_LIMBS - 3);
    MulMonotone(n, k + 1, Pb(3));
    PbPositive(3);
    MulMonotone(Pb(3), n + 1, Pb(MAX_LIMBS - 3));
    MulCommutes(n, Pb(3));
    MulCommutes(Pb(MAX_LIMBS - 3), Pb(3));
    Distribute(n, 1, Pb(3));
  }

  lemma BitLenBelow(n: nat, m: nat)
    requires n < Pb(m)
    ensures BitLen(n) <= m * LIMB_BITS
  {
    hide Pb, Pow2, BitLen;
    PbIsPow2(m);
    if n > 0 {
      BitLenBounds(n);
      if BitLen(n) > m * LIMB_BITS {
        Pow2Monotone(m * LIMB_BITS, BitLen(n) - 1);
      }
    } else {
      NoBits();
    }
  }

  lemma NoBits()
    ensures BitLen(0) == 0
  {
  }

  lemma ThreeLimbs()
    ensures 2 * (MAX_LIMBS * LIMB_BITS) + 2 <= Pb(3)
  {
    hide Pb, Pow2;
    BaseFacts();
    BaseIsPow2();
    BelowPow(LIMB_BITS);
    PbStep(0);
    PbStep(1);
    PbStep(2);
    MulMonotone(BASE, 256, BASE);
    CubeBound(LIMB_BITS, BASE);
  }

  lemma CubeBound(w: nat, b: nat)
    requires w < b && b >= 256
    ensures 20000 * w + 2 <= b * (b * b)
  {
    MulMonotone(b, 256, b);
    MulMonotone(b * b, 256, b);
  }

  lemma {:induction false} BelowPow(k: nat)
    ensures k < Pow2(k)
  {
    if k > 0 {
      BelowPow(k - 1);
    }
  }

  /** The row's coefficients before a pass of the halving loop: within k halves, or twice that for an even value. */
  ghost predicate RowWithin(u: int, u1: int, u2: int, k: nat, n: nat) {
    (Within(u1, k, n) && Within(u2, k, n)) || (u % 2 == 0 && Within(u1, 2 * k, n) && Within(u2, 2 * k, n))
  }

  /** One halving: both coefficients, adjusted or not. */
  lemma RowHalfWithin(u1: int, u2: int, d1: int, d2: int, k: nat, n: nat)
    requires k >= 1 && Abs(d1) <= n && Abs(d2) <= n && (u1 + d1) % 2 == 0 && (u2 + d2) % 2 == 0
    requires (Within(u1, 2 * k, n) && Within(u2, 2 * k, n)) || (Within(u1, k + 1, n) && Within(u2, k + 1, n))
    ensures Within((u1 + d1) / 2, k + 1, n) && Within((u2 + d2) / 2, k + 1, n)
    ensures Abs(u1 + d1) <= (k + 1) * n && Abs(u2 + d2) <= (k + 1) * n
  {
    hide Within;
    HalfWithin(u1, d1, k, n);
    HalfWithin(u2, d2, k, n);
  }

  /** Halve the row while its value is even; a sum beyond the limb limit stops it. */
  method RemoveTwos(U: int, U1: int, U2: int, TA: int, TB: int, ghost other: int, ghost k: nat)
    returns (ok: bool, u: int, u1: int, u2: int)
    requires U > 0 && Row(U1, U2, TA, TB, U) && NotBothEven(TA, TB) && IsGcd(1, U, other)
    requires 0 < TA < TB && k >= 1 && RowWithin(U, U1, U2, k, TB)
    ensures (k + 1) * TB < Pb(MAX_LIMBS) ==> ok
    ensures ok ==> 0 < u <= U && u % 2 == 1 && Row(u1, u2, TA, TB, u) && IsGcd(1, u, other)
    ensures ok ==> Within(u1, k + 1, TB) && Within(u2, k + 1, TB)
    ensures ok ==> BitLen(u) + (if U % 2 == 0 then 1 else 0) <= BitLen(U)
  {
    hide Row, IsGcd, Within, Fits, Pb, BitLen, NotBothEven;
    ok, u, u1, u2 := true, U, U1, U2;
    if u % 2 == 1 {
      WithinMore(u1, k, k + 1, TB);
      WithinMore(u2, k, k + 1, TB);
    } else if Within(u1, k, TB) && Within(u2, k, TB) {
      WithinMore(u1, k, k + 1, TB);
      WithinMore(u2, k, k + 1, TB);
    }
    while u % 2 == 0
      invariant 0 < u <= U && Row(u1, u2, TA, TB, u) && IsGcd(1, u, other)
      invariant (Within(u1, k + 1, TB) && Within(u2, k + 1, TB)) || (u == U && u % 2 == 0 && Within(u1, 2 * k, TB) && Within(u2, 2 * k, TB))
      invariant if u == U then true else BitLen(u) < BitLen(U)
      decreases u
    {
      ghost var d1, d2 := 0, 0;
      ghost var x1, x2 := u1, u2;
      if u1 % 2 != 0 || u2 % 2 != 0 {
        RowAdjust(u1, u2, TA, TB, u);
        d1, d2 := TB, 0 - TA;
        RowHalfWithin(u1, u2, d1, d2, k, TB);
        u1, u2 := u1 + TB, u2 - TA;
        if !Fits(u1) || !Fits(u2) {
          if (k + 1) * TB < Pb(MAX_LIMBS) {
            FitsBelow(u1, (k + 1) * TB);
            FitsBelow(u2, (k + 1) * TB);
          }
          return false, u, u1, u2;
        }
      } else {
        RowHalfWithin(u1, u2, 0, 0, k, TB);
      }
      RowHalve(u1, u2, TA, TB, u);
      CoprimeHalf(u / 2, other);
      HalfBits(u);
      u, u1, u2 := u / 2, u1 / 2, u2 / 2;
    }
  }

  lemma CoprimeHalf(a: int, b: int)
    requires IsGcd(1, 2 * a, b)
    ensures IsGcd(1, a, b)
  {
    var k, l, x, y := GcdElim(1, 2 * a, b);
    assert x * (2 * a) == 2 * x * a;
    GcdIntro(1, a, b, a, b, 2 * x, y);
  }

  lemma CoprimeWithZero(b: int)
    requires IsGcd(1, 0, b) && b > 0
    ensures b == 1
  {
    GcdIntro(b, 0, b, 0, 1, 0, 1);
    GcdUnique(1, b, 0, b);
  }

  /** The gcd of A and N is that of the residue and N. */
  lemma GcdOfResidue(g: int, a: int, n: int)
    requires n > 0 && IsGcd(g, a, n)
    ensures IsGcd(g, a % n, n)
  {
    DivMod(a, n);
    var k, l, x, y := GcdElim(g, a, n);
    var q := a / n;
    assert (k - q * l) * g == a - q * n by { assert q * (l * g) == q * l * g; Distribute(k, q * l, g); }
    assert x * (a % n) + (y + x * q) * n == g by { assert x * (a - q * n) + (y + x * q) * n == x * a + y * n; }
    GcdIntro(g, a % n, n, k - q * l, l, x, y + x * q);
  }

  lemma InverseFromRow(v1: int, v2: int, a: int, n: int, x: int, k: int)
    requires n > 0 && Row(v1, v2, a % n, n, 1) && x == v1 + k * n
    ensures Cong(a * x, 1, n)
  {
    CongIntro(v1 * (a % n), 1, n, -v2);
    CongIntro(x, v1, n, k);
    CongMod(a, n);
    CongMul(a, a % n, x, v1, n);
    MulCommutes(v1, a % n);
    CongTrans(a * x, a % n * v1, 1, n);
  }

  lemma RowStart(ta: int, tb: int)
    ensures Row(1, 0, ta, tb, ta) && Row(0, 1, ta, tb, tb)
  {
  }

  lemma WithinStart(ta: int, tb: int)
    requires 0 < ta < tb
    ensures RowWithin(ta, 1, 0, 2, tb) && RowWithin(tb, 0, 1, 2, tb)
  {
  }

  /** The passes so far take bits away, so few halves are reached. */
  lemma BitsLeft(tu: nat, tv: nat, c: nat, bits: nat, ta: nat, tb: nat)
    requires tu > 0 && tv > 0 && bits == BitLen(ta) + BitLen(tb) && BitLen(ta) <= BitLen(tb)
    requires c + BitLen(tu) + BitLen(tv) <= bits + 1
    ensures tb < Pb(MAX_LIMBS - 3) ==> (c + 3) * tb < Pb(MAX_LIMBS)
  {
    hide Pb, BitLen;
    SomeBits(tu);
    SomeBits(tv);
    if tb < Pb(MAX_LIMBS - 3) {
      HalvesFit(tb, c + 2, BitLen(tb));
    }
  }

  lemma SomeBits(v: nat)
    requires v > 0
    ensures BitLen(v) >= 1
  {
  }

  lemma RowsSubtracted(d: int, u1: int, u2: int, v1: int, v2: int, k: nat, n: nat)
    requires d % 2 == 0 && Within(u1, k, n) && Within(u2, k, n) && Within(v1, k, n) && Within(v2, k, n)
    ensures RowWithin(d, u1 - v1, u2 - v2, k, n)
    ensures k * n < Pb(MAX_LIMBS) ==> Fits(u1 - v1) && Fits(u2 - v2)
  {
    hide Within, Fits, Pb;
    DifferenceWithin(u1, v1, k, n);
    DifferenceWithin(u2, v2, k, n);
    if k * n < Pb(MAX_LIMBS) {
      FitsBelow(u1 - v1, k * n);
      FitsBelow(u2 - v2, k * n);
    }
  }

  lemma RowStays(v: int, v1: int, v2: int, k: nat, n: nat)
    requires Within(v1, k, n) && Within(v2, k, n)
    ensures RowWithin(v, v1, v2, k, n)
  {
  }

  lemma OddDifference(a: int, b: int)
    requires a % 2 == 1 && b % 2 == 1
    ensures (a - b) % 2 == 0
  {
  }

  /** The main loop: a row for gcd 1, unless a sum runs into the limb limit, which takes a modulus near it. */
  method InverseLoop(TA: int, TB: int) returns (ok: bool, V1: int, ghost V2: int)
    requires 0 < TA < TB && IsGcd(1, TA, TB)
    ensures ok ==> Row(V1, V2, TA, TB, 1)
    ensures TB < Pb(MAX_LIMBS - 3) ==> ok
  {
    hide Row, IsGcd, Within, RowWithin, Fits, Pb, BitLen, NotBothEven;
    var TU, U1, U2, TV, V2' := TA, 1, 0, TB, 1;
    V1, V2 := 0, 0;
    RowStart(TA, TB);
    CoprimeNotBothEven(TA, TB);
    WithinStart(TA, TB);
    BitLenMonotone(TA, TB);
    ghost var c: nat := 0;
    ghost var bits: nat := BitLen(TA) + BitLen(TB);
    while true
      invariant TU > 0 && TV > 0
      invariant Row(U1, U2, TA, TB, TU) && Row(V1, V2', TA, TB, TV) && IsGcd(1, TU, TV)
      invariant RowWithin(TU, U1, U2, c + 2, TB) && RowWithin(TV, V1, V2', c + 2, TB)
      invariant c + BitLen(TU) + BitLen(TV) <= bits + if TU % 2 == 0 || TV % 2 == 0 then 1 else 0
      decreases TU + TV
    {
      ghost var u0, v0 := TU, TV;
      BitsLeft(TU, TV, c, bits, TA, TB);
      ok, TU, U1, U2 := RemoveTwos(TU, U1, U2, TA, TB, TV, c + 2);
      if !ok {
        return;
      }
      GcdSwap(1, TU, TV);
      ok, TV, V1, V2' := RemoveTwos(TV, V1, V2', TA, TB, TU, c + 2);
      if !ok {
        return;
      }
      if TU >= TV {
        GcdSwap(1, TV, TU);
        GcdSubtract(1, TU, TV);
        RowSubtract(U1, U2, V1, V2', TA, TB, TU, TV);
        OddDifference(TU, TV);
        RowsSubtracted(TU - TV, U1, U2, V1, V2', c + 3, TB);
        BitLenMonotone(TU - TV, TU);
        RowStays(TV, V1, V2', c + 3, TB);
        TU, U1, U2 := TU - TV, U1 - V1, U2 - V2';
        ok := Fits(U1) && Fits(U2);
      } else {
        GcdSubtract(1, TV, TU);
        RowSubtract(V1, V2', U1, U2, TA, TB, TV, TU);
        OddDifference(TV, TU);
        RowsSubtracted(TV - TU, V1, V2', U1, U2, c + 3, TB);
        BitLenMonotone(TV - TU, TV);
        RowStays(TU, U1, U2, c + 3, TB);
        TV, V1, V2' := TV - TU, V1 - U1, V2' - U2;
        GcdSwap(1, TV, TU);
        ok := Fits(V1) && Fits(V2');
      }
      if !ok {
        return;
      }
      c := c + 1;
      if TU == 0 {
        break;
      }
    }
    CoprimeWithZero(TV);
    V2 := V2';
  }

  /** X = A^-1 mod N in [0, N) when A and N are coprime, an error otherwise. */
  method InvMod(X: Mpi, A: Mpi, N: Mpi) returns (ret: int)
    requires X.Valid() && A.Valid() && N.Valid() && Apart(X, A) && Apart(X, N)
    modifies X, X.p
    ensures old(N.Value()) <= 1 ==> ret == BAD_INPUT_DATA
    ensures old(N.Value()) > 1 && !IsGcd(1, old(A.Value()), old(N.Value())) ==> ret == NOT_ACCEPTABLE
    ensures old(N.Value()) > 1 && IsGcd(1, old(A.Value()), old(N.Value())) ==> ret == 0 || ret == ALLOC_FAILED
    ensures old(N.Value()) > 1 && IsGcd(1, old(A.Value()), old(N.Value())) && old(N.Magnitude()) < Pb(MAX_LIMBS - 3) ==>
      ret == DivOutcome(old(A.Magnitude()), old(N.Magnitude()), old(A.p.Length))
    ensures ret == 0 ==> DivOutcome(old(A.Magnitude()), old(N.Magnitude()), old(A.p.Length)) == 0
    ensures ret == 0 ==> X.Valid() && 0 <= X.Value() < old(N.Value()) && Cong(old(A.Value()) * X.Value(), 1, old(N.Value()))
  {
    hide Row, IsGcd, Val, Pb, Trimmed, Cong;
    ghost var a, n := A.Value(), N.Value();
    var one := FromOne();
    var cmp := CmpMpi(N, one);
    if cmp <= 0 {
      return BAD_INPUT_DATA;
    }
    var G := new Mpi();
    ret := Gcd(G, A, N);
    cmp := CmpMpi(G, one);
    if cmp != 0 {
      GcdUniqueForall(a, n, G.Value());
      return NOT_ACCEPTABLE;
    }
    ret := InverseOfCoprime(X, A, N);
  }

  /** inv_mod after its checks. */
  method InverseOfCoprime(X: Mpi, A: Mpi, N: Mpi) returns (ret: int)
    requires X.Valid() && A.Valid() && N.Valid() && Apart(X, A) && Apart(X, N) && N.Value() > 1 && IsGcd(1, A.Value(), N.Value())
    modifies X, X.p
    ensures ret == 0 || ret == ALLOC_FAILED
    ensures ret == 0 ==> DivOutcome(old(A.Magnitude()), old(N.Magnitude()), old(A.p.Length)) == 0
    ensures old(N.Magnitude()) < Pb(MAX_LIMBS - 3) ==> ret == DivOutcome(old(A.Magnitude()), old(N.Magnitude()), old(A.p.Length))
    ensures ret == 0 ==> X.Valid() && 0 <= X.Value() < old(N.Value()) && Cong(old(A.Value()) * X.Value(), 1, old(N.Value()))
  {
    hide Row, IsGcd, Val, Pb, Trimmed, Cong;
    ghost var a, n := A.Value(), N.Value();
    var TA := new Mpi();
    ret := ModMpi(TA, A, N);
    if ret != 0 {
      return;
    }
    ResidueRange(a, n);
    NaturalValue(TA);
    NaturalValue(N);
    var ok, v1 := Invert(Val(TA.p[..]), Val(N.p[..]), a);
    if !ok {
      return ALLOC_FAILED;
    }
    ValBound(N.p[..]);
    StoreNumber(X, v1, N.p.Length, 1);
  }

  /** The number 1 that the code compares with. */
  method FromOne() returns (one: Mpi)
    ensures fresh(one) && fresh(one.p) && one.Valid() && one.Value() == 1
  {
    hide Val, Pb;
    BaseFacts();
    PbStep(0);
    one := FromNumber(1, 1);
  }

  lemma ResidueRange(a: int, n: int)
    requires n > 0
    ensures 0 <= a % n < n
  {
  }

  lemma NaturalValue(X: Mpi)
    requires X.Valid() && X.Value() >= 0
    ensures Val(X.p[..]) == X.Value()
  {
    hide Val;
  }

  /** From the residue of a to its inverse: the two rows, and the result moved into range. */
  method Invert(ta: nat, n: nat, ghost a: int) returns (ok: bool, v1: nat)
    requires n > 1 && ta == a % n && IsGcd(1, a, n)
    ensures ok ==> v1 < n && Cong(a * v1, 1, n)
    ensures n < Pb(MAX_LIMBS - 3) ==> ok
  {
    hide Row, IsGcd, Pb;
    GcdOfResidue(1, a, n);
    if ta == 0 {
      CoprimeWithZero(n);
      assert false;
    }
    DivMod(a, n);
    var V1;
    ghost var V2;
    ok, V1, V2 := InverseLoop(ta, n);
    if !ok {
      return false, 0;
    }
    ghost var v, k := V1, 0;
    while V1 < 0
      invariant V1 == v + k * n && (v < 0 ==> V1 < n)
      decreases -V1
    {
      Distribute(k, 1, n);
      V1, k := V1 + n, k + 1;
    }
    while V1 >= n
      invariant V1 == v + k * n && V1 >= 0
      decreases V1
    {
      Distribute(k, 1, n);
      V1, k := V1 - n, k - 1;
    }
    InverseFromRow(v, V2, a, n, V1, k);
    return true, V1;
  }

  lemma GcdUniqueForall(a: int, n: int, g: int)
    requires IsGcd(g, a, n) && g != 1
    ensures !IsGcd(1, a, n)
  {
    if IsGcd(1, a, n) {
      GcdUnique(1, g, a, n);
    }
  }
}
