/** Schoolbook division with trial quotients. */
module BignumDiv {
  import opened Arith
  import opened Limbs
  import opened BignumCore

  // ---- two limbs by one limb, from half-limb steps ----

  /** Quotient digit of u * b + v by d = d1 * b + d0, corrected downwards from u / d1. */
  ghost predicate Estimate(u: nat, v: nat, d1: nat, d0: nat, b: nat, q: nat, r: nat) {
    u == q * d1 + r && (u * b + v) < (q + 1) * (d1 * b + d0)
  }

  lemma EstimateStarts(u: nat, v: nat, d1: nat, d0: nat, b: nat)
    requires d1 > 0 && b > 0 && v < b
    ensures Estimate(u, v, d1, d0, b, u / d1, u - d1 * (u / d1))
    ensures u - d1 * (u / d1) < d1
  {
    var q, r := u / d1, u % d1;
    DivMod(u, d1);
    EstimateFirst(u, v, d1, d0, b, q, r);
  }

  lemma EstimateFirst(u: nat, v: nat, d1: nat, d0: nat, b: nat, q: nat, r: nat)
    requires v < b && u == q * d1 + r && r < d1
    ensures u * b + v < (q + 1) * (d1 * b + d0)
  {
    Distribute(u, 1, b);
    Distribute(q, 1, d1);
    MulMonotone(b, u + 1, (q + 1) * d1);
    MulAssoc(q + 1, d1, b);
    MulMonotone(q + 1, d1 * b, d1 * b + d0);
  }

  /** The loop's test says exactly that q is still too large. */
  lemma EstimateTest(u: nat, v: nat, d1: nat, d0: nat, b: nat, q: nat, r: nat)
    requires u == q * d1 + r
    ensures q * d0 > b * r + v <==> q * (d1 * b + d0) > u * b + v
  {
    assert q * (d1 * b + d0) == q * d1 * b + q * d0;
    assert u * b == q * d1 * b + r * b;
  }

  lemma EstimateLowers(u: nat, v: nat, d1: nat, d0: nat, b: nat, q: nat, r: nat)
    requires Estimate(u, v, d1, d0, b, q, r) && q * (d1 * b + d0) > u * b + v
    ensures q > 0 && Estimate(u, v, d1, d0, b, q - 1, r + d1)
  {
    assert (q - 1) * d1 == q * d1 - d1;
  }

  /** A digit as large as the base is too large. */
  lemma TooLarge(u: nat, v: nat, d1: nat, d0: nat, b: nat, q: nat)
    requires q >= b > v && u < d1 * b + d0
    ensures q * (d1 * b + d0) > u * b + v
  {
    var d := d1 * b + d0;
    MulMonotone(d, b, q);
    MulMonotone(b, u + 1, d);
    Distribute(u, 1, b);
  }

  lemma LargeRemainder(u: nat, v: nat, d1: nat, d0: nat, b: nat, q: nat, r: nat)
    requires u == q * d1 + r && r >= b && d0 < b && u < d1 * b + d0
    ensures q < b && q * (d1 * b + d0) <= u * b + v
  {
    if q >= b {
      MulMonotone(d1, b, q);
    }
    MulMonotone(b, b, r);
    SquareBound(q, d0, b);
    EstimateTest(u, v, d1, d0, b, q, r);
  }

  /** While the loop test is evaluated neither side of the comparison wraps. */
  lemma TestDoesNotWrap(q: nat, d0: nat, r: nat, v: nat)
    requires q < HALF && d0 < HALF && r < HALF && v < HALF
    ensures Wrap(q * d0) == q * d0 && Wrap(HALF * r + v) == HALF * r + v
  {
    hide Wrap;
    HalfProduct(q, d0);
    BaseFacts();
    ShiftSplit(HALF, 0, r);
    WrapIs(q * d0, 0, q * d0);
    WrapIs(HALF * r + v, 0, HALF * r + v);
  }

  /** Knuth's digit step on half-limbs: q is the exact quotient digit. */
  method DigitStep(u: nat, v: nat, d1: nat, d0: nat) returns (q: nat)
    requires 0 < d1 < HALF && d0 < HALF && v < HALF && u < d1 * HALF + d0
    ensures q < HALF && q * (d1 * HALF + d0) <= u * HALF + v < (q + 1) * (d1 * HALF + d0)
  {
    hide *;
    q := u / d1;
    var r: nat := u - d1 * q;
    EstimateStarts(u, v, d1, d0, HALF);
    if q < HALF {
      TestDoesNotWrap(q, d0, r, v);
    }
    while q >= HALF || Wrap(q * d0) > Wrap(HALF * r + v)
      invariant r < HALF && Estimate(u, v, d1, d0, HALF, q, r)
      invariant q < HALF ==> Wrap(q * d0) == q * d0 && Wrap(HALF * r + v) == HALF * r + v
      decreases q
    {
      EstimateParts(u, v, d1, d0, HALF, q, r);
      EstimateTest(u, v, d1, d0, HALF, q, r);
      if q >= HALF {
        TooLarge(u, v, d1, d0, HALF, q);
      }
      EstimateLowers(u, v, d1, d0, HALF, q, r);
      q, r := q - 1, r + d1;
      if r >= HALF {
        EstimateParts(u, v, d1, d0, HALF, q, r);
        LargeRemainder(u, v, d1, d0, HALF, q, r);
        return;
      }
      if q < HALF {
        TestDoesNotWrap(q, d0, r, v);
      }
    }
    EstimateParts(u, v, d1, d0, HALF, q, r);
    EstimateTest(u, v, d1, d0, HALF, q, r);
  }

  lemma EstimateParts(u: nat, v: nat, d1: nat, d0: nat, b: nat, q: nat, r: nat)
    requires Estimate(u, v, d1, d0, b, q, r)
    ensures u == q * d1 + r && u * b + v < (q + 1) * (d1 * b + d0)
  {
  }

  /** The remainder of the first digit step, computed with wrap-around. */
  lemma WrappedRemainder(u: nat, v: nat, q: nat, d: nat)
    requires d < BASE && v < HALF && u < BASE && q * d <= u * HALF + v < (q + 1) * d
    ensures Wrap(Wrap(u * HALF) + Wrap(v - Wrap(q * d))) == u * HALF + v - q * d < d
  {
    hide Wrap;
    BasePos();
    Distribute(q, 1, d);
    WrapCong(u * HALF);
    WrapCong(q * d);
    CongAdd(v, v, Wrap(q * d), q * d, BASE);
    WrapCong(v - Wrap(q * d));
    CongTrans(Wrap(v - Wrap(q * d)), v - Wrap(q * d), v - q * d, BASE);
    CongAdd(Wrap(u * HALF), u * HALF, Wrap(v - Wrap(q * d)), v - q * d, BASE);
    var x := Wrap(u * HALF) as int + Wrap(v - Wrap(q * d));
    var y := u * HALF + v - q * d;
    var k := CongElim(x, y, BASE);
    WrapIs(x, k, y);
  }

  /** The same for the remainder that is handed out, whose terms are added in another order. */
  lemma WrappedRest(u: nat, v: nat, q: nat, d: nat)
    requires d < BASE && v < HALF && u < BASE && q * d <= u * HALF + v < (q + 1) * d
    ensures Wrap(Wrap(Wrap(u * HALF) + v) - Wrap(q * d)) == u * HALF + v - q * d < d
  {
    hide Wrap;
    BasePos();
    Distribute(q, 1, d);
    WrapCong(u * HALF);
    WrapCong(q * d);
    CongAdd(Wrap(u * HALF), u * HALF, v, v, BASE);
    WrapCong(Wrap(u * HALF) + v);
    CongTrans(Wrap(Wrap(u * HALF) + v), Wrap(u * HALF) + v, u * HALF + v, BASE);
    CongAdd(Wrap(Wrap(u * HALF) + v), u * HALF + v, Wrap(q * d), q * d, BASE);
    var x := Wrap(Wrap(u * HALF) + v) as int - Wrap(q * d);
    var y := u * HALF + v - q * d;
    var k := CongElim(x, y, BASE);
    WrapIs(x, k, y);
  }

  /** Two exact digit steps give the exact two-digit quotient. */
  lemma TwoDigits(u: int, vh: int, vl: int, d: int, b: int, q1: int, q0: int)
    requires q1 * d <= u * b + vh < (q1 + 1) * d
    requires q0 * d <= (u * b + vh - q1 * d) * b + vl < (q0 + 1) * d
    ensures (q1 * b + q0) * d <= u * (b * b) + vh * b + vl < (q1 * b + q0 + 1) * d
  {
    RegroupDigits(u, vh, d, b, q1, q0);
    RegroupDigits(u, vh, d, b, q1, q0 + 1);
  }

  lemma RegroupDigits(u: int, vh: int, d: int, b: int, q1: int, q0: int)
    ensures (q1 * b + q0) * d == q1 * d * b + q0 * d
    ensures (u * b + vh - q1 * d) * b == u * (b * b) + vh * b - q1 * d * b
  {
  }

  lemma TwoDigitsRest(u: int, vh: int, vl: int, d: int, b: int, q1: int, q0: int)
    ensures u * (b * b) + vh * b + vl - (q1 * b + q0) * d == (u * b + vh - q1 * d) * b + vl - q0 * d
  {
    RegroupDigits(u, vh, d, b, q1, q0);
  }

  lemma QuotientBetween(q: nat, x: nat, d: nat)
    requires d > 0 && q * d <= x < (q + 1) * d
    ensures q == x / d
  {
    Distribute(q, 1, d);
    DivModUnique(x, d, q, x - q * d);
  }

  lemma ShiftTwoInts(u1: nat, u0: nat, d: nat, p: nat, m: nat)
    requires u1 < d && p > 0 && m > 0 && u0 < p * m
    ensures u1 * p + u0 / m < d * p
    ensures 0 <= u0 % m * p < p * m
    ensures u0 * p == u0 / m * (p * m) + u0 % m * p
  {
    DivMod(u0, m);
    var h, l := u0 / m, u0 % m;
    MulCancelLt(h, p, m);
    MulMonotone(p, u1 + 1, d);
    MulMonotone(p, l, m - 1);
    assert u0 * p == h * (p * m) + l * p;
  }

  /** Shifting a two-limb number left without overflow. */
  lemma ShiftTwoLimbs(u1: limb, u0: limb, d: limb, s: nat)
    requires u1 < d && s <= LIMB_BITS && d * Pow2(s) < BASE
    ensures Shl(d, s) == d * Pow2(s)
    ensures Shl(u1, s) + Shr(u0, LIMB_BITS - s) < Shl(d, s)
    ensures (Shl(u1, s) + Shr(u0, LIMB_BITS - s)) * BASE + Shl(u0, s) == (u1 * BASE + u0) * Pow2(s)
  {
    hide Pow2, Wrap;
    var p, m := Pow2(s), Pow2(LIMB_BITS - s);
    BaseIsPow2();
    PowTwoAdd(s, LIMB_BITS - s);
    ShiftTwoInts(u1, u0, d, p, m);
    WrapIs(d * p, 0, d * p);
    MulMonotone(p, u1, d);
    WrapIs(u1 * p, 0, u1 * p);
    WrapIs(u0 * p, u0 / m, u0 % m * p);
    ShiftInts(u1, u0, u0 / m, u0 % m * p, p, BASE);
  }

  lemma ShiftInts(u1: int, u0: int, h: int, lp: int, p: int, base: int)
    requires u0 * p == h * base + lp
    ensures (u1 * p + h) * base + lp == (u1 * base + u0) * p
  {
  }

  lemma RemainderIs(q: nat, x: nat, d: nat, r: int)
    requires d > 0 && q == x / d && r == x - q * d
    ensures r == x % d
  {
    DivMod(x, d);
  }

  /** Shifting dividend and divisor keeps the quotient and shifts the remainder. */
  lemma QuotientShifts(x: nat, d: nat, p: nat)
    requires d > 0 && p > 0
    ensures d * p > 0 && x * p / (d * p) == x / d && x * p % (d * p) == x % d * p && x % d * p / p == x % d
  {
    DivMod(x, d);
    var q, r := x / d, x % d;
    Distribute(q * d, r, p);
    MulAssoc(q, d, p);
    MulMonotone(p, r, d - 1);
    Distribute(d, 1, p);
    DivModUnique(x * p, d * p, q, r * p);
    DivModUnique(r * p, p, r, 0);
  }

  /** Two digit steps on a divisor whose high half is not zero. */
  method DivNormalised(u1: limb, u0: limb, d: limb) returns (q: limb, r: limb)
    requires u1 < d && HighHalf(d) > 0
    ensures q == (u1 * BASE + u0) / d && r == (u1 * BASE + u0) % d
  {
    hide *;
    BaseFacts();
    var d1, d0, vh, vl := HighHalf(d), LowHalf(d), HighHalf(u0), LowHalf(u0);
    var q1 := DigitStep(u1, vh, d1, d0);
    WrappedRemainder(u1, vh, q1, d);
    var rAX := Wrap(Wrap(u1 * HALF) + Wrap(vh - Wrap(q1 * d)));
    var q0 := DigitStep(rAX, vl, d1, d0);
    TwoDigits(u1, vh, vl, d, HALF, q1, q0);
    ShiftSplit(HALF, 0, q1);
    q := q1 * HALF + q0;
    QuotientBetween(q, u1 * BASE + u0, d);
    WrappedRest(rAX, vl, q0, d);
    r := Wrap(Wrap(Wrap(rAX * HALF) + vl) - Wrap(q0 * d));
    TwoDigitsRest(u1, vh, vl, d, HALF, q1, q0);
    RemainderIs(q, u1 * BASE + u0, d, r);
  }

  /** Shift divisor and dividend left until the divisor's top bit is set. */
  method Normalise(u1: limb, u0: limb, d: limb) returns (un1: limb, un0: limb, dn: limb, s: nat, ghost p: nat)
    requires u1 < d
    ensures s <= LIMB_BITS && p == Pow2(s) && p > 0 && dn == d * p && un1 < dn && HighHalf(dn) > 0
    ensures un1 * BASE + un0 == (u1 * BASE + u0) * p
  {
    hide *;
    s := CoreClz(d);
    NormalisedDivisor(d, s);
    ShiftTwoLimbs(u1, u0, d, s);
    p := Pow2(s);
    dn, un0 := Shl(d, s), Shl(u0, s);
    un1 := Shl(u1, s) + Shr(u0, LIMB_BITS - s);
  }

  /** (u1 : u0) / d and its remainder from half-limb divisions, or all ones when the quotient does not fit. */
  method IntDivHalf(u1: limb, u0: limb, d: limb) returns (q: limb, r: limb)
    ensures if d == 0 || u1 >= d then q == r == BASE - 1 else q == (u1 * BASE + u0) / d && r == (u1 * BASE + u0) % d
  {
    hide *;
    BasePos();
    if d == 0 || u1 >= d {
      return BASE - 1, BASE - 1;
    }
    ghost var p;
    var un1, un0, dn, s;
    un1, un0, dn, s, p := Normalise(u1, u0, d);
    q, r := DivNormalised(un1, un0, dn);
    QuotientShifts(u1 * BASE + u0, d, p);
    ShrIs(r, s);
    r := Shr(r, s);
  }

  lemma ShrIs(v: nat, k: nat)
    ensures Pow2(k) > 0 && Shr(v, k) == v / Pow2(k)
  {
  }

  lemma NormalisedDivisor(d: limb, s: nat)
    requires d > 0 && s == LIMB_BITS - BitLen(d)
    ensures d * Pow2(s) < BASE && BitLen(d) > 0
    ensures forall x: limb :: x == d * Pow2(s) ==> HighHalf(x) > 0
  {
    hide BitLen, Pow2;
    BaseFacts();
    BitLenBounds(d);
    var k := BitLen(d);
    BaseIsPow2();
    PowTwoAdd(k, s);
    PowTwoAdd(k - 1, s);
    MulMonotone(Pow2(s), d, Pow2(k) - 1);
    Distribute(Pow2(k), 1, Pow2(s));
    MulMonotone(Pow2(s), Pow2(k - 1), d);
    PowAdd(2, HALF_BITS, HALF_BITS - 1);
    assert Pow2(LIMB_BITS - 1) == Pow2(HALF_BITS) * Pow2(HALF_BITS - 1) by { PowTwoAdd(HALF_BITS, HALF_BITS - 1); }
    MulMonotone(HALF, 1, Pow2(HALF_BITS - 1));
    forall x: limb | x == d * Pow2(s)
      ensures HighHalf(x) > 0
    {
      assert x == HighHalf(x) * HALF + LowHalf(x);
    }
  }

  // ---- the trial quotient of the multi-limb division ----

  /** Limb i of a number. */
  function Digit(x: nat, i: nat): (r: limb) {
    Wrap(x / Pb(i))
  }

  lemma DigitStepDown(x: nat, i: nat)
    ensures x / Pb(i) == x / Pb(i + 1) * BASE + Digit(x, i)
  {
    hide Pb;
    BasePos();
    PbStep(i);
    MulCommutes(BASE, Pb(i));
    DivDiv(x, Pb(i), BASE);
    DivMod(x / Pb(i), BASE);
  }

  lemma TopDigit(x: nat, i: nat)
    requires x < Pb(i + 1)
    ensures Digit(x, i) == x / Pb(i)
  {
    hide Pb, Wrap;
    DigitStepDown(x, i);
    DivModUnique(x, Pb(i + 1), 0, x);
  }

  /** The top limb followed by the next two, with zeros below limb 0: x * B^2 / B^i. */
  function TopThree(x: nat, i: nat): nat
    requires i >= 1
  {
    NonNegativeDigits(Digit(x, i), Digit(x, i - 1));
    Digit(x, i) * (BASE * BASE) + Digit(x, i - 1) * BASE + if i < 2 then 0 else Digit(x, i - 2)
  }

  lemma NonNegativeDigits(h: limb, m: limb)
    ensures h * (BASE * BASE) >= 0 && m * BASE >= 0
  {
    BasePos();
    MulMonotone(BASE, 0, BASE);
    MulMonotone(BASE * BASE, 0, h);
    MulMonotone(BASE, 0, m);
  }

  function TopTwo(y: nat, t: nat): nat {
    Digit(y, t) * BASE + if t < 1 then 0 else Digit(y, t - 1)
  }

  /** floor-division bounds without a quotient. */
  ghost predicate Floor(q: int, num: int, den: int) {
    q * den <= num < (q + 1) * den
  }

  lemma FloorOfDiv(x: nat, p: nat)
    requires p > 0
    ensures Floor(x / p, x, p)
  {
    DivMod(x, p);
    Distribute(x / p, 1, p);
  }

  lemma FloorScales(q: int, x: int, p: int, c: int)
    requires Floor(q, x, p) && c > 0
    ensures Floor(q, x * c, p * c)
  {
    MulMonotone(c, q * p, x);
    MulMonotone(c, x + 1, (q + 1) * p);
    MulAssoc(q, p, c);
    MulAssoc(q + 1, p, c);
    Distribute(x, 1, c);
  }

  lemma TopTwoFloor(y: nat, t: nat)
    requires y < Pb(t + 1)
    ensures Floor(TopTwo(y, t), y * BASE, Pb(t))
  {
    hide Pb, Digit, Floor;
    BasePos();
    TopDigit(y, t);
    if t >= 1 {
      DigitStepDown(y, t - 1);
      FloorOfDiv(y, Pb(t - 1));
      FloorScales(y / Pb(t - 1), y, Pb(t - 1), BASE);
      PbStep(t - 1);
      MulCommutes(BASE, Pb(t - 1));
    } else {
      PbStep(0);
      assert y / 1 == y;
      FloorOfDiv(y * BASE, 1);
      assert y * BASE / 1 == y * BASE;
    }
  }

  lemma TopThreeFloor(x: nat, i: nat)
    requires i >= 1 && x < Pb(i + 1)
    ensures Floor(TopThree(x, i), x * (BASE * BASE), Pb(i))
    ensures Digit(x, i) * BASE + Digit(x, i - 1) == x / Pb(i - 1)
  {
    hide Pb, Digit, Floor;
    BasePos();
    TopDigit(x, i);
    DigitStepDown(x, i - 1);
    var z := x / Pb(i - 1);
    assert TopThree(x, i) == z * BASE + if i < 2 then 0 else Digit(x, i - 2) by {
      assert (Digit(x, i) * BASE + Digit(x, i - 1)) * BASE == Digit(x, i) * (BASE * BASE) + Digit(x, i - 1) * BASE;
    }
    if i >= 2 {
      DigitStepDown(x, i - 2);
      FloorOfDiv(x, Pb(i - 2));
      FloorScales(x / Pb(i - 2), x, Pb(i - 2), BASE * BASE);
      PbStep(i - 2);
      PbStep(i - 1);
      assert Pb(i - 2) * (BASE * BASE) == BASE * (BASE * Pb(i - 2)) by { MulCommutes(Pb(i - 2), BASE * BASE); MulAssoc(BASE, BASE, Pb(i - 2)); }
    } else {
      PbStep(0);
      assert Pb(1) == BASE;
      assert x / 1 == x;
      FloorOfOne(x * BASE);
      FloorScales(x * BASE, x * BASE, 1, BASE);
      MulAssoc(x, BASE, BASE);
    }
  }

  lemma FloorOfOne(x: int)
    ensures Floor(x, x, 1)
  {
  }

  /** The scales at which dividend, divisor and quotient digit meet. */
  ghost predicate Scales(pi: nat, pt: nat, pd: nat, b: nat) {
    pi == pt * pd * b && pt > 0 && pd > 0 && b > 0
  }

  /** A digit that is not too large passes the three-limb test. */
  lemma TestKeepsQuotient(x: nat, y: nat, q: nat, y2: nat, t2: nat, pi: nat, pt: nat, pd: nat, b: nat)
    requires Scales(pi, pt, pd, b) && q * (y * pd) <= x
    requires Floor(t2, x * (b * b), pi) && Floor(y2, y * b, pt)
    ensures q * y2 <= t2
  {
    var f := pd * b;
    assert pi == pt * f by { MulAssoc(pt, pd, b); }
    assert q * (y * pd) * (b * b) == q * (y * b) * f by { RegroupScale(q, y, pd, b); }
    MulMonotone(b * b, q * (y * pd), x);
    MulMonotone(q * f, y2 * pt, y * b);
    assert y2 * pt * (q * f) == q * y2 * pi by { RegroupTest(y2, pt, q, f); }
    assert y * b * (q * f) == q * (y * b) * f by { MulCommutes(q, y * b); MulAssoc(y * b, q, f); }
    assert q * y2 * pi < (t2 + 1) * pi;
    MulCancelLt(q * y2, t2 + 1, pi);
  }

  lemma RegroupScale(q: int, y: int, pd: int, b: int)
    ensures q * (y * pd) * (b * b) == q * (y * b) * (pd * b)
  {
  }

  lemma RegroupTest(y2: int, pt: int, q: int, f: int)
    ensures y2 * pt * (q * f) == q * y2 * (pt * f)
  {
  }

  /** A digit that passes the test is at most one too large: the divisor's top limb is at least B/4. */
  lemma TestBoundsQuotient(x: nat, y: nat, q: nat, qh: nat, y2: nat, t2: nat, pi: nat, pt: nat, pd: nat, b: nat)
    requires Scales(pi, pt, pd, b) && x < (q + 1) * (y * pd)
    requires Floor(t2, x * (b * b), pi) && Floor(y2, y * b, pt)
    requires qh * y2 <= t2 && qh <= y2
    ensures qh <= q + 1
  {
    if qh >= q + 2 {
      var f, g: nat := pd * b, qh - 1;
      MulAssoc(pt, pd, b);
      BelowScaled(x, y, q, g, pd, b, pi, f, pt);
      TestScaled(y, y2, g, pt, f, pi, b);
      assert qh * y2 * pi <= t2 * pi by { MulMonotone(pi, qh * y2, t2); }
      assert qh * y2 * pi < g * (y2 + 1) * pi;
      MulCancelLt(qh * y2, g * (y2 + 1), pi);
      TestWidth(qh, y2);
    }
  }

  lemma TestWidth(qh: int, y2: int)
    ensures (qh - 1) * (y2 + 1) == qh * y2 + qh - y2 - 1
  {
  }

  /** x * B^2 stays below the guess less one times the scaled divisor. */
  lemma BelowScaled(x: nat, y: nat, q: nat, g: nat, pd: nat, b: nat, pi: nat, f: nat, pt: nat)
    requires x < (q + 1) * (y * pd) && q + 1 <= g && b > 0 && f == pd * b
    ensures x * (b * b) < g * (y * b) * f
  {
    MulMonotone(y * pd, q + 1, g);
    MulStrictly(b * b, x, g * (y * pd));
    RegroupScale(g, y, pd, b);
  }

  lemma MulStrictly(c: nat, a: nat, b: nat)
    requires a < b && c > 0
    ensures a * c < b * c
  {
  }

  lemma TestScaled(y: nat, y2: nat, g: nat, pt: nat, f: nat, pi: nat, b: nat)
    requires Floor(y2, y * b, pt) && pi == pt * f
    ensures g * (y * b) * f <= g * (y2 + 1) * pi
  {
    MulMonotone(g * f, y * b, (y2 + 1) * pt);
    RegroupTest(y2 + 1, pt, g, f);
    MulCommutes(g, y * b);
    MulAssoc(y * b, g, f);
  }

  /** The top limb of a normalised divisor makes its top two limbs exceed any limb. */
  lemma TopTwoLarge(y: nat, t: nat)
    requires y < Pb(t + 1) <= 4 * y
    ensures TopTwo(y, t) >= BASE
  {
    hide *;
    BaseFacts();
    TopTwoFloor(y, t);
    FloorParts(TopTwo(y, t), y * BASE, Pb(t));
    PbStep(t);
    MulMonotone(BASE, BASE * Pb(t), 4 * y);
    LargeInts(TopTwo(y, t), y, Pb(t), BASE);
  }

  lemma FloorParts(q: int, num: int, den: int)
    requires Floor(q, num, den)
    ensures q * den <= num < (q + 1) * den
  {
  }

  lemma LargeInts(q: nat, y: nat, p: nat, b: nat)
    requires b >= 256 && p > 0 && b * p * b <= 4 * y * b && y * b < (q + 1) * p
    ensures q >= b
  {
    assert b * p * b == (b * b) * p;
    assert (b * b) * p < (4 * (q + 1)) * p;
    MulCancelLt(b * b, 4 * (q + 1), p);
    MulMonotone(b, 256, b);
  }

  lemma ScalesOfLimbs(i: nat, t: nat)
    requires t < i
    ensures Scales(Pb(i), Pb(t), Pb(i - t - 1), BASE)
  {
    hide Pb;
    BasePos();
    PbAdd(t, i - t - 1);
    PbStep(i - 1);
    MulCommutes(BASE, Pb(i - 1));
  }

  /** The initial guess, from the top two limbs over the top limb, is not too small. */
  lemma GuessNotSmall(x: nat, y: nat, q: nat, i: nat, t: nat)
    requires t < i && q * (y * Pb(i - t - 1)) <= x < Pb(i + 1) && y < Pb(t + 1)
    ensures q * Digit(y, t) <= Digit(x, i) * BASE + Digit(x, i - 1)
  {
    hide Pb, Digit;
    TopThreeFloor(x, i);
    TopDigit(y, t);
    var yt := Digit(y, t);
    DivMod(y, Pb(t));
    PbAdd(t, i - t - 1);
    MulMonotone(Pb(i - t - 1), yt * Pb(t), y);
    MulAssoc(yt, Pb(t), Pb(i - t - 1));
    MulMonotone(q, yt * Pb(i - 1), y * Pb(i - t - 1));
    MulAssoc(q, yt, Pb(i - 1));
    DivMod(x, Pb(i - 1));
    Distribute(x / Pb(i - 1), 1, Pb(i - 1));
    MulCancelLt(q * yt, x / Pb(i - 1) + 1, Pb(i - 1));
  }

  /**
   * The trial digit of one division step: the initial guess lowered until the test on the top
   * two limbs of Y and the top three of X passes. It is the true digit or one more.
   */
  method TrialDigit(x: nat, y: nat, i: nat, t: nat, ghost q: nat) returns (z: limb)
    requires t < i && y < Pb(t + 1) <= 4 * y
    requires q * (y * Pb(i - t - 1)) <= x < (q + 1) * (y * Pb(i - t - 1))
    requires x < Pb(i + 1) && q < BASE
    ensures q <= z <= q + 1
  {
    hide *;
    BaseFacts();
    GuessNotSmall(x, y, q, i, t);
    if Digit(x, i) >= Digit(y, t) {
      z := BASE - 1;
    } else {
      var r;
      z, r := IntDivHalf(Digit(x, i), Digit(x, i - 1), Digit(y, t));
      QuotientAtLeast(q, Digit(y, t), Digit(x, i) * BASE + Digit(x, i - 1));
    }
    var y2, t2 := TopTwo(y, t), TopThree(x, i);
    ScalesOfLimbs(i, t);
    TopTwoFloor(y, t);
    TopThreeFloor(x, i);
    TopTwoLarge(y, t);
    TestKeepsQuotient(x, y, q, y2, t2, Pb(i), Pb(t), Pb(i - t - 1), BASE);
    while y2 * z > t2
      invariant q <= z
      decreases z
    {
      MulCommutes(y2, z);
      StillLarger(q, z, y2, t2);
      z := z - 1;
    }
    MulCommutes(y2, z);
    TestBoundsQuotient(x, y, q, z, y2, t2, Pb(i), Pb(t), Pb(i - t - 1), BASE);
  }

  lemma StillLarger(q: nat, z: nat, y2: nat, t2: nat)
    requires q * y2 <= t2 < z * y2
    ensures q < z
  {
    MulCancelLt(q, z, y2);
  }

  lemma QuotientAtLeast(q: nat, d: nat, x: nat)
    requires d > 0 && q * d <= x
    ensures q <= x / d
  {
    DivMod(x, d);
    Distribute(x / d, 1, d);
    MulCancelLt(q, x / d + 1, d);
  }

  // ---- the division ----

  /** Index of the top limb of a number stored without leading zero limbs. */
  function TopIndex(v: nat): nat
    requires v > 0
  {
    LimbBitsPos();
    WholeLimbs(BitLen(v) - 1, LIMB_BITS)
  }

  function WholeLimbs(bits: nat, n: nat): nat
    requires n > 0
  {
    bits / n
  }

  lemma LimbBitsPos()
    ensures LIMB_BITS > 0
  {
    BaseFacts();
  }

  lemma TopIndexBounds(v: nat)
    requires v > 0
    ensures Pb(TopIndex(v)) <= v < Pb(TopIndex(v) + 1)
  {
    hide BitLen, Pow2, Pb;
    BaseFacts();
    BitLenBounds(v);
    var m, i := BitLen(v), TopIndex(v);
    DivMod(m - 1, LIMB_BITS);
    PbIsPow2(i);
    PbIsPow2(i + 1);
    Distribute(i, 1, LIMB_BITS);
    Pow2Monotone(i * LIMB_BITS, m - 1);
    Pow2Monotone(m, (i + 1) * LIMB_BITS);
  }

  /** After the normalising shift the top limb has its second highest bit set and its highest clear. */
  lemma NormalisedTop(y: nat)
    requires y > 0 && BitLen(y) % LIMB_BITS == LIMB_BITS - 1
    ensures Pb(TopIndex(y) + 1) <= 4 * y && 2 * y < Pb(TopIndex(y) + 1)
  {
    hide BitLen, Pow2, Pb;
    BaseFacts();
    BitLenBounds(y);
    var m := BitLen(y);
    DivMod(m, LIMB_BITS);
    var t := m / LIMB_BITS;
    DivModUnique(m - 1, LIMB_BITS, t, LIMB_BITS - 2);
    PbIsPow2(t + 1);
    Distribute(t, 1, LIMB_BITS);
    PowTwoDoubles(m - 1);
    PowTwoDoubles(m);
  }

  lemma PowTwoDoubles(m: nat)
    ensures Pow2(m + 1) == 2 * Pow2(m)
  {
  }

  /** The shift that normalises the divisor. */
  function NormalShift(b: nat): (k: nat)
    requires b > 0
    ensures k < LIMB_BITS
  {
    BaseFacts();
    var k := BitLen(b) % LIMB_BITS;
    if k < LIMB_BITS - 1 then LIMB_BITS - 1 - k else 0
  }

  lemma NormalShiftWorks(b: nat)
    requires b > 0
    ensures b * Pow2(NormalShift(b)) > 0
    ensures BitLen(b * Pow2(NormalShift(b))) % LIMB_BITS == LIMB_BITS - 1
  {
    hide BitLen, Pow2;
    BaseFacts();
    BitLenShift(b, NormalShift(b));
    var m := BitLen(b);
    DivMod(m, LIMB_BITS);
    DivModUnique(m + NormalShift(b), LIMB_BITS, m / LIMB_BITS, LIMB_BITS - 1);
  }

  /** The shifted dividend needs at most one more limb. */
  lemma ShiftedTop(a: nat, k: nat)
    requires a > 0 && k < LIMB_BITS
    ensures a * Pow2(k) > 0 && TopIndex(a * Pow2(k)) <= TopIndex(a) + 1
  {
    hide BitLen, Pow2;
    BaseFacts();
    BitLenBounds(a);
    BitLenShift(a, k);
    var m := BitLen(a);
    DivMod(m - 1, LIMB_BITS);
    DivMod(m - 1 + k, LIMB_BITS);
    MulCancelLt((m - 1 + k) / LIMB_BITS, (m - 1) / LIMB_BITS + 2, LIMB_BITS);
  }

  lemma TopIndexMonotone(x: nat, y: nat)
    requires 0 < y <= x
    ensures TopIndex(y) <= TopIndex(x)
  {
    hide TopIndex, Pb;
    TopIndexBounds(x);
    TopIndexBounds(y);
    if TopIndex(x) + 1 <= TopIndex(y) {
      PbMonotone(TopIndex(x) + 1, TopIndex(y));
    }
  }

  lemma PbMonotone(i: nat, j: nat)
    requires i <= j
    ensures Pb(i) <= Pb(j)
  {
    BasePos();
    PowMonotone(BASE, i, j);
  }

  /** Quotient digits written so far and the remaining dividend. */
  ghost predicate DivInv(z: seq<limb>, x: nat, x0: nat, y: nat, j: nat) {
    && j <= |z|
    && x0 == Val(z) * y + x
    && x < y * Pb(j)
    && forall m :: 0 <= m < j ==> z[m] == 0
  }

  lemma DivInvStep(z: seq<limb>, x: nat, x0: nat, y: nat, j: nat, q: limb)
    requires j > 0 && DivInv(z, x, x0, y, j)
    requires q * (y * Pb(j - 1)) <= x < (q + 1) * (y * Pb(j - 1))
    ensures DivInv(z[j - 1 := q], x - q * (y * Pb(j - 1)), x0, y, j - 1)
  {
    hide Val, Pb;
    var p := Pb(j - 1);
    ValPut(z, j - 1, q);
    Distribute(q, 1, y * p);
    assert (Val(z) + q * p) * y == Val(z) * y + q * (y * p) by { DivDigitInts(Val(z), q, p, y); }
  }

  lemma DivDigitInts(v: int, q: int, p: int, y: int)
    ensures (v + q * p) * y == v * y + q * (y * p)
  {
  }

  lemma DivInvFacts(z: seq<limb>, x: nat, x0: nat, y: nat, t: nat, i: nat)
    requires t < i && DivInv(z, x, x0, y, i - t) && 0 < y < Pb(t + 1)
    ensures y * Pb(i - t - 1) > 0 && x / (y * Pb(i - t - 1)) < BASE && x < Pb(i + 1)
  {
    hide Val, Pb;
    PbStep(i - t - 1);
    var d := y * Pb(i - t - 1);
    assert d > 0 by { MulMonotone(y, 1, Pb(i - t - 1)); }
    assert y * Pb(i - t) == BASE * d by { assert y * (BASE * Pb(i - t - 1)) == BASE * (y * Pb(i - t - 1)); }
    DivMod(x, d);
    MulCancelLt(x / d, BASE, d);
    PbAdd(t + 1, i - t);
    MulMonotone(Pb(i - t), y, Pb(t + 1));
  }

  lemma TrialOutcome(x: nat, q: nat, z: nat, d: nat)
    requires q * d <= x < (q + 1) * d && q <= z <= q + 1
    ensures x - z * d < 0 ==> z == q + 1 && x - z * d + d == x - q * d
    ensures x - z * d >= 0 ==> z == q
  {
    if z == q + 1 {
      Distribute(q, 1, d);
    }
  }

  /** One quotient digit: trial digit, multiply and subtract, add back at most once. */
  method DivStep(Z: array<limb>, X: nat, Y: nat, i: nat, t: nat, ghost x0: nat) returns (X': nat)
    requires t < i && Y < Pb(t + 1) <= 4 * Y && DivInv(Z[..], X, x0, Y, i - t)
    modifies Z
    ensures DivInv(Z[..], X', x0, Y, i - t - 1)
  {
    hide *;
    BasePos();
    PbPositive(t + 1);
    DivInvFacts(Z[..], X, x0, Y, t, i);
    DivInvLength(Z[..], X, x0, Y, i - t);
    var d := Y * Pb(i - t - 1);
    ghost var q: limb := X / d;
    FloorOfDiv(X, d);
    FloorParts(q, X, d);
    ghost var z0 := Z[..];
    var z := TrialDigit(X, Y, i, t, q);
    TrialOutcome(X, q, z, d);
    DivInvStep(z0, X, x0, Y, i - t, q);
    Z[i - t - 1] := z;
    var x := X - z * d;
    if x < 0 {
      x := x + d;
      Z[i - t - 1] := z - 1;
    }
    assert Z[..] == z0[i - t - 1 := q];
    X' := x;
  }

  lemma DivInvLength(z: seq<limb>, x: nat, x0: nat, y: nat, j: nat)
    requires DivInv(z, x, x0, y, j)
    ensures j <= |z|
  {
  }

  /** The leading digit, by repeated subtraction; the normalisation keeps it below 4. */
  method LeadingDigit(Z: array<limb>, x0: nat, Y: nat, n: nat, t: nat) returns (X: nat)
    requires t <= n && n - t < Z.Length && Pb(t + 1) <= 4 * Y && x0 < Pb(n + 1)
    requires forall m :: 0 <= m < Z.Length ==> Z[m] == 0
    modifies Z
    ensures DivInv(Z[..], X, x0, Y, n - t)
  {
    hide Val, Pb;
    BaseFacts();
    PbPositive(t + 1);
    var d := Y * Pb(n - t);
    assert d > 0 by { MulMonotone(Y, 1, Pb(n - t)); }
    assert x0 < 4 * d by {
      PbAdd(t + 1, n - t);
      MulMonotone(Pb(n - t), Pb(t + 1), 4 * Y);
      MulAssoc(4, Y, Pb(n - t));
    }
    X := x0;
    ValZeros(Z[..]);
    while X >= d
      invariant forall m :: 0 <= m < n - t ==> Z[m] == 0
      invariant x0 == Val(Z[..]) * Y + X && Val(Z[..]) == Z[n - t] * Pb(n - t)
      decreases X
    {
      ghost var z := Z[..];
      assert Z[n - t] * Pb(n - t) * Y == Z[n - t] * d by { LeadingInts(Z[n - t], Pb(n - t), Y); }
      MulCancelLt(Z[n - t], 4, d);
      Z[n - t] := Z[n - t] + 1;
      assert Z[..] == z[n - t := Z[n - t]];
      ValPut(z, n - t, Z[n - t]);
      Distribute(z[n - t], 1, Pb(n - t));
      Distribute(Val(z), Pb(n - t), Y);
      MulCommutes(Y, Pb(n - t));
      X := X - d;
    }
  }

  lemma LeadingInts(z: int, p: int, y: int)
    ensures z * p * y == z * (y * p)
  {
  }

  /** Division of magnitudes, with the divisor shifted so that its top limb is in [B/4, B/2). */
  method DivAbs(a: nat, b: nat) returns (q: nat, r: nat)
    requires 0 < b <= a
    ensures a == q * b + r && r < b
  {
    hide *;
    BasePos();
    var k := NormalShift(b);
    var X: nat, Y: nat := a * Pow2(k), b * Pow2(k);
    NormalShiftWorks(b);
    NormalisedTop(Y);
    ShiftedTop(a, k);
    MulMonotone(Pow2(k), b, a);
    TopIndexMonotone(X, Y);
    TopIndexBounds(X);
    TopIndexBounds(Y);
    var n, t := TopIndex(X), TopIndex(Y);
    var Z := new limb[TopIndex(a) + 2](_ => 0);
    ghost var x0: nat := X;
    X := LeadingDigit(Z, X, Y, n, t);
    var i := n;
    while i > t
      invariant t <= i
      invariant DivInv(Z[..], X, x0, Y, i - t)
    {
      X := DivStep(Z, X, Y, i, t, x0);
      i := i - 1;
    }
    q, r := Val(Z[..]), Shr(X, k);
    DivInvDone(Z[..], X, x0, Y);
    UndoShift(a, b, q, X, k);
  }

  lemma DivInvDone(z: seq<limb>, x: nat, x0: nat, y: nat)
    requires DivInv(z, x, x0, y, 0)
    ensures x0 == Val(z) * y + x && x < y
  {
  }

  lemma UndoShift(a: nat, b: nat, q: nat, x: nat, k: nat)
    requires a * Pow2(k) == q * (b * Pow2(k)) + x && x < b * Pow2(k)
    ensures a == q * b + Shr(x, k) && Shr(x, k) < b
  {
    hide Pow2;
    var p := Pow2(k);
    assert x == (a - q * b) * p by { UndoInts(a, b, q, p); }
    DivModUnique(x, p, a - q * b, 0);
    MulCancelLt(a - q * b, b, p);
  }

  lemma UndoInts(a: int, b: int, q: int, p: int)
    ensures a * p - q * (b * p) == (a - q * b) * p
  {
  }
}
