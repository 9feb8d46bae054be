/** Extended gcd with deferred powers of two. */
module MiniGmpGcdExt {
  import opened Arith
  import opened Divisibility
  import BignumDiv
  import opened BignumGcd
  import opened Limbs
  import opened MiniGmpMpz

  /**
   * u and v as non-negative combinations of tu and tv whose matrix has determinant 2^power.
   */
  ghost predicate ExtInv(u: nat, v: nat, t0: int, t1: int, s0: int, s1: int, tu: nat, tv: nat, power: nat) {
    && t0 >= 0 && t1 >= 0 && s0 >= 0 && s1 >= 0
    && u == t0 * tu + t1 * tv
    && v == s0 * tu + s1 * tv
    && t0 * s1 - t1 * s0 == Pow2(power)
  }

  lemma ExtStart(u: nat, v: nat, tu: nat, tv: nat, uz: nat, vz: nat)
    requires tv > 0 && u == Pow2(uz) * tu && v == Pow2(vz) * tv
    ensures tu / tv * Pow2(uz) >= 0
    ensures ExtInv(u, v, Pow2(uz), tu / tv * Pow2(uz), 0, Pow2(vz), tu % tv, tv, uz + vz)
  {
    hide Pow2;
    DivMod(tu, tv);
    var q, r, p := tu / tv, tu % tv, Pow2(uz);
    assert q * p >= 0;
    assert p * (q * tv + r) == p * r + q * p * tv;
    PowTwoAdd(uz, vz);
  }

  /** Shifting tu right moves the factor into its column. */
  lemma ExtShiftU(u: nat, v: nat, t0: int, t1: int, s0: int, s1: int, tu: nat, tv: nat, power: nat, k: nat, x: nat)
    requires ExtInv(u, v, t0, t1, s0, s1, tu, tv, power) && tu == Pow2(k) * x
    ensures ExtInv(u, v, t0 * Pow2(k), t1, s0 * Pow2(k), s1, x, tv, power + k)
  {
    hide Pow2;
    var p := Pow2(k);
    MulAssoc(t0, p, x);
    MulAssoc(s0, p, x);
    PowTwoAdd(power, k);
    assert (t0 * p) * s1 - t1 * (s0 * p) == (t0 * s1 - t1 * s0) * p by { DetScale(t0, t1, s0, s1, p); }
  }

  lemma DetScale(t0: int, t1: int, s0: int, s1: int, p: int)
    ensures (t0 * p) * s1 - t1 * (s0 * p) == (t0 * s1 - t1 * s0) * p
  {
  }

  /** tu = tu' + tv moves column 0 into column 1. */
  lemma ExtSubU(u: nat, v: nat, t0: int, t1: int, s0: int, s1: int, tu: nat, tv: nat, power: nat)
    requires ExtInv(u, v, t0, t1, s0, s1, tu, tv, power) && tu >= tv
    ensures ExtInv(u, v, t0, t0 + t1, s0, s0 + s1, tu - tv, tv, power)
  {
    hide Pow2;
    assert t0 * (tu - tv) + (t0 + t1) * tv == t0 * tu + t1 * tv;
    assert s0 * (tu - tv) + (s0 + s1) * tv == s0 * tu + s1 * tv;
    assert t0 * (s0 + s1) - (t0 + t1) * s0 == t0 * s1 - t1 * s0;
  }

  lemma ExtSwap(u: nat, v: nat, t0: int, t1: int, s0: int, s1: int, tu: nat, tv: nat, power: nat)
    ensures ExtInv(u, v, t0, t1, s0, s1, tu, tv, power) <==> ExtInv(v, u, s1, s0, t1, t0, tv, tu, power)
  {
    hide Pow2;
    assert t0 * s1 - t1 * s0 == s1 * t0 - s0 * t1;
  }

  /** At the end the column of tv gives 2^power * tv as a combination of u and v. */
  lemma ExtCombination(u: nat, v: nat, t0: int, t1: int, s0: int, s1: int, tu: nat, tv: nat, power: nat)
    requires ExtInv(u, v, t0, t1, s0, s1, tu, tv, power)
    ensures -s0 * u + t0 * v == Pow2(power) * tv
  {
    hide Pow2;
    var d := t0 * s1 - t1 * s0;
    CombinationInts(t0, t1, s0, s1, tu, tv);
  }

  lemma CombinationInts(t0: int, t1: int, s0: int, s1: int, tu: int, tv: int)
    ensures -s0 * (t0 * tu + t1 * tv) + t0 * (s0 * tu + s1 * tv) == (t0 * s1 - t1 * s0) * tv
  {
    assert s0 * (t0 * tu) == t0 * (s0 * tu);
  }

  /** State of the subtractive phase, with the gcd g of the odd parts. */
  ghost predicate Phase(g: int, u: nat, v: nat, t0: int, t1: int, s0: int, s1: int, tu: nat, tv: nat, power: nat) {
    && ExtInv(u, v, t0, t1, s0, s1, tu, tv, power)
    && tu > 0 && tv > 0 && tu % 2 == 1 && tv % 2 == 1 && IsGcd(g, tu, tv)
  }

  /** One step: subtract, then shift out the factors of two of the difference. */
  lemma PhaseStep(g: int, u: nat, v: nat, t0: int, t1: int, s0: int, s1: int, tu: nat, tv: nat, power: nat)
    requires Phase(g, u, v, t0, t1, s0, s1, tu, tv, power) && tu > tv
    ensures var k := Lsb(tu - tv);
      Phase(g, u, v, t0 * Pow2(k), t0 + t1, s0 * Pow2(k), s0 + s1, Shr(tu - tv, k), tv, power + k)
  {
    hide Pow2, Shr, Lsb, ExtInv, IsGcd;
    var d := tu - tv;
    var k := Lsb(d);
    ExtSubU(u, v, t0, t1, s0, s1, tu, tv, power);
    LsbSplit(d);
    OddPart(d);
    ExtShiftU(u, v, t0, t0 + t1, s0, s0 + s1, d, tv, power, k, Shr(d, k));
    GcdSubtract(g, tu, tv);
    GcdHalves(g, Shr(d, k), tv, k);
  }

  lemma PhaseSwap(g: int, u: nat, v: nat, t0: int, t1: int, s0: int, s1: int, tu: nat, tv: nat, power: nat)
    requires Phase(g, u, v, t0, t1, s0, s1, tu, tv, power)
    ensures Phase(g, v, u, s1, s0, t1, t0, tv, tu, power)
  {
    hide ExtInv, IsGcd;
    ExtSwap(u, v, t0, t1, s0, s1, tu, tv, power);
    GcdSwap(g, tu, tv);
  }

  /** The subtractive loop: ends with tu = tv = g. */
  method Subtractive(T0: int, T1: int, S0: int, S1: int, TU: nat, TV: nat, P: nat, ghost g: int, ghost u: nat, ghost v: nat)
    returns (t0: int, s0: int, tv: nat, power: nat, ghost t1: int, ghost s1: int)
    requires Phase(g, u, v, T0, T1, S0, S1, TU, TV, P)
    ensures Phase(g, u, v, t0, t1, s0, s1, tv, tv, power) && tv == g
  {
    hide *;
    var t1', s1', tu: nat := T1, S1, TU;
    t0, s0, tv, power := T0, S0, TV, P;
    while tu != tv
      invariant Phase(g, u, v, t0, t1', s0, s1', tu, tv, power)
      decreases tu + tv
    {
      PhasePositive(g, u, v, t0, t1', s0, s1', tu, tv, power);
      if tu < tv {
        PhaseSwap(g, u, v, t0, t1', s0, s1', tu, tv, power);
        PhaseStep(g, v, u, s1', s0, t1', t0, tv, tu, power);
        OddPart(tv - tu);
        var k := Lsb(tv - tu);
        PhaseSwap(g, v, u, s1' * Pow2(k), s1' + s0, t1' * Pow2(k), t1' + t0, Shr(tv - tu, k), tu, power + k);
        tv := Shr(tv - tu, k);
        t0, s0 := t1' + t0, s1' + s0;
        t1', s1' := t1' * Pow2(k), s1' * Pow2(k);
        power := power + k;
      } else {
        PhaseStep(g, u, v, t0, t1', s0, s1', tu, tv, power);
        OddPart(tu - tv);
        var k := Lsb(tu - tv);
        tu := Shr(tu - tv, k);
        t1', s1' := t0 + t1', s0 + s1';
        t0, s0 := t0 * Pow2(k), s0 * Pow2(k);
        power := power + k;
      }
    }
    PhaseDone(g, u, v, t0, t1', s0, s1', tv, power);
    t1, s1 := t1', s1';
  }

  lemma PhasePositive(g: int, u: nat, v: nat, t0: int, t1: int, s0: int, s1: int, tu: nat, tv: nat, power: nat)
    requires Phase(g, u, v, t0, t1, s0, s1, tu, tv, power)
    ensures tu > 0 && tv > 0
  {
  }

  lemma PhaseDone(g: int, u: nat, v: nat, t0: int, t1: int, s0: int, s1: int, tv: nat, power: nat)
    requires Phase(g, u, v, t0, t1, s0, s1, tv, tv, power)
    ensures tv == g
  {
    GcdOfEqual(g, tv);
  }

  /** Remove the deferred factors of two one at a time. */
  method HalveCofactors(S: int, T: int, U: nat, V: nat, power: nat) returns (s: int, t: int)
    requires Row(T, S, V, U, Pow2(power)) && NotBothEven(V, U) && 0 <= S + V && S <= 0
    ensures Row(t, s, V, U, 1) && 0 <= s + V && s <= 0
  {
    hide Row, Pow2;
    s, t := S, T;
    var p := power;
    while p > 0
      invariant Row(t, s, V, U, Pow2(p)) && 0 <= s + V && s <= 0
    {
      BignumDiv.PowTwoDoubles(p - 1);
      if s % 2 == 1 || t % 2 == 1 {
        RowAdjust(t, s, V, U, Pow2(p));
        s, t := s - V, t + U;
      }
      RowHalve(t, s, V, U, Pow2(p));
      s, t, p := s / 2, t / 2, p - 1;
    }
    BignumGcd.PowTwoZero();
  }

  /** Of the two cofactors s and s + V the smaller one is at most V / 2. */
  lemma SmallCofactor(s: int, t: int, U: nat, V: nat)
    requires Row(t, s, V, U, 1) && 0 <= s + V && s <= 0
    ensures Row(t - U, s + V, V, U, 1)
    ensures Abs(s) > Abs(s + V) ==> 2 * Abs(s + V) <= V && 2 * (s + V) < V
    ensures Abs(s) <= Abs(s + V) ==> 2 * Abs(s) <= V
  {
    assert (t - U) * V + (s + V) * U == t * V + s * U;
  }

  /** The combination after the subtractive phase, divided by the gcd of the odd parts. */
  ghost predicate Cofactors(s0: int, t0: int, tv: nat, power: nat, g: int, u: nat, v: nat) {
    && tv == g && g > 0 && s0 >= 0
    && -s0 * u + t0 * v == Pow2(power) * g
    && s0 * g <= v
  }

  lemma PhaseCofactors(g: int, u: nat, v: nat, t0: int, t1: int, s0: int, s1: int, tv: nat, power: nat)
    requires Phase(g, u, v, t0, t1, s0, s1, tv, tv, power) && tv == g
    ensures Cofactors(s0, t0, tv, power, g, u, v)
  {
    ExtCombination(u, v, t0, t1, s0, s1, tv, tv, power);
    MulMonotone(tv, 0, s1);
  }

  /** The odd parts a and b of u = 2^uz a and v = 2^vz b, one of uz and vz being 0. */
  method OddCofactors(a: nat, b: nat, uz: nat, vz: nat, ghost g: int)
    returns (s0: int, t0: int, tv: nat, power: nat)
    requires a % 2 == 1 && b % 2 == 1 && IsGcd(g, a, b)
    ensures Cofactors(s0, t0, tv, power, g, Pow2(uz) * a, Pow2(vz) * b)
  {
    hide *;
    ghost var u, v := Pow2(uz) * a, Pow2(vz) * b;
    ExtStart(u, v, a, b, uz, vz);
    var t1, s1;
    t0, t1, s0, s1 := Pow2(uz), a / b * Pow2(uz), 0, Pow2(vz);
    DivMod(a, b);
    var tu: nat := a % b;
    tv, power := b, uz + vz;
    GcdOfResidue(g, a, b);
    if tu > 0 {
      var shift := Lsb(tu);
      LsbSplit(tu);
      OddPart(tu);
      ExtShiftU(u, v, t0, t1, s0, s1, tu, tv, power, shift, Shr(tu, shift));
      GcdHalves(g, Shr(tu, shift), tv, shift);
      PhaseIntro(g, u, v, t0 * Pow2(shift), t1, s0 * Pow2(shift), s1, Shr(tu, shift), tv, power + shift);
      ghost var t1', s1';
      t0, s0, tv, power, t1', s1' :=
        Subtractive(t0 * Pow2(shift), t1, s0 * Pow2(shift), s1, Shr(tu, shift), tv, power + shift, g, u, v);
      PhaseCofactors(g, u, v, t0, t1', s0, s1', tv, power);
    } else {
      ExtCombination(u, v, t0, t1, s0, s1, tu, tv, power);
      GcdZeroLeft(g, b);
      CofactorsIntro(s0, t0, tv, power, g, u, v);
    }
  }

  lemma PhaseIntro(g: int, u: nat, v: nat, t0: int, t1: int, s0: int, s1: int, tu: nat, tv: nat, power: nat)
    requires ExtInv(u, v, t0, t1, s0, s1, tu, tv, power)
    requires tu > 0 && tv > 0 && tu % 2 == 1 && tv % 2 == 1 && IsGcd(g, tu, tv)
    ensures Phase(g, u, v, t0, t1, s0, s1, tu, tv, power)
  {
  }

  lemma GcdZeroLeft(g: int, b: nat)
    requires IsGcd(g, 0, b)
    ensures g == b
  {
    GcdIntro(b, 0, b, 0, 1, 0, 1);
    GcdUnique(g, b, 0, b);
  }

  lemma CofactorsIntro(s0: int, t0: int, tv: nat, power: nat, g: int, u: nat, v: nat)
    requires tv == g && g > 0 && s0 == 0 && -s0 * u + t0 * v == Pow2(power) * g
    ensures Cofactors(s0, t0, tv, power, g, u, v)
  {
  }

  /** Dividing the combination by the full gcd G = c * g leaves coprime U and V. */
  lemma ExactQuotients(s0: int, t0: int, tv: nat, power: nat, g: int, c: nat, u: nat, v: nat)
    requires Cofactors(s0, t0, tv, power, g, u, v) && c > 0 && IsGcd(c * g, c * u, c * v)
    ensures c * g > 0 && c * u / (c * g) * (c * g) == c * u && c * v / (c * g) * (c * g) == c * v
    ensures NotBothEven(c * v / (c * g), c * u / (c * g))
    ensures Row(t0, -s0, c * v / (c * g), c * u / (c * g), Pow2(power))
    ensures -(c * v / (c * g)) <= -s0 <= 0
  {
    hide Pow2, IsGcd;
    var G := c * g;
    assert G > 0 by { MulMonotone(g, 1, c); }
    var k, l, x, y := GcdElim(G, c * u, c * v);
    DivModUnique(c * u, G, k, 0);
    DivModUnique(c * v, G, l, 0);
    CoprimeQuotients(G, c * u, c * v, k, l, x, y);
    CoprimeNotBothEven(k, l);
    assert u == k * g && v == l * g by { CancelScale(c, g, k, u); CancelScale(c, g, l, v); }
    assert (-s0 * k + t0 * l) * g == Pow2(power) * g by { RowScale(s0, t0, k, l, g); }
    MulCancel(-s0 * k + t0 * l, Pow2(power), g);
    if s0 > l {
      MulMonotone(g, l + 1, s0);
      Distribute(l, 1, g);
    }
  }

  lemma CoprimeQuotients(g: int, a: int, b: int, k: int, l: int, x: int, y: int)
    requires g > 0 && a == k * g && b == l * g && x * a + y * b == g
    ensures IsGcd(1, k, l)
  {
    assert (x * k + y * l) * g == 1 * g by { assert x * (k * g) + y * (l * g) == (x * k + y * l) * g; }
    MulCancel(x * k + y * l, 1, g);
    GcdIntro(1, k, l, k, l, x, y);
  }

  lemma CancelScale(c: int, g: int, k: int, u: int)
    requires c > 0 && c * u == k * (c * g)
    ensures u == k * g
  {
    assert k * (c * g) == k * g * c;
    MulCommutes(c, u);
    MulCancel(u, k * g, c);
  }

  lemma RowScale(s0: int, t0: int, k: int, l: int, g: int)
    ensures (-s0 * k + t0 * l) * g == -s0 * (k * g) + t0 * (l * g)
  {
    MulAssoc(-s0, k, g);
    MulAssoc(t0, l, g);
  }

  /** Cofactors of non-negative numbers given by odd parts, the smaller one chosen for u. */
  method PositiveCofactors(a: nat, b: nat, uz: nat, vz: nat, gz: nat) returns (g: int, s: int, t: int)
    requires a % 2 == 1 && b % 2 == 1 && gz <= uz && gz <= vz && (gz == uz || gz == vz)
    ensures g > 0 && IsGcd(g, Pow2(uz) * a, Pow2(vz) * b)
    ensures s * (Pow2(uz) * a) + t * (Pow2(vz) * b) == g
    ensures 2 * Abs(s) * g <= Pow2(vz) * b && 2 * s * g < Pow2(vz) * b
  {
    hide *;
    ghost var g0 := GcdExists(a, b);
    GcdOfParts(g0, a, b, uz, vz);
    var s0, t0, tv, power := OddCofactors(a, b, uz - gz, vz - gz, g0);
    ghost var u, v := Pow2(uz - gz) * a, Pow2(vz - gz) * b;
    assert Pow2(uz) * a == Pow2(gz) * u by { PowTwoAdd(gz, uz - gz); MulAssoc(Pow2(gz), Pow2(uz - gz), a); }
    assert Pow2(vz) * b == Pow2(gz) * v by { PowTwoAdd(gz, vz - gz); MulAssoc(Pow2(gz), Pow2(vz - gz), b); }
    CofactorsGcd(s0, t0, tv, power, g0, u, v);
    ExactQuotients(s0, t0, tv, power, g0, Pow2(gz), u, v);
    g := Pow2(gz) * tv;
    var V: nat, U: nat := Pow2(vz) * b / g, Pow2(uz) * a / g;
    s, t := HalveCofactors(-s0, t0, U, V, power);
    SmallCofactor(s, t, U, V);
    if Abs(s) > Abs(s + V) {
      s, t := s + V, t - U;
    }
    RowTimes(s, t, U, V, g);
  }

  lemma CofactorsGcd(s0: int, t0: int, tv: nat, power: nat, g: int, u: nat, v: nat)
    requires Cofactors(s0, t0, tv, power, g, u, v)
    ensures tv == g
  {
  }

  lemma RowTimes(s: int, t: int, U: nat, V: nat, g: int)
    requires Row(t, s, V, U, 1) && g > 0 && 2 * Abs(s) <= V && 2 * s < V
    ensures s * (U * g) + t * (V * g) == g
    ensures 2 * Abs(s) * g <= V * g && 2 * s * g < V * g
  {
    assert (t * V + s * U) * g == t * (V * g) + s * (U * g);
    MulMonotone(g, 2 * Abs(s), V);
    MulMonotone(g, 2 * s + 1, V);
    Distribute(2 * s, 1, g);
  }

  /** The limbs of what is left of a number after its trailing zero bits. */
  function OddSize(x: int): nat {
    LimbCount(Shr(Abs(x), Lsb(Abs(x))))
  }

  // ---- how small the chosen cofactor is ----

  /** In a row for 1 twice the cofactor equals the other number only for 2: it would divide 1. */
  lemma HalfOnlyForTwo(s: int, t: int, k: int, l: int)
    requires s * l + t * k == 1 && 2 * Abs(s) <= Abs(k) && k != 0
    ensures 2 * Abs(s) == Abs(k) <==> Abs(k) == 2
  {
    if 2 * Abs(s) == Abs(k) {
      var e := if k == 2 * s then 2 else -2;
      assert s * l + t * k == s * (l + t * e) by { MulAssoc(t, e, s); MulCommutes(t * e, s); Distribute(l, t * e, s); MulCommutes(s, l + t * e); }
      UnitFactor(s, l + t * e);
    } else if Abs(k) == 2 {
      assert s == 0;
      assert t * k == 1;
      UnitFactor(k, t);
    }
  }

  lemma UnitFactor(a: int, b: int)
    requires a * b == 1 || b * a == 1
    ensures Abs(a) == 1
  {
    if a > 1 {
      SignOfFactor(a, b);
    } else if a < -1 {
      SignOfFactor(-a, -b);
    }
  }

  lemma SignOfFactor(a: int, b: int)
    requires a > 1
    ensures a * b != 1
  {
    if b >= 1 {
      MulMonotone(a, 1, b);
    } else {
      MulMonotone(a, b, 0);
    }
  }

  lemma NonZeroFactor(k: int, g: int)
    ensures k * g != 0 ==> g != 0
  {
  }

  lemma ScaledAbs(k: int, g: nat)
    ensures Abs(k * g) == Abs(k) * g
  {
    MulCommutes(-k, g);
  }

  lemma RowOfQuotients(s: int, t: int, k: int, l: int, g: int)
    requires g > 0 && s * (l * g) + t * (k * g) == g
    ensures s * l + t * k == 1
  {
    assert (s * l + t * k) * g == 1 * g by { MulAssoc(s, l, g); MulAssoc(t, k, g); Distribute(s * l, t * k, g); }
    MulCancel(s * l + t * k, 1, g);
  }

  /** The bound is strict, but for a number that is twice the gcd; and it is the comment's bound if v is not the larger one. */
  lemma StrictBound(u: int, v: int, g: int, s: int, t: int)
    requires u != 0 && v != 0 && IsGcd(g, u, v) && s * u + t * v == g && 2 * Abs(s) * g <= Abs(v)
    requires s != 0 && (s > 0 <==> u > 0) ==> 2 * Abs(s) * g < Abs(v)
    ensures 2 * Abs(s) * g < Abs(v) <==> Abs(v) != 2 * g
    ensures Abs(v) == 2 * g ==> s == -Sign(u)
    ensures Abs(v) <= Abs(u) ==> 2 * Abs(s) * g < Abs(u)
  {
    hide IsGcd;
    var l, k, x, y := GcdElim(g, u, v);
    NonZeroFactor(k, g);
    RowOfQuotients(s, t, k, l, g);
    ScaledAbs(k, g);
    ScaledAbs(l, g);
    if 2 * Abs(s) > Abs(k) {
      MulMonotone(g, Abs(k) + 1, 2 * Abs(s));
      Distribute(Abs(k), 1, g);
    }
    HalfOnlyForTwo(s, t, k, l);
    if Abs(v) == 2 * g {
      MulCancel(Abs(k), 2, g);
    }
    if 2 * Abs(s) * g == Abs(v) {
      MulCancel(2 * Abs(s), Abs(k), g);
      if Abs(v) == Abs(u) {
        MulCancel(Abs(k), Abs(l), g);
        EqualQuotients(s, t, k, l);
      }
    }
  }

  /** Numbers of the same size in a row for 1 are 1 or -1. */
  lemma EqualQuotients(s: int, t: int, k: int, l: int)
    requires s * l + t * k == 1 && Abs(k) == Abs(l)
    ensures Abs(k) == 1
  {
    if k == l {
      Distribute(s, t, k);
      assert s * k + t * k == (s + t) * k;
      UnitFactor(k, s + t);
    } else {
      Distribute(t, s, k);
      assert s * l == -(s * k);
      UnitFactor(k, t - s);
    }
  }

  function Sign(x: int): int {
    if x > 0 then 1 else if x < 0 then -1 else 0
  }

  /** The cofactor s of u is at most half of v over g, with equality only if that is 1; then it has the sign opposite to u. */
  predicate HalfBound(s: int, g: int, u: int, v: int) {
    && 2 * Abs(s) * g <= Abs(v) && (2 * Abs(s) * g < Abs(v) <==> Abs(v) != 2 * g)
    && (Abs(v) == 2 * g ==> s == -Sign(u))
    && (Abs(v) <= Abs(u) ==> 2 * Abs(s) * g < Abs(u))
  }

  /** So there is one such cofactor only. */
  lemma OneCofactor(s: int, t: int, s': int, t': int, g: int, u: int, v: int)
    requires u != 0 && v != 0 && IsGcd(g, u, v) && s * u + t * v == g && s' * u + t' * v == g
    requires HalfBound(s, g, u, v) && HalfBound(s', g, u, v)
    ensures s == s' && t == t'
  {
    hide IsGcd, HalfBound;
    var l, k, x, y := GcdElim(g, u, v);
    NonZeroFactor(k, g);
    RowOfQuotients(s, t, k, l, g);
    RowOfQuotients(s', t', k, l, g);
    if Abs(v) == 2 * g {
      SameSign(s, s', g, u, v);
    } else {
      BelowHalf(s, k, g, u, v);
      BelowHalf(s', k, g, u, v);
      CoprimeShift(s, t, s', t', k, l);
    }
    SameProduct(t, t', v);
  }

  lemma SameProduct(a: int, b: int, c: int)
    requires c != 0 && a * c == b * c
    ensures a == b
  {
    if c > 0 {
      MulCancel(a, b, c);
    } else {
      MulCancel(a, b, -c);
    }
  }

  lemma SameSign(s: int, s': int, g: int, u: int, v: int)
    requires Abs(v) == 2 * g && HalfBound(s, g, u, v) && HalfBound(s', g, u, v)
    ensures s == s'
  {
  }

  lemma BelowHalf(s: int, k: int, g: int, u: int, v: int)
    requires g > 0 && v == k * g && Abs(v) != 2 * g && HalfBound(s, g, u, v)
    ensures 2 * Abs(s) < Abs(k)
  {
    ScaledAbs(k, g);
    if 2 * Abs(s) >= Abs(k) {
      MulMonotone(g, Abs(k), 2 * Abs(s));
    }
  }

  /** Two cofactors of l differ by a multiple of k. */
  lemma CoprimeShift(s: int, t: int, s': int, t': int, k: int, l: int)
    requires s * l + t * k == 1 && s' * l + t' * k == 1 && 2 * Abs(s) < Abs(k) && 2 * Abs(s') < Abs(k)
    ensures s == s'
  {
    var d := s - s';
    var e := d * t + s * (t' - t);
    assert d == e * k by { ShiftIs(s, t, s', t', k, l); }
    if d != 0 {
      SmallMultiple(e, k, d);
    }
  }

  lemma ShiftIs(s: int, t: int, s': int, t': int, k: int, l: int)
    requires s * l + t * k == 1 && s' * l + t' * k == 1
    ensures s - s' == ((s - s') * t + s * (t' - t)) * k
  {
    var d := s - s';
    Distribute(s, -s', l);
    assert d * l == (t' - t) * k;
    assert d == d * (s * l + t * k);
    assert d * (s * l) == s * (d * l);
  }

  lemma SmallMultiple(e: int, k: int, d: int)
    requires d == e * k && Abs(d) < Abs(k)
    ensures d == 0
  {
    ScaledByAbs(e, k);
    if e != 0 {
      MulMonotone(Abs(k), 1, Abs(e));
    }
  }

  lemma ScaledByAbs(e: int, k: int)
    ensures Abs(e * k) == Abs(e) * Abs(k)
  {
  }

  /** The bound holds for the cofactor of the argument whose odd part has more limbs, or of u if they have equally many. */
  predicate BoundedCofactor(s: int, t: int, g: int, u: int, v: int) {
    if OddSize(u) < OddSize(v) then HalfBound(t, g, v, u) else HalfBound(s, g, u, v)
  }

  /** gcd and cofactors of signed numbers. */
  method GcdExtOf(u: int, v: int) returns (g: int, s: int, t: int)
    ensures IsGcd(g, u, v) && s * u + t * v == g
    ensures u == 0 ==> s == 0 && t == Sign(v)
    ensures u != 0 && v == 0 ==> s == Sign(u) && t == 0
    ensures u != 0 && v != 0 ==> BoundedCofactor(s, t, g, u, v)
  {
    hide IsGcd, Pow2, Shr, Lsb, LimbCount;
    if u == 0 {
      ZeroArgument(v);
      GcdSwap(Abs(v), v, 0);
      return Abs(v), 0, if v > 0 then 1 else if v < 0 then -1 else 0;
    }
    if v == 0 {
      ZeroArgument(u);
      return Abs(u), if u > 0 then 1 else -1, 0;
    }
    var ua, va := Abs(u), Abs(v);
    var uz, vz := Lsb(ua), Lsb(va);
    var tu, tv := Shr(ua, uz), Shr(va, vz);
    LsbSplit(ua);
    LsbSplit(va);
    var gz := if uz < vz then uz else vz;
    if LimbCount(tu) < LimbCount(tv) {
      g, t, s := PositiveCofactors(tv, tu, vz, uz, gz);
      GcdSwap(g, va, ua);
    } else {
      g, s, t := PositiveCofactors(tu, tv, uz, vz, gz);
    }
    GcdAbs(g, u, v);
    SignCofactors(u, v, s, t);
    if u < 0 {
      s := -s;
    }
    if v < 0 {
      t := -t;
    }
    if LimbCount(tu) < LimbCount(tv) {
      GcdSwap(g, u, v);
      StrictBound(v, u, g, t, s);
    } else {
      StrictBound(u, v, g, s, t);
    }
  }

  /**
   * mpz_gcdext: g = gcd(u, v) with s * u + t * v = g for all signed u and v, and when both are nonzero the
   * bound above. Either cofactor may be missing; g, s and t are different objects and may be u or v.
   */
  method GcdExt(g: Mpz, s: Mpz?, t: Mpz?, u: Mpz, v: Mpz) returns (ghost sv: int, ghost tv: int)
    requires g.Valid() && u.Valid() && v.Valid() && Apart(g, u) && Apart(g, v)
    requires (s != null ==> s.Valid()) && Apart(s, u) && Apart(s, v) && Beside(s, g)
    requires (t != null ==> t.Valid()) && Apart(t, u) && Apart(t, v) && Beside(t, g)
    requires Beside(s, t)
    modifies g, g.d, Footprint(s), Footprint(t)
    ensures g.Valid() && IsGcd(g.Value(), old(u.Value()), old(v.Value()))
    ensures sv * old(u.Value()) + tv * old(v.Value()) == g.Value()
    ensures s != null ==> s.Valid() && s.Value() == sv
    ensures t != null ==> t.Valid() && t.Value() == tv
    ensures old(u.Value()) == 0 ==> sv == 0 && tv == Sign(old(v.Value()))
    ensures old(u.Value()) != 0 && old(v.Value()) == 0 ==> sv == Sign(old(u.Value())) && tv == 0
    ensures old(u.Value()) != 0 && old(v.Value()) != 0 ==> BoundedCofactor(sv, tv, g.Value(), old(u.Value()), old(v.Value()))
  {
    hide IsGcd, Val, BoundedCofactor;
    var a := Number(u);
    var b := Number(v);
    var gn, sn, tn := GcdExtOf(a, b);
    StoreAll(g, s, t, gn, sn, tn);
    sv, tv := sn, tn;
  }

  /** The three outputs at the end. */
  method StoreAll(g: Mpz, s: Mpz?, t: Mpz?, gn: int, sn: int, tn: int)
    requires g.Valid() && (s != null ==> s.Valid()) && (t != null ==> t.Valid()) && Beside(s, g) && Beside(t, g) && Beside(s, t)
    modifies g, g.d, Footprint(s), Footprint(t)
    ensures g.Valid() && g.Value() == gn
    ensures s != null ==> s.Valid() && s.Value() == sn
    ensures t != null ==> t.Valid() && t.Value() == tn
  {
    hide Val;
    SetNumber(g, gn);
    if s != null {
      SetNumber(s, sn);
    }
    if t != null {
      SetNumber(t, tn);
    }
  }

  /** Of (1, 5) and (4, 5) only the second meets the comment's bound, so for |u| < |v| the sizes do not decide. */
  method CommentBound() returns (s: int, t: int, s': int, t': int)
    ensures s == 1 && t == 0 && !(2 * Abs(s) < 1)
    ensures s' == -1 && t' == 1 && 2 * Abs(s') < 4
  {
    SmallOddSizes();
    var g;
    g, s, t := GcdExtOf(1, 5);
    GcdIntro(1, 1, 5, 1, 5, 1, 0);
    GcdUnique(g, 1, 1, 5);
    g, s', t' := GcdExtOf(4, 5);
    GcdIntro(1, 4, 5, 4, 5, -1, 1);
    GcdUnique(g, 1, 4, 5);
  }

  lemma SmallOddSizes()
    ensures OddSize(1) == OddSize(5) == OddSize(4) == 1
  {
    assert Pow2(0) == 1 && Pow2(2) == 4;
    assert Shr(1, Lsb(1)) == 1 && Shr(5, Lsb(5)) == 5;
    assert Lsb(4) == 2 && Shr(4, 2) == 1;
    OneLimb(1);
    OneLimb(5);
  }

  lemma ZeroArgument(a: int)
    ensures IsGcd(Abs(a), a, 0)
  {
    GcdWithZero(a);
  }

  lemma SignCofactors(u: int, v: int, s: int, t: int)
    ensures (if u < 0 then -s else s) * u == s * Abs(u)
    ensures (if v < 0 then -t else t) * v == t * Abs(v)
  {
  }
}
