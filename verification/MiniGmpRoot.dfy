/** Integer z-th root by Newton iteration. */
module MiniGmpRoot {
  import opened Arith
  import opened Limbs
  import opened MiniGmpMpz
  import opened Wrappers

  datatype Error = NegativeEvenRoot | ZerothRoot

  /** Division truncating towards zero by a positive divisor. */
  function TDiv(x: int, d: int): int
    requires d > 0
  {
    if x >= 0 then x / d else -(-x / d)
  }

  // ---- the Newton step on magnitudes ----

  lemma {:induction false} PowNonNegative(u: nat, e: nat)
    ensures Pow(u, e) >= 0
    ensures u > 0 ==> Pow(u, e) > 0
  {
    if e > 0 {
      PowNonNegative(u, e - 1);
    }
  }

  lemma {:induction false} PowBaseMonotone(u: nat, v: nat, e: nat)
    requires u <= v
    ensures 0 <= Pow(u, e) <= Pow(v, e)
  {
    PowNonNegative(u, e);
    if e > 0 {
      PowBaseMonotone(u, v, e - 1);
      MulMonotone(Pow(u, e - 1), u, v);
      MulMonotone(v, Pow(u, e - 1), Pow(v, e - 1));
    }
  }

  /** floor((floor(a / u^(z-1)) + (z-1) u) / z). */
  function Newton(a: nat, u: nat, z: nat): nat
    requires u > 0 && z > 0
  {
    PowNonNegative(u, z - 1);
    NatQuotient(NatQuotient(a, Pow(u, z - 1)) + u * (z - 1), z)
  }

  function NatQuotient(x: nat, d: nat): nat
    requires d > 0
  {
    x / d
  }

  /** The weighted mean inequality s^z + (z-1) u^z >= z s u^(z-1), by induction on z. */
  lemma {:induction false} MeanInequality(s: nat, u: nat, z: nat)
    requires z > 0
    ensures z * s * Pow(u, z - 1) - (z - 1) * Pow(u, z) <= Pow(s, z)
  {
    if z == 1 {
      assert Pow(u, 0) == 1 && Pow(s, 1) == s * Pow(s, 0);
    } else {
      MeanInequality(s, u, z - 1);
      var k := z - 1;
      PowNonNegative(u, k - 1);
      MeanStep(s, u, k, Pow(u, k - 1), Pow(s, k));
    }
  }

  /** The step from exponent k to k + 1: the gap is k u^(k-1) (s - u)^2. */
  lemma MeanStep(s: nat, u: nat, k: nat, p: nat, q: int)
    requires k * s * p - (k - 1) * (u * p) <= q
    ensures (k + 1) * s * (u * p) - k * (u * (u * p)) <= s * q
  {
    MulMonotone(s, k * s * p - (k - 1) * (u * p), q);
    var gap := k * p * ((s - u) * (s - u));
    assert gap >= 0;
    MeanIdentity(s, u, k, p);
  }

  lemma MeanIdentity(s: int, u: int, k: int, p: int)
    ensures (k * s * p - (k - 1) * (u * p)) * s - ((k + 1) * s * (u * p) - k * (u * (u * p)))
         == k * p * ((s - u) * (s - u))
  {
  }

  /** The iterate never drops below the root. */
  lemma NewtonNotBelow(a: nat, u: nat, z: nat, s: nat)
    requires u > 0 && z > 0 && Pow(s, z) <= a
    ensures Newton(a, u, z) >= s
  {
    PowNonNegative(u, z - 1);
    var p := Pow(u, z - 1);
    var q, m := a / p, z * s - (z - 1) * u;
    MeanInequality(s, u, z);
    DivMod(a, p);
    assert m * p <= a by {
      assert Pow(u, z) == u * p;
      assert m * p == z * s * p - (z - 1) * (u * p) by { Distribute(z * s, (z - 1) * u, p); MulAssoc(z - 1, u, p); }
    }
    Distribute(q, 1, p);
    MulCancelLt(m, q + 1, p);
    RootBelowMean(q, u, z, s);
  }

  lemma RootBelowMean(q: int, u: int, z: int, s: int)
    requires z > 0 && z * s - (z - 1) * u <= q
    ensures (q + u * (z - 1)) / z >= s
  {
    var n := q + u * (z - 1);
    MulCommutes(u, z - 1);
    DivMod(n, z);
    MulCommutes(z, s);
    Distribute(n / z, 1, z);
    MulCancelLt(s, n / z + 1, z);
  }

  /** Above the root the iterate falls strictly. */
  lemma NewtonFalls(a: nat, u: nat, z: nat)
    requires u > 0 && z > 0 && Pow(u, z) > a
    ensures Newton(a, u, z) < u
  {
    PowNonNegative(u, z - 1);
    var p := Pow(u, z - 1);
    DivMod(a, p);
    MulCancelLt(a / p, u, p);
    var n := a / p + u * (z - 1);
    DivMod(n, z);
    assert n < u * z by { Distribute(z, 1, u); }
    MulCancelLt(n / z, u, z);
  }

  /** Every number whose z-th power is at most a lies at or below t. */
  ghost predicate AboveRoot(a: nat, z: nat, t: nat) {
    forall s: nat :: Pow(s, z) <= a ==> s <= t
  }

  lemma StartPower(a: nat, z: nat)
    requires z > 0
    ensures Pow(Pow2(BitLen(a) / z + 1), z) > a
  {
    hide BitLen;
    BitLenBounds(a);
    var l, q := BitLen(a), BitLen(a) / z;
    DivMod(l, z);
    Distribute(q, 1, z);
    PowPow(2, q + 1, z);
    Pow2Monotone(l, (q + 1) * z);
  }

  lemma StartAboveRoot(a: nat, z: nat)
    requires z > 0
    ensures AboveRoot(a, z, Pow2(BitLen(a) / z + 1))
  {
    hide BitLen, Pow2, Pow;
    StartPower(a, z);
    var t := Pow2(BitLen(a) / z + 1);
    forall s: nat | Pow(s, z) <= a
      ensures s <= t
    {
      if s > t {
        PowBaseMonotone(t, s, z);
      }
    }
  }

  lemma StepAboveRoot(a: nat, z: nat, u: nat)
    requires u > 0 && z > 0
    ensures AboveRoot(a, z, Newton(a, u, z))
  {
    hide Newton;
    forall s: nat | Pow(s, z) <= a
      ensures s <= Newton(a, u, z)
    {
      NewtonNotBelow(a, u, z, s);
    }
  }

  lemma RootPositive(a: nat, z: nat, t: nat)
    requires a > 0 && AboveRoot(a, z, t)
    ensures t > 0
  {
    PowOne(z);
  }

  /** Where the iterate stops falling lies the floor root. */
  lemma StopsAtRoot(a: nat, z: nat, u: nat)
    requires u > 0 && z > 0 && AboveRoot(a, z, u) && Newton(a, u, z) >= u
    ensures Pow(u, z) <= a < Pow(u + 1, z)
  {
    if Pow(u, z) > a {
      NewtonFalls(a, u, z);
    }
  }

  // ---- the signed iteration ----

  /** One pass of the signed loop mirrors the step on magnitudes. */
  lemma SignedStep(y: int, u: int, z: nat)
    requires z > 0 && u != 0 && (y < 0 ==> z % 2 == 1)
    requires (y < 0 ==> u < 0) && (y >= 0 ==> u > 0)
    ensures Pow(u, z - 1) > 0
    ensures TDiv(TDiv(y, Pow(u, z - 1)) + u * (z - 1), z)
         == if y < 0 then -(Newton(Abs(y), Abs(u), z) as int) else Newton(Abs(y), Abs(u), z)
  {
    hide Pow;
    var m := Abs(u);
    PowNonNegative(m, z - 1);
    PowNegated(m, z - 1);
    var p := Pow(m, z - 1);
    assert Pow(u, z - 1) == p;
    var q := NatQuotient(Abs(y), p);
    assert TDiv(y, p) == if y < 0 then -(q as int) else q;
    if y < 0 {
      assert u * (z - 1) == -(m * (z - 1));
    }
    assert q + m * (z - 1) >= 0;
  }

  /** x = truncated z-th root of y and r = y - x^z. */
  method RootRemOf(y: int, z: nat) returns (res: Result<(int, int), Error>)
    ensures y < 0 && z % 2 == 0 <==> res == Err(NegativeEvenRoot)
    ensures y >= 0 && z == 0 <==> res == Err(ZerothRoot)
    ensures res.Ok? ==> IsRoot(res.value.0, res.value.1, y, z)
  {
    hide Newton, AboveRoot, Pow2, BitLen, Pow, TDiv;
    if y < 0 && z % 2 == 0 {
      return Err(NegativeEvenRoot);
    }
    if z == 0 {
      return Err(ZerothRoot);
    }
    if Abs(y) <= 1 {
      TrivialRoot(y, z);
      return Ok((y, 0));
    }
    ghost var a := Abs(y);
    StartAboveRoot(a, z);
    var t: int := Pow2(BitLen(Abs(y)) / z + 1);
    var u := t;
    if z == 2 {
      while true
        invariant t > 0 && AboveRoot(a, z, t)
        decreases t
      {
        u := t;
        SignedStep(y, u, z);
        StepAboveRoot(a, z, u);
        RootPositive(a, z, Newton(a, u, z));
        SquareCase(y, u);
        t := TDiv(y, u);
        t := t + u;
        t := t / 2;
        if t >= u {
          break;
        }
      }
    } else {
      if y < 0 {
        t := -t;
      }
      while true
        invariant t != 0 && (t < 0 <==> y < 0) && AboveRoot(a, z, Abs(t))
        decreases Abs(t)
      {
        u := t;
        SignedStep(y, u, z);
        StepAboveRoot(a, z, Abs(u));
        RootPositive(a, z, Newton(a, Abs(u), z));
        t := Pow(u, z - 1);
        t := TDiv(y, t);
        var v := u * (z - 1);
        t := t + v;
        t := TDiv(t, z);
        if Abs(t) >= Abs(u) {
          break;
        }
      }
    }
    StopsAtRoot(a, z, Abs(u));
    return Ok((u, y - Pow(u, z)));
  }

  /** x is the z-th root of y without its fraction and r what is left. */
  ghost predicate IsRoot(x: int, r: int, y: int, z: nat) {
    && r == y - Pow(x, z)
    && (y >= 0 ==> x >= 0 && Pow(x, z) <= y < Pow(x + 1, z))
    && (y < 0 ==> x <= 0 && Pow(-x, z) <= -y < Pow(-x + 1, z))
  }

  /** mpz_rootrem: either output may be missing, and both may be y. */
  method RootRem(x: Mpz?, r: Mpz?, y: Mpz, z: nat) returns (error: Option<Error>, ghost xv: int, ghost rv: int)
    requires y.Valid() && (x != null ==> x.Valid()) && (r != null ==> r.Valid()) && Apart(x, y) && Apart(r, y) && Beside(x, r)
    modifies Footprint(x), Footprint(r)
    ensures error == if old(y.Value()) < 0 && z % 2 == 0 then Some(NegativeEvenRoot) else if z == 0 then Some(ZerothRoot) else None
    ensures error.None? ==> IsRoot(xv, rv, old(y.Value()), z)
    ensures error.None? && x != null ==> x.Valid() && x.Value() == xv
    ensures error.None? && r != null ==> r.Valid() && r.Value() == rv
  {
    hide Val, Pow;
    xv, rv := 0, 0;
    var n := Number(y);
    var res := RootRemOf(n, z);
    match res
    case Err(NegativeEvenRoot) =>
      return Some(NegativeEvenRoot), 0, 0;
    case Err(ZerothRoot) =>
      return Some(ZerothRoot), 0, 0;
    case Ok((root, rest)) =>
      StoreBoth(x, r, root, rest);
      return None, root, rest;
  }

  method StoreBoth(x: Mpz?, r: Mpz?, root: int, rest: int)
    requires (x != null ==> x.Valid()) && (r != null ==> r.Valid()) && Beside(x, r)
    modifies Footprint(x), Footprint(r)
    ensures x != null ==> x.Valid() && x.Value() == root
    ensures r != null ==> r.Valid() && r.Value() == rest
  {
    hide Val;
    if r != null {
      SetNumber(r, rest);
    }
    if x != null {
      SetNumber(x, root);
    }
  }

  lemma SquareCase(y: int, u: int)
    requires u > 0 && y >= 0
    ensures Pow(u, 1) == u && TDiv(y, u) >= 0
    ensures TDiv(TDiv(y, Pow(u, 1)) + u * 1, 2) == (TDiv(y, u) + u) / 2
  {
    assert Pow(u, 1) == u * Pow(u, 0);
    DivMod(y, u);
    if y / u < 0 {
      MulMonotone(u, y / u, -1);
    }
  }

  lemma TrivialRoot(y: int, z: nat)
    requires Abs(y) <= 1 && z > 0 && (y < 0 ==> z % 2 == 1)
    ensures Pow(y, z) == y
    ensures y >= 0 ==> y < Pow(y + 1, z)
    ensures y < 0 ==> Pow(-y, z) == -y && -y < Pow(-y + 1, z)
  {
    PowOne(z);
    PowGrows(2, z);
    PowNegated(1, z);
    assert Pow(0, z) == 0 * Pow(0, z - 1);
  }
}
