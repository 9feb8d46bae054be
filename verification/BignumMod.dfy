/** Division and reduction of signed integers: objects, their limbs and the limb limit around the division of magnitudes. */
module BignumMod {
  import opened Arith
  import opened Limbs
  import opened BignumCore
  import opened BignumMpi
  import BignumDiv

  const DIVISION_BY_ZERO := -0xC

  /** How many times b goes into a, and what is left. */
  function Times(a: nat, b: nat): nat
    requires b > 0
  {
    a / b
  }

  function Rest(a: nat, b: nat): nat
    requires b > 0
  {
    a % b
  }

  /** Quotient rounded towards zero, and its remainder, which takes the sign of a. */
  function Quotient(a: int, b: int): int
    requires b != 0
  {
    Signed((a < 0) != (b < 0), Times(Abs(a), Abs(b)))
  }

  function Remainder(a: int, b: int): int
    requires b != 0
  {
    Signed(a < 0, Rest(Abs(a), Abs(b)))
  }

  lemma QuotientAndRemainder(a: int, b: int)
    requires b != 0
    ensures a == Quotient(a, b) * b + Remainder(a, b) && Abs(Remainder(a, b)) < Abs(b)
    ensures Remainder(a, b) != 0 ==> (Remainder(a, b) < 0 <==> a < 0)
  {
    hide Times, Rest;
    DivisionOf(Abs(a), Abs(b));
    SignedParts(Times(Abs(a), Abs(b)), Abs(b), Rest(Abs(a), Abs(b)));
  }

  lemma DivisionOf(a: nat, b: nat)
    requires b > 0
    ensures a == Times(a, b) * b + Rest(a, b) && Rest(a, b) < b
  {
    DivMod(a, b);
  }

  lemma SignedParts(q: int, b: int, r: int)
    ensures 0 - (q * b + r) == (0 - q) * b - r == q * (0 - b) - r && q * b + r == (0 - q) * (0 - b) + r
  {
  }

  /** No other pair is a quotient with such a remainder. */
  lemma QuotientUnique(a: int, b: int, q: int, r: int)
    requires b != 0 && a == q * b + r && Abs(r) < Abs(b) && (r != 0 ==> (r < 0 <==> a < 0))
    ensures q == Quotient(a, b) && r == Remainder(a, b)
  {
    QuotientAndRemainder(a, b);
    var q', r' := Quotient(a, b), Remainder(a, b);
    Distribute(q, q', b);
    SmallMultiple(q - q', b, r' - r);
  }

  lemma SmallMultiple(k: int, b: int, d: int)
    requires b != 0 && k * b == d && Abs(d) < Abs(b)
    ensures k == 0
  {
    if k > 0 {
      MulMonotone(Abs(b), 1, k);
    } else if k < 0 {
      MulMonotone(Abs(b), 1, -k);
    }
  }

  /** A number that fits, in n limbs. */
  method FromNumber(v: nat, n: nat) returns (x: Mpi)
    requires v < Pb(n) && n <= MAX_LIMBS
    ensures fresh(x) && fresh(x.p) && x.Valid() && x.s == 1 && x.Magnitude() == v && x.p.Length == n
  {
    hide *;
    x := new Mpi();
    MpiFacts(x);
    var ret := x.Grow(n);
    var rest: nat, i: nat := v, 0;
    assert x.p[..0] == [];
    ValEmpty(x.p[..0]);
    PbStep(0);
    while i < n
      invariant i <= n && x.p.Length == n
      invariant v == Val(x.p[..i]) + rest * Pb(i)
      modifies x.p
    {
      BasePos();
      ghost var s := x.p[..];
      assert s[..i] == x.p[..i];
      x.p[i] := rest % BASE;
      DigitPut(s, i, rest, v);
      assert x.p[..i + 1] == s[i := rest % BASE][..i + 1];
      rest := rest / BASE;
      i := i + 1;
    }
    assert x.p[..n] == x.p[..];
    NoRest(Val(x.p[..n]), rest, Pb(n), v);
    MagnitudeIs(x);
  }

  lemma MpiFacts(x: Mpi)
    requires x.s == 1 && x.p.Length == 0
    ensures x.Valid()
  {
  }

  lemma MagnitudeIs(x: Mpi)
    ensures x.Magnitude() == Val(x.p[..])
  {
  }

  // ---- division ----

  /** What a call may change at an output that can be missing. */
  ghost function Footprint(x: Mpi?): set<object?>
    reads x
  {
    if x == null then {} else {x, x.p}
  }

  /** The return code for magnitudes a and b and the limbs of the dividend: its temporaries take two limbs more. */
  function DivOutcome(a: nat, b: nat, limbs: nat): int {
    if b == 0 then DIVISION_BY_ZERO else if a >= b && limbs + 2 > MAX_LIMBS then ALLOC_FAILED else 0
  }

  /** mbedtls_mpi_lset with 0. */
  method SetZero(X: Mpi)
    requires X.Valid()
    modifies X, X.p
    ensures X.Valid() && X.Value() == 0 && (X.p == old(X.p) || fresh(X.p))
  {
    hide Val;
    var ret := X.Grow(1);
    X.Clear(0);
    X.s := 1;
    ValZeros(X.p[..]);
  }

  /** Copies a result of n limbs or fewer. */
  method StoreNumber(X: Mpi, v: nat, n: nat, s: int)
    requires X.Valid() && v < Pb(n) && n <= MAX_LIMBS && (s == 1 || s == -1)
    modifies X, X.p
    ensures X.Valid() && X.Value() == Signed(s < 0, v) && (v != 0 ==> X.s == s)
    ensures (X.p == old(X.p) || fresh(X.p)) && old(X.p.Length) <= X.p.Length
  {
    hide Val, Pb, Trimmed;
    var Y := FromNumber(v, n);
    Y.s := s;
    X.Copy(Y);
  }

  lemma NumbersFit(a: seq<limb>, q: nat, r: nat, b: nat)
    requires Val(a) == q * b + r && b > 0 && r < b
    ensures q < Pb(|a|) && r < Pb(|a|)
  {
    ValBound(a);
    MulMonotone(q, 1, b);
    MulCommutes(q, b);
    assert q * b >= 0;
  }

  lemma SignedResults(a: Mpi, b: Mpi, q: nat, r: nat)
    requires a.Valid() && b.Valid() && a.Magnitude() == q * b.Magnitude() + r && r < b.Magnitude() <= a.Magnitude()
    ensures b.Value() != 0 && a.s * b.s == (if (a.s < 0) != (b.s < 0) then -1 else 1)
    ensures Quotient(a.Value(), b.Value()) == Signed(a.s * b.s < 0, q)
    ensures Remainder(a.Value(), b.Value()) == Signed(a.s < 0, r)
  {
    hide Val, Times, Rest;
    TimesIs(a.Magnitude(), b.Magnitude(), q, r);
  }

  lemma TimesIs(a: nat, b: nat, q: nat, r: nat)
    requires a == q * b + r && r < b
    ensures Times(a, b) == q && Rest(a, b) == r
  {
    DivModUnique(a, b, q, r);
  }

  lemma SmallDividend(a: Mpi, b: Mpi)
    requires a.Valid() && b.Valid() && a.Magnitude() < b.Magnitude()
    ensures b.Value() != 0 && Quotient(a.Value(), b.Value()) == 0 && Remainder(a.Value(), b.Value()) == a.Value()
  {
    hide Val, Times, Rest;
    TimesIs(a.Magnitude(), b.Magnitude(), 0, a.Magnitude());
  }

  lemma ZeroValue(b: Mpi)
    ensures b.Value() == 0 <==> b.Magnitude() == 0
  {
    hide Val;
  }

  /** mbedtls_mpi_div_mpi: either output may be missing, and R may be A or B. */
  method DivMpi(Q: Mpi?, R: Mpi?, A: Mpi, B: Mpi) returns (ret: int)
    requires A.Valid() && B.Valid()
    requires Q != null ==> Q.Valid() && Q != A && Q != B && Q.p != A.p && Q.p != B.p
    requires R != null ==> R.Valid() && Apart(R, A) && Apart(R, B)
    requires Q != null && R != null ==> Q != R && Q.p != R.p
    modifies Footprint(Q), Footprint(R)
    ensures ret == DivOutcome(old(A.Magnitude()), old(B.Magnitude()), old(A.p.Length))
    ensures ret == 0 ==> old(B.Value()) != 0
    ensures ret == 0 && Q != null ==> Q.Valid() && Q.Value() == Quotient(old(A.Value()), old(B.Value()))
    ensures ret == 0 && R != null ==> R.Valid() && R.Value() == Remainder(old(A.Value()), old(B.Value()))
    ensures ret == 0 && R != null && old(A.Normal()) && old(R.Normal()) ==> R.Normal()
    ensures Q != null ==> Q.p == old(Q.p) || fresh(Q.p)
    ensures R != null ==> (R.p == old(R.p) || fresh(R.p)) && old(R.p.Length) <= R.p.Length
  {
    hide Val, Pb, Quotient, Remainder, Trimmed;
    var zero := new Mpi();
    var cmp := CmpMpi(B, zero);
    ZeroValue(B);
    if cmp == 0 {
      return DIVISION_BY_ZERO;
    }
    cmp := CmpAbs(A, B);
    if cmp < 0 {
      SmallDividend(A, B);
      if Q != null {
        SetZero(Q);
      }
      if R != null {
        R.Copy(A);
      }
      return 0;
    }
    if A.p.Length + 2 > MAX_LIMBS {
      return ALLOC_FAILED;
    }
    var n, sa, sb := A.p.Length, A.s, B.s;
    var q, r := BignumDiv.DivAbs(Val(A.p[..]), Val(B.p[..]));
    NumbersFit(A.p[..], q, r, Val(B.p[..]));
    SignedResults(A, B, q, r);
    if Q != null {
      StoreNumber(Q, q, n, sa * sb);
    }
    if R != null {
      StoreNumber(R, r, n, sa);
      if r == 0 {
        R.s := 1;
      }
    }
    return 0;
  }

  lemma RemainderInRange(a: int, b: int)
    requires b > 0
    ensures a % b == if Remainder(a, b) < 0 then Remainder(a, b) + b else Remainder(a, b)
  {
    hide Quotient, Remainder;
    QuotientAndRemainder(a, b);
    var q, r := Quotient(a, b), Remainder(a, b);
    if r < 0 {
      Distribute(q, 1, b);
      DivModUnique(a, b, q - 1, r + b);
    } else {
      DivModUnique(a, b, q, r);
    }
  }

  /** The two loops of mod_mpi; the guard of the second is never met. */
  method IntoRange(R: Mpi, B: Mpi) returns (ret: int)
    requires R.Valid() && B.Valid() && R != B && R.p != B.p && B.Value() > 0 && Abs(R.Value()) < B.Value()
    modifies R, R.p
    ensures ret == 0 && R.Valid() && (R.p == old(R.p) || fresh(R.p))
    ensures R.Value() == if old(R.Value()) < 0 then old(R.Value()) + B.Value() else old(R.Value())
    ensures old(R.Normal()) ==> R.Normal()
    ensures old(R.Value()) >= 0 ==> R.p == old(R.p)
  {
    hide Val, Pb;
    var zero := new Mpi();
    ghost var v, b := R.Value(), B.Value();
    ret := 0;
    var cmp := CmpMpi(R, zero);
    while cmp < 0
      invariant R.Valid() && B.Valid() && R != B && R.p != B.p && (R.p == old(R.p) || fresh(R.p))
      invariant ret == 0 && B.Value() == b && cmp == Cmp(R.Value(), 0) && zero.Valid() && zero.Value() == 0 && R != zero && R.p != zero.p
      invariant R.Value() == v || (v < 0 && R.Value() == v + b)
      invariant (old(R.Normal()) ==> R.Normal()) && (v >= 0 ==> R.p == old(R.p))
      decreases cmp < 0
    {
      ret := AddMpi(R, R, B);
      cmp := CmpMpi(R, zero);
    }
    cmp := CmpMpi(R, B);
    assert cmp < 0;
  }

  /** mbedtls_mpi_mod_mpi; R may be A. */
  method ModMpi(R: Mpi, A: Mpi, B: Mpi) returns (ret: int)
    requires R.Valid() && A.Valid() && B.Valid() && Apart(R, A) && R != B && R.p != B.p
    modifies R, R.p
    ensures ret == if B.Value() < 0 then NEGATIVE_VALUE else DivOutcome(old(A.Magnitude()), B.Magnitude(), old(A.p.Length))
    ensures ret == 0 ==> B.Value() > 0 && R.Valid() && R.Value() == old(A.Value()) % B.Value()
    ensures ret == 0 && old(A.Normal()) && old(R.Normal()) ==> R.Normal()
    ensures (R.p == old(R.p) || fresh(R.p)) && (old(A.Value()) >= 0 ==> old(R.p.Length) <= R.p.Length)
  {
    hide Val, Pb, Remainder;
    var zero := new Mpi();
    var cmp := CmpMpi(B, zero);
    if cmp < 0 {
      return NEGATIVE_VALUE;
    }
    ret := DivMpi(null, R, A, B);
    if ret != 0 {
      return;
    }
    QuotientAndRemainder(old(A.Value()), B.Value());
    RemainderInRange(old(A.Value()), B.Value());
    ret := IntoRange(R, B);
  }
}
