/** Signed numbers in memory. */
module MiniGmpMpz {
  import opened Arith
  import opened Limbs
  import opened BignumCore

  /** A signed number: the sign of size is the sign, its magnitude the number of limbs. */
  class Mpz {
    var size: int
    var d: array<limb>

    ghost predicate Valid()
      reads this, d
    {
      && Abs(size) <= d.Length
      && (size != 0 ==> d[Abs(size) - 1] != 0)
    }

    ghost function Magnitude(): seq<limb>
      requires Valid()
      reads this, d
    {
      d[..Abs(size)]
    }

    ghost function Value(): int
      requires Valid()
      reads this, d
    {
      if size < 0 then 0 - Val(Magnitude()) else Val(Magnitude())
    }

    constructor ()
      ensures Valid() && Value() == 0 && fresh(d)
    {
      size := 0;
      d := new limb[0];
      new;
      ValEmpty(d[..0]);
    }

    /** Room for n limbs; the limbs in use stay. */
    method Realloc(n: nat)
      requires Valid()
      modifies this`d
      ensures d == old(d) || fresh(d)
      ensures n <= d.Length && old(d.Length) <= d.Length
      ensures d[..old(d.Length)] == old(d[..])
      ensures Valid() && Magnitude() == old(Magnitude()) && Value() == old(Value())
    {
      hide Val;
      if n > d.Length {
        var e := new limb[if n > 1 then n else 1];
        var i := 0;
        while i < d.Length
          modifies e
          invariant d == old(d) && i <= d.Length <= e.Length && e[..i] == d[..i]
        {
          e[i] := d[i];
          i := i + 1;
        }
        assert e[..d.Length] == d[..];
        ghost var m := Magnitude();
        assert d[..][..Abs(size)] == m;
        assert size != 0 ==> m[Abs(size) - 1] == d[Abs(size) - 1];
        assert e[..d.Length][..Abs(size)] == e[..Abs(size)];
        d := e;
      }
    }

    /** mpz_set. */
    method Set(x: Mpz)
      requires Valid() && x.Valid() && (x != this ==> x.d != d)
      modifies this, d
      ensures Valid() && Value() == old(x.Value())
      ensures x != this ==> x.Valid() && x.Value() == old(x.Value())
      ensures d == old(d) || fresh(d)
    {
      hide Val;
      if x != this {
        var n := Abs(x.size);
        Realloc(n);
        ghost var m := x.Magnitude();
        var rp, xp := d, x.d;
        var i := 0;
        while i < n
          modifies rp
          invariant i <= n && rp[..i] == m[..i] && xp[..n] == m
        {
          rp[i] := xp[i];
          i := i + 1;
        }
        size := x.size;
        assert d[..n] == m;
        assert size != 0 ==> m[n - 1] == x.d[n - 1];
      }
    }
  }

  /** Different objects do not share limbs. */
  ghost predicate Apart(x: Mpz?, y: Mpz?)
    reads x, y
  {
    x != null && y != null && x != y ==> x.d != y.d
  }

  /** Two outputs, if present, are different objects. */
  ghost predicate Beside(x: Mpz?, y: Mpz?)
    reads x, y
  {
    x != null && y != null ==> x != y && x.d != y.d
  }

  /** What a call may change at an output that can be missing. */
  ghost function Footprint(x: Mpz?): set<object?>
    reads x
  {
    if x == null then {} else {x, x.d}
  }

  method Number(x: Mpz) returns (v: int)
    requires x.Valid()
    ensures v == x.Value()
  {
    hide Val;
    v := Signed(x.size < 0, Val(x.d[..Abs(x.size)]));
  }

  /** A magnitude without its lowest limb. */
  function DropLimb(v: nat): (r: nat) {
    BasePos();
    SmallQuotient(v, BASE);
    v / BASE
  }

  lemma DropLimbParts(v: nat)
    ensures DropLimb(v) * BASE <= v < DropLimb(v) * BASE + BASE
    ensures v > 0 ==> DropLimb(v) < v
  {
    BaseFacts();
    DivMod(v, BASE);
    Smaller(DropLimb(v), BASE);
  }

  lemma Smaller(q: nat, b: nat)
    requires b >= 2
    ensures q > 0 ==> q < q * b
  {
    MulMonotone(q, 2, b);
    MulCommutes(q, b);
  }

  /** The limbs of a magnitude. */
  function LimbCount(v: nat): (n: nat) {
    DropLimbParts(v);
    if v == 0 then 0 else 1 + LimbCount(DropLimb(v))
  }

  lemma {:induction false} LimbCountBounds(v: nat)
    ensures v < Pb(LimbCount(v)) && (v > 0 ==> LimbCount(v) > 0 && v >= Pb(LimbCount(v) - 1))
  {
    hide Pb, DropLimb, BASE;
    PbStep(0);
    if v > 0 {
      var q := DropLimb(v);
      DropLimbParts(v);
      LimbCountBounds(q);
      var n := LimbCount(q);
      BasePos();
      PbStep(n);
      MulMonotone(BASE, q + 1, Pb(n));
      Distribute(q, -1, BASE);
      MulCommutes(BASE, Pb(n));
      if q > 0 {
        PbStep(n - 1);
        MulMonotone(BASE, Pb(n - 1), q);
        MulCommutes(BASE, Pb(n - 1));
      } else {
        NoLimbs();
      }
    }
  }

  lemma NoLimbs()
    ensures LimbCount(0) == 0
  {
  }

  lemma OneLimb(v: nat)
    requires 0 < v < 256
    ensures LimbCount(v) == 1
  {
    BaseFacts();
    DivModUnique(v, BASE, 0, v);
  }

  /** The top limb of a number that needs all of its limbs. */
  lemma TopLimbUsed(s: seq<limb>)
    requires s != [] && Val(s) >= Pb(|s| - 1)
    ensures s[|s| - 1] != 0
  {
    hide Val, Pb;
    var n := |s| - 1;
    ValStep(s, n);
    assert s[..n + 1] == s;
    ValBound(s[..n]);
  }

  /** x = v. */
  method SetNumber(x: Mpz, v: int)
    requires x.Valid()
    modifies x, x.d
    ensures x.Valid() && x.Value() == v && (x.d == old(x.d) || fresh(x.d))
  {
    hide Val, Pb, LimbCount;
    var n: nat, rest: nat := LimbCount(Abs(v)), Abs(v);
    LimbCountBounds(rest);
    x.Realloc(n);
    var d := x.d;
    var i: nat := 0;
    ValEmpty(d[..0]);
    PbStep(0);
    while i < n
      invariant i <= n && Abs(v) == Val(d[..i]) + rest * Pb(i)
      modifies d
    {
      BasePos();
      ghost var s := d[..];
      assert s[..i] == d[..i];
      DigitPut(s, i, rest, Abs(v));
      d[i] := rest % BASE;
      assert d[..i + 1] == s[i := rest % BASE][..i + 1];
      rest := rest / BASE;
      i := i + 1;
    }
    NoRest(Val(d[..n]), rest, Pb(n), Abs(v));
    if v != 0 {
      TopLimbUsed(d[..n]);
      assert d[..n][n - 1] == d[n - 1];
    } else {
      NoLimbs();
    }
    x.size := Signed(v < 0, n);
    assert x.d[..n] == d[..n];
  }

  /** Drops zero high limbs. */
  method NormalizedSize(p: array<limb>, n: nat) returns (k: nat)
    requires n <= p.Length
    ensures k <= n && (k > 0 ==> p[k - 1] != 0) && Val(p[..k]) == Val(p[..n])
  {
    hide Val;
    k := n;
    while k > 0 && p[k - 1] == 0
      invariant k <= n && Val(p[..k]) == Val(p[..n])
    {
      k := k - 1;
      ghost var s := p[..k + 1];
      assert s[..k] == p[..k];
      ValTrim(s, k);
    }
  }

  lemma MagnitudePositive(z: Mpz)
    requires z.Valid()
    ensures Val(z.Magnitude()) > 0 <==> z.size != 0
  {
    hide Val;
    var w := z.Magnitude();
    if z.size != 0 {
      assert w[|w| - 1] != 0;
      ValZeroIff(w);
    } else {
      ValEmpty(w);
    }
  }

  lemma ZeroValue(z: Mpz)
    requires z.Valid() && z.size == 0
    ensures z.Value() == 0
  {
    ValEmpty(z.Magnitude());
  }
}
