/** Limbs of a symbolic width and the number a limb sequence denotes. */
module Limbs {
  import opened Arith

  /** log2 of the limb width; the two builds of the library use 5 and 6. */
  type LimbLog = w: nat | 3 <= w witness 5
  const LOG_BITS: LimbLog

  /** Bits in half a limb, and in a limb. */
  const HALF_BITS: nat := Pow2(LOG_BITS - 1)
  const LIMB_BITS: nat := 2 * HALF_BITS

  /** The half-limb base b and the limb base B = b * b. */
  const HALF: nat := Pow2(HALF_BITS)
  const BASE: nat := Pow2(LIMB_BITS)

  lemma BaseFacts()
    ensures HALF_BITS >= 4 && LIMB_BITS == Pow2(LOG_BITS)
    ensures BASE == HALF * HALF
    ensures HALF >= 16 && HALF % 16 == 0 && BASE >= 256
    ensures BASE % 16 == 0
  {
    PowMonotone(2, 2, LOG_BITS - 1);
    assert Pow(2, 2) == 4;
    PowAdd(2, HALF_BITS, HALF_BITS);
    PowAdd(2, HALF_BITS - 4, 4);
    assert Pow(2, 4) == 16;
    PowPos(2, HALF_BITS - 4);
    var h := Pow(2, HALF_BITS - 4);
    DivModUnique(HALF, 16, h, 0);
    MulMonotone(HALF, 16, HALF);
    MulAssoc(h, 16, HALF);
    assert BASE == (h * HALF) * 16;
    DivModUnique(BASE, 16, h * HALF, 0);
  }

  lemma BasePos()
    ensures BASE > 0
  {
    BaseFacts();
  }

  type limb = x: nat | 0 <= x < BASE witness (BasePos(); 0)

  /** B^i. */
  function Pb(i: nat): (r: nat)
    ensures r > 0
  {
    BasePos();
    PowPos(BASE, i);
    Pow(BASE, i)
  }

  lemma PbPositive(i: nat)
    ensures Pb(i) > 0
  {
  }

  lemma PbStep(i: nat)
    ensures Pb(i + 1) == BASE * Pb(i)
    ensures Pb(0) == 1
  {
  }

  lemma PbAdd(i: nat, j: nat)
    ensures Pb(i + j) == Pb(i) * Pb(j)
  {
    PowAdd(BASE, i, j);
  }

  /** Little-endian value. */
  function Val(s: seq<limb>): nat {
    if s == [] then 0
    else Val(s[..|s| - 1]) + s[|s| - 1] * Pb(|s| - 1)
  }

  lemma ValSnoc(s: seq<limb>, x: limb)
    ensures Val(s + [x]) == Val(s) + x * Pb(|s|)
  {
    assert (s + [x])[..|s|] == s;
  }

  /** Taking one more limb of a prefix. */
  lemma ValStep(s: seq<limb>, i: nat)
    requires i < |s|
    ensures Val(s[..i + 1]) == Val(s[..i]) + s[i] * Pb(i)
  {
    assert s[..i + 1][..i] == s[..i];
  }

  lemma {:induction false} ValAppend(s: seq<limb>, t: seq<limb>)
    ensures Val(s + t) == Val(s) + Pb(|s|) * Val(t)
  {
    if t == [] {
      assert s + t == s;
    } else {
      var t', x := t[..|t| - 1], t[|t| - 1];
      ValAppend(s, t');
      assert s + t == (s + t') + [x];
      ValSnoc(s + t', x);
      PbAdd(|s|, |t'|);
      Distribute(Val(t'), x * Pb(|t'|), Pb(|s|));
      assert x * (Pb(|s|) * Pb(|t'|)) == Pb(|s|) * (x * Pb(|t'|)) by {
        MulAssoc(x, Pb(|s|), Pb(|t'|));
        MulAssoc(Pb(|s|), x, Pb(|t'|));
      }
    }
  }

  lemma ValSplit(s: seq<limb>, i: nat)
    requires i <= |s|
    ensures Val(s) == Val(s[..i]) + Pb(i) * Val(s[i..])
  {
    assert s == s[..i] + s[i..];
    ValAppend(s[..i], s[i..]);
  }

  lemma {:induction false} ValBound(s: seq<limb>)
    ensures Val(s) < Pb(|s|)
  {
    if s != [] {
      var n := |s| - 1;
      ValBound(s[..n]);
      MulMonotone(Pb(n), s[n], BASE - 1);
      Distribute(BASE, 1, Pb(n));
      PbStep(n);
    }
  }

  lemma ValHead(s: seq<limb>)
    requires s != []
    ensures Val(s) == s[0] + BASE * Val(s[1..])
  {
    ValSplit(s, 1);
    assert s[..1] == [s[0]];
    assert Val([s[0]]) == s[0] * Pb(0) by { ValSnoc([], s[0]); assert [] + [s[0]] == [s[0]]; }
    PbStep(0);
  }

  lemma {:induction false} ValZeros(s: seq<limb>)
    requires forall i :: 0 <= i < |s| ==> s[i] == 0
    ensures Val(s) == 0
  {
    if s != [] {
      ValZeros(s[..|s| - 1]);
    }
  }

  lemma {:induction false} ValZeroIff(s: seq<limb>)
    ensures Val(s) == 0 <==> forall i :: 0 <= i < |s| ==> s[i] == 0
  {
    if s != [] {
      var n := |s| - 1;
      ValZeroIff(s[..n]);
      if s[n] > 0 {
        MulMonotone(Pb(n), 1, s[n]);
      }
      assert forall i :: 0 <= i < n ==> s[..n][i] == s[i];
    }
  }

  /** Appending or dropping zero high limbs keeps the value. */
  lemma ValTrim(s: seq<limb>, i: nat)
    requires i <= |s| && forall j :: i <= j < |s| ==> s[j] == 0
    ensures Val(s) == Val(s[..i])
  {
    ValSplit(s, i);
    ValZeros(s[i..]);
  }

  /** Equal-length limb sequences with equal values are equal. */
  lemma {:induction false} ValInjective(s: seq<limb>, t: seq<limb>)
    requires |s| == |t| && Val(s) == Val(t)
    ensures s == t
  {
    if s != [] {
      var n := |s| - 1;
      ValBound(s[..n]);
      ValBound(t[..n]);
      DivModUnique(Val(s), Pb(n), s[n], Val(s[..n]));
      DivModUnique(Val(s), Pb(n), t[n], Val(t[..n]));
      ValInjective(s[..n], t[..n]);
      assert s == s[..n] + [s[n]];
      assert t == t[..n] + [t[n]];
    }
  }

  /** Changing one limb. */
  lemma ValPut(s: seq<limb>, j: nat, x: limb)
    requires j < |s|
    ensures Val(s[j := x]) == Val(s) + (x - s[j]) * Pb(j)
  {
    hide Val, Pb;
    var z := s[j := x];
    ValSplit(s, j + 1);
    ValSplit(z, j + 1);
    ValStep(s, j);
    ValStep(z, j);
    assert z[..j] == s[..j] && z[j + 1..] == s[j + 1..];
    Distribute(x, s[j], Pb(j));
  }

  // ---- the digits of a number, written limb by limb ----

  /** One more digit of rest behind the i written ones. */
  lemma DigitPut(s: seq<limb>, i: nat, rest: nat, v: nat)
    requires i < |s| && v == Val(s[..i]) + rest * Pb(i)
    ensures BASE > 0 && 0 <= rest % BASE < BASE && rest / BASE >= 0
    ensures v == Val(s[i := rest % BASE][..i + 1]) + rest / BASE * Pb(i + 1)
  {
    hide *;
    BasePos();
    DivMod(rest, BASE);
    SmallQuotient(rest, BASE);
    var d: limb := rest % BASE;
    var z := s[i := d];
    assert z[..i] == s[..i];
    ValStep(z, i);
    PbStep(i);
    NextDigit(Val(s[..i]), rest / BASE, d, Pb(i), BASE);
  }

  lemma SmallQuotient(a: nat, b: nat)
    requires b > 0
    ensures a / b >= 0
  {
  }

  lemma NextDigit(low: int, q: int, d: int, p: int, base: int)
    ensures low + (q * base + d) * p == low + d * p + q * (base * p)
  {
  }

  lemma NoRest(low: nat, rest: nat, p: nat, v: nat)
    requires v == low + rest * p && v < p
    ensures low == v
  {
    if rest > 0 {
      MulMonotone(p, 1, rest);
    }
  }

  // ---- wrap-around ----

  lemma BaseIsPow2()
    ensures BASE == Pow2(LIMB_BITS)
  {
  }

  lemma PbIsPow2(b: nat)
    ensures Pb(b) == Pow2(b * LIMB_BITS)
  {
    PowPow(2, LIMB_BITS, b);
  }

  // ---- machine words: every result is reduced modulo B ----

  function Wrap(x: int): (r: limb)
  {
    BasePos();
    x % BASE
  }

  lemma WrapIs(x: int, k: int, r: int)
    requires x == k * BASE + r && 0 <= r < BASE
    ensures Wrap(x) == r
  {
    BasePos();
    DivModUnique(x, BASE, k, r);
  }

  /** A wrapped sum, and the comparison that detects its carry. */
  lemma WrapAdd(x: limb, y: limb)
    ensures Wrap(x + y) == if x + y < BASE then x + y else x + y - BASE
    ensures Wrap(x + y) < x <==> x + y >= BASE
    ensures Wrap(x + y) < y <==> x + y >= BASE
  {
    if x + y < BASE {
      WrapIs(x + y, 0, x + y);
    } else {
      WrapIs(x + y, 1, x + y - BASE);
    }
  }

  /** A wrapped difference. */
  lemma WrapSub(x: limb, y: limb)
    ensures Wrap(x - y) == if x >= y then x - y else x - y + BASE
  {
    if x >= y {
      WrapIs(x - y, 0, x - y);
    } else {
      WrapIs(x - y, -1, x - y + BASE);
    }
  }

  lemma WrapCong(x: int)
    ensures BASE > 0 && Cong(Wrap(x), x, BASE)
  {
    BasePos();
    CongMod(x, BASE);
  }

  /** A word shifted left; the high bits are lost. */
  function Shl(x: limb, k: nat): limb {
    Wrap(x * Pow2(k))
  }
}
