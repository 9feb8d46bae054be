/** Fermat's little theorem, by the binomial theorem. */
module Fermat {
  import opened Arith
  import opened Divisibility

  ghost predicate IsPrime(p: nat) {
    p > 1 && forall d: int :: 1 < d < p ==> !Divides(d, p)
  }

  /** A prime that divides a product divides a factor: here one factor is smaller than the prime. */
  lemma EuclidsLemma(p: nat, a: nat, b: int)
    requires IsPrime(p) && 0 < a < p && Divides(p, a * b)
    ensures Divides(p, b)
  {
    var g := GcdExists(a, p);
    var k, l, x, y := GcdElim(g, a, p);
    DividesIntro(g, p, l);
    DividesIntro(g, a, k);
    DividesBound(g, a);
    if g == 0 {
      MulCommutes(k, g);
    }
    assert g == 1;
    var m := DividesElim(p, a * b);
    Distribute(x * a, y * p, b);
    BezoutTimes(p, a, b, x, y, m);
    DividesIntro(p, b, x * m + y * b);
  }

  lemma BezoutTimes(p: int, a: int, b: int, x: int, y: int, m: int)
    requires a * b == m * p && x * a + y * p == 1
    ensures b == (x * m + y * b) * p
  {
    Distribute(x * a, y * p, b);
    MulAssoc(x, a, b);
    MulAssoc(x, m, p);
    Distribute(x * m, y * b, p);
    MulAssoc(y, p, b);
    MulAssoc(y, b, p);
    MulCommutes(b, p);
  }

  // ---- binomial coefficients ----

  function Choose(n: nat, k: nat): nat {
    if k == 0 then 1 else if n == 0 then 0 else Choose(n - 1, k - 1) + Choose(n - 1, k)
  }

  lemma {:induction false} ChooseBeyond(n: nat, k: nat)
    requires k > n
    ensures Choose(n, k) == 0
  {
    if n > 0 {
      ChooseBeyond(n - 1, k - 1);
      ChooseBeyond(n - 1, k);
    }
  }

  lemma {:induction false} ChooseAll(n: nat)
    ensures Choose(n, n) == 1
  {
    if n > 0 {
      ChooseAll(n - 1);
      ChooseBeyond(n - 1, n);
    }
  }

  /** k C(n, k) = n C(n - 1, k - 1). */
  lemma {:induction false} ChooseAbsorbs(n: nat, k: nat)
    ensures (k + 1) * Choose(n + 1, k + 1) == (n + 1) * Choose(n, k)
  {
    if n == 0 {
      if k == 0 {
        assert Choose(1, 1) == 1;
      } else {
        ChooseBeyond(1, k + 1);
        ChooseBeyond(0, k);
        MulCommutes(k + 1, 0);
      }
    } else {
      ChooseAbsorbs(n - 1, k);
      if k > 0 {
        ChooseAbsorbs(n - 1, k - 1);
        AbsorbInts(n, k, Choose(n + 1, k + 1), Choose(n, k), Choose(n, k + 1), Choose(n - 1, k), Choose(n - 1, k - 1));
      }
    }
  }

  lemma AbsorbInts(n: int, k: int, c: int, c1: int, c2: int, d1: int, d2: int)
    requires c == c1 + c2 && c1 == d2 + d1 && (k + 1) * c2 == n * d1 && k * c1 == n * d2
    ensures (k + 1) * c == (n + 1) * c1
  {
    Distribute(c1, c2, k + 1);
    Distribute(k, 1, c1);
    Distribute(d2, d1, n);
    Distribute(n, 1, c1);
  }

  /** The sum of C(n, k) x^k for k < m. */
  function BinomialSum(n: nat, x: int, m: nat): int {
    if m == 0 then 0 else BinomialSum(n, x, m - 1) + Choose(n, m - 1) * Pow(x, m - 1)
  }

  /** Pascal's rule on sums. */
  lemma {:induction false} BinomialStep(n: nat, x: int, m: nat)
    ensures BinomialSum(n + 1, x, m + 1) == BinomialSum(n, x, m + 1) + x * BinomialSum(n, x, m)
  {
    if m == 0 {
      assert BinomialSum(n + 1, x, 1) == BinomialSum(n + 1, x, 0) + 1 * Pow(x, 0);
      assert BinomialSum(n, x, 1) == BinomialSum(n, x, 0) + 1 * Pow(x, 0);
    } else {
      BinomialStep(n, x, m - 1);
      var c, d := Choose(n, m - 1), Choose(n, m);
      Distribute(c, d, Pow(x, m));
      Distribute(BinomialSum(n, x, m - 1), c * Pow(x, m - 1), x);
      MulSwapFactor(c, x, Pow(x, m - 1));
    }
  }

  lemma MulSwapFactor(c: int, x: int, p: int)
    ensures c * (x * p) == x * (c * p)
  {
  }

  lemma {:induction false} BinomialTheorem(n: nat, x: int)
    ensures Pow(x + 1, n) == BinomialSum(n, x, n + 1)
  {
    if n == 0 {
      assert BinomialSum(0, x, 1) == BinomialSum(0, x, 0) + Choose(0, 0) * Pow(x, 0);
    } else {
      BinomialTheorem(n - 1, x);
      BinomialStep(n - 1, x, n);
      ChooseBeyond(n - 1, n);
      assert BinomialSum(n - 1, x, n + 1) == BinomialSum(n - 1, x, n) + 0 * Pow(x, n);
      Distribute(x, 1, Pow(x + 1, n - 1));
    }
  }

  // ---- Fermat ----

  /** A prime divides its inner binomial coefficients. */
  lemma PrimeDividesChoose(p: nat, k: nat)
    requires IsPrime(p) && 0 < k < p
    ensures Divides(p, Choose(p, k))
  {
    ChooseAbsorbs(p - 1, k - 1);
    MulCommutes(p, Choose(p - 1, k - 1));
    DividesIntro(p, k * Choose(p, k), Choose(p - 1, k - 1));
    EuclidsLemma(p, k, Choose(p, k));
  }

  lemma {:induction false} InnerTermsVanish(p: nat, x: int, m: nat)
    requires IsPrime(p) && 1 <= m <= p
    ensures Cong(BinomialSum(p, x, m), 1, p)
  {
    if m == 1 {
      assert BinomialSum(p, x, 1) == BinomialSum(p, x, 0) + 1 * Pow(x, 0);
    } else {
      InnerTermsVanish(p, x, m - 1);
      PrimeDividesChoose(p, m - 1);
      var k := DividesElim(p, Choose(p, m - 1));
      MulAssoc(k, p, Pow(x, m - 1));
      MulCommutes(p, Pow(x, m - 1));
      MulAssoc(k, Pow(x, m - 1), p);
      CongIntro(Choose(p, m - 1) * Pow(x, m - 1), 0, p, k * Pow(x, m - 1));
      CongAdd(BinomialSum(p, x, m - 1), 1, Choose(p, m - 1) * Pow(x, m - 1), 0, p);
    }
  }

  /** (x + 1)^p = x^p + 1 modulo p. */
  lemma Freshman(p: nat, x: int)
    requires IsPrime(p)
    ensures Cong(Pow(x + 1, p), Pow(x, p) + 1, p)
  {
    BinomialTheorem(p, x);
    InnerTermsVanish(p, x, p);
    ChooseAll(p);
    assert BinomialSum(p, x, p + 1) == BinomialSum(p, x, p) + 1 * Pow(x, p);
    CongAdd(BinomialSum(p, x, p), 1, Pow(x, p), Pow(x, p), p);
  }

  /** x^p = x modulo a prime p. */
  lemma {:induction false} FermatsTheorem(p: nat, x: nat)
    requires IsPrime(p)
    ensures Cong(Pow(x, p), x, p)
  {
    if x == 0 {
      assert Pow(0, p) == 0 * Pow(0, p - 1);
    } else {
      FermatsTheorem(p, x - 1);
      Freshman(p, x - 1);
      CongAdd(Pow(x - 1, p), x - 1, 1, 1, p);
      CongTrans(Pow(x, p), Pow(x - 1, p) + 1, x, p);
    }
  }
}
