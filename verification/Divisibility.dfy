/** Divisors and greatest common divisors, the latter with Bezout coefficients. */
module Divisibility {
  import opened Arith

  predicate Divides(d: int, a: int) {
    if d == 0 then a == 0 else if d > 0 then a % d == 0 else a % -d == 0
  }

  lemma DividesIntro(d: int, a: int, k: int)
    requires a == k * d
    ensures Divides(d, a)
  {
    if d > 0 {
      DivModUnique(a, d, k, 0);
    } else if d < 0 {
      assert a == -k * -d;
      DivModUnique(a, -d, -k, 0);
    }
  }

  lemma DividesElim(d: int, a: int) returns (k: int)
    requires Divides(d, a)
    ensures a == k * d
  {
    if d == 0 {
      k := 0;
    } else if d > 0 {
      DivMod(a, d);
      k := a / d;
    } else {
      DivMod(a, -d);
      k := -(a / -d);
    }
  }

  function Combo(x: int, y: int, a: int, b: int): int {
    x * a + y * b
  }

  lemma DividesCombo(d: int, a: int, b: int, x: int, y: int)
    requires Divides(d, a) && Divides(d, b)
    ensures Divides(d, Combo(x, y, a, b))
  {
    var k := DividesElim(d, a);
    var l := DividesElim(d, b);
    assert x * (k * d) + y * (l * d) == (x * k + y * l) * d;
    DividesIntro(d, Combo(x, y, a, b), x * k + y * l);
  }

  /** A divisor of a positive number is at most that number. */
  lemma DividesBound(d: int, a: int)
    requires Divides(d, a) && a > 0
    ensures d <= a
  {
    var k := DividesElim(d, a);
    if d > a {
      if k >= 1 {
        MulMonotone(d, 1, k);
      } else {
        MulMonotone(d, k, 0);
      }
    }
  }

  /** A non-negative common divisor that is a combination: the greatest common divisor. */
  ghost predicate IsGcd(g: int, a: int, b: int) {
    g >= 0 && Divides(g, a) && Divides(g, b) && exists x, y :: Combo(x, y, a, b) == g
  }

  /** Every common divisor divides the greatest one. */
  lemma GcdGreatest(g: int, a: int, b: int, d: int)
    requires IsGcd(g, a, b) && Divides(d, a) && Divides(d, b)
    ensures Divides(d, g)
  {
    var x, y :| Combo(x, y, a, b) == g;
    DividesCombo(d, a, b, x, y);
  }

  lemma GcdUnique(g: int, h: int, a: int, b: int)
    requires IsGcd(g, a, b) && IsGcd(h, a, b)
    ensures g == h
  {
    GcdGreatest(g, a, b, h);
    GcdGreatest(h, a, b, g);
    if g > 0 && h > 0 {
      DividesBound(g, h);
      DividesBound(h, g);
    }
  }

  lemma GcdIntro(g: int, a: int, b: int, k: int, l: int, x: int, y: int)
    requires g >= 0 && a == k * g && b == l * g && x * a + y * b == g
    ensures IsGcd(g, a, b)
  {
    DividesIntro(g, a, k);
    DividesIntro(g, b, l);
    assert Combo(x, y, a, b) == g;
  }

  lemma GcdElim(g: int, a: int, b: int) returns (k: int, l: int, x: int, y: int)
    requires IsGcd(g, a, b)
    ensures g >= 0 && a == k * g && b == l * g && x * a + y * b == g
  {
    k := DividesElim(g, a);
    l := DividesElim(g, b);
    var x0, y0 :| Combo(x0, y0, a, b) == g;
    x, y := x0, y0;
  }

  lemma {:induction false} GcdExists(a: nat, b: nat) returns (g: int)
    ensures IsGcd(g, a, b)
    decreases b
  {
    if b == 0 {
      g := a;
      GcdIntro(a, a, 0, 1, 0, 1, 0);
    } else {
      DivMod(a, b);
      g := GcdExists(b, a % b);
      GcdEuclid(g, a, b, a / b, a % b);
    }
  }

  lemma GcdEuclid(g: int, a: int, b: int, q: int, r: int)
    requires a == q * b + r && IsGcd(g, b, r)
    ensures IsGcd(g, a, b)
  {
    var k, l, x, y := GcdElim(g, b, r);
    assert a == (q * k + l) * g by { assert q * (k * g) + l * g == (q * k + l) * g; }
    assert y * a + (x - q * y) * b == x * b + y * r by { EuclidInts(a, b, q, r, x, y); }
    GcdIntro(g, a, b, q * k + l, k, y, x - q * y);
  }

  lemma EuclidInts(a: int, b: int, q: int, r: int, x: int, y: int)
    requires a == q * b + r
    ensures y * a + (x - q * y) * b == x * b + y * r
  {
  }

  lemma GcdSwap(g: int, a: int, b: int)
    requires IsGcd(g, a, b)
    ensures IsGcd(g, b, a)
  {
    var k, l, x, y := GcdElim(g, a, b);
    GcdIntro(g, b, a, l, k, y, x);
  }

  lemma GcdNegate(g: int, a: int, b: int)
    requires IsGcd(g, a, b)
    ensures IsGcd(g, -a, b)
  {
    var k, l, x, y := GcdElim(g, a, b);
    assert -k * g == -(k * g) && -x * -a == x * a;
    GcdIntro(g, -a, b, -k, l, -x, y);
  }

  /** Subtracting one argument from the other keeps the gcd. */
  lemma GcdSubtract(g: int, a: int, b: int)
    requires IsGcd(g, a, b)
    ensures IsGcd(g, a - b, b)
  {
    var k, l, x, y := GcdElim(g, a, b);
    Distribute(k, l, g);
    assert x * (a - b) + (x + y) * b == x * a + y * b;
    GcdIntro(g, a - b, b, k - l, l, x, x + y);
  }

  lemma ParityProduct(k: int, g: int)
    ensures k * g % 2 == 1 <==> k % 2 == 1 && g % 2 == 1
  {
    var m, r, n, s := k / 2, k % 2, g / 2, g % 2;
    assert (2 * m + r) * (2 * n + s) == 2 * (2 * (m * n) + m * s + r * n) + r * s;
    assert k == 2 * m + r && g == 2 * n + s;
    assert r * s == if r == 1 && s == 1 then 1 else 0;
  }

  lemma OddFactors(a: int, k: int, g: int)
    requires a == k * g && a % 2 == 1
    ensures k % 2 == 1 && g % 2 == 1
  {
    ParityProduct(k, g);
  }

  lemma OddDividesHalf(a: int, k: int, g: int)
    requires 2 * a == k * g && g % 2 == 1
    ensures k % 2 == 0 && a == k / 2 * g
  {
    ParityProduct(k, g);
    HalveProduct(a, k / 2, g);
  }

  lemma HalveProduct(a: int, h: int, g: int)
    ensures 2 * a == 2 * h * g ==> a == h * g
  {
    MulAssoc(2, h, g);
  }

  /** Against an odd number a factor of two does not count. */
  lemma GcdHalve(g: int, a: int, b: int)
    requires IsGcd(g, 2 * a, b) && b % 2 == 1
    ensures IsGcd(g, a, b)
  {
    var k, l, x, y := GcdElim(g, 2 * a, b);
    OddFactors(b, l, g);
    OddDividesHalf(a, k, g);
    assert x * (2 * a) == 2 * x * a;
    GcdIntro(g, a, b, k / 2, l, 2 * x, y);
  }

  lemma GcdDouble(g: int, a: int, b: int)
    requires IsGcd(g, a, b) && b % 2 == 1
    ensures IsGcd(g, 2 * a, b)
  {
    var k, l, x, y := GcdElim(g, a, b);
    MulAssoc(2, k, g);
    var x', y' := EvenCoefficient(x, y, a, b);
    GcdIntro(g, 2 * a, b, 2 * k, l, x', y');
  }

  /** Bezout coefficients for 2a and an odd b from those for a and b. */
  lemma EvenCoefficient(x: int, y: int, a: int, b: int) returns (x': int, y': int)
    requires b % 2 == 1
    ensures x' * (2 * a) + y' * b == x * a + y * b
  {
    if x % 2 == 0 {
      x', y' := x / 2, y;
      DoubleInts(x, y, x', a, 0);
    } else {
      x', y' := (x + b) / 2, y - a;
      DoubleInts(x, y, x', a, b);
    }
  }

  lemma DoubleInts(x: int, y: int, x': int, a: int, b: int)
    requires 2 * x' == x + b
    ensures x' * (2 * a) + (y - a) * b == x * a + y * b
    ensures x' * (2 * a) == x * a + b * a
  {
    assert x' * (2 * a) == (2 * x') * a;
    assert (x + b) * a == x * a + b * a;
  }

  /** A common factor scales the gcd. */
  lemma GcdScale(g: int, a: int, b: int, c: int)
    requires IsGcd(g, a, b) && c >= 0
    ensures IsGcd(c * g, c * a, c * b)
  {
    var k, l, x, y := GcdElim(g, a, b);
    assert c * a == k * (c * g) && c * b == l * (c * g) by { assert c * (k * g) == k * (c * g); assert c * (l * g) == l * (c * g); }
    assert x * (c * a) + y * (c * b) == c * g by { assert x * (c * a) == c * (x * a); assert y * (c * b) == c * (y * b); Distribute(x * a, y * b, c); }
    assert c * g >= 0;
    GcdIntro(c * g, c * a, c * b, k, l, x, y);
  }

  lemma {:induction false} GcdDoubles(g: int, a: int, b: int, m: nat)
    requires IsGcd(g, a, b) && b % 2 == 1
    ensures IsGcd(g, Pow2(m) * a, b)
  {
    if m > 0 {
      GcdDoubles(g, a, b, m - 1);
      GcdDouble(g, Pow2(m - 1) * a, b);
      assert Pow2(m) * a == 2 * (Pow2(m - 1) * a);
    } else {
      assert Pow2(0) * a == a;
    }
  }

  lemma {:induction false} GcdHalves(g: int, a: int, b: int, m: nat)
    requires IsGcd(g, Pow2(m) * a, b) && b % 2 == 1
    ensures IsGcd(g, a, b)
  {
    if m > 0 {
      assert Pow2(m) * a == 2 * (Pow2(m - 1) * a);
      GcdHalve(g, Pow2(m - 1) * a, b);
      GcdHalves(g, a, b, m - 1);
    } else {
      assert Pow2(0) * a == a;
    }
  }

  lemma GcdOfEqual(g: int, a: nat)
    requires IsGcd(g, a, a)
    ensures g == a
  {
    GcdIntro(a, a, a, 1, 1, 1, 0);
    GcdUnique(g, a, a, a);
  }

  /** For odd a and b: gcd(2^i a, 2^j b) = 2^min(i, j) gcd(a, b). */
  lemma GcdOfParts(g: int, a: int, b: int, i: nat, j: nat)
    requires IsGcd(g, a, b) && a % 2 == 1 && b % 2 == 1
    ensures IsGcd(Pow2(if i < j then i else j) * g, Pow2(i) * a, Pow2(j) * b)
  {
    hide IsGcd, Pow2;
    if i < j {
      GcdSwap(g, a, b);
      GcdDoubles(g, b, a, j - i);
      GcdSwap(g, Pow2(j - i) * b, a);
      GcdScale(g, a, Pow2(j - i) * b, Pow2(i));
      PowTwoAdd(i, j - i);
      MulAssoc(Pow2(i), Pow2(j - i), b);
    } else {
      GcdDoubles(g, a, b, i - j);
      GcdScale(g, Pow2(i - j) * a, b, Pow2(j));
      PowTwoAdd(j, i - j);
      MulAssoc(Pow2(j), Pow2(i - j), a);
    }
  }

  predicate NotBothEven(a: int, b: int) {
    a % 2 == 1 || b % 2 == 1
  }

  lemma CoprimeNotBothEven(a: int, b: int)
    requires IsGcd(1, a, b)
    ensures NotBothEven(a, b)
  {
    var k, l, x, y := GcdElim(1, a, b);
    ParityProduct(x, a);
    ParityProduct(y, b);
  }

  // ---- powers of two in a number ----

  /** The number of trailing zero bits; 0 for the number 0. */
  function Lsb(v: nat): nat {
    if v == 0 || v % 2 == 1 then 0 else 1 + Lsb(v / 2)
  }

  lemma {:induction false} LsbSplit(v: nat)
    requires v > 0
    ensures Shr(v, Lsb(v)) % 2 == 1 && v == Pow2(Lsb(v)) * Shr(v, Lsb(v))
  {
    if v % 2 == 1 {
      assert Pow2(0) == 1;
    } else {
      LsbSplit(v / 2);
      var k := Lsb(v / 2);
      assert Pow2(k + 1) == 2 * Pow2(k);
      DivDiv(v, 2, Pow2(k));
      MulAssoc(2, Pow2(k), Shr(v, k + 1));
    }
  }

  lemma OddPart(v: nat)
    requires v > 0
    ensures 0 < Shr(v, Lsb(v)) <= v && Shr(v, Lsb(v)) % 2 == 1
  {
    LsbSplit(v);
    MulMonotone(Shr(v, Lsb(v)), 1, Pow2(Lsb(v)));
  }
}
