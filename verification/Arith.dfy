/** Integer arithmetic shared by the models: powers, quotients, congruences. */
module Arith {

  function Abs(x: int): nat {
    if x < 0 then -x else x
  }

  /** The number with this sign and magnitude. */
  function Signed(negative: bool, m: nat): int {
    if negative then 0 - m else m
  }

  function Pow(b: int, e: nat): int {
    if e == 0 then 1 else b * Pow(b, e - 1)
  }

  lemma {:induction false} PowPos(b: int, e: nat)
    requires b > 0
    ensures Pow(b, e) > 0
  {
    if e > 0 {
      PowPos(b, e - 1);
    }
  }

  /** A power of two, known positive. */
  function Pow2(e: nat): (r: nat)
    ensures r > 0
  {
    PowPos(2, e);
    Pow(2, e)
  }

  lemma {:induction false} PowAdd(b: int, m: nat, n: nat)
    ensures Pow(b, m + n) == Pow(b, m) * Pow(b, n)
  {
    if m > 0 {
      PowAdd(b, m - 1, n);
      MulAssoc(b, Pow(b, m - 1), Pow(b, n));
    }
  }

  lemma {:induction false} PowNegated(a: int, e: nat)
    ensures Pow(-a, e) == if e % 2 == 0 then Pow(a, e) else -Pow(a, e)
  {
    if e > 0 {
      PowNegated(a, e - 1);
    }
  }

  lemma {:induction false} PowDistributes(a: int, b: int, e: nat)
    ensures Pow(a * b, e) == Pow(a, e) * Pow(b, e)
  {
    if e > 0 {
      PowDistributes(a, b, e - 1);
      var x, y := Pow(a, e - 1), Pow(b, e - 1);
      assert a * b * (x * y) == (a * x) * (b * y) by { MulSwap(a, b, x, y); }
    }
  }

  lemma {:induction false} PowPow(a: int, m: nat, n: nat)
    ensures m * n >= 0
    ensures Pow(Pow(a, m), n) == Pow(a, m * n)
  {
    assert m * n >= 0;
    if n > 0 {
      PowPow(a, m, n - 1);
      assert m * n == m + m * (n - 1);
      PowAdd(a, m, m * (n - 1));
    }
  }

  lemma {:induction false} PowOne(e: nat)
    ensures Pow(1, e) == 1
  {
    if e > 0 {
      PowOne(e - 1);
    }
  }

  lemma {:induction false} PowMonotone(b: int, m: nat, n: nat)
    requires b >= 1 && m <= n
    ensures 1 <= Pow(b, m) <= Pow(b, n)
  {
    PowPos(b, m);
    if m < n {
      PowMonotone(b, m, n - 1);
      MulMonotone(Pow(b, n - 1), 1, b);
    }
  }

  lemma Pow2Monotone(m: nat, n: nat)
    requires m <= n
    ensures 1 <= Pow2(m) <= Pow2(n)
  {
    PowMonotone(2, m, n);
  }

  lemma {:induction false} PowGrows(b: int, e: nat)
    requires b >= 2
    ensures Pow(b, e) > e
  {
    if e > 0 {
      PowGrows(b, e - 1);
      MulMonotone(Pow(b, e - 1), 2, b);
    }
  }

  lemma PowTwoAdd(k: nat, m: nat)
    ensures Pow2(k + m) == Pow2(k) * Pow2(m)
  {
    PowAdd(2, k, m);
  }

  lemma MulCommutes(a: int, b: int)
    ensures a * b == b * a
  {
  }

  lemma MulAssoc(a: int, b: int, c: int)
    ensures a * b * c == a * (b * c)
  {
  }

  lemma MulSwap(a: int, b: int, x: int, y: int)
    ensures a * b * (x * y) == (a * x) * (b * y)
  {
    assert a * b * (x * y) == a * (b * (x * y)) by { MulAssoc(a, b, x * y); }
    assert b * (x * y) == x * (b * y) by { MulAssoc(b, x, y); MulAssoc(x, b, y); }
    MulAssoc(a, x, b * y);
  }

  lemma Distribute(a: int, b: int, c: int)
    ensures (a + b) * c == a * c + b * c
    ensures (a - b) * c == a * c - b * c
    ensures c * (a + b) == c * a + c * b
    ensures c * (a - b) == c * a - c * b
  {
  }

  lemma MulMonotone(c: int, a: int, b: int)
    requires c >= 0 && a <= b
    ensures a * c <= b * c && c * a <= c * b
  {
  }

  lemma MulCancel(a: int, b: int, c: int)
    requires c > 0 && a * c == b * c
    ensures a == b
  {
    if a < b {
      MulMonotone(c, a + 1, b);
      Distribute(a, 1, c);
    } else if b < a {
      MulMonotone(c, b + 1, a);
      Distribute(b, 1, c);
    }
  }

  lemma MulCancelLt(a: int, b: int, c: int)
    requires c > 0 && a * c < b * c
    ensures a < b
  {
    if b <= a {
      MulMonotone(c, b, a);
    }
  }

  lemma DivModUnique(x: int, n: int, q: int, r: int)
    requires n > 0 && x == q * n + r && 0 <= r < n
    ensures x / n == q && x % n == r
  {
    var q', r' := x / n, x % n;
    assert x == n * q' + r';
    assert q * n - q' * n == r' - r;
    Distribute(q, q', n);
    assert (q - q') * n == r' - r;
    if q - q' > 0 {
      MulMonotone(n, 1, q - q');
    } else if q - q' < 0 {
      MulMonotone(n, q - q', -1);
    }
  }

  lemma DivMod(x: int, n: int)
    requires n > 0
    ensures x == x / n * n + x % n && 0 <= x % n < n
  {
    assert x == n * (x / n) + x % n;
  }

  lemma DivDiv(x: int, a: int, b: int)
    requires a > 0 && b > 0
    ensures a * b > 0 && x / a / b == x / (a * b)
  {
    DivMod(x, a);
    DivMod(x / a, b);
    var q, r := x / a / b, x / a % b;
    assert x == q * (a * b) + (r * a + x % a) by {
      Distribute(q * b, r, a);
      assert q * b * a == q * (a * b);
    }
    MulMonotone(a, r, b - 1);
    Distribute(b, 1, a);
    DivModUnique(x, a * b, q, r * a + x % a);
  }

  // ---- shifts and bit lengths ----

  /** The number formed by the bits of v from position k upwards. */
  function Shr(v: nat, k: nat): nat {
    v / Pow2(k)
  }

  lemma ShrStep(v: nat, k: nat)
    ensures Shr(v, k) == 2 * Shr(v, k + 1) + Shr(v, k) % 2
  {
    DivDiv(v, Pow2(k), 2);
    assert Pow2(k + 1) == 2 * Pow2(k);
  }


  function BitLen(v: nat): nat {
    if v == 0 then 0 else 1 + BitLen(v / 2)
  }

  lemma {:induction false} BitLenBounds(v: nat)
    ensures v < Pow2(BitLen(v))
    ensures v > 0 ==> BitLen(v) > 0 && Pow2(BitLen(v) - 1) <= v
  {
    if v > 1 {
      BitLenBounds(v / 2);
    }
  }

  lemma BitLenUnique(v: nat, k: nat)
    requires v < Pow2(k) && (k > 0 ==> Pow2(k - 1) <= v)
    ensures BitLen(v) == k
  {
    BitLenBounds(v);
    if BitLen(v) < k {
      PowMonotone(2, BitLen(v), k - 1);
    } else if BitLen(v) > k {
      PowMonotone(2, k, BitLen(v) - 1);
    }
  }

  lemma BitLenShift(v: nat, k: nat)
    requires v > 0
    ensures v * Pow2(k) > 0 && BitLen(v * Pow2(k)) == BitLen(v) + k
  {
    hide BitLen, Pow2;
    BitLenBounds(v);
    var n := BitLen(v);
    PowTwoAdd(n, k);
    PowTwoAdd(n - 1, k);
    MulMonotone(Pow2(k), v + 1, Pow2(n));
    Distribute(v, 1, Pow2(k));
    MulMonotone(Pow2(k), Pow2(n - 1), v);
    BitLenUnique(v * Pow2(k), n + k);
  }

  // ---- congruence ----

  predicate Cong(a: int, b: int, n: int)
    requires n > 0
  {
    a % n == b % n
  }

  lemma CongIntro(a: int, b: int, n: int, k: int)
    requires n > 0 && a == b + k * n
    ensures Cong(a, b, n)
  {
    DivMod(b, n);
    Distribute(b / n, k, n);
    DivModUnique(a, n, b / n + k, b % n);
  }

  lemma CongElim(a: int, b: int, n: int) returns (k: int)
    requires n > 0 && Cong(a, b, n)
    ensures a == b + k * n
  {
    DivMod(a, n);
    DivMod(b, n);
    k := a / n - b / n;
    Distribute(a / n, b / n, n);
  }

  lemma CongMod(a: int, n: int)
    requires n > 0
    ensures Cong(a % n, a, n)
  {
    DivMod(a, n);
    DivModUnique(a % n, n, 0, a % n);
  }

  lemma CongSmall(a: int, b: int, n: int)
    requires n > 0 && Cong(a, b, n) && 0 <= a < n
    ensures a == b % n
  {
    DivModUnique(a, n, 0, a);
  }

  lemma CongTrans(a: int, b: int, c: int, n: int)
    requires n > 0 && Cong(a, b, n) && Cong(b, c, n)
    ensures Cong(a, c, n)
  {
  }

  lemma CongAdd(a: int, b: int, c: int, d: int, n: int)
    requires n > 0 && Cong(a, b, n) && Cong(c, d, n)
    ensures Cong(a + c, b + d, n) && Cong(a - c, b - d, n)
  {
    var k := CongElim(a, b, n);
    var l := CongElim(c, d, n);
    Distribute(k, l, n);
    CongIntro(a + c, b + d, n, k + l);
    CongIntro(a - c, b - d, n, k - l);
  }

  lemma CongMul(a: int, b: int, c: int, d: int, n: int)
    requires n > 0 && Cong(a, b, n) && Cong(c, d, n)
    ensures Cong(a * c, b * d, n)
  {
    var k := CongElim(a, b, n);
    var l := CongElim(c, d, n);
    // a c - b d == (a - b) c + b (c - d)
    assert a * c == b * c + k * c * n by {
      Distribute(b, k * n, c);
      MulAssoc(k, n, c); MulAssoc(k, c, n);
    }
    assert b * c == b * d + b * l * n by {
      Distribute(d, l * n, b);
      MulAssoc(b, l, n);
    }
    Distribute(k * c, b * l, n);
    CongIntro(a * c, b * d, n, k * c + b * l);
  }

  lemma {:induction false} CongPow(a: int, b: int, e: nat, n: int)
    requires n > 0 && Cong(a, b, n)
    ensures Cong(Pow(a, e), Pow(b, e), n)
  {
    if e > 0 {
      CongPow(a, b, e - 1, n);
      CongMul(a, b, Pow(a, e - 1), Pow(b, e - 1), n);
    }
  }

  /** A factor that has an inverse modulo n cancels from a congruence. */
  lemma CongCancel(a: int, b: int, c: int, inv: int, n: int)
    requires n > 0 && Cong(c * inv, 1, n) && Cong(a * c, b * c, n)
    ensures Cong(a, b, n)
  {
    CongMul(a * c, b * c, inv, inv, n);
    CongMul(c * inv, 1, a, a, n);
    CongMul(c * inv, 1, b, b, n);
    MulAssoc(a, c, inv);
    MulAssoc(b, c, inv);
  }

  /** 2^e is invertible modulo every odd n: (n+1)/2 inverts 2. */
  lemma {:induction false} PowTwoInvertible(e: nat, n: int)
    requires n > 0 && n % 2 == 1
    ensures Cong(Pow(2, e) * Pow((n + 1) / 2, e), 1, n)
  {
    PowDistributes(2, (n + 1) / 2, e);
    assert 2 * ((n + 1) / 2) == n + 1;
    CongIntro(n + 1, 1, n, 1);
    CongPow(n + 1, 1, e, n);
    PowOne(e);
  }
}
