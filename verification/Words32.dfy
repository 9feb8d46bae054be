/** 32-bit words as bits, least significant first, with integer multiplication. */
module Words32 {
  import opened Arith
  import opened Bits
  import opened Gf2

  type word32 = w: seq<bool> | |w| == 32 witness Zeros(32)

  // ---- numbers ----

  function BitToInt(b: bool): nat {
    if b then 1 else 0
  }

  function Num(w: seq<bool>): nat {
    if w == [] then 0 else Num(w[..|w| - 1]) + BitToInt(w[|w| - 1]) * Pow2(|w| - 1)
  }

  /** The low 32 bits of a number. */
  function WordOf(n: nat): word32 {
    seq(32, i requires 0 <= i < 32 => n / Pow2(i) % 2 == 1)
  }

  /** uint32_t multiplication. */
  function MulWord(x: word32, y: word32): word32 {
    WordOf(Num(x) * Num(y))
  }

  /** Bit i of a constant. */
  predicate BitN(n: nat, i: nat) {
    if i == 0 then n % 2 == 1 else BitN(n / 2, i - 1)
  }

  function AndMask(x: word32, m: nat): (r: word32)
    ensures forall i :: 0 <= i < 32 ==> r[i] == (x[i] && BitN(m, i))
  {
    seq(32, i requires 0 <= i < 32 => x[i] && BitN(m, i))
  }

  // ---- integer products are sums over pairs of bits ----

  /** How many i in [lo, hi) have a_i = b_(k - i) = 1. */
  function Count(a: seq<bool>, b: seq<bool>, k: int, hi: nat): nat {
    if hi == 0 then 0 else Count(a, b, k, hi - 1) + BitToInt(At(a, hi - 1) && At(b, k - (hi - 1)))
  }

  lemma {:induction false} CountParity(a: seq<bool>, b: seq<bool>, k: int, hi: nat)
    ensures Count(a, b, k, hi) % 2 == 1 <==> Par(a, b, k, 0, hi)
  {
    if hi > 0 {
      CountParity(a, b, k, hi - 1);
    }
  }

  /** The pairs at positions below n, with their weights. */
  function Weighted(a: seq<bool>, b: seq<bool>, n: nat): nat {
    if n == 0 then 0 else Weighted(a, b, n - 1) + Count(a, b, n - 1, |a|) * Pow2(n - 1)
  }

  /** The bits of b, moved up by s, with their weights. */
  function Shifted(b: seq<bool>, s: nat, n: nat): nat {
    if n == 0 then 0 else Shifted(b, s, n - 1) + BitToInt(At(b, n - 1 - s)) * Pow2(n - 1)
  }

  lemma {:induction false} ShiftedValue(b: seq<bool>, s: nat, n: nat)
    ensures n <= s ==> Shifted(b, s, n) == 0
    ensures s <= n <= s + |b| ==> Shifted(b, s, n) == Pow2(s) * Num(b[..n - s])
    ensures n >= s + |b| ==> Shifted(b, s, n) == Pow2(s) * Num(b)
  {
    hide Pow2;
    if n > 0 {
      ShiftedValue(b, s, n - 1);
      if s < n <= s + |b| {
        var m := n - s;
        assert b[..m][..m - 1] == b[..m - 1];
        PowTwoAdd(s, m - 1);
        Distribute(Num(b[..m - 1]), BitToInt(b[m - 1]) * Pow2(m - 1), Pow2(s));
        MulAssoc(BitToInt(b[m - 1]), Pow2(s), Pow2(m - 1));
        MulAssoc(Pow2(s), BitToInt(b[m - 1]), Pow2(m - 1));
        MulCommutes(Pow2(s), BitToInt(b[m - 1]));
      }
    }
    if s <= n <= s + |b| && n == s {
      assert b[..0] == [];
    }
    if n == s + |b| {
      assert b[..|b|] == b;
    }
  }

  /** One more bit on the left factor. */
  lemma {:induction false} WeightedSnoc(a: seq<bool>, e: bool, b: seq<bool>, n: nat)
    ensures Weighted(a + [e], b, n) == Weighted(a, b, n) + BitToInt(e) * Shifted(b, |a|, n)
  {
    hide Pow2;
    if n > 0 {
      WeightedSnoc(a, e, b, n - 1);
      CountSnoc(a, e, b, n - 1);
      Distribute(Count(a, b, n - 1, |a|), BitToInt(e) * BitToInt(At(b, n - 1 - |a|)), Pow2(n - 1));
      Distribute(Shifted(b, |a|, n - 1), BitToInt(At(b, n - 1 - |a|)) * Pow2(n - 1), BitToInt(e));
      MulAssoc(BitToInt(e), BitToInt(At(b, n - 1 - |a|)), Pow2(n - 1));
    }
  }

  lemma CountSnoc(a: seq<bool>, e: bool, b: seq<bool>, k: int)
    ensures Count(a + [e], b, k, |a| + 1) == Count(a, b, k, |a|) + BitToInt(e) * BitToInt(At(b, k - |a|))
  {
    CountPrefix(a, e, b, k, |a|);
    assert At(a + [e], |a|) == e;
  }

  lemma {:induction false} CountPrefix(a: seq<bool>, e: bool, b: seq<bool>, k: int, hi: nat)
    requires hi <= |a|
    ensures Count(a + [e], b, k, hi) == Count(a, b, k, hi)
  {
    if hi > 0 {
      CountPrefix(a, e, b, k, hi - 1);
    }
  }

  /** The integer product. */
  lemma {:induction false} ProductIsWeighted(a: seq<bool>, b: seq<bool>, n: nat)
    requires n >= |a| + |b|
    ensures Num(a) * Num(b) == Weighted(a, b, n)
  {
    hide Pow2;
    if a == [] {
      NoPairs(b, n);
    } else {
      var m := |a| - 1;
      var e := a[m];
      ProductIsWeighted(a[..m], b, n);
      assert a == a[..m] + [e];
      WeightedSnoc(a[..m], e, b, n);
      ShiftedValue(b, m, n);
      Distribute(Num(a[..m]), BitToInt(e) * Pow2(m), Num(b));
      MulAssoc(BitToInt(e), Pow2(m), Num(b));
    }
  }

  lemma {:induction false} NoPairs(b: seq<bool>, n: nat)
    ensures Weighted([], b, n) == 0
  {
    if n > 0 {
      NoPairs(b, n - 1);
    }
  }

  // ---- products with holes ----

  /** Pairs only at positions t modulo 4, at most eight each. */
  ghost predicate Holes(a: seq<bool>, b: seq<bool>, t: nat) {
    forall k: nat :: Count(a, b, k, |a|) <= (if k % 4 == t then 8 else 0)
  }

  /** What lies below a position stays below its bit: the carries end in the holes. */
  lemma {:induction false} BelowIsSmall(a: seq<bool>, b: seq<bool>, t: nat, q: nat)
    requires Holes(a, b, t) && t < 4 && q % 4 == t
    ensures 15 * Weighted(a, b, q) <= 8 * Pow2(q)
  {
    hide Pow2;
    if q < 4 {
      NoneBelow(a, b, t, q);
    } else {
      BelowIsSmall(a, b, t, q - 4);
      var c := Count(a, b, q - 4, |a|);
      assert c <= 8;
      NoneAt(a, b, t, q - 1);
      NoneAt(a, b, t, q - 2);
      NoneAt(a, b, t, q - 3);
      PowFour(q - 4);
      MulMonotone(Pow2(q - 4), c, 8);
    }
  }

  lemma PowFour(n: nat)
    ensures Pow2(n + 4) == 16 * Pow2(n)
  {
    assert Pow2(n + 4) == 2 * Pow2(n + 3) && Pow2(n + 3) == 2 * Pow2(n + 2) && Pow2(n + 2) == 2 * Pow2(n + 1);
  }

  lemma NoneAt(a: seq<bool>, b: seq<bool>, t: nat, p: nat)
    requires Holes(a, b, t) && p % 4 != t
    ensures Weighted(a, b, p + 1) == Weighted(a, b, p)
  {
    hide Pow2;
    assert Count(a, b, p, |a|) == 0;
  }

  lemma {:induction false} NoneBelow(a: seq<bool>, b: seq<bool>, t: nat, q: nat)
    requires Holes(a, b, t) && q <= t < 4
    ensures Weighted(a, b, q) == 0
  {
    if q > 0 {
      NoneBelow(a, b, t, q - 1);
      NoneAt(a, b, t, q - 1);
    }
  }

  /** What lies above a position is a multiple of twice its weight. */
  lemma {:induction false} AboveIsMultiple(a: seq<bool>, b: seq<bool>, q: nat, n: nat) returns (m: nat)
    requires n > q
    ensures Weighted(a, b, n) == Weighted(a, b, q + 1) + m * (2 * Pow2(q))
  {
    hide Pow2;
    if n == q + 1 {
      m := 0;
    } else {
      var m' := AboveIsMultiple(a, b, q, n - 1);
      var c: nat := Count(a, b, n - 1, |a|);
      var w: nat := Pow2(n - 2 - q);
      PowTwoAdd(q + 1, n - 2 - q);
      TwicePow(q);
      m := m' + c * w;
      MulAssoc(c, w, 2 * Pow2(q));
      MulCommutes(w, 2 * Pow2(q));
      Distribute(m', c * w, 2 * Pow2(q));
    }
  }

  lemma TwicePow(q: nat)
    ensures Pow2(q + 1) == 2 * Pow2(q)
  {
  }

  /** In a product with holes every bit that is not in a hole is the parity of its pairs. */
  lemma BitOfProduct(a: seq<bool>, b: seq<bool>, t: nat, q: nat)
    requires Holes(a, b, t) && t < 4 && q % 4 == t
    ensures (Num(a) * Num(b) / Pow2(q) % 2 == 1) == Par(a, b, q, 0, |a|)
  {
    hide *;
    var n := |a| + |b| + q + 1;
    ProductIsWeighted(a, b, n);
    BelowIsSmall(a, b, t, q);
    var m := AboveIsMultiple(a, b, q, n);
    CountParity(a, b, q, |a|);
    WeightedNext(a, b, q);
    BitOfSum(Num(a) * Num(b), Weighted(a, b, q), Count(a, b, q, |a|), m, Pow2(q));
  }

  lemma WeightedNext(a: seq<bool>, b: seq<bool>, q: nat)
    ensures Weighted(a, b, q + 1) == Weighted(a, b, q) + Count(a, b, q, |a|) * Pow2(q)
  {
  }

  lemma BitOfSum(n: nat, low: nat, c: nat, m: nat, p: nat)
    requires p > 0 && n == low + c * p + m * (2 * p) && 15 * low <= 8 * p
    ensures n / p % 2 == c % 2
  {
    MulAssoc(m, 2, p);
    Distribute(c, m * 2, p);
    DivModUnique(n, p, c + m * 2, low);
  }

  /** Of n consecutive positions from 0, at most this many are r modulo 4. */
  lemma {:induction false} CountMasked(a: seq<bool>, b: seq<bool>, k: int, r: nat, hi: nat)
    requires r < 4 && forall i :: 0 <= i < |a| && a[i] ==> i % 4 == r
    ensures Count(a, b, k, hi) <= (hi + 3 - r) / 4
  {
    if hi > 0 {
      CountMasked(a, b, k, r, hi - 1);
    }
  }

  lemma ModSum(i: int, j: int, r: nat, s: nat)
    ensures i % 4 == r && j % 4 == s ==> (i + j) % 4 == (r + s) % 4
  {
  }

  lemma {:induction false} CountNone(a: seq<bool>, b: seq<bool>, k: int, r: nat, s: nat, hi: nat)
    requires forall i :: 0 <= i < |a| && a[i] ==> i % 4 == r
    requires forall i :: 0 <= i < |b| && b[i] ==> i % 4 == s
    requires k % 4 != (r + s) % 4
    ensures Count(a, b, k, hi) == 0
  {
    if hi > 0 {
      CountNone(a, b, k, r, s, hi - 1);
      ModSum(hi - 1, k - (hi - 1), r, s);
    }
  }

  /** Words masked to every fourth bit multiply with holes. */
  lemma MaskedHoles(a: word32, b: word32, r: nat, s: nat)
    requires r < 4 && s < 4
    requires forall i :: 0 <= i < 32 && a[i] ==> i % 4 == r
    requires forall i :: 0 <= i < 32 && b[i] ==> i % 4 == s
    ensures Holes(a, b, (r + s) % 4)
  {
    forall k: nat
      ensures Count(a, b, k, |a|) <= (if k % 4 == (r + s) % 4 then 8 else 0)
    {
      if k % 4 == (r + s) % 4 {
        CountMasked(a, b, k, r, 32);
      } else {
        CountNone(a, b, k, r, s, 32);
      }
    }
  }

  /** A bit of such a product. */
  lemma MaskedProductBit(a: word32, b: word32, r: nat, s: nat, q: nat)
    requires r < 4 && s < 4 && q < 32 && q % 4 == (r + s) % 4
    requires forall i :: 0 <= i < 32 && a[i] ==> i % 4 == r
    requires forall i :: 0 <= i < 32 && b[i] ==> i % 4 == s
    ensures MulWord(a, b)[q] == Par(a, b, q, 0, 32)
  {
    hide Num, Pow2, Par, Holes;
    MaskedHoles(a, b, r, s);
    BitOfProduct(a, b, (r + s) % 4, q);
  }

  // ---- bmul32 ----

  /** A number by its hexadecimal digits, most significant first. */
  function HexVal(ds: seq<nat>): nat {
    if ds == [] then 0 else HexVal(ds[..|ds| - 1]) * 16 + ds[|ds| - 1]
  }

  lemma {:induction false} HexBit(ds: seq<nat>, i: nat)
    requires (forall k :: 0 <= k < |ds| ==> ds[k] < 16) && i < 4 * |ds|
    ensures BitN(HexVal(ds), i) == BitN(ds[|ds| - 1 - i / 4], i % 4)
  {
    hide BitN;
    var n := |ds| - 1;
    if i < 4 {
      LowBitsOf(HexVal(ds[..n]), ds[n], i);
    } else {
      HexBit(ds[..n], i - 4);
      HighBitsOf(HexVal(ds[..n]), ds[n], i);
      assert (i - 4) / 4 == i / 4 - 1 && (i - 4) % 4 == i % 4;
    }
  }

  lemma HexEight(a: nat, b: nat, c: nat, d: nat, e: nat, f: nat, g: nat, h: nat)
    ensures HexVal([a, b, c, d, e, f, g, h])
         == ((((((a * 16 + b) * 16 + c) * 16 + d) * 16 + e) * 16 + f) * 16 + g) * 16 + h
  {
    HexSnoc([], a);
    HexSnoc([a], b);
    HexSnoc([a, b], c);
    HexSnoc([a, b, c], d);
    HexSnoc([a, b, c, d], e);
    HexSnoc([a, b, c, d, e], f);
    HexSnoc([a, b, c, d, e, f], g);
    HexSnoc([a, b, c, d, e, f, g], h);
    assert HexVal([]) == 0;
    hide HexVal;
    assert [] + [a] == [a] && [a] + [b] == [a, b] && [a, b] + [c] == [a, b, c] && [a, b, c] + [d] == [a, b, c, d];
    assert [a, b, c, d] + [e] == [a, b, c, d, e] && [a, b, c, d, e] + [f] == [a, b, c, d, e, f];
    assert [a, b, c, d, e, f] + [g] == [a, b, c, d, e, f, g] && [a, b, c, d, e, f, g] + [h] == [a, b, c, d, e, f, g, h];
  }

  lemma HexSnoc(ds: seq<nat>, d: nat)
    ensures HexVal(ds + [d]) == HexVal(ds) * 16 + d
  {
    assert (ds + [d])[..|ds|] == ds;
  }

  /** The bits of a constant whose hexadecimal digits repeat. */
  lemma MaskDigits(a: nat, b: nat, c: nat, d: nat, m: nat)
    requires a < 16 && b < 16 && c < 16 && d < 16
    requires m == ((((((a * 16 + b) * 16 + c) * 16 + d) * 16 + a) * 16 + b) * 16 + c) * 16 + d
    ensures forall i :: 0 <= i < 32 ==> BitN(m, i) == BitN(if i / 4 % 4 == 0 then d else if i / 4 % 4 == 1 then c else if i / 4 % 4 == 2 then b else a, i % 4)
  {
    hide BitN;
    HexEight(a, b, c, d, a, b, c, d);
    var ds := [a, b, c, d, a, b, c, d];
    hide HexVal;
    forall i: nat | i < 32
      ensures BitN(m, i) == BitN(if i / 4 % 4 == 0 then d else if i / 4 % 4 == 1 then c else if i / 4 % 4 == 2 then b else a, i % 4)
    {
      HexBit(ds, i);
      EightAt(a, b, c, d, i / 4);
    }
  }

  lemma EightAt(a: nat, b: nat, c: nat, d: nat, j: nat)
    requires j < 8
    ensures [a, b, c, d, a, b, c, d][7 - j] == if j % 4 == 0 then d else if j % 4 == 1 then c else if j % 4 == 2 then b else a
  {
  }

  lemma DigitBits(j: nat)
    requires j < 4
    ensures BitN(1, j) == (j == 0) && BitN(2, j) == (j == 1) && BitN(4, j) == (j == 2) && BitN(8, j) == (j == 3)
    ensures BitN(5, j) == (j % 2 == 0) && BitN(3, j) == (j / 2 == 0) && !BitN(0, j) && BitN(15, j)
  {
  }

  /** The four masks of bmul32 select every fourth bit. */
  lemma MaskConstants()
    ensures forall i :: 0 <= i < 32 ==> BitN(0x11111111, i) == (i % 4 == 0)
    ensures forall i :: 0 <= i < 32 ==> BitN(0x22222222, i) == (i % 4 == 1)
    ensures forall i :: 0 <= i < 32 ==> BitN(0x44444444, i) == (i % 4 == 2)
    ensures forall i :: 0 <= i < 32 ==> BitN(0x88888888, i) == (i % 4 == 3)
  {
    hide BitN;
    MaskDigits(1, 1, 1, 1, 0x11111111);
    MaskDigits(2, 2, 2, 2, 0x22222222);
    MaskDigits(4, 4, 4, 4, 0x44444444);
    MaskDigits(8, 8, 8, 8, 0x88888888);
    forall i: nat | i < 32
      ensures BitN(0x11111111, i) == (i % 4 == 0) && BitN(0x22222222, i) == (i % 4 == 1)
      ensures BitN(0x44444444, i) == (i % 4 == 2) && BitN(0x88888888, i) == (i % 4 == 3)
    {
      DigitBits(i % 4);
    }
  }

  /** The masks of rev32 select the lower half of every group. */
  lemma SwapConstants()
    ensures forall i :: 0 <= i < 32 ==> BitN(0x55555555, i) == (i % 2 == 0)
    ensures forall i :: 0 <= i < 32 ==> BitN(0x33333333, i) == (i / 2 % 2 == 0)
    ensures forall i :: 0 <= i < 32 ==> BitN(0x0f0f0f0f, i) == (i / 4 % 2 == 0)
    ensures forall i :: 0 <= i < 32 ==> BitN(0x00ff00ff, i) == (i / 8 % 2 == 0)
  {
    hide BitN;
    MaskDigits(5, 5, 5, 5, 0x55555555);
    MaskDigits(3, 3, 3, 3, 0x33333333);
    MaskDigits(0, 15, 0, 15, 0x0f0f0f0f);
    MaskDigits(0, 0, 15, 15, 0x00ff00ff);
    forall i: nat | i < 32
      ensures BitN(0x55555555, i) == (i % 2 == 0) && BitN(0x33333333, i) == (i / 2 % 2 == 0)
      ensures BitN(0x0f0f0f0f, i) == (i / 4 % 2 == 0) && BitN(0x00ff00ff, i) == (i / 8 % 2 == 0)
    {
      DigitBits(i % 4);
    }
  }

  lemma LowBitsOf(m: nat, d: nat, i: nat)
    requires d < 16 && i < 4
    ensures BitN(m * 16 + d, i) == BitN(d, i)
  {
    OneDigitBit(m * 8, d, i);
    if i > 0 {
      OneDigitBit(m * 4, d / 2, i - 1);
      if i > 1 {
        OneDigitBit(m * 2, d / 2 / 2, i - 2);
        if i > 2 {
          OneDigitBit(m, d / 2 / 2 / 2, i - 3);
        }
      }
    }
  }

  lemma OneDigitBit(m: nat, d: nat, i: nat)
    ensures i == 0 ==> BitN(m * 2 + d, i) == BitN(d, i)
    ensures i > 0 ==> BitN(m * 2 + d, i) == BitN(m + d / 2, i - 1) && BitN(d, i) == BitN(d / 2, i - 1)
  {
    assert (m * 2 + d) / 2 == m + d / 2;
  }

  lemma HighBitsOf(m: nat, d: nat, i: nat)
    requires d < 16 && i >= 4
    ensures BitN(m * 16 + d, i) == BitN(m, i - 4)
  {
    OneDigitBit(m * 8, d, i);
    OneDigitBit(m * 4, d / 2, i - 1);
    OneDigitBit(m * 2, d / 2 / 2, i - 2);
    OneDigitBit(m, d / 2 / 2 / 2, i - 3);
    assert d / 2 / 2 / 2 / 2 == 0;
  }

  /** The sum of four integer products. */
  function Quad(a: word32, b: word32, c: word32, d: word32, e: word32, f: word32, g: word32, h: word32): (z: word32)
    ensures forall q :: 0 <= q < 32 ==> z[q] == (((MulWord(a, b)[q] != MulWord(c, d)[q]) != MulWord(e, f)[q]) != MulWord(g, h)[q])
  {
    Xor(Xor(Xor(MulWord(a, b), MulWord(c, d)), MulWord(e, f)), MulWord(g, h))
  }

  /** bmul32: sixteen masked integer products. */
  function Bmul32(x: word32, y: word32): word32 {
    var x0, x1, x2, x3 := AndMask(x, 0x11111111), AndMask(x, 0x22222222), AndMask(x, 0x44444444), AndMask(x, 0x88888888);
    var y0, y1, y2, y3 := AndMask(y, 0x11111111), AndMask(y, 0x22222222), AndMask(y, 0x44444444), AndMask(y, 0x88888888);
    var z0 := Quad(x0, y0, x1, y3, x2, y2, x3, y1);
    var z1 := Quad(x0, y1, x1, y0, x2, y3, x3, y2);
    var z2 := Quad(x0, y2, x1, y1, x2, y0, x3, y3);
    var z3 := Quad(x0, y3, x1, y2, x2, y1, x3, y0);
    MergeMasks(z0, z1, z2, z3)
  }

  /** Every fourth bit from each of four words. */
  function MergeMasks(z0: word32, z1: word32, z2: word32, z3: word32): word32 {
    Or(Or(AndMask(z0, 0x11111111), AndMask(z1, 0x22222222)), Or(AndMask(z2, 0x44444444), AndMask(z3, 0x88888888)))
  }

  lemma MergeBit(z0: word32, z1: word32, z2: word32, z3: word32, q: nat)
    requires q < 32
    ensures MergeMasks(z0, z1, z2, z3)[q] == if q % 4 == 0 then z0[q] else if q % 4 == 1 then z1[q] else if q % 4 == 2 then z2[q] else z3[q]
  {
    hide BitN;
    MaskConstants();
  }

  /** Every fourth bit of a word, from bit r. */
  function Every4(x: word32, r: nat): (m: word32)
    ensures forall i :: 0 <= i < 32 ==> m[i] == (x[i] && i % 4 == r)
  {
    seq(32, i requires 0 <= i < 32 => x[i] && i % 4 == r)
  }

  lemma MaskIsEvery4(x: word32)
    ensures AndMask(x, 0x11111111) == Every4(x, 0) && AndMask(x, 0x22222222) == Every4(x, 1)
    ensures AndMask(x, 0x44444444) == Every4(x, 2) && AndMask(x, 0x88888888) == Every4(x, 3)
  {
    hide BitN;
    MaskConstants();
  }

  /** The pairs at position q by the residue of their left index. */
  lemma {:induction false} ParByResidue(x: word32, y: word32, q: nat, hi: nat)
    requires hi <= 32
    ensures Par(x, y, q, 0, hi)
         == (((Par(Every4(x, 0), Every4(y, q % 4), q, 0, hi) != Par(Every4(x, 1), Every4(y, (q + 3) % 4), q, 0, hi))
              != Par(Every4(x, 2), Every4(y, (q + 2) % 4), q, 0, hi)) != Par(Every4(x, 3), Every4(y, (q + 1) % 4), q, 0, hi))
  {
    if hi > 0 {
      ParByResidue(x, y, q, hi - 1);
      TermByResidue(x, y, q, hi - 1);
    }
  }

  /** A single pair is seen by exactly the product of its residues. */
  lemma TermByResidue(x: word32, y: word32, q: nat, i: nat)
    requires i < 32
    ensures forall r: nat :: r < 4 ==> (At(Every4(x, r), i) && At(Every4(y, (q + 4 - r) % 4), q - i)) == (i % 4 == r && At(x, i) && At(y, q - i))
  {
    forall r: nat | r < 4
      ensures (At(Every4(x, r), i) && At(Every4(y, (q + 4 - r) % 4), q - i)) == (i % 4 == r && At(x, i) && At(y, q - i))
    {
      ModDifference(q, i, r);
    }
  }

  lemma ModDifference(q: int, i: int, r: nat)
    ensures i % 4 == r ==> (q - i) % 4 == (q + 4 - r) % 4
  {
  }

  lemma ResidueBit(x: word32, y: word32, q: nat, r: nat)
    requires q < 32 && r < 4
    ensures MulWord(Every4(x, r), Every4(y, (q + 4 - r) % 4))[q] == Par(Every4(x, r), Every4(y, (q + 4 - r) % 4), q, 0, 32)
  {
    hide MulWord, Par;
    MaskedProductBit(Every4(x, r), Every4(y, (q + 4 - r) % 4), r, (q + 4 - r) % 4, q);
  }

  /** The words of bmul32 without masks. */
  lemma BmulBit(x: word32, y: word32, q: nat)
    requires q < 32
    ensures Bmul32(x, y)[q] == (((MulWord(Every4(x, 0), Every4(y, q % 4))[q] != MulWord(Every4(x, 1), Every4(y, (q + 3) % 4))[q])
                                 != MulWord(Every4(x, 2), Every4(y, (q + 2) % 4))[q]) != MulWord(Every4(x, 3), Every4(y, (q + 1) % 4))[q])
  {
    hide BitN, MulWord, Quad, AndMask, Every4, MergeMasks;
    MaskIsEvery4(x);
    MaskIsEvery4(y);
    var x0, x1, x2, x3 := Every4(x, 0), Every4(x, 1), Every4(x, 2), Every4(x, 3);
    var y0, y1, y2, y3 := Every4(y, 0), Every4(y, 1), Every4(y, 2), Every4(y, 3);
    MergeBit(Quad(x0, y0, x1, y3, x2, y2, x3, y1), Quad(x0, y1, x1, y0, x2, y3, x3, y2),
             Quad(x0, y2, x1, y1, x2, y0, x3, y3), Quad(x0, y3, x1, y2, x2, y1, x3, y0), q);
  }

  /** bmul32 is the carry-less product modulo x^32. */
  lemma BmulIsProduct(x: word32, y: word32)
    ensures Bmul32(x, y) == Mul(x, y)[..32]
  {
    hide Bmul32, MulWord, Par;
    forall q: nat | q < 32
      ensures Bmul32(x, y)[q] == Mul(x, y)[q]
    {
      BmulBit(x, y, q);
      ParByResidue(x, y, q, 32);
      ResidueBit(x, y, q, 0);
      ResidueBit(x, y, q, 1);
      ResidueBit(x, y, q, 2);
      ResidueBit(x, y, q, 3);
      assert (q + 4) % 4 == q % 4;
    }
  }

  // ---- rev32 ----

  /** The shifts of C on a word. */
  function Shl32(x: word32, k: nat): word32
    requires k <= 32
  {
    Zeros(k) + x[..32 - k]
  }

  function Shr32(x: word32, k: nat): word32
    requires k <= 32
  {
    x[k..] + Zeros(k)
  }

  /** ((x & m) << k) | (x >> k & m). */
  function SwapGroups(x: word32, m: nat, k: nat): word32
    requires k <= 32
  {
    Or(Shl32(AndMask(x, m), k), AndMask(Shr32(x, k), m))
  }

  function Rev32(x: word32): word32 {
    var a := SwapGroups(x, 0x55555555, 1);
    var b := SwapGroups(a, 0x33333333, 2);
    var c := SwapGroups(b, 0x0f0f0f0f, 4);
    var d := SwapGroups(c, 0x00ff00ff, 8);
    Or(Shl32(d, 16), Shr32(d, 16))
  }

  /** The position swapped with i at group size k. */
  function Flip(i: nat, k: nat): nat
    requires k > 0
  {
    if i / k % 2 == 1 && i >= k then i - k else i + k
  }

  lemma SwapBit(x: word32, m: nat, k: nat, i: nat)
    requires i < 32 && k <= 32
    ensures SwapGroups(x, m, k)[i] == ((i >= k && x[i - k] && BitN(m, i - k)) || (i + k < 32 && x[i + k] && BitN(m, i)))
  {
    hide BitN;
  }

  lemma FlipCases(i: nat, k: nat)
    requires i < 32 && (k == 1 || k == 2 || k == 4 || k == 8)
    ensures Flip(i, k) < 32
    ensures i / k % 2 == 1 ==> i >= k && (i - k) / k % 2 == 0 && Flip(i, k) == i - k
    ensures i / k % 2 == 0 ==> (i >= k ==> (i - k) / k % 2 == 1) && Flip(i, k) == i + k
  {
    hide Flip;
    if k == 1 {
      FlipOne(i);
    } else if k == 2 {
      FlipTwo(i);
    } else if k == 4 {
      FlipFour(i);
    } else {
      FlipEight(i);
    }
  }

  lemma FlipOne(i: nat)
    requires i < 32
    ensures Flip(i, 1) < 32
    ensures i / 1 % 2 == 1 ==> i >= 1 && (i - 1) / 1 % 2 == 0 && Flip(i, 1) == i - 1
    ensures i / 1 % 2 == 0 ==> (i >= 1 ==> (i - 1) / 1 % 2 == 1) && Flip(i, 1) == i + 1
  {
  }

  lemma FlipTwo(i: nat)
    requires i < 32
    ensures Flip(i, 2) < 32
    ensures i / 2 % 2 == 1 ==> i >= 2 && (i - 2) / 2 % 2 == 0 && Flip(i, 2) == i - 2
    ensures i / 2 % 2 == 0 ==> (i >= 2 ==> (i - 2) / 2 % 2 == 1) && Flip(i, 2) == i + 2
  {
  }

  lemma FlipFour(i: nat)
    requires i < 32
    ensures Flip(i, 4) < 32
    ensures i / 4 % 2 == 1 ==> i >= 4 && (i - 4) / 4 % 2 == 0 && Flip(i, 4) == i - 4
    ensures i / 4 % 2 == 0 ==> (i >= 4 ==> (i - 4) / 4 % 2 == 1) && Flip(i, 4) == i + 4
  {
  }

  lemma FlipEight(i: nat)
    requires i < 32
    ensures Flip(i, 8) < 32
    ensures i / 8 % 2 == 1 ==> i >= 8 && (i - 8) / 8 % 2 == 0 && Flip(i, 8) == i - 8
    ensures i / 8 % 2 == 0 ==> (i >= 8 ==> (i - 8) / 8 % 2 == 1) && Flip(i, 8) == i + 8
  {
  }

  lemma SwapAt(x: word32, m: nat, k: nat, i: nat)
    requires i < 32 && (k == 1 || k == 2 || k == 4 || k == 8)
    requires forall j :: 0 <= j < 32 ==> BitN(m, j) == (j / k % 2 == 0)
    ensures Flip(i, k) < 32 && SwapGroups(x, m, k)[i] == x[Flip(i, k)]
  {
    hide BitN, SwapGroups, Flip;
    SwapBit(x, m, k, i);
    FlipCases(i, k);
  }

  lemma FlipAll(i: nat)
    requires i < 32
    ensures Flip(Flip(Flip(Flip(Flip(i, 16), 8), 4), 2), 1) == 31 - i
  {
  }

  /** rev32 reverses the bits. */
  lemma Rev32IsRev(x: word32)
    ensures Rev32(x) == Rev(x)
  {
    SwapConstants();
    hide BitN, SwapGroups;
    var a := SwapGroups(x, 0x55555555, 1);
    var b := SwapGroups(a, 0x33333333, 2);
    var c := SwapGroups(b, 0x0f0f0f0f, 4);
    var d := SwapGroups(c, 0x00ff00ff, 8);
    forall i: nat | i < 32
      ensures Rev32(x)[i] == Rev(x)[i]
    {
      assert Rev32(x)[i] == d[Flip(i, 16)];
      FlipAll(i);
      SwapAt(c, 0x00ff00ff, 8, Flip(i, 16));
      SwapAt(b, 0x0f0f0f0f, 4, Flip(Flip(i, 16), 8));
      SwapAt(a, 0x33333333, 2, Flip(Flip(Flip(i, 16), 8), 4));
      SwapAt(x, 0x55555555, 1, Flip(Flip(Flip(Flip(i, 16), 8), 4), 2));
    }
  }
}
