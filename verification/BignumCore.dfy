/** Carry chains of the core bignum layer: add, subtract, multiply-accumulate. */
module BignumCore {
  import opened Arith
  import opened Limbs

  // ---- one multiply-accumulate step ----

  lemma SquareBound(s: nat, b: nat, n: nat)
    requires s < n && b < n
    ensures s * b <= (n - 1) * (n - 1) == n * n - 2 * n + 1
  {
    MulMonotone(b, s, n - 1);
    MulMonotone(n - 1, b, n - 1);
  }

  /** s * b + c + d fits in two words. */
  lemma MulAddBound(s: limb, b: limb, c: limb, d: limb)
    ensures s * b + c + d < BASE * BASE
  {
    SquareBound(s, b, BASE);
  }

  lemma HighPartBound(lo: nat, hi: nat, n: nat)
    requires lo + hi * n < n * n
    ensures hi < n
  {
    MulCancelLt(hi, n, n);
  }

  /** Adding a word to a low word and its carry to the high word. */
  method AddCarry(lo: limb, hi: limb, x: limb) returns (lo': limb, hi': limb)
    requires lo + hi * BASE + x < BASE * BASE
    ensures lo' + hi' * BASE == lo + hi * BASE + x
  {
    WrapAdd(lo, x);
    lo' := Wrap(lo + x);
    var carry := if lo' < x then 1 else 0;
    Distribute(hi, carry, BASE);
    HighPartBound(lo', hi + carry, BASE);
    WrapIs(hi + carry, 0, hi + carry);
    hi' := Wrap(hi + carry);
  }

  lemma SplitBelowSquare(x: nat, h: nat)
    requires h > 0 && x < h * h
    ensures x == x / h * h + x % h
    ensures 0 <= x / h < h && 0 <= x % h < h
  {
    DivMod(x, h);
    MulCancelLt(x / h, h, h);
  }

  /** The step with a double-width product. */
  method MulAddDouble(s: limb, b: limb, c: limb, d: limb) returns (lo: limb, hi: limb)
    ensures lo + hi * BASE == s * b + c + d
  {
    MulAddBound(s, b, c, d);
    BasePos();
    var r := s * b;
    SplitBelowSquare(r, BASE);
    lo, hi := r % BASE, r / BASE;
    lo, hi := AddCarry(lo, hi, c);
    lo, hi := AddCarry(lo, hi, d);
  }

  lemma HalfSplit(x: limb)
    ensures HALF > 0
    ensures x == x / HALF * HALF + x % HALF
    ensures 0 <= x / HALF < HALF && 0 <= x % HALF < HALF
  {
    BaseFacts();
    SplitBelowSquare(x, HALF);
  }

  lemma HalfProduct(x: nat, y: nat)
    requires x < HALF && y < HALF
    ensures 0 <= x * y < BASE
  {
    BaseFacts();
    SquareBound(x, y, HALF);
  }

  lemma ShiftSplit(h: nat, x1: int, x0: int)
    requires 0 <= x0 < h
    ensures (x1 * h + x0) * h == x1 * (h * h) + x0 * h
    ensures 0 <= x0 * h <= h * h - h
  {
    MulMonotone(h, x0, h - 1);
  }

  /** x >> biH, (x << biH) >> biH and x << biH. */
  function HighHalf(x: limb): (r: nat)
    ensures r < HALF
  {
    HalfSplit(x);
    x / HALF
  }

  function LowHalf(x: limb): (r: nat)
    ensures r < HALF
    ensures x == HighHalf(x) * HALF + r
  {
    HalfSplit(x);
    x % HALF
  }

  function ShiftHalf(x: limb): (r: limb)
    ensures r == LowHalf(x) * HALF
  {
    HalfSplit(x);
    BaseFacts();
    ShiftSplit(HALF, x / HALF, x % HALF);
    WrapIs(x * HALF, x / HALF, x % HALF * HALF);
    Wrap(x * HALF)
  }

  lemma CrossProducts(s0: int, s1: int, b0: int, b1: int, h: int)
    ensures (s1 * h + s0) * (b1 * h + b0) == s0 * b0 + (s0 * b1) * h + (s1 * b0) * h + (s1 * b1) * (h * h)
  {
  }

  lemma FoldHighHalves(s0: int, s1: int, b0: int, b1: int, h: int, x1: int, x0: int, y1: int, y0: int)
    requires s0 * b1 == x1 * h + x0 && s1 * b0 == y1 * h + y0
    ensures (s1 * h + s0) * (b1 * h + b0)
         == s0 * b0 + x0 * h + y0 * h + (s1 * b1 + x1 + y1) * (h * h)
  {
    CrossProducts(s0, s1, b0, b1, h);
  }

  /** The product of two words from four half-word products, as the portable code weighs them. */
  lemma HalfDecomposition(s: limb, b: limb, rx: limb, r0: limb, ry: limb, r1: limb)
    requires rx == LowHalf(s) * HighHalf(b) && r0 == LowHalf(s) * LowHalf(b)
    requires ry == HighHalf(s) * LowHalf(b) && r1 == HighHalf(s) * HighHalf(b)
    ensures s * b == r0 + ShiftHalf(rx) + ShiftHalf(ry) + (r1 + HighHalf(rx) + HighHalf(ry)) * BASE
    ensures r1 + HighHalf(rx) + HighHalf(ry) < BASE
  {
    hide *;
    BaseFacts();
    FoldHighHalves(LowHalf(s), HighHalf(s), LowHalf(b), HighHalf(b), HALF,
                   HighHalf(rx), LowHalf(rx), HighHalf(ry), LowHalf(ry));
    MulAddBound(s, b, 0, 0);
    HighPartBound(r0 + ShiftHalf(rx) + ShiftHalf(ry), r1 + HighHalf(rx) + HighHalf(ry), BASE);
  }

  /** The step built from half-limb products only. */
  method MulAddHalf(s: limb, b: limb, c: limb, d: limb) returns (lo: limb, hi: limb)
    ensures lo + hi * BASE == s * b + c + d
  {
    hide *;
    MulAddBound(s, b, c, d);
    var s0, s1, b0, b1 := LowHalf(s), HighHalf(s), LowHalf(b), HighHalf(b);
    HalfProduct(s0, b1); HalfProduct(s0, b0); HalfProduct(s1, b0); HalfProduct(s1, b1);
    var rx: limb, r0: limb, ry: limb, r1: limb := s0 * b1, s0 * b0, s1 * b0, s1 * b1;
    HalfDecomposition(s, b, rx, r0, ry, r1);
    WrapIs(r1 + HighHalf(rx), 0, r1 + HighHalf(rx));
    hi := Wrap(r1 + HighHalf(rx));
    WrapIs(hi + HighHalf(ry), 0, hi + HighHalf(ry));
    hi := Wrap(hi + HighHalf(ry));
    lo, hi := AddCarry(r0, hi, ShiftHalf(rx));
    lo, hi := AddCarry(lo, hi, ShiftHalf(ry));
    lo, hi := AddCarry(lo, hi, c);
    lo, hi := AddCarry(lo, hi, d);
  }

  lemma ValEmpty(s: seq<limb>)
    requires s == []
    ensures Val(s) == 0
  {
  }

  // ---- carry chains ----

  /** One digit of a carry chain, at weight p. */
  lemma ChainStep(vx: int, c0: int, total: int, t: int, c: int, digit: int, p: int, b: int)
    requires vx + c0 * p == total && t + c * b == digit + c0
    ensures (vx + t * p) + c * (b * p) == total + digit * p
  {
    assert (t + c * b) * p == (digit + c0) * p;
  }

  /** Overwriting limb i of a prefix appends a digit to its value. */
  lemma PrefixPut(x: seq<limb>, i: nat, t: limb)
    requires i < |x|
    ensures x[i := t][..i] == x[..i]
    ensures Val(x[i := t][..i + 1]) == Val(x[..i]) + t * Pb(i)
  {
    var z := x[i := t];
    assert z[..i] == x[..i];
    ValStep(z, i);
  }

  method AddDigit(a: limb, y: limb, c: limb) returns (t: limb, c': limb)
    requires c <= 1
    ensures c' <= 1 && t + c' * BASE == a + y + c
  {
    BaseFacts();
    WrapAdd(c, a);
    t := Wrap(c + a);
    c' := if t < a then 1 else 0;
    WrapAdd(t, y);
    t := Wrap(t + y);
    c' := c' + if t < y then 1 else 0;
  }

  /** X = A + Y over the first limbs; the result is the carry. X may be A or Y. */
  method CoreAdd(X: array<limb>, A: array<limb>, Y: array<limb>, limbs: nat) returns (c: limb)
    requires limbs <= X.Length && limbs <= A.Length && limbs <= Y.Length
    modifies X
    ensures c <= 1
    ensures Val(X[..limbs]) + c * Pb(limbs) == Val(old(A[..limbs])) + Val(old(Y[..limbs]))
    ensures X[limbs..] == old(X[limbs..])
  {
    hide *;
    c := 0;
    var i := 0;
    ValEmpty(X[..0]); ValEmpty(A[..0]); ValEmpty(Y[..0]);
    ghost var a, y := A[..limbs], Y[..limbs];
    while i < limbs
      invariant i <= limbs && c <= 1
      invariant forall j :: i <= j < limbs ==> A[j] == a[j] && Y[j] == y[j]
      invariant X[limbs..] == old(X[limbs..])
      invariant Val(X[..i]) + c * Pb(i) == Val(a[..i]) + Val(y[..i])
    {
      var t, c' := AddDigit(A[i], Y[i], c);
      PrefixPut(X[..], i, t);
      ValStep(a, i);
      ValStep(y, i);
      ChainStep(Val(X[..i]), c, Val(a[..i]) + Val(y[..i]), t, c', a[i] as int + y[i], Pb(i), BASE);
      Distribute(a[i], y[i], Pb(i));
      assert X[..][..i] == X[..i];
      label L:
      X[i] := t;
      assert X[..] == old@L(X[..])[i := t];
      assert X[..][..i + 1] == X[..i + 1];
      PbStep(i);
      c, i := c', i + 1;
    }
    assert a[..limbs] == a && y[..limbs] == y;
  }

  method SubDigit(a: limb, y: limb, c: limb) returns (t: limb, c': limb)
    requires c <= 1
    ensures c' <= 1 && t - c' * BASE == a - y - c
  {
    BaseFacts();
    var z := if a < c then 1 else 0;
    WrapSub(a, c);
    t := Wrap(a - c);
    c' := (if t < y then 1 else 0) + z;
    WrapSub(t, y);
    t := Wrap(t - y);
  }

  /** X = A[off..] - Y over the first limbs; the result is the borrow. X may be A (with off 0) or Y. */
  method CoreSub(X: array<limb>, A: array<limb>, off: nat, Y: array<limb>, limbs: nat) returns (c: limb)
    requires limbs <= X.Length && off + limbs <= A.Length && limbs <= Y.Length
    requires X == A ==> off == 0
    modifies X
    ensures c <= 1
    ensures Val(X[..limbs]) - c * Pb(limbs) == Val(old(A[off..off + limbs])) - Val(old(Y[..limbs]))
    ensures X[limbs..] == old(X[limbs..])
  {
    hide *;
    c := 0;
    var i := 0;
    ValEmpty(X[..0]); ValEmpty(A[..0]); ValEmpty(Y[..0]);
    ghost var a, y := A[off..off + limbs], Y[..limbs];
    while i < limbs
      invariant i <= limbs && c <= 1
      invariant forall j :: i <= j < limbs ==> A[off + j] == a[j] && Y[j] == y[j]
      invariant X[limbs..] == old(X[limbs..])
      invariant Val(X[..i]) - c * Pb(i) == Val(a[..i]) - Val(y[..i])
    {
      var t, c' := SubDigit(A[off + i], Y[i], c);
      PrefixPut(X[..], i, t);
      ValStep(a, i);
      ValStep(y, i);
      ChainStep(Val(X[..i]), -(c as int), Val(a[..i]) as int - Val(y[..i]), t, -(c' as int), a[i] as int - y[i], Pb(i), BASE);
      Distribute(a[i], y[i], Pb(i));
      assert X[..][..i] == X[..i];
      label L:
      X[i] := t;
      assert X[..] == old@L(X[..])[i := t];
      assert X[..][..i + 1] == X[..i + 1];
      PbStep(i);
      c, i := c', i + 1;
    }
    assert a[..limbs] == a && y[..limbs] == y;
  }

  // ---- multiply-accumulate ----

  /** d holds, up to pos, the low part of d0 + s * b, and c is the pending carry. */
  ghost predicate MlaInv(d: seq<limb>, d0: seq<limb>, s: seq<limb>, b: limb, c: limb, pos: nat) {
    && |d| == |d0| == |s| && pos <= |d|
    && d[pos..] == d0[pos..]
    && Val(d[..pos]) + c * Pb(pos) == Val(d0[..pos]) + Val(s[..pos]) * b
  }

  lemma MlaInvStep(d: seq<limb>, d0: seq<limb>, s: seq<limb>, b: limb, c: limb, pos: nat, lo: limb, hi: limb)
    requires MlaInv(d, d0, s, b, c, pos) && pos < |d|
    requires lo + hi * BASE == s[pos] * b + c + d[pos]
    ensures MlaInv(d[pos := lo], d0, s, b, hi, pos + 1)
  {
    hide Val, Pb;
    PrefixPut(d, pos, lo);
    ValStep(d0, pos);
    ValStep(s, pos);
    PbStep(pos);
    assert d[pos] == d[pos..][0] == d0[pos];
    assert d[pos := lo][pos + 1..] == d[pos..][1..] == d0[pos + 1..];
    MlaDigit(Val(d[..pos]), Val(d0[..pos]), Val(s[..pos]), c, b, lo, hi, s[pos], d0[pos], Pb(pos), BASE);
  }

  lemma MlaDigit(vd: int, v0: int, vs: int, c: int, b: int, lo: int, hi: int, x: int, y: int, p: int, base: int)
    requires vd + c * p == v0 + vs * b
    requires lo + hi * base == x * b + c + y
    ensures vd + lo * p + hi * (base * p) == v0 + y * p + (vs + x * p) * b
  {
    assert (lo + hi * base) * p == (x * b + c + y) * p;
  }

  /** One unrolled step at d[off + pos]. */
  method MlaStep(d: array<limb>, off: nat, pos: nat, x: limb, b: limb, c: limb, ghost d0: seq<limb>, ghost s: seq<limb>)
    returns (c': limb)
    requires off + |d0| <= d.Length && pos < |d0|
    requires MlaInv(d[off..off + |d0|], d0, s, b, c, pos) && x == s[pos]
    modifies d
    ensures MlaInv(d[off..off + |d0|], d0, s, b, c', pos + 1)
    ensures d[..off] == old(d[..off]) && d[off + |d0|..] == old(d[off + |d0|..])
  {
    hide Val, Pb;
    ghost var w := d[off..off + |d0|];
    var lo;
    lo, c' := MulAddHalf(x, b, c, d[off + pos]);
    MlaInvStep(w, d0, s, b, c, pos, lo, c');
    d[off + pos] := lo;
    assert d[off..off + |d0|] == w[pos := lo];
  }

  /** One step of the carry past the end of s. */
  method ExcessStep(d: array<limb>, off: nat, pos: nat, ghost b: limb, c: limb, ghost d0: seq<limb>, ghost s: seq<limb>)
    returns (c': limb)
    requires off + |d0| <= d.Length && pos < |d0|
    requires MlaInv(d[off..off + |d0|], d0, s, b, c, pos) && s[pos] == 0
    modifies d
    ensures MlaInv(d[off..off + |d0|], d0, s, b, c', pos + 1)
    ensures d[..off] == old(d[..off]) && d[off + |d0|..] == old(d[off + |d0|..])
  {
    hide Val, Pb;
    BaseFacts();
    ghost var w := d[off..off + |d0|];
    WrapAdd(d[off + pos], c);
    var lo: limb := Wrap(d[off + pos] + c);
    c' := if lo < c then 1 else 0;
    MlaInvStep(w, d0, s, b, c, pos, lo, c');
    d[off + pos] := lo;
    assert d[off..off + |d0|] == w[pos := lo];
  }

  function Zeros(n: nat): seq<limb>
  {
    BasePos();
    seq(n, _ => 0)
  }

  lemma ValPadded(s: seq<limb>, n: nat)
    ensures Val(s + Zeros(n)) == Val(s)
  {
    ValTrim(s + Zeros(n), |s|);
    assert (s + Zeros(n))[..|s|] == s;
  }

  /** d += s * b on a window of d; the result is the carry out of the window. */
  method CoreMla(d: array<limb>, off: nat, dLen: nat, s: array<limb>, sLen: nat, b: limb) returns (c: limb)
    requires off + dLen <= d.Length && sLen <= s.Length && d != s
    modifies d
    ensures var m := if dLen < sLen then dLen else sLen;
      Val(d[off..off + dLen]) + c * Pb(dLen) == Val(old(d[off..off + dLen])) + Val(old(s[..m])) * b
    ensures d[..off] == old(d[..off]) && d[off + dLen..] == old(d[off + dLen..])
  {
    hide Val, Pb;
    BasePos();
    var m := if dLen < sLen then dLen else sLen;
    var excess: nat, x8: nat, x1: nat := dLen - m, m / 8, m % 8;
    ghost var d0 := d[off..off + dLen];
    ghost var sp := s[..m] + Zeros(dLen - m);
    c := 0;
    var pos := 0;
    MlaInvStart(d0, sp, b);
    while x8 > 0
      invariant pos + 8 * x8 + x1 == m
      invariant MlaInv(d[off..off + dLen], d0, sp, b, c, pos)
      invariant d[..off] == old(d[..off]) && d[off + dLen..] == old(d[off + dLen..])
    {
      for k := 0 to 8
        invariant pos + 8 - k + 8 * (x8 - 1) + x1 == m
        invariant MlaInv(d[off..off + dLen], d0, sp, b, c, pos)
        invariant d[..off] == old(d[..off]) && d[off + dLen..] == old(d[off + dLen..])
      {
        c := MlaStep(d, off, pos, s[pos], b, c, d0, sp);
        pos := pos + 1;
      }
      x8 := x8 - 1;
    }
    while x1 > 0
      invariant pos + x1 == m
      invariant MlaInv(d[off..off + dLen], d0, sp, b, c, pos)
      invariant d[..off] == old(d[..off]) && d[off + dLen..] == old(d[off + dLen..])
    {
      c := MlaStep(d, off, pos, s[pos], b, c, d0, sp);
      pos, x1 := pos + 1, x1 - 1;
    }
    while excess > 0
      invariant pos + excess == dLen && pos >= m
      invariant MlaInv(d[off..off + dLen], d0, sp, b, c, pos)
      invariant d[..off] == old(d[..off]) && d[off + dLen..] == old(d[off + dLen..])
    {
      c := ExcessStep(d, off, pos, b, c, d0, sp);
      pos, excess := pos + 1, excess - 1;
    }
    ValPadded(s[..m], dLen - m);
    assert d[off..off + dLen][..dLen] == d[off..off + dLen];
    assert d0[..dLen] == d0 && sp[..dLen] == sp;
  }

  lemma MlaInvStart(d: seq<limb>, s: seq<limb>, b: limb)
    requires |d| == |s|
    ensures MlaInv(d, d, s, b, 0, 0)
  {
    BasePos();
    ValEmpty(d[..0]);
    ValEmpty(s[..0]);
  }

  // ---- bit lengths ----

  lemma TopBitClear(a: limb, j: nat)
    requires j < LIMB_BITS && a < Pow2(LIMB_BITS - j) && a / Pow2(LIMB_BITS - 1 - j) % 2 == 0
    ensures a < Pow2(LIMB_BITS - j - 1)
  {
    var m := Pow2(LIMB_BITS - 1 - j);
    assert Pow2(LIMB_BITS - j) == 2 * m;
    DivMod(a, m);
    MulCancelLt(a / m, 2, m);
    assert a / m == 0;
  }

  lemma TopBitSet(a: limb, j: nat)
    requires j < LIMB_BITS && a / Pow2(LIMB_BITS - 1 - j) % 2 == 1
    ensures a >= Pow2(LIMB_BITS - j - 1)
  {
    var m := Pow2(LIMB_BITS - 1 - j);
    DivMod(a, m);
    assert a / m >= 1;
    MulMonotone(m, 1, a / m);
  }

  /** Leading zeros of a limb, by a mask that moves down from the top bit. */
  method CoreClz(a: limb) returns (j: nat)
    ensures j == LIMB_BITS - BitLen(a)
  {
    hide Pow2;
    j := 0;
    while j < LIMB_BITS
      invariant j <= LIMB_BITS && a < Pow2(LIMB_BITS - j)
    {
      if a / Pow2(LIMB_BITS - 1 - j) % 2 != 0 {
        TopBitSet(a, j);
        BitLenUnique(a, LIMB_BITS - j);
        return;
      }
      TopBitClear(a, j);
      j := j + 1;
    }
    BitLenUnique(a, 0);
  }

  lemma BitLenOfLimbs(s: seq<limb>, i: nat)
    requires i < |s| && (forall k :: i < k < |s| ==> s[k] == 0) && (i > 0 ==> s[i] != 0)
    ensures BitLen(Val(s)) == i * LIMB_BITS + BitLen(s[i])
  {
    hide Val, Pow, BitLen;
    ValTrim(s, i + 1);
    ValStep(s, i);
    ValBound(s[..i]);
    PowPow(2, LIMB_BITS, i);
    var p, x, k := Pb(i), s[i], BitLen(s[i]);
    BitLenBounds(x);
    assert p == Pow2(i * LIMB_BITS) by { MulMonotone(i, 0, LIMB_BITS); }
    PowAdd(2, i * LIMB_BITS, k);
    MulMonotone(p, x as int + 1, Pow2(k));
    Distribute(x, 1, p);
    if x > 0 {
      PowAdd(2, i * LIMB_BITS, k - 1);
      MulMonotone(p, Pow2(k - 1), x);
    } else {
      ValEmpty(s[..0]);
      BitLenUnique(0, 0);
    }
    BitLenUnique(Val(s), i * LIMB_BITS + k);
  }

  method CoreBitlen(A: array<limb>) returns (r: nat)
    ensures r == BitLen(Val(A[..]))
  {
    hide Val, BitLen;
    if A.Length == 0 {
      ValEmpty(A[..]);
      BitLenUnique(0, 0);
      return 0;
    }
    var i := A.Length - 1;
    while i > 0
      invariant 0 <= i < A.Length
      invariant forall k :: i < k < A.Length ==> A[k] == 0
    {
      if A[i] != 0 {
        break;
      }
      i := i - 1;
    }
    var z := CoreClz(A[i]);
    BitLenOfLimbs(A[..], i);
    return i * LIMB_BITS + (LIMB_BITS - z);
  }
}
