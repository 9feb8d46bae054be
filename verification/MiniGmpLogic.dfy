/** Bitwise operations on sign-magnitude numbers, as if in infinite two's complement. */
module MiniGmpLogic {
  import opened Arith
  import opened Limbs
  import opened BignumCore
  import opened MiniGmpDiv
  import opened MiniGmpMpz

  // ---- bits of integers ----

  /** Bit m of z in infinite two's complement. */
  predicate Bit(z: int, m: nat) {
    z / Pow2(m) % 2 == 1
  }

  datatype LogicOp = And | Ior | Xor

  /** The operation on single bits. */
  predicate Apply(op: LogicOp, a: bool, b: bool) {
    match op
    case And => a && b
    case Ior => a || b
    case Xor => a != b
  }

  lemma BitLow(z: int)
    ensures Bit(z, 0) <==> z % 2 == 1
  {
    assert Pow2(0) == 1;
  }

  /** Bits above position a are those of the quotient by 2^a. */
  lemma BitOfQuotient(z: int, a: nat, b: nat)
    ensures Bit(z, a + b) == Bit(z / Pow2(a), b)
  {
    hide Pow2;
    PowTwoAdd(a, b);
    DivDiv(z, Pow2(a), Pow2(b));
  }

  lemma EvenMultiple(x: int, k: int, p: int)
    ensures (x + k * (2 * p)) % 2 == x % 2
  {
    assert k * (2 * p) == 2 * (k * p);
    DivMod(x, 2);
    DivModUnique(x + k * (2 * p), 2, x / 2 + k * p, x % 2);
  }

  /** Bits below position n do not see a multiple of 2^n. */
  lemma BitBelow(z: int, k: int, n: nat, m: nat)
    requires m < n
    ensures Bit(z + k * Pow2(n), m) == Bit(z, m)
  {
    var p, q := Pow2(m), Pow2(n - m - 1);
    PowTwoAdd(m, n - m);
    assert Pow2(n - m) == 2 * q;
    DivMod(z, p);
    assert k * Pow2(n) == k * (2 * q) * p by { MulCommutes(p, 2 * q); MulAssoc(k, 2 * q, p); }
    Distribute(z / p, k * (2 * q), p);
    DivModUnique(z + k * Pow2(n), p, z / p + k * (2 * q), z % p);
    EvenMultiple(z / p, k, q);
  }

  /** The bits of a limb sequence's value are the bits of its limbs. */
  lemma BitOfVal(w: seq<limb>, j: nat, b: nat)
    requires j < |w| && b < LIMB_BITS
    ensures Bit(Val(w), j * LIMB_BITS + b) == Bit(w[j], b)
  {
    hide Val, Pb, Bit, Pow2;
    ValSplit(w, j);
    ValBound(w[..j]);
    ValHead(w[j..]);
    MulCommutes(Pb(j), Val(w[j..]));
    DivModUnique(Val(w), Pb(j), Val(w[j..]), Val(w[..j]));
    PbIsPow2(j);
    BitOfQuotient(Val(w), j * LIMB_BITS, b);
    BaseIsPow2();
    MulCommutes(BASE, Val(w[j..][1..]));
    BitBelow(w[j], Val(w[j..][1..]), LIMB_BITS, b);
  }

  /** w holds the low limbs of z. */
  ghost predicate LowLimbs(z: int, w: seq<limb>) {
    exists k: int :: z == Val(w) + k * Pb(|w|)
  }

  /** w and the sign are z in two's complement. */
  ghost predicate IsTwos(z: int, w: seq<limb>, neg: bool) {
    z == Val(w) - if neg then Pb(|w|) else 0
  }

  /** Bit m is bit b of limb j. */
  lemma LimbIndex(m: nat, n: nat) returns (j: nat, b: nat)
    requires m < n * LIMB_BITS
    ensures m == j * LIMB_BITS + b && b < LIMB_BITS && j < n
  {
    hide *;
    BaseFacts();
    j, b := SplitIndex(m, n, LIMB_BITS);
  }

  lemma SplitIndex(m: nat, n: nat, l: nat) returns (j: nat, b: nat)
    requires l > 0 && m < n * l
    ensures m == j * l + b && b < l && j < n
  {
    DivMod(m, l);
    j, b := m / l, m % l;
    MulCancelLt(j, n, l);
  }

  lemma LowBit(z: int, w: seq<limb>, j: nat, b: nat)
    requires LowLimbs(z, w) && j < |w| && b < LIMB_BITS
    ensures Bit(z, j * LIMB_BITS + b) == Bit(w[j], b)
  {
    hide Val, Pb, Bit, Pow2;
    var k: int :| z == Val(w) + k * Pb(|w|);
    PbIsPow2(|w|);
    MulMonotone(LIMB_BITS, j + 1, |w|);
    Distribute(j, 1, LIMB_BITS);
    BitBelow(Val(w), k, |w| * LIMB_BITS, j * LIMB_BITS + b);
    BitOfVal(w, j, b);
  }

  lemma HighBit(z: int, w: seq<limb>, neg: bool, m: nat)
    requires IsTwos(z, w, neg) && m >= |w| * LIMB_BITS
    ensures Bit(z, m) == neg
  {
    hide Val, Pb;
    ValBound(w);
    PbIsPow2(|w|);
    Pow2Monotone(|w| * LIMB_BITS, m);
    if neg {
      DivModUnique(z, Pow2(m), -1, z + Pow2(m));
    } else {
      DivModUnique(z, Pow2(m), 0, z);
    }
  }

  // ---- bitwise operations on words ----

  function BitToNat(b: bool): nat {
    if b then 1 else 0
  }

  /** The operation on the low n bits of two numbers. */
  function Bitwise(op: LogicOp, x: nat, y: nat, n: nat): (r: nat)
    ensures r < Pow2(n)
  {
    if n == 0 then 0
    else BitToNat(Apply(op, x % 2 == 1, y % 2 == 1)) + 2 * Bitwise(op, x / 2, y / 2, n - 1)
  }

  lemma BitNext(e: nat, q: nat, j: nat)
    requires e < 2
    ensures Bit(e + 2 * q, j + 1) == Bit(q, j)
  {
    hide Bit;
    DivModUnique(e + 2 * q, 2, q, e);
    BitOfQuotient(e + 2 * q, 1, j);
    assert Pow2(1) == 2;
  }

  lemma {:induction false} BitwiseBit(op: LogicOp, x: nat, y: nat, n: nat, j: nat)
    requires j < n
    ensures Bit(Bitwise(op, x, y, n), j) == Apply(op, Bit(x, j), Bit(y, j))
  {
    hide Bit, Apply, Pow2;
    var e := BitToNat(Apply(op, x % 2 == 1, y % 2 == 1));
    var q := Bitwise(op, x / 2, y / 2, n - 1);
    assert Bitwise(op, x, y, n) == e + 2 * q;
    hide Bitwise;
    if j == 0 {
      BitLow(x);
      BitLow(y);
      BitLow(e + 2 * q);
    } else {
      BitwiseBit(op, x / 2, y / 2, n - 1, j - 1);
      BitNext(e, q, j - 1);
      BitNext(x % 2, x / 2, j - 1);
      BitNext(y % 2, y / 2, j - 1);
    }
  }

  /** Exclusive or with no bits and with all bits. */
  lemma {:induction false} XorMask(x: nat, n: nat)
    requires x < Pow2(n)
    ensures Bitwise(Xor, x, 0, n) == x && Bitwise(Xor, x, Pow2(n) - 1, n) == Pow2(n) - 1 - x
  {
    if n > 0 {
      XorMask(x / 2, n - 1);
      assert Pow2(n) == 2 * Pow2(n - 1);
      assert (Pow2(n) - 1) / 2 == Pow2(n - 1) - 1;
    }
  }

  function LimbOp(op: LogicOp, x: limb, y: limb): limb {
    Bitwise(op, x, y, LIMB_BITS)
  }

  /** All ones for a negative number, else no bits: the code's -c for a flag c. */
  function Mask(neg: bool): limb {
    BasePos();
    if neg then BASE - 1 else 0
  }

  lemma MaskIs(c: limb, neg: bool)
    requires c == BitToNat(neg)
    ensures Wrap(-(c as int)) == Mask(neg)
  {
    WrapIs(-(c as int), if neg then -1 else 0, Mask(neg));
  }

  lemma XorLimb(x: limb, neg: bool)
    ensures LimbOp(Xor, x, Mask(neg)) == if neg then BASE - 1 - x else x
  {
    BaseIsPow2();
    XorMask(x, LIMB_BITS);
  }

  /** Limb by limb, r is u op v. */
  ghost predicate Combined(op: LogicOp, u: seq<limb>, v: seq<limb>, r: seq<limb>) {
    && |u| == |v| == |r|
    && forall j: nat :: j < |r| ==> r[j] == LimbOp(op, u[j], v[j])
  }

  /** The high bits of u op v are all equal to rneg. */
  ghost predicate HighBitsAgree(op: LogicOp, U: int, V: int, rneg: bool, from: nat) {
    forall m: nat :: m >= from ==> Apply(op, Bit(U, m), Bit(V, m)) == rneg
  }

  /** R is the bitwise combination of U and V. */
  ghost predicate IsBitwise(op: LogicOp, U: int, V: int, R: int) {
    forall m: nat :: Bit(R, m) == Apply(op, Bit(U, m), Bit(V, m))
  }

  lemma BitwiseResult(op: LogicOp, U: int, V: int, R: int, uw: seq<limb>, vw: seq<limb>, rw: seq<limb>, rneg: bool)
    requires LowLimbs(U, uw) && LowLimbs(V, vw) && IsTwos(R, rw, rneg) && Combined(op, uw, vw, rw)
    requires HighBitsAgree(op, U, V, rneg, |rw| * LIMB_BITS)
    ensures IsBitwise(op, U, V, R)
  {
    hide Val, Pb, Bit, Apply, LowLimbs, Pow2, LimbOp, IsTwos, Bitwise;
    forall m: nat
      ensures Bit(R, m) == Apply(op, Bit(U, m), Bit(V, m))
    {
      if m < |rw| * LIMB_BITS {
        var j, b := LimbIndex(m, |rw|);
        TwosIsLow(R, rw, rneg);
        LowResultBit(op, U, V, R, uw, vw, rw, j, b, m);
      } else {
        HighBit(R, rw, rneg, m);
      }
    }
  }

  lemma LowResultBit(op: LogicOp, U: int, V: int, R: int, uw: seq<limb>, vw: seq<limb>, rw: seq<limb>, j: nat, b: nat, m: nat)
    requires LowLimbs(U, uw) && LowLimbs(V, vw) && LowLimbs(R, rw) && Combined(op, uw, vw, rw)
    requires j < |rw| && b < LIMB_BITS && m == j * LIMB_BITS + b
    ensures Bit(R, m) == Apply(op, Bit(U, m), Bit(V, m))
  {
    hide Bit, Apply, LowLimbs, LimbOp;
    LowBit(U, uw, j, b);
    LowBit(V, vw, j, b);
    LowBit(R, rw, j, b);
    LimbOpBit(op, uw[j], vw[j], b);
  }

  lemma LimbOpBit(op: LogicOp, x: limb, y: limb, b: nat)
    requires b < LIMB_BITS
    ensures Bit(LimbOp(op, x, y), b) == Apply(op, Bit(x, b), Bit(y, b))
  {
    hide Bit, Apply, Bitwise;
    BitwiseBit(op, x, y, LIMB_BITS, b);
  }

  lemma TwosIsLow(z: int, w: seq<limb>, neg: bool)
    requires IsTwos(z, w, neg)
    ensures LowLimbs(z, w)
  {
    hide Val, Pb;
    LowLimbsIntro(z, w, if neg then -1 else 0);
  }

  lemma LowLimbsIntro(z: int, w: seq<limb>, k: int)
    requires z == Val(w) + k * Pb(|w|)
    ensures LowLimbs(z, w)
  {
  }

  // ---- negation on the fly ----

  /** w is x, or minus x in two's complement with c the pending increment. */
  ghost predicate Negated(neg: bool, x: seq<limb>, w: seq<limb>, c: limb) {
    && |x| == |w| && c <= 1
    && if neg then Val(w) + Val(x) == (1 - c) * Pb(|x|) else c == 0 && Val(w) == Val(x)
  }

  lemma NegatedStart(neg: bool)
    ensures BASE > 1 && Negated(neg, [], [], BitToNat(neg))
  {
    BaseFacts();
    ValEmpty([]);
  }

  /** (x ^ mask) + c with its carry. */
  method NegateLimb(x: limb, mask: limb, c: limb, ghost neg: bool) returns (l: limb, c': limb)
    requires mask == Mask(neg) && c <= BitToNat(neg)
    ensures neg ==> l + x == BASE - 1 + c - c' * BASE
    ensures !neg ==> l == x
    ensures c' <= BitToNat(neg)
  {
    hide LimbOp, Wrap;
    BasePos();
    XorLimb(x, neg);
    var t := LimbOp(Xor, x, mask);
    WrapAdd(t, c);
    l := Wrap(t + c);
    c' := if l < c then 1 else 0;
  }

  lemma NegatedStep(neg: bool, x: seq<limb>, w: seq<limb>, c: limb, d: limb, l: limb, c': limb)
    requires Negated(neg, x, w, c) && c' <= BitToNat(neg)
    requires neg ==> l + d == BASE - 1 + c - c' * BASE
    requires !neg ==> l == d
    ensures Negated(neg, x + [d], w + [l], c')
  {
    hide Val, Pb;
    ValSnoc(x, d);
    ValSnoc(w, l);
    PbStep(|x|);
    if neg {
      NegatedInts(Val(x), Val(w), c, d, l, c', Pb(|x|), BASE);
    }
  }

  lemma NegatedInts(vx: int, vw: int, c: int, d: int, l: int, c': int, p: int, b: int)
    requires vw + vx == (1 - c) * p && l + d == b - 1 + c - c' * b
    ensures (vw + l * p) + (vx + d * p) == (1 - c') * (b * p)
  {
    assert (l + d) * p == (b - 1 + c - c' * b) * p;
  }

  // ---- bit test ----

  /** The bits of minus a number: complemented above the lowest set bit. */
  lemma NegatedBit(h: nat, lo: nat, m: nat)
    requires lo < Pow2(m)
    ensures Bit(h * Pow2(m) + lo, m) == (h % 2 == 1)
    ensures Bit(0 - (h * Pow2(m) + lo), m) == ((h % 2 == 1) != (lo != 0))
  {
    hide Pow2;
    DivModUnique(h * Pow2(m) + lo, Pow2(m), h, lo);
    if lo == 0 {
      DivModUnique(0 - h * Pow2(m), Pow2(m), 0 - h, 0);
    } else {
      Distribute(0 - h, 1, Pow2(m));
      DivModUnique(0 - (h * Pow2(m) + lo), Pow2(m), 0 - h - 1, Pow2(m) - lo);
    }
  }

  /** A number split at bit b of limb j. */
  lemma SplitAtBit(w: seq<limb>, j: nat, b: nat) returns (h: nat, lo: nat)
    requires j < |w| && b < LIMB_BITS
    ensures Val(w) == h * Pow2(j * LIMB_BITS + b) + lo && lo < Pow2(j * LIMB_BITS + b)
    ensures h % 2 == Shr(w[j], b) % 2
    ensures lo == 0 <==> Val(w[..j]) == 0 && LowBits(w[j], b) == 0
  {
    hide Val, Pb, Pow2, Bit, Shr, LowBits, Shl;
    ValSplit(w, j);
    ValBound(w[..j]);
    ValHead(w[j..]);
    PbIsPow2(j);
    BaseIsPow2();
    ShrParts(w[j], b);
    PowTwoAdd(j * LIMB_BITS, b);
    PowTwoAdd(b, LIMB_BITS - b);
    var q: nat := Pow2(LIMB_BITS - b);
    var rest: nat := Val(w[j..][1..]);
    h, lo := SplitInts(Val(w[..j]), Pb(j), w[j], rest, Pow2(b), q, Shr(w[j], b), LowBits(w[j], b));
    PowTwoAdd(1, LIMB_BITS - b - 1);
    EvenPower(LIMB_BITS - b);
    EvenPart(Shr(w[j], b), rest, q);
  }

  lemma EvenPower(k: nat)
    requires k > 0
    ensures Pow2(k) % 2 == 0
  {
    assert Pow2(k) == 2 * Pow2(k - 1);
  }

  lemma EvenPart(s: nat, rest: nat, q: nat)
    requires q % 2 == 0
    ensures (s + rest * q) % 2 == s % 2
  {
    assert q == 2 * (q / 2);
    EvenMultiple(s, rest, q / 2);
  }

  lemma SplitInts(v: nat, p: nat, x: nat, rest: nat, c: nat, q: nat, s: nat, l: nat) returns (h: nat, lo: nat)
    requires v < p && x == s * c + l && l < c
    ensures v + p * (x + c * q * rest) == h * (p * c) + lo && lo < p * c
    ensures h == s + rest * q && lo == v + p * l
    ensures lo == 0 <==> v == 0 && l == 0
  {
    SplitProduct(p, c, q, rest, s, l);
    NatProduct(rest, q);
    NatProduct(p, l);
    h, lo := s + rest * q, v + p * l;
    MulMonotone(p, l + 1, c);
    Distribute(l, 1, p);
    if l > 0 {
      MulMonotone(p, 1, l);
    }
  }

  lemma NatProduct(x: nat, y: nat)
    ensures x * y >= 0
  {
  }

  lemma SplitProduct(p: int, c: int, q: int, rest: int, s: int, l: int)
    ensures p * (s * c + l + c * q * rest) == (s + rest * q) * (p * c) + p * l
  {
    Distribute(s, rest * q, p * c);
    Distribute(s * c + l, c * q * rest, p);
    Distribute(s * c, l, p);
    assert p * (s * c) == s * (p * c);
    RegroupFour(p, c, q, rest);
  }

  lemma RegroupFour(p: int, c: int, q: int, r: int)
    ensures p * (c * q * r) == r * q * (p * c)
  {
    MulAssoc(c, q, r);
    MulAssoc(p, c, q * r);
    MulCommutes(q, r);
    MulCommutes(p * c, r * q);
  }

  /** Whether the limbs below n are all zero. */
  method LowerLimbsZero(d: array<limb>, n: nat) returns (zero: bool)
    requires n <= d.Length
    ensures zero <==> Val(d[..n]) == 0
  {
    hide Val;
    var i := n;
    while i > 0
      invariant 0 <= i <= n && forall k :: i <= k < n ==> d[k] == 0
    {
      i := i - 1;
      if d[i] > 0 {
        assert d[..n][i] != 0;
        ValZeroIff(d[..n]);
        return false;
      }
    }
    ValZeros(d[..n]);
    return true;
  }

  /** Bit b of limb j of a magnitude decides the bit of the number, below its size. */
  lemma SignedBit(w: seq<limb>, j: nat, b: nat)
    requires j < |w| && b < LIMB_BITS
    ensures Bit(Val(w), j * LIMB_BITS + b) == (Shr(w[j], b) % 2 == 1)
    ensures Bit(0 - Val(w), j * LIMB_BITS + b)
         == ((Shr(w[j], b) % 2 == 1) != !(Val(w[..j]) == 0 && LowBits(w[j], b) == 0))
  {
    hide *;
    var h, lo := SplitAtBit(w, j, b);
    NegatedBit(h, lo, j * LIMB_BITS + b);
  }

  /** mpz_tstbit. */
  method TstBit(z: Mpz, bitIndex: nat) returns (bit: bool)
    requires z.Valid()
    ensures bit == Bit(z.Value(), bitIndex)
  {
    hide Val, Pb, Pow2, Bit, Shr, LowBits, Shl;
    BaseFacts();
    ghost var w := z.Magnitude();
    var dn := Abs(z.size);
    var limbIndex, shift := SplitBitIndex(bitIndex);
    if limbIndex >= dn {
      IndexBeyond(dn, limbIndex, shift);
      BitBeyond(z, bitIndex);
      return z.size < 0;
    }
    var x := z.d[limbIndex];
    assert w[limbIndex] == x && w[..limbIndex] == z.d[..limbIndex];
    bit := Shr(x, shift) % 2 == 1;
    SignedBit(w, limbIndex, shift);
    if z.size < 0 {
      LowBitsTest(x, shift);
      if shift > 0 && Shl(x, LIMB_BITS - shift) > 0 {
        return !bit;
      }
      var zero := LowerLimbsZero(z.d, limbIndex);
      if !zero {
        return !bit;
      }
    }
  }

  method SplitBitIndex(m: nat) returns (j: nat, b: nat)
    ensures m == j * LIMB_BITS + b && b < LIMB_BITS
  {
    hide *;
    BaseFacts();
    DivMod(m, LIMB_BITS);
    j, b := m / LIMB_BITS, m % LIMB_BITS;
  }

  lemma IndexBeyond(n: nat, j: nat, b: nat)
    requires j >= n
    ensures j * LIMB_BITS + b >= n * LIMB_BITS
  {
    MulMonotone(LIMB_BITS, n, j);
  }

  lemma LowBitsTest(x: limb, shift: nat)
    requires shift < LIMB_BITS
    ensures shift == 0 ==> LowBits(x, shift) == 0
    ensures LowBits(x, shift) == 0 <==> Shl(x, LIMB_BITS - shift) == 0
  {
    hide Shl, Shr;
    ShrParts(x, shift);
    BasePos();
    if shift == 0 {
      PowTwoZero();
    }
    if LowBits(x, shift) > 0 {
      MulMonotone(BASE, 1, LowBits(x, shift));
    }
    if Shl(x, LIMB_BITS - shift) > 0 {
      MulMonotone(Pow2(shift), 1, Shl(x, LIMB_BITS - shift));
    }
  }

  /** Beyond the limbs there is only the sign. */
  lemma BitBeyond(z: Mpz, m: nat)
    requires z.Valid() && m >= Abs(z.size) * LIMB_BITS
    ensures Bit(z.Value(), m) == (z.size < 0)
  {
    hide Val, Pb, Bit, Pow2;
    var w := z.Magnitude();
    ValBound(w);
    PbIsPow2(|w|);
    Pow2Monotone(|w| * LIMB_BITS, m);
    NegatedBit(0, Val(w), m);
    MagnitudePositive(z);
  }

  // ---- and, or, exclusive or ----

  lemma CombinedSnoc(op: LogicOp, u: seq<limb>, v: seq<limb>, r: seq<limb>, x: limb, y: limb)
    requires Combined(op, u, v, r)
    ensures Combined(op, u + [x], v + [y], r + [LimbOp(op, x, y)])
  {
    hide LimbOp;
  }

  /** Two streams negated on the fly, combined, and the result negated on the fly. */
  ghost predicate Streams(op: LogicOp, us: seq<limb>, rs: seq<limb>, uw: seq<limb>, vw: seq<limb>, rw: seq<limb>,
                          uneg: bool, rneg: bool, uc: limb, rc: limb) {
    && Negated(uneg, us, uw, uc) && Combined(op, uw, vw, rw) && Negated(rneg, rw, rs, rc)
    && uc <= BitToNat(uneg) && rc <= BitToNat(rneg)
  }

  lemma StreamsStep(op: LogicOp, us: seq<limb>, rs: seq<limb>, uw: seq<limb>, vw: seq<limb>, rw: seq<limb>,
                    uneg: bool, rneg: bool, uc: limb, rc: limb, d: limb, ul: limb, vl: limb, rl: limb, uc': limb, rc': limb)
    requires Streams(op, us, rs, uw, vw, rw, uneg, rneg, uc, rc)
    requires uc' <= BitToNat(uneg) && (if uneg then ul + d == BASE - 1 + uc - uc' * BASE else ul == d)
    requires rc' <= BitToNat(rneg)
    requires if rneg then rl + LimbOp(op, ul, vl) == BASE - 1 + rc - rc' * BASE else rl == LimbOp(op, ul, vl)
    ensures Streams(op, us + [d], rs + [rl], uw + [ul], vw + [vl], rw + [LimbOp(op, ul, vl)], uneg, rneg, uc', rc')
  {
    hide LimbOp, Negated, Combined;
    NegatedStep(uneg, us, uw, uc, d, ul, uc');
    NegatedStep(rneg, rw, rs, rc, LimbOp(op, ul, vl), rl, rc');
    CombinedSnoc(op, uw, vw, rw, ul, vl);
  }

  lemma StreamsStart(op: LogicOp, uneg: bool, vneg: bool, rneg: bool)
    ensures BASE > 1 && Streams(op, [], [], [], [], [], uneg, rneg, BitToNat(uneg), BitToNat(rneg))
    ensures Negated(vneg, [], [], BitToNat(vneg))
  {
    NegatedStart(uneg);
    NegatedStart(vneg);
    NegatedStart(rneg);
  }

  lemma StreamsCarries(op: LogicOp, us: seq<limb>, rs: seq<limb>, uw: seq<limb>, vw: seq<limb>, rw: seq<limb>,
                       uneg: bool, rneg: bool, uc: limb, rc: limb)
    requires Streams(op, us, rs, uw, vw, rw, uneg, rneg, uc, rc)
    ensures uc <= BitToNat(uneg) && rc <= BitToNat(rneg)
    ensures |us| == |rs| == |uw| == |vw| == |rw|
  {
  }

  /** The limbs that both numbers have. */
  method CombineLow(op: LogicOp, up: array<limb>, vp: array<limb>, rp: array<limb>, vn: nat, uneg: bool, vneg: bool, rneg: bool)
    returns (uc: limb, vc: limb, rc: limb, ghost uw: seq<limb>, ghost vw: seq<limb>, ghost rw: seq<limb>)
    requires vn <= up.Length && vn <= vp.Length && vn <= rp.Length
    modifies rp
    ensures Streams(op, old(up[..vn]), rp[..vn], uw, vw, rw, uneg, rneg, uc, rc)
    ensures Negated(vneg, old(vp[..vn]), vw, vc)
    ensures rp[vn..] == old(rp[vn..])
  {
    hide *;
    BasePos();
    StreamsStart(op, uneg, vneg, rneg);
    FlagBit(uneg); FlagBit(vneg); FlagBit(rneg);
    uc, vc, rc := BitToNat(uneg), BitToNat(vneg), BitToNat(rneg);
    MaskIs(uc, uneg); MaskIs(vc, vneg); MaskIs(rc, rneg);
    var ux, vx, rx := Wrap(-(uc as int)), Wrap(-(vc as int)), Wrap(-(rc as int));
    ghost var us, vs := up[..vn], vp[..vn];
    uw, vw, rw := [], [], [];
    var i := 0;
    assert us[..0] == [] && vs[..0] == [] && rp[..0] == [];
    while i < vn
      invariant i <= vn && vc <= BitToNat(vneg)
      invariant up[i..vn] == us[i..] && vp[i..vn] == vs[i..] && rp[vn..] == old(rp[vn..])
      invariant Streams(op, us[..i], rp[..i], uw, vw, rw, uneg, rneg, uc, rc)
      invariant Negated(vneg, vs[..i], vw, vc)
    {
      assert up[i] == up[i..vn][0] == us[i] && vp[i] == vp[i..vn][0] == vs[i];
      StreamsCarries(op, us[..i], rp[..i], uw, vw, rw, uneg, rneg, uc, rc);
      ghost var rs := rp[..i];
      var ul, uc' := NegateLimb(up[i], ux, uc, uneg);
      var vl, vc' := NegateLimb(vp[i], vx, vc, vneg);
      var rl, rc' := NegateLimb(LimbOp(op, ul, vl), rx, rc, rneg);
      StreamsStep(op, us[..i], rs, uw, vw, rw, uneg, rneg, uc, rc, us[i], ul, vl, rl, uc', rc');
      NegatedStep(vneg, vs[..i], vw, vc, vs[i], vl, vc');
      ghost var u0, v0 := up[..], vp[..];
      rp[i] := rl;
      assert rp[..i + 1] == rs + [rl] && us[..i + 1] == us[..i] + [us[i]] && vs[..i + 1] == vs[..i] + [vs[i]];
      RestKept(u0, up[..], i, vn, us, i, rl);
      RestKept(v0, vp[..], i, vn, vs, i, rl);
      uw, vw, rw := uw + [ul], vw + [vl], rw + [LimbOp(op, ul, vl)];
      uc, vc, rc, i := uc', vc', rc', i + 1;
    }
    assert us[..vn] == us && vs[..vn] == vs;
  }

  lemma FlagBit(b: bool)
    ensures BitToNat(b) == if b then 1 else 0
  {
  }

  /** One more sign limb changes nothing. */
  lemma SignExtend(z: int, w: seq<limb>, neg: bool)
    requires IsTwos(z, w, neg)
    ensures IsTwos(z, w + [Mask(neg)], neg)
  {
    hide Val, Pb;
    ValSnoc(w, Mask(neg));
    PbStep(|w|);
    Distribute(BASE, 1, Pb(|w|));
  }

  /** The higher limb of exclusive or: the result's mask and the shorter number's mask cancel to the longer one's. */
  lemma XorHigh(ul: limb, uneg: bool, vneg: bool)
    ensures LimbOp(Xor, ul, Mask(uneg)) == LimbOp(Xor, LimbOp(Xor, ul, Mask(vneg)), Mask(uneg != vneg))
  {
    hide LimbOp;
    XorLimb(ul, uneg);
    XorLimb(ul, vneg);
    XorLimb(LimbOp(Xor, ul, Mask(vneg)), uneg != vneg);
  }

  /** A limb of the result where the shorter number has only its sign; exclusive or is written with one mask. */
  method HighLimb(op: LogicOp, ul: limb, ux: limb, vx: limb, rx: limb, rc: limb, ghost uneg: bool, ghost vneg: bool, ghost rneg: bool)
    returns (rl: limb, rc': limb)
    requires ux == Mask(uneg) && vx == Mask(vneg) && rx == Mask(rneg) && rneg == Apply(op, uneg, vneg) && rc <= BitToNat(rneg)
    ensures rneg ==> rl + LimbOp(op, ul, vx) == BASE - 1 + rc - rc' * BASE
    ensures !rneg ==> rl == LimbOp(op, ul, vx)
    ensures rc' <= BitToNat(rneg)
  {
    hide LimbOp, Wrap, Mask;
    BasePos();
    XorLimb(LimbOp(op, ul, vx), rneg);
    var t;
    if op == Xor {
      XorHigh(ul, uneg, vneg);
      t := LimbOp(Xor, ul, ux);
    } else {
      t := LimbOp(Xor, LimbOp(op, ul, vx), rx);
    }
    WrapAdd(t, rc);
    rl := Wrap(t + rc);
    rc' := if rl < rc then 1 else 0;
  }

  /** The limbs that only the longer number has. */
  method CombineHigh(op: LogicOp, up: array<limb>, rp: array<limb>, vn: nat, rn: nat, uneg: bool, vneg: bool, rneg: bool,
                     uc0: limb, rc0: limb, ghost us0: seq<limb>, ghost V: int,
                     ghost uw0: seq<limb>, ghost vw0: seq<limb>, ghost rw0: seq<limb>)
    returns (uc: limb, rc: limb, ghost uw: seq<limb>, ghost vw: seq<limb>, ghost rw: seq<limb>)
    requires vn <= rn <= up.Length && rn <= rp.Length && rneg == Apply(op, uneg, vneg)
    requires Streams(op, us0, rp[..vn], uw0, vw0, rw0, uneg, rneg, uc0, rc0) && IsTwos(V, vw0, vneg)
    modifies rp
    ensures Streams(op, us0 + old(up[vn..rn]), rp[..rn], uw, vw, rw, uneg, rneg, uc, rc) && IsTwos(V, vw, vneg)
  {
    hide *;
    ghost var us := up[vn..rn];
    uc, rc, uw, vw, rw := uc0, rc0, uw0, vw0, rw0;
    var ux, vx, rx := Mask(uneg), Mask(vneg), Mask(rneg);
    var i := vn;
    assert us0 + us[..0] == us0;
    while i < rn
      invariant vn <= i <= rn && up[i..rn] == us[i - vn..]
      invariant Streams(op, us0 + us[..i - vn], rp[..i], uw, vw, rw, uneg, rneg, uc, rc) && IsTwos(V, vw, vneg)
    {
      ghost var j := i - vn;
      assert up[i] == up[i..rn][0] == us[j];
      StreamsCarries(op, us0 + us[..j], rp[..i], uw, vw, rw, uneg, rneg, uc, rc);
      ghost var rs := rp[..i];
      var ul, uc' := NegateLimb(up[i], ux, uc, uneg);
      var rl, rc' := HighLimb(op, ul, ux, vx, rx, rc, uneg, vneg, rneg);
      StreamsStep(op, us0 + us[..j], rs, uw, vw, rw, uneg, rneg, uc, rc, us[j], ul, vx, rl, uc', rc');
      SignExtend(V, vw, vneg);
      ghost var before := up[..];
      rp[i] := rl;
      assert rp[..i + 1] == rs + [rl] && us0 + us[..j + 1] == us0 + us[..j] + [us[j]];
      RestKept(before, up[..], i, rn, us, j, rl);
      uw, vw, rw := uw + [ul], vw + [vx], rw + [LimbOp(op, ul, vx)];
      uc, rc, i := uc', rc', i + 1;
    }
    assert us[..rn - vn] == us;
  }

  /** Writing limb i, to the same number or another, keeps the limbs above it. */
  lemma RestKept(before: seq<limb>, after: seq<limb>, i: nat, rn: nat, us: seq<limb>, j: nat, x: limb)
    requires i < rn <= |before| == |after| && j <= |us| && before[i..rn] == us[j..] && (after == before || after == before[i := x])
    ensures after[i + 1..rn] == us[j + 1..]
  {
    assert after[i + 1..rn] == before[i..rn][1..];
  }

  /** Stores the carry or drops zero limbs, and sets the sign. */
  method Finish(r: Mpz, n: nat, rc: limb, rneg: bool, ghost rw: seq<limb>)
    requires n + (if rneg then 1 else 0) <= r.d.Length && rc <= BitToNat(rneg) && Negated(rneg, rw, r.d[..n], rc)
    modifies r`size, r.d
    ensures r.Valid() && IsTwos(r.Value(), rw, rneg)
  {
    hide Val, Pb;
    ghost var v := r.d[..n];
    ValBound(rw);
    var k := n;
    if rc != 0 {
      r.d[n] := rc;
      k := n + 1;
      assert r.d[..k] == v + [rc];
      ValSnoc(v, rc);
    } else {
      k := NormalizedSize(r.d, n);
      ValEmpty(r.d[..0]);
    }
    r.size := if rneg then 0 - k else k;
    assert r.Magnitude() == r.d[..k];
  }

  /** The low limbs seen on the fly are the low limbs of the number. */
  lemma NegatedIsLow(mag: seq<limb>, n: nat, neg: bool, w: seq<limb>, c: limb)
    requires n <= |mag| && Negated(neg, mag[..n], w, c)
    ensures LowLimbs(Signed(neg, Val(mag)), w)
  {
    hide Val, Pb;
    ValSplit(mag, n);
    var h: nat := Val(mag[n..]);
    if neg {
      Distribute(0 - (1 - c), h, Pb(n));
      LowLimbsIntro(0 - Val(mag), w, 0 - (1 - c) - h);
    } else {
      LowLimbsIntro(Val(mag), w, h);
    }
  }

  /** A whole number seen on the fly leaves no carry. */
  lemma NegatedIsTwos(mag: seq<limb>, neg: bool, w: seq<limb>, c: limb)
    requires Negated(neg, mag, w, c) && Val(mag) > 0
    ensures c == 0 && IsTwos(Signed(neg, Val(mag)), w, neg)
  {
    hide Val, Pb;
  }

  /** From bit position n on, z shows only its sign. */
  ghost predicate SignFrom(z: int, neg: bool, n: nat) {
    forall m: nat :: m >= n ==> Bit(z, m) == neg
  }

  lemma SignBeyond(z: Mpz)
    requires z.Valid()
    ensures SignFrom(z.Value(), z.size < 0, Abs(z.size) * LIMB_BITS)
    ensures z.Value() == Signed(z.size < 0, Val(z.Magnitude()))
  {
    hide Val, Bit, Abs;
    forall m: nat | m >= Abs(z.size) * LIMB_BITS
      ensures Bit(z.Value(), m) == (z.size < 0)
    {
      BitBeyond(z, m);
    }
  }

  /** The result needs the limbs of both numbers, or those of the shorter when its sign decides the rest. */
  predicate ResultSize(op: LogicOp, vneg: bool, un: nat, vn: nat, rn: nat) {
    rn == match op
          case And => if vneg then un else vn
          case Ior => if vneg then vn else un
          case Xor => un
  }

  lemma SizeSuffices(op: LogicOp, U: int, V: int, uneg: bool, vneg: bool, un: nat, vn: nat, rn: nat)
    requires SignFrom(U, uneg, un * LIMB_BITS) && SignFrom(V, vneg, vn * LIMB_BITS) && vn <= un
    requires ResultSize(op, vneg, un, vn, rn)
    ensures vn <= rn <= un && HighBitsAgree(op, U, V, Apply(op, uneg, vneg), rn * LIMB_BITS)
  {
    hide Bit;
    MulMonotone(LIMB_BITS, vn, un);
  }

  /** Both loops. */
  method CombineLimbs(op: LogicOp, up: array<limb>, vp: array<limb>, rp: array<limb>, vn: nat, rn: nat,
                      uneg: bool, vneg: bool, rneg: bool, ghost V: int)
    returns (uc: limb, rc: limb, ghost uw: seq<limb>, ghost vw: seq<limb>, ghost rw: seq<limb>)
    requires vn <= rn <= up.Length && rn <= rp.Length && vn <= vp.Length && rneg == Apply(op, uneg, vneg)
    requires V == Signed(vneg, Val(vp[..vn])) && Val(vp[..vn]) > 0
    modifies rp
    ensures Streams(op, old(up[..rn]), rp[..rn], uw, vw, rw, uneg, rneg, uc, rc) && IsTwos(V, vw, vneg)
  {
    hide *;
    ghost var um, vm := up[..rn], vp[..vn];
    assert um[..vn] == up[..vn] && um[vn..] == up[vn..rn];
    var vc;
    uc, vc, rc, uw, vw, rw := CombineLow(op, up, vp, rp, vn, uneg, vneg, rneg);
    NegatedIsTwos(vm, vneg, vw, vc);
    assert um[vn..] == up[vn..rn] by { assert rp == up ==> up[vn..][..rn - vn] == um[vn..]; }
    uc, rc, uw, vw, rw := CombineHigh(op, up, rp, vn, rn, uneg, vneg, rneg, uc, rc, um[..vn], V, uw, vw, rw);
    assert um[..vn] + um[vn..] == um;
  }

  /** The common part of mpz_and, mpz_ior and mpz_xor; r may be one of the operands. */
  method Combine(op: LogicOp, r: Mpz, u: Mpz, v: Mpz, rn: nat)
    requires r.Valid() && u.Valid() && v.Valid() && (u != r ==> u.d != r.d) && (v != r ==> v.d != r.d)
    requires 0 < Abs(v.size) <= Abs(u.size) && ResultSize(op, v.size < 0, Abs(u.size), Abs(v.size), rn)
    modifies r, r.d
    ensures r.Valid() && IsBitwise(op, old(u.Value()), old(v.Value()), r.Value())
    ensures r.d == old(r.d) || fresh(r.d)
  {
    hide Val, Pb, Bit, Apply, Streams, Negated, Combined, LowLimbs, IsTwos, HighBitsAgree, SignFrom, ResultSize, IsBitwise;
    ghost var U, V, um, vm := u.Value(), v.Value(), u.Magnitude(), v.Magnitude();
    var un, vn := Abs(u.size), Abs(v.size);
    var uneg, vneg := u.size < 0, v.size < 0;
    var rneg := Apply(op, uneg, vneg);
    SignBeyond(u);
    SignBeyond(v);
    MagnitudePositive(v);
    SizeSuffices(op, U, V, uneg, vneg, un, vn, rn);
    r.Realloc(rn + if rneg then 1 else 0);
    assert u.Magnitude() == um && v.Magnitude() == vm;
    var up, vp, rp := u.d, v.d, r.d;
    assert up[..rn] == um[..rn] && vp[..vn] == vm;
    var uc, rc;
    ghost var uw, vw, rw;
    uc, rc, uw, vw, rw := CombineLimbs(op, up, vp, rp, vn, rn, uneg, vneg, rneg, V);
    StreamsParts(op, um[..rn], r.d[..rn], uw, vw, rw, uneg, rneg, uc, rc);
    NegatedIsLow(um, rn, uneg, uw, uc);
    TwosIsLow(V, vw, vneg);
    Finish(r, rn, rc, rneg, rw);
    BitwiseResult(op, U, V, r.Value(), uw, vw, rw, rneg);
  }

  lemma StreamsParts(op: LogicOp, us: seq<limb>, rs: seq<limb>, uw: seq<limb>, vw: seq<limb>, rw: seq<limb>,
                     uneg: bool, rneg: bool, uc: limb, rc: limb)
    requires Streams(op, us, rs, uw, vw, rw, uneg, rneg, uc, rc)
    ensures Negated(uneg, us, uw, uc) && Combined(op, uw, vw, rw) && Negated(rneg, rw, rs, rc)
    ensures rc <= BitToNat(rneg) && |rw| == |rs|
  {
  }

  lemma BitwiseSwap(op: LogicOp, U: int, V: int, R: int)
    requires IsBitwise(op, U, V, R)
    ensures IsBitwise(op, V, U, R)
  {
    hide Bit;
  }

  /** An operand of zero. */
  lemma BitwiseZero(op: LogicOp, U: int)
    ensures IsBitwise(op, U, 0, if op == And then 0 else U)
  {
    hide Pow2;
    forall m: nat
      ensures !Bit(0, m)
    {
      DivModUnique(0, Pow2(m), 0, 0);
    }
  }

  /** The three operations bit by bit. */
  lemma BitwiseBits(U: int, V: int, R: int)
    ensures IsBitwise(And, U, V, R) ==> forall m: nat :: Bit(R, m) == (Bit(U, m) && Bit(V, m))
    ensures IsBitwise(Ior, U, V, R) ==> forall m: nat :: Bit(R, m) == (Bit(U, m) || Bit(V, m))
    ensures IsBitwise(Xor, U, V, R) ==> forall m: nat :: Bit(R, m) == (Bit(U, m) != Bit(V, m))
  {
    hide Bit;
  }

  /** mpz_and; r may be u or v. */
  method MpzAnd(r: Mpz, u: Mpz, v: Mpz)
    requires r.Valid() && u.Valid() && v.Valid() && (u != r ==> u.d != r.d) && (v != r ==> v.d != r.d)
    modifies r, r.d
    ensures r.Valid() && forall m: nat :: Bit(r.Value(), m) == (Bit(old(u.Value()), m) && Bit(old(v.Value()), m))
    ensures r.d == old(r.d) || fresh(r.d)
  {
    hide Val, IsBitwise, Bit;
    ghost var U, V := u.Value(), v.Value();
    var a, b := u, v;
    if Abs(u.size) < Abs(v.size) {
      a, b := v, u;
    }
    var un, vn := Abs(a.size), Abs(b.size);
    ghost var A, B := a.Value(), b.Value();
    if vn == 0 {
      ZeroValue(b);
      BitwiseZero(And, A);
      r.size := 0;
      ZeroValue(r);
    } else {
      var vneg := b.size < 0;
      var rn := if vneg then un else vn;
      Combine(And, r, a, b, rn);
    }
    if a != u {
      BitwiseSwap(And, A, B, r.Value());
    }
    BitwiseBits(U, V, r.Value());
  }

  /** mpz_ior; r may be u or v. */
  method MpzIor(r: Mpz, u: Mpz, v: Mpz)
    requires r.Valid() && u.Valid() && v.Valid() && (u != r ==> u.d != r.d) && (v != r ==> v.d != r.d)
    modifies r, r.d
    ensures r.Valid() && forall m: nat :: Bit(r.Value(), m) == (Bit(old(u.Value()), m) || Bit(old(v.Value()), m))
    ensures r.d == old(r.d) || fresh(r.d)
  {
    hide Val, IsBitwise, Bit;
    ghost var U, V := u.Value(), v.Value();
    var a, b := u, v;
    if Abs(u.size) < Abs(v.size) {
      a, b := v, u;
    }
    var un, vn := Abs(a.size), Abs(b.size);
    ghost var A, B := a.Value(), b.Value();
    if vn == 0 {
      ZeroValue(b);
      BitwiseZero(Ior, A);
      r.Set(a);
    } else {
      var vneg := b.size < 0;
      var rn := if vneg then vn else un;
      Combine(Ior, r, a, b, rn);
    }
    if a != u {
      BitwiseSwap(Ior, A, B, r.Value());
    }
    BitwiseBits(U, V, r.Value());
  }

  /** mpz_xor; r may be u or v. */
  method MpzXor(r: Mpz, u: Mpz, v: Mpz)
    requires r.Valid() && u.Valid() && v.Valid() && (u != r ==> u.d != r.d) && (v != r ==> v.d != r.d)
    modifies r, r.d
    ensures r.Valid() && forall m: nat :: Bit(r.Value(), m) == (Bit(old(u.Value()), m) != Bit(old(v.Value()), m))
    ensures r.d == old(r.d) || fresh(r.d)
  {
    hide Val, IsBitwise, Bit;
    ghost var U, V := u.Value(), v.Value();
    var a, b := u, v;
    if Abs(u.size) < Abs(v.size) {
      a, b := v, u;
    }
    var un, vn := Abs(a.size), Abs(b.size);
    ghost var A, B := a.Value(), b.Value();
    if vn == 0 {
      ZeroValue(b);
      BitwiseZero(Xor, A);
      r.Set(a);
    } else {
      var rn := un;
      Combine(Xor, r, a, b, rn);
    }
    if a != u {
      BitwiseSwap(Xor, A, B, r.Value());
    }
    BitwiseBits(U, V, r.Value());
  }
}
