/** Bytes as small numbers, for the modes that count and compare them. */
module Bytes {
  import Arith

  type byte = x: nat | x < 256

  /** A block function under a fixed key. */
  type BlockFunction = seq<byte> -> seq<byte>

  ghost predicate IsBlockFunction(e: BlockFunction) {
    forall x: seq<byte> :: |x| == 16 ==> |e(x)| == 16
  }

  /** Bitwise exclusive or of the k low bits. */
  function XorBits(a: nat, b: nat, k: nat): nat {
    if k == 0 then 0 else (if a % 2 != b % 2 then 1 else 0) + 2 * XorBits(a / 2, b / 2, k - 1)
  }

  lemma {:induction false} XorBitsBound(a: nat, b: nat, k: nat)
    ensures XorBits(a, b, k) < TwoTo(k)
  {
    if k > 0 {
      XorBitsBound(a / 2, b / 2, k - 1);
    }
  }

  function XorB(a: byte, b: byte): byte {
    XorBitsBound(a, b, 8);
    EightBits();
    XorBits(a, b, 8)
  }

  lemma HalfStep(e: nat, q: nat)
    requires e < 2
    ensures (e + 2 * q) / 2 == q && (e + 2 * q) % 2 == e
  {
  }

  lemma {:induction false} XorBitsTwice(a: nat, b: nat, k: nat)
    requires a < TwoTo(k)
    ensures XorBits(XorBits(a, b, k), b, k) == a
  {
    if k > 0 {
      XorBitsTwice(a / 2, b / 2, k - 1);
      HalfStep(if a % 2 != b % 2 then 1 else 0, XorBits(a / 2, b / 2, k - 1));
    }
  }

  lemma {:induction false} XorBitsZero(a: nat, k: nat)
    requires a < TwoTo(k)
    ensures XorBits(a, 0, k) == a && XorBits(0, a, k) == a
  {
    if k > 0 {
      XorBitsZero(a / 2, k - 1);
    }
  }

  lemma {:induction false} XorBitsSame(a: nat, b: nat, k: nat)
    requires a < TwoTo(k) && b < TwoTo(k)
    ensures XorBits(a, b, k) == 0 <==> a == b
  {
    if k > 0 {
      XorBitsSame(a / 2, b / 2, k - 1);
    }
  }

  /** Bit j of the exclusive or. */
  lemma {:induction false} XorBitAt(a: nat, b: nat, k: nat, j: nat)
    requires j < k
    ensures XorBits(a, b, k) / TwoTo(j) % 2 == if a / TwoTo(j) % 2 != b / TwoTo(j) % 2 then 1 else 0
  {
    HalfStep(if a % 2 != b % 2 then 1 else 0, XorBits(a / 2, b / 2, k - 1));
    if j > 0 {
      XorBitAt(a / 2, b / 2, k - 1, j - 1);
      hide XorBits, TwoTo;
      HalfThenRest(a, j);
      HalfThenRest(b, j);
      HalfThenRest(XorBits(a, b, k), j);
    }
  }

  lemma HalfThenRest(a: nat, j: nat)
    requires j > 0
    ensures TwoTo(j) > 0 && a / TwoTo(j) == a / 2 / TwoTo(j - 1)
  {
    Arith.DivMod(a, 2);
    Arith.DivMod(a / 2, TwoTo(j - 1));
    var q, r := a / 2 / TwoTo(j - 1), a / 2 % TwoTo(j - 1);
    Arith.DivModUnique(a, TwoTo(j), q, 2 * r + a % 2);
  }

  /** ++b, which wraps. */
  function Inc(b: byte): byte {
    if b == 255 then 0 else b + 1
  }

  /** Bitwise or of the k low bits. */
  function OrBits(a: nat, b: nat, k: nat): nat {
    if k == 0 then 0 else (if a % 2 == 1 || b % 2 == 1 then 1 else 0) + 2 * OrBits(a / 2, b / 2, k - 1)
  }

  lemma {:induction false} OrBitsBound(a: nat, b: nat, k: nat)
    ensures OrBits(a, b, k) < TwoTo(k)
  {
    if k > 0 {
      OrBitsBound(a / 2, b / 2, k - 1);
    }
  }

  function TwoTo(k: nat): (p: nat)
    ensures p > 0
  {
    if k == 0 then 1 else 2 * TwoTo(k - 1)
  }

  function OrB(a: byte, b: byte): byte {
    OrBitsBound(a, b, 8);
    EightBits();
    OrBits(a, b, 8)
  }

  lemma EightBits()
    ensures TwoTo(8) == 256 && TwoTo(6) == 64 && TwoTo(3) == 8
  {
  }

  lemma {:induction false} OrIsZero(a: nat, b: nat, k: nat)
    requires a < TwoTo(k) && b < TwoTo(k)
    ensures OrBits(a, b, k) == 0 <==> a == 0 && b == 0
  {
    if k > 0 {
      OrIsZero(a / 2, b / 2, k - 1);
    }
  }

  lemma OrBZero(a: byte, b: byte)
    ensures OrB(a, b) == 0 <==> a == 0 && b == 0
  {
    EightBits();
    OrIsZero(a, b, 8);
  }

  lemma {:induction false} OrZero(a: nat, k: nat)
    requires a < TwoTo(k)
    ensures OrBits(a, 0, k) == a && OrBits(0, a, k) == a
  {
    if k > 0 {
      OrZero(a / 2, k - 1);
    }
  }

  lemma DoubleShift(h: nat, j: nat)
    requires j > 0
    ensures h * TwoTo(j - 1) >= 0 && h * TwoTo(j) == 2 * (h * TwoTo(j - 1))
  {
  }

  /** Bits that do not overlap add up. */
  lemma {:induction false} OrSum(h: nat, w: nat, j: nat, k: nat)
    requires w < TwoTo(j) && j <= k && h < TwoTo(k - j)
    ensures OrBits(h * TwoTo(j), w, k) == h * TwoTo(j) + w
  {
    if j == 0 {
      OrZero(h, k);
    } else {
      OrSum(h, w / 2, j - 1, k - 1);
      var p: nat := h * TwoTo(j - 1);
      DoubleShift(h, j);
      HalfStep(0, p);
    }
  }

  lemma XorBTwice(a: byte, b: byte)
    ensures XorB(XorB(a, b), b) == a
  {
    EightBits();
    XorBitsTwice(a, b, 8);
  }

  lemma {:induction false} XorBitsCommute(a: nat, b: nat, k: nat)
    ensures XorBits(a, b, k) == XorBits(b, a, k)
  {
    if k > 0 {
      XorBitsCommute(a / 2, b / 2, k - 1);
    }
  }

  lemma XorBCommutes(a: byte, b: byte)
    ensures XorB(a, b) == XorB(b, a)
  {
    XorBitsCommute(a, b, 8);
  }

  lemma {:induction false} XorBitsSwap(a: nat, b: nat, c: nat, k: nat)
    ensures XorBits(XorBits(a, b, k), c, k) == XorBits(XorBits(a, c, k), b, k)
  {
    if k > 0 {
      XorBitsSwap(a / 2, b / 2, c / 2, k - 1);
      HalfStep(if a % 2 != b % 2 then 1 else 0, XorBits(a / 2, b / 2, k - 1));
      HalfStep(if a % 2 != c % 2 then 1 else 0, XorBits(a / 2, c / 2, k - 1));
    }
  }

  lemma XorBSwap(a: byte, b: byte, c: byte)
    ensures XorB(XorB(a, b), c) == XorB(XorB(a, c), b)
  {
    XorBitsSwap(a, b, c, 8);
  }

  lemma XorBZero(a: byte)
    ensures XorB(a, 0) == a && XorB(0, a) == a
  {
    EightBits();
    XorBitsZero(a, 8);
  }

  lemma XorBSame(a: byte, b: byte)
    ensures XorB(a, b) == 0 <==> a == b
  {
    EightBits();
    XorBitsSame(a, b, 8);
  }

  /** Byte by byte exclusive or. */
  function XorS(a: seq<byte>, b: seq<byte>): (r: seq<byte>)
    requires |a| == |b|
    ensures |r| == |a| && forall i :: 0 <= i < |a| ==> r[i] == XorB(a[i], b[i])
  {
    seq(|a|, i requires 0 <= i < |a| => XorB(a[i], b[i]))
  }

  lemma XorSTwice(a: seq<byte>, b: seq<byte>)
    requires |a| == |b|
    ensures XorS(XorS(a, b), b) == a
  {
    hide XorB;
    forall i | 0 <= i < |a|
      ensures XorS(XorS(a, b), b)[i] == a[i]
    {
      XorBTwice(a[i], b[i]);
    }
  }

  function Zeros(n: nat): (s: seq<byte>)
    ensures |s| == n && forall i :: 0 <= i < n ==> s[i] == 0
  {
    seq(n, i => 0)
  }

  /** The k low bytes of n, most significant first. */
  function Be(n: nat, k: nat): (s: seq<byte>)
    ensures |s| == k
  {
    if k == 0 then [] else Be(n / 256, k - 1) + [n % 256]
  }

  /** 256^k. */
  function Pow256(k: nat): (p: nat)
    ensures p > 0
  {
    if k == 0 then 1 else 256 * Pow256(k - 1)
  }

  /** Byte i of the k low bytes. */
  lemma {:induction false} BeByte(n: nat, k: nat, i: nat)
    requires i < k
    ensures Be(n, k)[i] == n / Pow256(k - 1 - i) % 256
  {
    if i < k - 1 {
      BeByte(n / 256, k - 1, i);
      hide Be;
      DropByte(n, k - 1 - i);
      BeNext(n, k);
    }
  }

  lemma DropByte(n: nat, j: nat)
    requires j > 0
    ensures n / 256 / Pow256(j - 1) == n / Pow256(j)
  {
    var p := Pow256(j - 1);
    Arith.DivMod(n, 256);
    Arith.DivMod(n / 256, p);
    var q, r := n / 256 / p, n / 256 % p;
    Arith.Distribute(q * p, r, 256);
    Arith.MulAssoc(q, p, 256);
    Arith.MulCommutes(p, 256);
    Arith.DivModUnique(n, Pow256(j), q, r * 256 + n % 256);
  }

  /** The next number: the last byte grows, or wraps and the others take the carry. */
  lemma BeNext(n: nat, k: nat)
    requires k > 0
    ensures Be(n, k) == Be(n / 256, k - 1) + [n % 256]
    ensures n % 256 != 255 ==> Be(n + 1, k) == Be(n / 256, k - 1) + [n % 256 + 1]
    ensures n % 256 == 255 ==> Be(n + 1, k) == Be(n / 256 + 1, k - 1) + [0]
  {
  }

  /** Numbers that fit are determined by their bytes. */
  lemma {:induction false} BeInjective(m: nat, n: nat, k: nat)
    requires m < Pow256(k) && n < Pow256(k) && Be(m, k) == Be(n, k)
    ensures m == n
  {
    if k > 0 {
      var a, b := Be(m / 256, k - 1), Be(n / 256, k - 1);
      assert (a + [m % 256])[k - 1] == (b + [n % 256])[k - 1];
      assert (a + [m % 256])[..k - 1] == a && (b + [n % 256])[..k - 1] == b;
      BeInjective(m / 256, n / 256, k - 1);
    }
  }

  /** Only the k low bytes of a number count. */
  lemma {:induction false} BePeriodic(m: nat, x: nat, k: nat)
    ensures m + x * Pow256(k) >= 0 && Be(m + x * Pow256(k), k) == Be(m, k)
  {
    Arith.MulMonotone(Pow256(k), 0, x);
    if k > 0 {
      var p := Pow256(k - 1);
      BePeriodic(m / 256, x, k - 1);
      Arith.MulAssoc(x, p, 256);
      Arith.MulCommutes(p, 256);
      Arith.DivMod(m, 256);
      Arith.DivModUnique(m + x * Pow256(k), 256, m / 256 + x * p, m % 256);
    }
  }

  lemma BeIsZero(j: nat, k: nat)
    ensures Be(j, k) == Be(0, k) <==> j % Pow256(k) == 0
  {
    hide Be, Pow256;
    var p := Pow256(k);
    Arith.DivMod(j, p);
    Arith.MulMonotone(p, 0, j / p);
    Quotient(j, p);
    BePeriodic(j % p, j / p, k);
    if Be(j, k) == Be(0, k) {
      BeInjective(j % p, 0, k);
    }
  }

  lemma Quotient(j: nat, p: nat)
    requires p > 0
    ensures j / p >= 0
  {
  }

  // ---- data in pieces ----

  function Concat(xs: seq<seq<byte>>): seq<byte> {
    if xs == [] then [] else xs[0] + Concat(xs[1..])
  }

  lemma {:induction false} ConcatSnoc(xs: seq<seq<byte>>, i: nat)
    requires i < |xs|
    ensures Concat(xs[..i + 1]) == Concat(xs[..i]) + xs[i]
    decreases i
  {
    if i == 0 {
      assert xs[..1][0] == xs[0] && xs[..1][1..] == [] && xs[..0] == [];
    } else {
      ConcatSnoc(xs[1..], i - 1);
      assert xs[1..][..i] == xs[..i + 1][1..] && xs[1..][..i - 1] == xs[..i][1..];
      assert xs[0] + (Concat(xs[1..][..i - 1]) + xs[i]) == xs[0] + Concat(xs[1..][..i - 1]) + xs[i];
    }
  }

  lemma ConcatNone()
    ensures Concat([]) == []
  {
  }
}
