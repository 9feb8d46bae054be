/** A 128-bit carry-less product from eighteen 32-bit ones. */
module Karatsuba {
  import opened Bits
  import opened Gf2
  import opened Words32

  /** The low and the high word of a product. */
  function Low(u: word32, v: word32): (r: word32)
    ensures forall p :: 0 <= p < 32 ==> r[p] == Par(u, v, p, 0, 32)
  {
    Mul(u, v)[..32]
  }

  function High(u: word32, v: word32): (r: word32)
    ensures forall p :: 0 <= p < 32 ==> r[p] == Par(u, v, 32 + p, 0, 32)
  {
    Mul(u, v)[32..]
  }

  function XorW(a: word32, b: word32): (r: word32)
    ensures forall i :: 0 <= i < 32 ==> r[i] == (a[i] != b[i])
  {
    Xor(a, b)
  }

  function RevW(a: word32): word32 {
    Rev(a)
  }

  lemma LowXorLeft(a: word32, a': word32, b: word32)
    ensures Low(XorW(a, a'), b) == XorW(Low(a, b), Low(a', b))
  {
    hide Par;
    forall p | 0 <= p < 32
      ensures Low(XorW(a, a'), b)[p] == XorW(Low(a, b), Low(a', b))[p]
    {
      ParLeftXor(a, a', b, p, 0, 32);
    }
  }

  lemma LowXorRight(a: word32, b: word32, b': word32)
    ensures Low(a, XorW(b, b')) == XorW(Low(a, b), Low(a, b'))
  {
    hide Par;
    forall p | 0 <= p < 32
      ensures Low(a, XorW(b, b'))[p] == XorW(Low(a, b), Low(a, b'))[p]
    {
      ParRightXor(a, b, b', p, 0, 32);
    }
  }

  /** The product of two sums. */
  lemma LowOfSums(a: word32, b: word32, c: word32, d: word32)
    ensures Low(XorW(a, b), XorW(c, d)) == XorW(XorW(Low(a, c), Low(a, d)), XorW(Low(b, c), Low(b, d)))
  {
    hide Low, XorW;
    LowXorLeft(a, b, XorW(c, d));
    LowXorRight(a, c, d);
    LowXorRight(b, c, d);
  }

  // ---- Karatsuba's identities ----

  /** The cross terms of two by two words. */
  function Cross(a: word32, b: word32, c: word32, d: word32): word32 {
    XorW(Low(a, d), Low(b, c))
  }

  lemma CrossTerms(a: word32, b: word32, c: word32, d: word32)
    ensures XorW(Low(XorW(a, b), XorW(c, d)), XorW(Low(a, c), Low(b, d))) == Cross(a, b, c, d)
  {
    hide Low;
    LowOfSums(a, b, c, d);
    XorFour(Low(a, c), Low(a, d), Low(b, c), Low(b, d));
  }

  lemma XorFour(ac: word32, ad: word32, bc: word32, bd: word32)
    ensures XorW(XorW(XorW(ac, ad), XorW(bc, bd)), XorW(ac, bd)) == XorW(ad, bc)
  {
  }

  /** b[2] of the code: the products at word 2. */
  lemma MiddleTwo(l00: word32, l02: word32, l20: word32, l22: word32, l11: word32)
    ensures XorW(XorW(XorW(l11, l00), l22), XorW(XorW(l00, l02), XorW(l20, l22))) == XorW(XorW(l02, l11), l20)
  {
  }

  lemma MiddleFour(l11: word32, l13: word32, l31: word32, l33: word32, l22: word32)
    ensures XorW(XorW(XorW(l22, l11), l33), XorW(XorW(l11, l13), XorW(l31, l33))) == XorW(XorW(l13, l22), l31)
  {
  }

  /** b[3] of the code: three cross sums leave the products at word 3. */
  lemma MiddleThree(l01: word32, l10: word32, l23: word32, l32: word32, l03: word32, l21: word32, l12: word32, l30: word32)
    ensures XorW(XorW(XorW(l01, l10), XorW(l23, l32)), XorW(XorW(XorW(l01, l03), XorW(l21, l23)), XorW(XorW(l10, l12), XorW(l30, l32))))
         == XorW(XorW(l03, l12), XorW(l21, l30))
  {
  }

  /** The wide cross sum. */
  lemma WideCross(y0: word32, y1: word32, y2: word32, y3: word32, x0: word32, x1: word32, x2: word32, x3: word32)
    ensures Cross(XorW(y0, y2), XorW(y1, y3), XorW(x0, x2), XorW(x1, x3))
         == XorW(XorW(XorW(Low(y0, x1), Low(y0, x3)), XorW(Low(y2, x1), Low(y2, x3))),
                 XorW(XorW(Low(y1, x0), Low(y1, x2)), XorW(Low(y3, x0), Low(y3, x2))))
  {
    hide Low, XorW;
    LowOfSums(y0, y2, x1, x3);
    LowOfSums(y1, y3, x0, x2);
  }

  /** The products of equal weight: words i and j with i + j = k. */
  function Diagonal(y: seq<word32>, x: seq<word32>, k: int): word32
    requires |y| == |x| == 4
  {
    XorW(XorW(Low(y[0], WordAt(x, k)), Low(y[1], WordAt(x, k - 1))), XorW(Low(y[2], WordAt(x, k - 2)), Low(y[3], WordAt(x, k - 3))))
  }

  function HighDiagonal(y: seq<word32>, x: seq<word32>, k: int): word32
    requires |y| == |x| == 4
  {
    XorW(XorW(High(y[0], WordAt(x, k)), High(y[1], WordAt(x, k - 1))), XorW(High(y[2], WordAt(x, k - 2)), High(y[3], WordAt(x, k - 3))))
  }

  /** A word, zero outside. */
  function WordAt(x: seq<word32>, d: int): word32 {
    if 0 <= d < |x| then x[d] else Zeros(32)
  }

  function Flat4(x: seq<word32>): (r: seq<bool>)
    requires |x| == 4
    ensures |r| == 128
  {
    Plain(x[0]) + Plain(x[1]) + Plain(x[2]) + Plain(x[3])
  }

  function Plain(w: word32): (s: seq<bool>)
    ensures s == w && |s| == 32
  {
    w
  }

  lemma LowZero(y: word32)
    ensures Low(y, Zeros(32)) == Zeros(32) && High(y, Zeros(32)) == Zeros(32)
  {
    forall k: int
      ensures !Par(y, Zeros(32), k, 0, 32)
    {
      ParZeroRight(y, 32, k, 0, 32);
    }
  }

  lemma {:induction false} ParZeroRight(a: seq<bool>, n: nat, k: int, lo: int, hi: int)
    ensures !Par(a, Zeros(n), k, lo, hi)
    decreases hi - lo
  {
    if lo < hi {
      ParZeroRight(a, n, k, lo, hi - 1);
    }
  }

  lemma XorWZero(a: word32)
    ensures XorW(a, Zeros(32)) == a && XorW(Zeros(32), a) == a
  {
  }

  // ---- the eighteen products of the code ----

  /** The operands that the code forms from four words. */
  function Operands(y: seq<word32>): (a: seq<word32>)
    requires |y| == 4
    ensures |a| == 9
  {
    [y[0], y[1], y[2], y[3], XorW(y[0], y[1]), XorW(y[2], y[3]), XorW(y[0], y[2]), XorW(y[1], y[3]),
     XorW(XorW(y[0], y[2]), XorW(y[1], y[3]))]
  }

  /** The seven sums of products by weight, from nine products. */
  function Combine(a: seq<word32>): (b: seq<word32>)
    requires |a| == 9
    ensures |b| == 7
  {
    var a4, a5, a8 := XorW(a[4], XorW(a[0], a[1])), XorW(a[5], XorW(a[2], a[3])), XorW(a[8], XorW(a[6], a[7]));
    [a[0], a4, XorW(XorW(XorW(a[1], a[0]), a[2]), a[6]), XorW(XorW(a4, a5), a8), XorW(XorW(XorW(a[2], a[1]), a[3]), a[7]), a5, a[3]]
  }

  function Products(y: seq<word32>, x: seq<word32>): (a: seq<word32>)
    requires |y| == |x| == 4
    ensures |a| == 9
  {
    var u, v := Operands(y), Operands(x);
    [Low(u[0], v[0]), Low(u[1], v[1]), Low(u[2], v[2]), Low(u[3], v[3]), Low(u[4], v[4]), Low(u[5], v[5]), Low(u[6], v[6]),
     Low(u[7], v[7]), Low(u[8], v[8])]
  }

  lemma CombineOuter(y: seq<word32>, x: seq<word32>)
    requires |y| == |x| == 4
    ensures var b := Combine(Products(y, x));
      b[0] == Diagonal(y, x, 0) && b[1] == Diagonal(y, x, 1) && b[5] == Diagonal(y, x, 5) && b[6] == Diagonal(y, x, 6)
  {
    DiagonalShapes(y, x);
    hide Low, XorW, Diagonal;
    CrossTerms(y[0], y[1], x[0], x[1]);
    CrossTerms(y[2], y[3], x[2], x[3]);
  }

  lemma CombineTwoFour(y: seq<word32>, x: seq<word32>)
    requires |y| == |x| == 4
    ensures var b := Combine(Products(y, x)); b[2] == Diagonal(y, x, 2) && b[4] == Diagonal(y, x, 4)
  {
    DiagonalShapes(y, x);
    hide Low, XorW, Diagonal;
    LowOfSums(y[0], y[2], x[0], x[2]);
    LowOfSums(y[1], y[3], x[1], x[3]);
    MiddleTwo(Low(y[0], x[0]), Low(y[0], x[2]), Low(y[2], x[0]), Low(y[2], x[2]), Low(y[1], x[1]));
    MiddleFour(Low(y[1], x[1]), Low(y[1], x[3]), Low(y[3], x[1]), Low(y[3], x[3]), Low(y[2], x[2]));
  }

  lemma CombineThree(y: seq<word32>, x: seq<word32>)
    requires |y| == |x| == 4
    ensures Combine(Products(y, x))[3] == Diagonal(y, x, 3)
  {
    DiagonalShapes(y, x);
    hide Low, XorW, Diagonal;
    CrossTerms(y[0], y[1], x[0], x[1]);
    CrossTerms(y[2], y[3], x[2], x[3]);
    CrossTerms(XorW(y[0], y[2]), XorW(y[1], y[3]), XorW(x[0], x[2]), XorW(x[1], x[3]));
    WideCross(y[0], y[1], y[2], y[3], x[0], x[1], x[2], x[3]);
    MiddleThree(Low(y[0], x[1]), Low(y[1], x[0]), Low(y[2], x[3]), Low(y[3], x[2]),
                Low(y[0], x[3]), Low(y[2], x[1]), Low(y[1], x[2]), Low(y[3], x[0]));
  }

  /** Karatsuba's combinations are the sums of products of equal weight. */
  lemma CombineIsDiagonals(y: seq<word32>, x: seq<word32>)
    requires |y| == |x| == 4
    ensures var b := Combine(Products(y, x)); forall k :: 0 <= k < 7 ==> b[k] == Diagonal(y, x, k)
  {
    hide *;
    CombineOuter(y, x);
    CombineTwoFour(y, x);
    CombineThree(y, x);
  }

  /** The sums of equal weight without the zero words. */
  lemma DiagonalShapes(y: seq<word32>, x: seq<word32>)
    requires |y| == |x| == 4
    ensures Diagonal(y, x, 0) == Low(y[0], x[0])
    ensures Diagonal(y, x, 1) == XorW(Low(y[0], x[1]), Low(y[1], x[0]))
    ensures Diagonal(y, x, 2) == XorW(XorW(Low(y[0], x[2]), Low(y[1], x[1])), Low(y[2], x[0]))
    ensures Diagonal(y, x, 3) == XorW(XorW(Low(y[0], x[3]), Low(y[1], x[2])), XorW(Low(y[2], x[1]), Low(y[3], x[0])))
    ensures Diagonal(y, x, 4) == XorW(XorW(Low(y[1], x[3]), Low(y[2], x[2])), Low(y[3], x[1]))
    ensures Diagonal(y, x, 5) == XorW(Low(y[2], x[3]), Low(y[3], x[2]))
    ensures Diagonal(y, x, 6) == Low(y[3], x[3])
  {
    hide Low, XorW;
    LowZero(y[0]);
    LowZero(y[1]);
    LowZero(y[2]);
    LowZero(y[3]);
    XorWZero(Zeros(32));
    XorWZero(Low(y[0], x[0]));
    XorWZero(XorW(Low(y[0], x[1]), Low(y[1], x[0])));
    XorWZero(Low(y[2], x[0]));
    XorWZero(Low(y[1], x[3]));
    XorWAssoc(Low(y[1], x[3]), Low(y[2], x[2]), Low(y[3], x[1]));
    XorWZero(XorW(Low(y[2], x[3]), Low(y[3], x[2])));
    XorWZero(Low(y[3], x[3]));
  }

  lemma XorWAssoc(a: word32, b: word32, c: word32)
    ensures XorW(XorW(a, b), c) == XorW(a, XorW(b, c))
  {
  }

  // ---- high words by bit reversal ----

  /** rev32(bmul32(rev32(u), rev32(v))) >> 1 is the high word. */
  lemma RevHigh(u: word32, v: word32)
    ensures Shr32(RevW(Low(RevW(u), RevW(v))), 1) == High(u, v)
  {
    hide Par;
    forall q | 0 <= q < 32
      ensures Shr32(RevW(Low(RevW(u), RevW(v))), 1)[q] == High(u, v)[q]
    {
      if q < 31 {
        ParRev(u, v, 30 - q, 32);
      } else {
        ParNone(u, v, 63, 0, 32);
      }
    }
  }

  lemma ShrRevXor(a: word32, b: word32)
    ensures Shr32(RevW(XorW(a, b)), 1) == XorW(Shr32(RevW(a), 1), Shr32(RevW(b), 1))
  {
    forall q | 0 <= q < 32
      ensures Shr32(RevW(XorW(a, b)), 1)[q] == XorW(Shr32(RevW(a), 1), Shr32(RevW(b), 1))[q]
    {
    }
  }

  function RevWords(x: seq<word32>): (r: seq<word32>)
    requires |x| == 4
    ensures |r| == 4
  {
    [RevW(x[0]), RevW(x[1]), RevW(x[2]), RevW(x[3])]
  }

  lemma RevWordAt(x: seq<word32>, d: int)
    requires |x| == 4
    ensures WordAt(RevWords(x), d) == RevW(WordAt(x, d))
  {
    assert Rev(Zeros(32)) == Zeros(32);
  }

  lemma RevDiagonal(y: seq<word32>, x: seq<word32>, k: int)
    requires |y| == |x| == 4
    ensures Shr32(RevW(Diagonal(RevWords(y), RevWords(x), k)), 1) == HighDiagonal(y, x, k)
  {
    RevWordAt(x, k);
    RevWordAt(x, k - 1);
    RevWordAt(x, k - 2);
    RevWordAt(x, k - 3);
    hide Low, High, XorW, RevW, Shr32, WordAt;
    var a, b, c, d := WordAt(x, k), WordAt(x, k - 1), WordAt(x, k - 2), WordAt(x, k - 3);
    RevHigh(y[0], a);
    RevHigh(y[1], b);
    RevHigh(y[2], c);
    RevHigh(y[3], d);
    var p, q, r, s := Low(RevW(y[0]), RevW(a)), Low(RevW(y[1]), RevW(b)), Low(RevW(y[2]), RevW(c)), Low(RevW(y[3]), RevW(d));
    ShrRevXor(XorW(p, q), XorW(r, s));
    ShrRevXor(p, q);
    ShrRevXor(r, s);
  }

  // ---- the words of the 256-bit product ----

  lemma FlatAt(x: seq<word32>, d: int, j: nat)
    requires |x| == 4 && j < 32
    ensures At(Flat4(x), 32 * d + j) == WordAt(x, d)[j]
  {
  }

  /** A word against four words, one position. */
  lemma {:induction false} ParWord(u: word32, x: seq<word32>, d: int, p: nat, hi: nat)
    requires |x| == 4 && p < 32 && hi <= 32
    ensures Par(u, Flat4(x), 32 * d + p, 0, hi) == (Par(u, WordAt(x, d), p, 0, hi) != Par(u, WordAt(x, d - 1), 32 + p, 0, hi))
  {
    hide Flat4, WordAt;
    if hi > 0 {
      ParWord(u, x, d, p, hi - 1);
      var t := hi - 1;
      if t <= p {
        FlatAt(x, d, p - t);
      } else {
        FlatAt(x, d - 1, 32 + p - t);
      }
    }
  }

  /** Four words against four words, one position. */
  lemma ParFour(y: seq<word32>, b: seq<bool>, k: int)
    requires |y| == 4
    ensures Par(Flat4(y), b, k, 0, 128)
         == ((Par(y[0], b, k, 0, 32) != Par(y[1], b, k - 32, 0, 32)) != (Par(y[2], b, k - 64, 0, 32) != Par(y[3], b, k - 96, 0, 32)))
  {
    hide Par;
    var y0, y1, y2, y3 := Plain(y[0]), Plain(y[1]), Plain(y[2]), Plain(y[3]);
    ParConcat(y0 + y1 + y2, y3, b, k);
    ParConcat(y0 + y1, y2, b, k);
    ParConcat(y0, y1, b, k);
  }

  lemma ProductWord(y: seq<word32>, x: seq<word32>, k: nat)
    requires |y| == |x| == 4 && k < 8
    ensures Mul(Flat4(y), Flat4(x))[32 * k..32 * k + 32] == XorW(Diagonal(y, x, k), HighDiagonal(y, x, k - 1))
  {
    hide Par, WordAt, Flat4;
    var m := Mul(Flat4(y), Flat4(x));
    var w := m[32 * k..32 * k + 32];
    forall p: nat | p < 32
      ensures w[p] == XorW(Diagonal(y, x, k), HighDiagonal(y, x, k - 1))[p]
    {
      ParFour(y, Flat4(x), 32 * k + p);
      ParWord(y[0], x, k, p, 32);
      ParWord(y[1], x, k - 1, p, 32);
      ParWord(y[2], x, k - 2, p, 32);
      ParWord(y[3], x, k - 3, p, 32);
    }
  }
}
