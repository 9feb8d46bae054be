/** POLYVAL with integer multiplications and Karatsuba. */
module Polyval {
  import opened Bits
  import opened Gf2
  import opened Words32
  import opened Karatsuba

  // ---- the field: RFC 8452, section 3 ----

  /** x^128 + x^127 + x^126 + x^121 + 1. */
  function Modulus(): (p: seq<bool>)
    ensures |p| == 129
  {
    [true] + Zeros(120) + [true] + Zeros(4) + [true, true, true]
  }

  /** The five coefficients of the modulus that are set. */
  lemma ModulusIs(i: nat)
    requires i <= 128
    ensures Modulus()[i] <==> i == 0 || i == 121 || i == 126 || i == 127 || i == 128
  {
  }

  /** a * b + q * P is c * x^128, so c is a * b * x^-128 modulo P. */
  ghost predicate Reduces(a: seq<bool>, b: seq<bool>, c: seq<bool>, q: seq<bool>)
    requires |a| == |b| == |c| == |q| == 128
  {
    Xor(Mul(a, b) + [false], Mul(q, Modulus())) == Zeros(128) + c + [false]
  }

  ghost predicate IsDot(a: seq<bool>, b: seq<bool>, c: seq<bool>)
    requires |a| == |b| == |c| == 128
  {
    exists q: seq<bool> :: |q| == 128 && Reduces(a, b, c, q)
  }

  /** There is at most one such product. */
  lemma DotUnique(a: seq<bool>, b: seq<bool>, c: seq<bool>, c': seq<bool>)
    requires |a| == |b| == |c| == |c'| == 128 && IsDot(a, b, c) && IsDot(a, b, c')
    ensures c == c'
  {
    hide Modulus, Mul;
    var q: seq<bool> :| |q| == 128 && Reduces(a, b, c, q);
    var q': seq<bool> :| |q'| == 128 && Reduces(a, b, c', q');
    SameQuotient(a, b, c, c', q, q');
    var t := Zeros(128) + c + [false];
    assert c == t[128..256];
    var t' := Zeros(128) + c' + [false];
    assert c' == t'[128..256];
  }

  lemma SameQuotient(a: seq<bool>, b: seq<bool>, c: seq<bool>, c': seq<bool>, q: seq<bool>, q': seq<bool>)
    requires |a| == |b| == |c| == |c'| == |q| == |q'| == 128 && Reduces(a, b, c, q) && Reduces(a, b, c', q')
    ensures q == q'
  {
    hide Modulus, Mul;
    var p, d := Modulus(), Xor(q, q');
    var t := Mul(a, b) + [false];
    MulLeftXor(q, q', p);
    ModulusConstant();
    forall k | 0 <= k < 128
      ensures !Mul(d, p)[k]
    {
      assert Xor(t, Mul(q, p))[k] == (Zeros(128) + c + [false])[k];
      assert Xor(t, Mul(q', p))[k] == (Zeros(128) + c' + [false])[k];
    }
    LowZeros(d, p, 128);
    forall i | 0 <= i < 128
      ensures q[i] == q'[i]
    {
      assert !d[i];
    }
  }

  lemma ModulusConstant()
    ensures Modulus()[0]
  {
  }

  /** v / x: v itself or v + P is a multiple of x. */
  function DivX(v: seq<bool>): (r: seq<bool>)
    requires |v| == 128
    ensures |r| == 128
  {
    Xor(v + [false], Sel(v[0], Modulus()))[1..]
  }

  /** The bit-by-bit product: add b for every set bit of a, and divide by x each time. */
  function DotBits(a: seq<bool>, b: seq<bool>): (z: seq<bool>)
    requires |b| == 128
    ensures |z| == 128
  {
    if a == [] then Zeros(128) else DivX(Xor(DotBits(a[..|a| - 1], b), Sel(a[|a| - 1], b)))
  }

  /** dot(a, b) of RFC 8452. */
  function Dot(a: seq<bool>, b: seq<bool>): (z: seq<bool>)
    requires |a| == |b| == 128
    ensures |z| == 128
  {
    DotBits(a, b)
  }

  /** POLYVAL over blocks, from zero. */
  function PolyvalOf(h: seq<bool>, xs: seq<seq<bool>>): (s: seq<bool>)
    requires |h| == 128 && forall i :: 0 <= i < |xs| ==> |xs[i]| == 128
    ensures |s| == 128
  {
    if xs == [] then Zeros(128) else Dot(Xor(PolyvalOf(h, xs[..|xs| - 1]), xs[|xs| - 1]), h)
  }

  /** The product of a prefix of a, reduced by as many bits. */
  ghost predicate ReducesPrefix(a: seq<bool>, b: seq<bool>, z: seq<bool>, q: seq<bool>)
    requires |b| == |z| == 128 && |a| == |q|
  {
    Xor(Mul(a, b) + [false], Mul(q, Modulus())) == Zeros(|a|) + z + [false]
  }

  lemma {:induction false} DotBitsReduces(a: seq<bool>, b: seq<bool>) returns (q: seq<bool>)
    requires |b| == 128
    ensures |q| == |a| && ReducesPrefix(a, b, DotBits(a, b), q)
  {
    hide DivX;
    if a == [] {
      q := [];
      hide Modulus;
      MulNothing(b);
      MulNothing(Modulus());
      XorZero(Zeros(129));
      assert Zeros(128) + [false] == Zeros(129) && Zeros(0) + Zeros(128) == Zeros(128);
    } else {
      var n := |a| - 1;
      var q' := DotBitsReduces(a[..n], b);
      var e := a[n];
      var v := Xor(DotBits(a[..n], b), Sel(e, b));
      q := q' + [v[0]];
      assert a == a[..n] + [e];
      hide DotBits;
      OneMoreBit(a[..n], b, DotBits(a[..n], b), q', e);
    }
  }

  lemma OneMoreBit(a: seq<bool>, b: seq<bool>, z: seq<bool>, q: seq<bool>, e: bool)
    requires |b| == |z| == 128 && |a| == |q| && ReducesPrefix(a, b, z, q)
    ensures var v := Xor(z, Sel(e, b)); ReducesPrefix(a + [e], b, DivX(v), q + [v[0]])
  {
    hide Mul;
    var n, p, v := |a|, Modulus(), Xor(z, Sel(e, b));
    MulConcat(a, [e], b);
    MulConcat(q, [v[0]], p);
    MulBit(e, b);
    MulBit(v[0], p);
    var left := Xor(Mul(a + [e], b) + [false], Mul(q + [v[0]], p));
    var right := Zeros(n + 1) + DivX(v) + [false];
    var mab, mqp := Mul(a, b), Mul(q, p);
    forall k | 0 <= k < n + 130
      ensures left[k] == right[k]
    {
      OneMoreBitAt(a, b, z, q, e, mab, mqp, k);
    }
  }

  /** The new product at one position. */
  lemma OneMoreBitAt(a: seq<bool>, b: seq<bool>, z: seq<bool>, q: seq<bool>, e: bool, mab: seq<bool>, mqp: seq<bool>, k: nat)
    requires |b| == |z| == 128 && |a| == |q| && k < |a| + 130
    requires |mab| == |a| + 128 && |mqp| == |a| + 129
    requires Xor(mab + [false], mqp) == Zeros(|a|) + z + [false]
    ensures var v := Xor(z, Sel(e, b)); var n := |a|;
      ((Xor(mab + Zeros(1), Zeros(n) + (Sel(e, b) + [false])) + [false])[k]
       != Xor(mqp + Zeros(1), Zeros(n) + (Sel(v[0], Modulus()) + [false]))[k])
      == (Zeros(n + 1) + DivX(v) + [false])[k]
  {
    hide Modulus;
    ModulusConstant();
    var n, v := |a|, Xor(z, Sel(e, b));
    var m := Sel(v[0], Modulus());
    if k < n + 129 {
      assert Xor(mab + [false], mqp)[k] == (Zeros(n) + z + [false])[k];
    }
    if k >= n + 1 && k < n + 129 {
      assert (Zeros(n + 1) + DivX(v) + [false])[k] == Xor(v + [false], m)[k - n];
    }
  }

  /** The bit-by-bit product is the product. */
  lemma DotIsDot(a: seq<bool>, b: seq<bool>)
    requires |a| == |b| == 128
    ensures IsDot(a, b, Dot(a, b))
  {
    hide Modulus, DivX, DotBits;
    var q := DotBitsReduces(a, b);
    assert Reduces(a, b, Dot(a, b), q);
  }

  // ---- the fold ----

  /** The sparse modulus: a product by it is five shifted copies. */
  lemma ParModulus(w: seq<bool>, k: int)
    ensures Par(Modulus(), w, k, 0, 129)
         == ((((At(w, k) != At(w, k - 121)) != At(w, k - 126)) != At(w, k - 127)) != At(w, k - 128))
  {
    ModulusBits();
    hide Modulus;
    var p := Modulus();
    ParSplit(p, w, k, 0, 1, 129);
    ParSplit(p, w, k, 1, 121, 129);
    ParSplit(p, w, k, 121, 122, 129);
    ParSplit(p, w, k, 122, 126, 129);
    ParSplit(p, w, k, 126, 127, 129);
    ParSplit(p, w, k, 127, 128, 129);
    ParGap(p, w, k, 1, 121);
    ParGap(p, w, k, 122, 126);
    ParOne(p, w, k, 0);
    ParOne(p, w, k, 121);
    ParOne(p, w, k, 126);
    ParOne(p, w, k, 127);
    ParOne(p, w, k, 128);
  }

  lemma ModulusBits()
    ensures Modulus()[0] && Modulus()[121] && Modulus()[126] && Modulus()[127] && Modulus()[128]
    ensures forall i :: 1 <= i < 121 || 122 <= i < 126 ==> !Modulus()[i]
  {
  }

  lemma ParOne(p: seq<bool>, w: seq<bool>, k: int, i: nat)
    ensures Par(p, w, k, i, i + 1) == (At(p, i) && At(w, k - i))
  {
    assert !Par(p, w, k, i, i);
  }

  lemma {:induction false} ParGap(p: seq<bool>, w: seq<bool>, k: int, lo: nat, hi: nat)
    requires forall i :: lo <= i < hi && i < |p| ==> !p[i]
    ensures !Par(p, w, k, lo, hi)
    decreases hi - lo
  {
    if lo < hi {
      ParGap(p, w, k, lo, hi - 1);
    }
  }

  /** What the fold adds to the next-but-two and next-but-three words. */
  function FoldLow(w: word32): word32 {
    XorW(XorW(Shl32(w, 31), Shl32(w, 30)), Shl32(w, 25))
  }

  function FoldHigh(w: word32): word32 {
    XorW(XorW(XorW(w, Shr32(w, 1)), Shr32(w, 2)), Shr32(w, 7))
  }

  function Folded(w: word32): (r: seq<bool>)
    ensures |r| == 161
  {
    Plain(w) + Zeros(64) + Plain(FoldLow(w)) + Plain(FoldHigh(w)) + [false]
  }

  lemma MulModulus(w: word32)
    ensures Mul(w, Modulus()) == Folded(w)
  {
    hide Modulus, Par, FoldLow, FoldHigh;
    MulCommutative(w, Modulus());
    forall k: nat | k < 161
      ensures Mul(Modulus(), w)[k] == Folded(w)[k]
    {
      ParModulus(w, k);
      FoldedAt(w, k);
    }
  }

  lemma FoldLowAt(w: word32, j: nat)
    requires j < 32
    ensures FoldLow(w)[j] == ((At(w, j - 31) != At(w, j - 30)) != At(w, j - 25))
  {
  }

  lemma FoldHighAt(w: word32, j: nat)
    requires j < 32
    ensures FoldHigh(w)[j] == (((At(w, j) != At(w, j + 1)) != At(w, j + 2)) != At(w, j + 7))
  {
  }

  lemma FoldedSegments(w: word32, k: nat)
    requires k < 161
    ensures k < 32 ==> Folded(w)[k] == w[k]
    ensures 32 <= k < 96 || k == 160 ==> !Folded(w)[k]
    ensures 96 <= k < 128 ==> Folded(w)[k] == FoldLow(w)[k - 96]
    ensures 128 <= k < 160 ==> Folded(w)[k] == FoldHigh(w)[k - 128]
  {
    hide FoldLow, FoldHigh;
  }

  lemma FoldedAt(w: word32, k: nat)
    requires k < 161
    ensures Folded(w)[k] == ((((At(w, k) != At(w, k - 121)) != At(w, k - 126)) != At(w, k - 127)) != At(w, k - 128))
  {
    hide FoldLow, FoldHigh, Folded;
    FoldedSegments(w, k);
    if 96 <= k < 128 {
      FoldLowAt(w, k - 96);
    } else if 128 <= k < 160 {
      FoldHighAt(w, k - 128);
    }
  }

  /** The words still to fold, above what has been cancelled with the quotient q. */
  ghost predicate FoldInv(t: seq<bool>, q: seq<bool>, rest: seq<bool>)
    requires |t| == 256
  {
    && |q| <= 128 && |q| + |rest| == 256
    && Xor(t + [false], Mul(q, Modulus()) + Zeros(128 - |q|)) == Zeros(|q|) + rest + [false]
  }

  lemma FoldStart(t: seq<bool>)
    requires |t| == 256
    ensures FoldInv(t, [], t)
  {
    hide Modulus;
    MulNothing(Modulus());
    assert Zeros(129) + Zeros(128) == Zeros(257);
    XorZero(t + [false]);
    assert Zeros(0) + t == t;
  }

  /** Folding the lowest word in cancels it. */
  lemma FoldStep(t: seq<bool>, q: seq<bool>, rest: seq<bool>, w: word32, next: seq<bool>)
    requires |t| == 256 && FoldInv(t, q, rest) && |q| <= 96 && w == rest[..32]
    requires |next| == |rest| - 32
    requires next + [false] == Xor(rest + [false], Folded(w) + Zeros(96 - |q|))[32..]
    ensures FoldInv(t, q + w, next)
  {
    hide Modulus, Mul;
    MulModulus(w);
    MulConcat(q, w, Modulus());
    var n := |q|;
    var mq, f := Mul(q, Modulus()), Folded(w);
    var left := Xor(t + [false], Mul(q + w, Modulus()) + Zeros(96 - n));
    var right := Zeros(n + 32) + next + [false];
    forall k: nat | k < 257
      ensures left[k] == right[k]
    {
      FoldStepAt(t, mq, f, rest, w, next, n, k);
    }
  }

  lemma FoldStepAt(t: seq<bool>, mq: seq<bool>, f: seq<bool>, rest: seq<bool>, w: word32, next: seq<bool>, n: nat, k: nat)
    requires |t| == 256 && n <= 96 && |mq| == n + 129 && |f| == 161 && |rest| == 256 - n && |next| == |rest| - 32 && k < 257
    requires Xor(t + [false], mq + Zeros(128 - n)) == Zeros(n) + rest + [false]
    requires w == rest[..32] && f[..32] == w
    requires next + [false] == Xor(rest + [false], f + Zeros(96 - n))[32..]
    ensures Xor(t + [false], Xor(mq + Zeros(32), Zeros(n) + f) + Zeros(96 - n))[k] == (Zeros(n + 32) + next + [false])[k]
  {
    assert Xor(t + [false], mq + Zeros(128 - n))[k] == (Zeros(n) + rest + [false])[k];
    if n <= k < n + 32 {
      assert f[k - n] == f[..32][k - n] == w[k - n] == rest[k - n];
    } else if k >= n + 32 {
      assert (next + [false])[k - n - 32] == Xor(rest + [false], f + Zeros(96 - n))[32..][k - n - 32];
    }
  }

  lemma FoldEnd(a: seq<bool>, b: seq<bool>, q: seq<bool>, c: seq<bool>)
    requires |a| == |b| == |c| == 128 && |q| == 128 && FoldInv(Mul(a, b), q, c)
    ensures c == Dot(a, b)
  {
    hide Modulus, Mul, DotBits;
    assert Mul(q, Modulus()) + Zeros(0) == Mul(q, Modulus());
    assert Reduces(a, b, c, q);
    DotIsDot(a, b);
    DotUnique(a, b, c, Dot(a, b));
  }

  // ---- the code ----

  /** The eighteen operands: the words and their sums, then the same of the reversed words. */
  method FillOperands(a: array<word32>, y: seq<word32>)
    requires a.Length == 18 && |y| == 4
    modifies a
    ensures a[..9] == Operands(y) && a[9..] == Operands(RevWords(y))
  {
    hide XorW, Rev32, RevW;
    Rev32IsRev(y[0]);
    Rev32IsRev(y[1]);
    Rev32IsRev(y[2]);
    Rev32IsRev(y[3]);
    FillNine(a, 0, y);
    ghost var low := a[..9];
    var r := [Rev32(y[0]), Rev32(y[1]), Rev32(y[2]), Rev32(y[3])];
    RevWordsAre(y, r);
    FillNine(a, 9, r);
    assert a[9..18] == a[9..];
  }

  lemma RevWordsAre(y: seq<word32>, r: seq<word32>)
    requires |y| == |r| == 4 && r[0] == Rev(y[0]) && r[1] == Rev(y[1]) && r[2] == Rev(y[2]) && r[3] == Rev(y[3])
    ensures r == RevWords(y)
  {
  }

  method FillNine(a: array<word32>, o: nat, y: seq<word32>)
    requires o + 9 <= a.Length && |y| == 4
    modifies a
    ensures a[o..o + 9] == Operands(y) && a[..o] == old(a[..o]) && a[o + 9..] == old(a[o + 9..])
  {
    hide XorW;
    a[o] := y[0];
    a[o + 1] := y[1];
    a[o + 2] := y[2];
    a[o + 3] := y[3];
    a[o + 4] := XorW(a[o], a[o + 1]);
    a[o + 5] := XorW(a[o + 2], a[o + 3]);
    a[o + 6] := XorW(a[o], a[o + 2]);
    a[o + 7] := XorW(a[o + 1], a[o + 3]);
    a[o + 8] := XorW(a[o + 6], a[o + 7]);
    assert a[o..o + 9] == [a[o], a[o + 1], a[o + 2], a[o + 3], a[o + 4], a[o + 5], a[o + 6], a[o + 7], a[o + 8]];
  }

  /** a[i] = bmul32(a[i], b[i]) for all eighteen. */
  method MultiplyAll(a: array<word32>, b: array<word32>, ghost y: seq<word32>, ghost x: seq<word32>)
    requires a.Length == b.Length == 18 && a != b && |y| == |x| == 4
    requires a[..9] == Operands(y) && a[9..] == Operands(RevWords(y)) && b[..9] == Operands(x) && b[9..] == Operands(RevWords(x))
    modifies a
    ensures a[..9] == Products(y, x) && a[9..] == Products(RevWords(y), RevWords(x))
  {
    hide *;
    ghost var a0, b0 := a[..], b[..];
    var i := 0;
    while i < 18
      invariant 0 <= i <= 18 && a[i..] == a0[i..] && b[..] == b0
      invariant forall k :: 0 <= k < i ==> a[k] == Low(a0[k], b0[k])
    {
      assert a[i] == a[i..][0] == a0[i] && b[i] == b0[i];
      BmulIsLow(a[i], b[i]);
      a[i] := Bmul32(a[i], b[i]);
      assert a[i + 1..] == a0[i + 1..];
      i := i + 1;
    }
    assert a0[..9] == Operands(y) && a0[9..] == Operands(RevWords(y));
    assert b0[..9] == Operands(x) && b0[9..] == Operands(RevWords(x));
    NineProducts(a0[..9], b0[..9], a[..9], y, x);
    NineProducts(a0[9..], b0[9..], a[9..], RevWords(y), RevWords(x));
  }

  lemma BmulIsLow(u: word32, v: word32)
    ensures Bmul32(u, v) == Low(u, v)
  {
    hide Bmul32;
    BmulIsProduct(u, v);
  }

  lemma NineProducts(u: seq<word32>, v: seq<word32>, p: seq<word32>, y: seq<word32>, x: seq<word32>)
    requires |y| == |x| == 4 && u == Operands(y) && v == Operands(x) && |p| == 9
    requires forall k :: 0 <= k < 9 ==> p[k] == Low(u[k], v[k])
    ensures p == Products(y, x)
  {
    hide Operands, Low;
    var q := Products(y, x);
    assert q[0] == p[0] && q[1] == p[1] && q[2] == p[2] && q[3] == p[3] && q[4] == p[4];
    assert q[5] == p[5] && q[6] == p[6] && q[7] == p[7] && q[8] == p[8];
  }

  /** A word of the product, from its two diagonals. */
  lemma ProductWordIs(y: seq<word32>, x: seq<word32>, k: nat, w: word32)
    requires |y| == |x| == 4 && k < 8
    requires var low, rev := Combine(Products(y, x)), Combine(Products(RevWords(y), RevWords(x)));
      w == if k == 0 then low[0] else if k == 7 then Shr32(RevW(rev[6]), 1) else XorW(low[k], Shr32(RevW(rev[k - 1]), 1))
    ensures w == Mul(Flat4(y), Flat4(x))[32 * k..32 * k + 32]
  {
    hide Combine, Products, Mul, Flat4, XorW, Shr32, Low, High;
    ProductWord(y, x, k);
    CombineIsDiagonals(y, x);
    CombineIsDiagonals(RevWords(y), RevWords(x));
    RevDiagonal(y, x, k - 1);
    EndDiagonals(y, x);
    XorWZero(Diagonal(y, x, 0));
    XorWZero(HighDiagonal(y, x, 6));
    hide Diagonal, HighDiagonal;
  }

  lemma EndDiagonals(y: seq<word32>, x: seq<word32>)
    requires |y| == |x| == 4
    ensures Diagonal(y, x, 7) == Zeros(32) && HighDiagonal(y, x, -1) == Zeros(32)
  {
    hide Low, High, XorW;
    LowZero(y[0]);
    LowZero(y[1]);
    LowZero(y[2]);
    LowZero(y[3]);
    XorWZero(Zeros(32));
  }

  /** The three cross sums of nine products. */
  function Crossed(p: seq<word32>): (r: seq<word32>)
    requires |p| == 9
    ensures |r| == 9
  {
    p[4 := XorW(p[4], XorW(p[0], p[1]))][5 := XorW(p[5], XorW(p[2], p[3]))][8 := XorW(p[8], XorW(p[6], p[7]))]
  }

  method CrossSums(a: array<word32>, o: nat)
    requires o + 9 <= a.Length
    modifies a
    ensures a[o..o + 9] == Crossed(old(a[o..o + 9])) && a[..o] == old(a[..o]) && a[o + 9..] == old(a[o + 9..])
  {
    hide XorW;
    ghost var p := a[o..o + 9];
    a[o + 4] := XorW(a[o + 4], XorW(a[o], a[o + 1]));
    a[o + 5] := XorW(a[o + 5], XorW(a[o + 2], a[o + 3]));
    a[o + 8] := XorW(a[o + 8], XorW(a[o + 6], a[o + 7]));
    assert a[o..o + 9] == Crossed(p);
  }

  /** The eight words of the product, from the products with their cross sums. */
  method SumWords(a: array<word32>, b: array<word32>)
    requires a.Length == b.Length == 18 && a != b
    modifies b
    ensures forall k: nat :: k < 8 ==> b[k] == SumWord(a[..9], a[9..], k)
  {
    hide XorW, HalfShift, SumWord;
    ghost var p, r := a[..9], a[9..];
    TailAt(a[..], p, r);
    SumWordCases(p, r);
    b[0] := a[0];
    b[1] := XorW(a[4], HalfShift(a[9]));
    b[2] := XorW(XorW(XorW(XorW(a[1], a[0]), a[2]), a[6]), HalfShift(a[13]));
    b[3] := XorW(XorW(XorW(a[4], a[5]), a[8]), HalfShift(XorW(XorW(XorW(a[10], a[9]), a[11]), a[15])));
    b[4] := XorW(XorW(XorW(XorW(a[2], a[1]), a[3]), a[7]), HalfShift(XorW(XorW(a[13], a[14]), a[17])));
    b[5] := XorW(a[5], HalfShift(XorW(XorW(XorW(a[11], a[10]), a[12]), a[16])));
    b[6] := XorW(a[3], HalfShift(a[14]));
    b[7] := HalfShift(a[12]);
  }

  /** Word k of the product. */
  function SumWord(p: seq<word32>, r: seq<word32>, k: nat): word32
    requires |p| == |r| == 9 && k < 8
  {
    match k
    case 0 => p[0]
    case 1 => XorW(p[4], HalfShift(r[0]))
    case 2 => XorW(XorW(XorW(XorW(p[1], p[0]), p[2]), p[6]), HalfShift(r[4]))
    case 3 => XorW(XorW(XorW(p[4], p[5]), p[8]), HalfShift(XorW(XorW(XorW(r[1], r[0]), r[2]), r[6])))
    case 4 => XorW(XorW(XorW(XorW(p[2], p[1]), p[3]), p[7]), HalfShift(XorW(XorW(r[4], r[5]), r[8])))
    case 5 => XorW(p[5], HalfShift(XorW(XorW(XorW(r[2], r[1]), r[3]), r[7])))
    case 6 => XorW(p[3], HalfShift(r[5]))
    case _ => HalfShift(r[3])
  }

  /** The sums of products that make up the eight words of the product. */
  method CombineWords(a: array<word32>, b: array<word32>, ghost y: seq<word32>, ghost x: seq<word32>)
    requires a.Length == b.Length == 18 && a != b && |y| == |x| == 4
    requires a[..9] == Products(y, x) && a[9..] == Products(RevWords(y), RevWords(x))
    modifies a, b
    ensures forall k: nat :: k < 8 ==> b[k] == Mul(Flat4(y), Flat4(x))[32 * k..32 * k + 32]
  {
    hide *;
    ghost var p, r := a[..9], a[9..];
    assert a[0..0 + 9] == p && a[9..9 + 9] == r;
    CrossSums(a, 0);
    assert a[9..] == r && a[9..9 + 9] == r && a[..9] == a[0..0 + 9];
    CrossSums(a, 9);
    assert a[9..] == a[9..9 + 9];
    SumWords(a, b);
    EightWords(b[..8], y, x);
  }

  /** rev32(w) >> 1. */
  function HalfShift(w: word32): (r: word32)
    ensures r == Shr32(RevW(w), 1)
  {
    Rev32IsRev(w);
    Shr32(Rev32(w), 1)
  }

  lemma TailAt(a: seq<word32>, p: seq<word32>, r: seq<word32>)
    requires |a| == 18 && p == a[..9] && r == a[9..]
    ensures forall k: nat :: k < 9 ==> p[k] == a[k] && r[k] == a[9 + k]
  {
  }

  lemma SumWordCases(p: seq<word32>, r: seq<word32>)
    requires |p| == |r| == 9
    ensures SumWord(p, r, 0) == p[0]
    ensures SumWord(p, r, 1) == XorW(p[4], HalfShift(r[0]))
    ensures SumWord(p, r, 2) == XorW(XorW(XorW(XorW(p[1], p[0]), p[2]), p[6]), HalfShift(r[4]))
    ensures SumWord(p, r, 3) == XorW(XorW(XorW(p[4], p[5]), p[8]), HalfShift(XorW(XorW(XorW(r[1], r[0]), r[2]), r[6])))
    ensures SumWord(p, r, 4) == XorW(XorW(XorW(XorW(p[2], p[1]), p[3]), p[7]), HalfShift(XorW(XorW(r[4], r[5]), r[8])))
    ensures SumWord(p, r, 5) == XorW(p[5], HalfShift(XorW(XorW(XorW(r[2], r[1]), r[3]), r[7])))
    ensures SumWord(p, r, 6) == XorW(p[3], HalfShift(r[5]))
    ensures SumWord(p, r, 7) == HalfShift(r[3])
  {
    hide XorW, HalfShift;
  }

  lemma SumWordIs(p: seq<word32>, r: seq<word32>, k: nat)
    requires |p| == |r| == 9 && k < 8
    ensures SumWord(Crossed(p), Crossed(r), k) ==
      if k == 0 then Combine(p)[0] else if k == 7 then HalfShift(Combine(r)[6]) else XorW(Combine(p)[k], HalfShift(Combine(r)[k - 1]))
  {
    CrossedIs(p);
    CrossedIs(r);
    CombineIs(p);
    CombineIs(r);
    hide XorW, HalfShift, Crossed, Combine;
  }

  lemma CrossedIs(p: seq<word32>)
    requires |p| == 9
    ensures Crossed(p)[0] == p[0] && Crossed(p)[1] == p[1] && Crossed(p)[2] == p[2] && Crossed(p)[3] == p[3]
    ensures Crossed(p)[6] == p[6] && Crossed(p)[7] == p[7]
    ensures Crossed(p)[4] == XorW(p[4], XorW(p[0], p[1])) && Crossed(p)[5] == XorW(p[5], XorW(p[2], p[3]))
    ensures Crossed(p)[8] == XorW(p[8], XorW(p[6], p[7]))
  {
    hide XorW;
  }

  lemma CombineIs(a: seq<word32>)
    requires |a| == 9
    ensures Combine(a)[0] == a[0] && Combine(a)[6] == a[3]
    ensures Combine(a)[1] == XorW(a[4], XorW(a[0], a[1])) && Combine(a)[5] == XorW(a[5], XorW(a[2], a[3]))
    ensures Combine(a)[2] == XorW(XorW(XorW(a[1], a[0]), a[2]), a[6]) && Combine(a)[4] == XorW(XorW(XorW(a[2], a[1]), a[3]), a[7])
    ensures Combine(a)[3] == XorW(XorW(Combine(a)[1], Combine(a)[5]), XorW(a[8], XorW(a[6], a[7])))
  {
    hide XorW;
  }

  lemma EightWords(b: seq<word32>, y: seq<word32>, x: seq<word32>)
    requires |b| == 8 && |y| == |x| == 4
    requires forall k: nat :: k < 8 ==> b[k] == SumWord(Crossed(Products(y, x)), Crossed(Products(RevWords(y), RevWords(x))), k)
    ensures forall k: nat :: k < 8 ==> b[k] == Mul(Flat4(y), Flat4(x))[32 * k..32 * k + 32]
  {
    hide *;
    forall k: nat | k < 8
      ensures b[k] == Mul(Flat4(y), Flat4(x))[32 * k..32 * k + 32]
    {
      SumWordIs(Products(y, x), Products(RevWords(y), RevWords(x)), k);
      ProductWordIs(y, x, k, b[k]);
    }
  }

  function FlatWords(s: seq<word32>): (r: seq<bool>)
    ensures |r| == 32 * |s|
  {
    if s == [] then [] else Plain(s[0]) + FlatWords(s[1..])
  }

  lemma {:induction false} FlatWordsAre(s: seq<word32>, m: seq<bool>, i: nat)
    requires |m| == 32 * |s| && i <= |s| && forall k: nat :: k < |s| ==> s[k] == m[32 * k..32 * k + 32]
    ensures FlatWords(s[i..]) == m[32 * i..]
    decreases |s| - i
  {
    if i < |s| {
      FlatWordsAre(s, m, i + 1);
      assert s[i..][1..] == s[i + 1..];
      assert m[32 * i..] == m[32 * i..32 * i + 32] + m[32 * (i + 1)..];
    }
  }

  /** Changing the third and fourth word of what is left. */
  lemma FlatFold(s: seq<word32>, f: word32, g: word32)
    requires |s| >= 4
    ensures FlatWords(s[2 := XorW(s[2], f)][3 := XorW(s[3], g)]) + [false]
         == Xor(FlatWords(s) + [false], Zeros(64) + Plain(f) + Plain(g) + [false] + Zeros(32 * (|s| - 4)))
  {
    var s' := s[2 := XorW(s[2], f)][3 := XorW(s[3], g)];
    FlatFour(s);
    FlatFour(s');
    assert s'[4..] == s[4..];
    hide FlatWords, XorW;
    var tail := FlatWords(s[4..]);
    var a, b, c, d := Plain(s[0]), Plain(s[1]), Plain(s[2]), Plain(s[3]);
    FoldPieces(a, b, c, d, tail, f, g);
  }

  lemma FlatFour(s: seq<word32>)
    requires |s| >= 4
    ensures FlatWords(s) == Plain(s[0]) + Plain(s[1]) + Plain(s[2]) + Plain(s[3]) + FlatWords(s[4..])
  {
    assert s[1..][1..] == s[2..] && s[2..][1..] == s[3..] && s[3..][1..] == s[4..];
    assert FlatWords(s) == Plain(s[0]) + FlatWords(s[1..]) && FlatWords(s[1..]) == Plain(s[1]) + FlatWords(s[2..]);
    assert FlatWords(s[2..]) == Plain(s[2]) + FlatWords(s[3..]) && FlatWords(s[3..]) == Plain(s[3]) + FlatWords(s[4..]);
    hide FlatWords;
    JoinFive(Plain(s[0]), Plain(s[1]), Plain(s[2]), Plain(s[3]), FlatWords(s[4..]));
  }

  lemma JoinFive(a: seq<bool>, b: seq<bool>, c: seq<bool>, d: seq<bool>, e: seq<bool>)
    ensures a + (b + (c + (d + e))) == a + b + c + d + e
  {
  }

  lemma FoldPieces(a: seq<bool>, b: seq<bool>, c: word32, d: word32, tail: seq<bool>, f: word32, g: word32)
    requires |a| == |b| == 32
    ensures a + b + Plain(XorW(c, f)) + Plain(XorW(d, g)) + tail + [false]
         == Xor(a + b + Plain(c) + Plain(d) + tail + [false], Zeros(64) + Plain(f) + Plain(g) + [false] + Zeros(|tail|))
  {
    var n := |tail|;
    assert [false] + Zeros(n) == Zeros(n + 1);
    XorConcat(a + b, Plain(c), Zeros(64), Plain(f));
    XorConcat(a + b + Plain(c), Plain(d), Zeros(64) + Plain(f), Plain(g));
    XorConcat(a + b + Plain(c) + Plain(d), tail + [false], Zeros(64) + Plain(f) + Plain(g), Zeros(n + 1));
    XorZero(a + b);
    XorZero(tail + [false]);
    hide XorW, Plain;
    var l, z := a + b + Plain(c) + Plain(d), Zeros(64) + Plain(f) + Plain(g);
    assert l + (tail + [false]) == l + tail + [false];
    assert z + ([false] + Zeros(n)) == z + [false] + Zeros(n);
    assert Xor(l, z) + (tail + [false]) == Xor(l, z) + tail + [false];
  }

  /** The loop that folds the low words into the high ones. */
  method Fold(b: array<word32>, ghost t: seq<bool>) returns (ghost q: seq<bool>)
    requires b.Length == 18 && |t| == 256 && FlatWords(b[..8]) == t
    modifies b
    ensures |q| == 128 && FoldInv(t, q, FlatWords(b[4..8]))
  {
    hide *;
    q := [];
    FoldStart(t);
    var i := 0;
    assert b[0..8] == b[..8];
    while i < 4
      invariant 0 <= i <= 4 && |q| == 32 * i && FoldInv(t, q, FlatWords(b[i..8]))
    {
      ghost var rest := b[i..8];
      var lw := b[i];
      b[i + 4] := XorW(b[i + 4], FoldHigh(lw));
      b[i + 3] := XorW(b[i + 3], FoldLow(lw));
      ghost var next := rest[1..][2 := XorW(rest[3], FoldLow(lw))][3 := XorW(rest[4], FoldHigh(lw))];
      assert b[i + 1..8] == next;
      FoldRest(rest, lw, next, i);
      FoldStep(t, q, FlatWords(rest), lw, FlatWords(next));
      q := q + lw;
      i := i + 1;
    }
  }

  lemma FoldRest(rest: seq<word32>, lw: word32, next: seq<word32>, i: nat)
    requires i < 4 && |rest| == 8 - i && lw == rest[0]
    requires next == rest[1..][2 := XorW(rest[3], FoldLow(lw))][3 := XorW(rest[4], FoldHigh(lw))]
    ensures |FlatWords(rest)| == 256 - 32 * i && FlatWords(rest)[..32] == lw && |FlatWords(next)| == 224 - 32 * i
    ensures FlatWords(next) + [false] == Xor(FlatWords(rest) + [false], Folded(lw) + Zeros(96 - 32 * i))[32..]
  {
    var s := rest[1..];
    assert FlatWords(rest) == Plain(lw) + FlatWords(s);
    FlatFold(s, FoldLow(lw), FoldHigh(lw));
    hide *;
    FoldSlice(Plain(lw), FlatWords(s), Plain(FoldLow(lw)), Plain(FoldHigh(lw)), Zeros(96 - 32 * i));
    FoldedIs(lw);
  }

  lemma FoldedIs(w: word32)
    ensures Folded(w) == Plain(w) + Zeros(64) + Plain(FoldLow(w)) + Plain(FoldHigh(w)) + [false]
  {
  }

  lemma FoldSlice(w: seq<bool>, s: seq<bool>, f: seq<bool>, g: seq<bool>, pad: seq<bool>)
    requires |w| == |f| == |g| == 32 && |s| == 128 + |pad|
    ensures Xor(w + s + [false], w + Zeros(64) + f + g + [false] + pad)[32..] == Xor(s + [false], Zeros(64) + f + g + [false] + pad)
  {
    var x, y := w + s + [false], w + Zeros(64) + f + g + [false] + pad;
    XorSlice(x, y, 32, |x|);
    assert x[32..] == s + [false];
    assert y == w + (Zeros(64) + f + g + [false] + pad);
    assert y[32..] == Zeros(64) + f + g + [false] + pad;
  }

  /** mul: x = x * y * x^-128. */
  method MulWords(x: array<word32>, y: array<word32>)
    requires x.Length == y.Length == 4
    modifies x
    ensures Flat4(x[..]) == Dot(Flat4(old(y[..])), Flat4(old(x[..])))
  {
    hide *;
    ghost var xs, ys := x[..], y[..];
    var a, b := new word32[18], new word32[18];
    FillOperands(a, y[..]);
    FillOperands(b, x[..]);
    MultiplyAll(a, b, ys, xs);
    CombineWords(a, b, ys, xs);
    ghost var t := Mul(Flat4(ys), Flat4(xs));
    ProductLength(ys, xs);
    FlatWordsAre(b[..8], t, 0);
    assert b[..8][0..] == b[..8] && t[32 * 0..] == t;
    ghost var q := Fold(b, t);
    ghost var high := b[4..8];
    x[0] := b[4];
    x[1] := b[5];
    x[2] := b[6];
    x[3] := b[7];
    assert x[..] == high;
    FlatWordsFour(high);
    FoldEnd(Flat4(ys), Flat4(xs), q, Flat4(high));
  }

  lemma ProductLength(y: seq<word32>, x: seq<word32>)
    requires |y| == |x| == 4
    ensures |Mul(Flat4(y), Flat4(x))| == 256 && |Flat4(y)| == |Flat4(x)| == 128
  {
  }

  lemma FlatWordsFour(s: seq<word32>)
    requires |s| == 4
    ensures FlatWords(s) == Flat4(s) && |Flat4(s)| == 128
  {
    FlatFour(s);
    assert FlatWords(s[4..]) == [];
  }

  /** dot is commutative. */
  lemma DotCommutes(a: seq<bool>, b: seq<bool>)
    requires |a| == |b| == 128
    ensures Dot(a, b) == Dot(b, a)
  {
    hide DotBits, Mul, Modulus;
    DotIsDot(a, b);
    DotIsDot(b, a);
    MulCommutative(a, b);
    var q: seq<bool> :| |q| == 128 && Reduces(b, a, Dot(b, a), q);
    assert Reduces(a, b, Dot(b, a), q);
    DotUnique(a, b, Dot(a, b), Dot(b, a));
  }

  // ---- bytes ----

  /** Four bytes as a word, the first byte lowest. */
  function LoadWord(s: seq<bv8>): word32
    requires |s| == 4
  {
    Rev(ByteBits(s[0])) + Rev(ByteBits(s[1])) + Rev(ByteBits(s[2])) + Rev(ByteBits(s[3]))
  }

  /** A 16-byte block as four words. */
  function LoadBlock(s: seq<bv8>): (x: seq<word32>)
    requires |s| == 16
    ensures |x| == 4
  {
    [LoadWord(s[0..4]), LoadWord(s[4..8]), LoadWord(s[8..12]), LoadWord(s[12..16])]
  }

  /** A block as a polynomial. */
  function BlockBits(s: seq<bv8>): (r: seq<bool>)
    requires |s| == 16
    ensures |r| == 128
  {
    Flat4(LoadBlock(s))
  }

  lemma WordBit(s: seq<bv8>, k: nat)
    requires |s| == 4 && k < 32
    ensures LoadWord(s)[k] == ByteBits(s[k / 8])[7 - k % 8]
  {
    hide ByteBits, Rev;
    var i := k / 8;
    assert k == 8 * i + k % 8;
    if {
      case i == 0 =>
      case i == 1 =>
      case i == 2 =>
      case i == 3 =>
    }
  }

  lemma WordOfBlock(s: seq<bv8>, k: nat)
    requires |s| == 16 && k < 128
    ensures BlockBits(s)[k] == LoadWord(s[k / 32 * 4..k / 32 * 4 + 4])[k % 32]
  {
    hide LoadWord;
    var i := k / 32;
    assert k == 32 * i + k % 32;
    if {
      case i == 0 =>
      case i == 1 =>
      case i == 2 =>
      case i == 3 =>
    }
  }

  /** Bit j of byte i of a block, from the least significant, is the coefficient of x^(8 * i + j): section 3 of RFC 8452. */
  lemma BlockBitsAre(s: seq<bv8>)
    requires |s| == 16
    ensures LowBitsFirst(s, BlockBits(s))
  {
    hide LoadWord, BlockBits, ByteBits;
    forall k | 0 <= k < 128
      ensures BlockBits(s)[k] == BitOf(s[k / 8], k % 8)
    {
      WordOfBlock(s, k);
      WordBit(s[k / 32 * 4..k / 32 * 4 + 4], k % 32);
      ByteInWord(k);
      BitOfByte(s[k / 8], 7 - k % 8);
    }
  }

  lemma ByteInWord(k: nat)
    ensures k / 8 == k / 32 * 4 + k % 32 / 8 && k % 8 == k % 32 % 8 && 7 - (7 - k % 8) == k % 8
  {
  }

  /** The four bytes of a word, lowest first. */
  function StoreWord(w: word32): (s: seq<bv8>)
    ensures |s| == 4
  {
    [ByteOf(Rev(w[0..8])), ByteOf(Rev(w[8..16])), ByteOf(Rev(w[16..24])), ByteOf(Rev(w[24..32]))]
  }

  lemma StoreLoad(w: word32)
    ensures LoadWord(StoreWord(w)) == w
  {
    ByteLoad(w[0..8]);
    ByteLoad(w[8..16]);
    ByteLoad(w[16..24]);
    ByteLoad(w[24..32]);
    hide ByteOf, ByteBits, Rev;
    JoinBytes(w);
  }

  lemma JoinBytes(w: word32)
    ensures w == w[0..8] + w[8..16] + w[16..24] + w[24..32]
  {
  }

  lemma ByteLoad(t: seq<bool>)
    requires |t| == 8
    ensures Rev(ByteBits(ByteOf(Rev(t)))) == t
  {
    BitsRoundTrip(Rev(t));
    hide ByteOf, ByteBits;
    RevTwice(t);
  }

  lemma RevTwice(s: seq<bool>)
    ensures Rev(Rev(s)) == s
  {
  }

  lemma FlatXorWords(a: seq<word32>, b: seq<word32>, c: seq<word32>)
    requires |a| == |b| == |c| == 4 && forall i :: 0 <= i < 4 ==> c[i] == XorW(a[i], b[i])
    ensures Flat4(c) == Xor(Flat4(a), Flat4(b))
  {
    var a0, a1, a2, a3 := Plain(a[0]), Plain(a[1]), Plain(a[2]), Plain(a[3]);
    var b0, b1, b2, b3 := Plain(b[0]), Plain(b[1]), Plain(b[2]), Plain(b[3]);
    XorConcat(a0, a1, b0, b1);
    XorConcat(a0 + a1, a2, b0 + b1, b2);
    XorConcat(a0 + a1 + a2, a3, b0 + b1 + b2, b3);
  }

  /** The key and the running sum. */
  class PolyvalContext {
    const h: array<word32>
    const s: array<word32>
    /** The key as a polynomial, and the blocks processed so far. */
    ghost const key: seq<bool>
    ghost var xs: seq<seq<bool>>

    /** The sum is POLYVAL of the blocks processed since the start. */
    ghost predicate Valid()
      reads this, h, s
    {
      && h.Length == s.Length == 4 && h != s && |key| == 128 && Flat4(h[..]) == key
      && (forall i :: 0 <= i < |xs| ==> |xs[i]| == 128)
      && Flat4(s[..]) == PolyvalOf(key, xs)
    }

    /** polyval_init. */
    constructor (k: seq<bv8>)
      requires |k| == 16
      ensures Valid() && fresh(h) && fresh(s) && LowBitsFirst(k, key) && xs == []
    {
      var x := LoadBlock(k);
      h := new word32[4](i requires 0 <= i < 4 => x[i]);
      s := new word32[4](i => Zeros(32));
      key := BlockBits(k);
      xs := [];
      new;
      hide LoadBlock;
      BlockBitsAre(k);
      hide LowBitsFirst;
      assert h[..] == x;
      assert s[..] == [Zeros(32), Zeros(32), Zeros(32), Zeros(32)];
      ZeroSum();
    }

    /** polyval_process_block. */
    method ProcessBlock(block: seq<bv8>)
      requires Valid() && |block| == 16
      modifies this, s
      ensures Valid() && xs == old(xs) + [BlockBits(block)] && LowBitsFirst(block, BlockBits(block))
    {
      hide Flat4, Dot, LoadWord, XorW, PolyvalOf, LowBitsFirst;
      BlockBitsAre(block);
      ghost var s0, sum := s[..], PolyvalOf(key, xs);
      var x := [LoadWord(block[0..4]), LoadWord(block[4..8]), LoadWord(block[8..12]), LoadWord(block[12..16])];
      s[0] := XorW(s[0], x[0]);
      s[1] := XorW(s[1], x[1]);
      s[2] := XorW(s[2], x[2]);
      s[3] := XorW(s[3], x[3]);
      FlatXorWords(s0, x, s[..]);
      assert x == LoadBlock(block);
      MulWords(s, h);
      SumSnoc(key, xs, BlockBits(block));
      DotCommutes(key, Xor(sum, BlockBits(block)));
      xs := xs + [BlockBits(block)];
    }

    /** polyval_finalize. */
    method Finalize() returns (out: seq<bv8>)
      requires Valid()
      ensures |out| == 16 && LowBitsFirst(out, PolyvalOf(key, xs))
    {
      hide LoadWord, StoreWord, Flat4, PolyvalOf, LowBitsFirst;
      StoreLoad(s[0]);
      StoreLoad(s[1]);
      StoreLoad(s[2]);
      StoreLoad(s[3]);
      var a, b, c, d := StoreWord(s[0]), StoreWord(s[1]), StoreWord(s[2]), StoreWord(s[3]);
      out := a + b + c + d;
      assert out[0..4] == a && out[4..8] == b && out[8..12] == c && out[12..16] == d;
      assert LoadBlock(out) == s[..];
      BlockBitsAre(out);
    }
  }

  lemma ZeroSum()
    ensures Flat4([Zeros(32), Zeros(32), Zeros(32), Zeros(32)]) == Zeros(128)
  {
  }

  lemma SumSnoc(h: seq<bool>, xs: seq<seq<bool>>, x: seq<bool>)
    requires |h| == |x| == 128 && forall i :: 0 <= i < |xs| ==> |xs[i]| == 128
    ensures PolyvalOf(h, xs + [x]) == Dot(Xor(PolyvalOf(h, xs), x), h)
  {
    assert (xs + [x])[..|xs|] == xs;
  }
}
