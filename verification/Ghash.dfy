/** GHASH with Shoup's 4-bit tables. */
module Ghash {
  import opened Bits

  // ---- the field: NIST SP 800-38D, section 6.3 ----

  /** R = 11100001 followed by 120 zeros. */
  function R(): (r: seq<bool>)
    ensures |r| == 128
  {
    [true, true, true, false, false, false, false, true] + Zeros(120)
  }

  /** V * x: shifted right, reduced when the last bit falls out. */
  function Times(v: seq<bool>): (r: seq<bool>)
    requires |v| == 128
    ensures |r| == 128
  {
    Xor([false] + v[..127], Sel(v[127], R()))
  }

  /** Bit by bit: x^128 is x^7 + x^2 + x + 1. */
  lemma TimesIs(v: seq<bool>, i: nat)
    requires |v| == 128 && i < 128
    ensures Times(v)[i] == ((i > 0 && v[i - 1]) != (v[127] && (i == 0 || i == 1 || i == 2 || i == 7)))
  {
  }

  /** The loop of section 6.3: z takes v for every set bit of x while v is multiplied by x each time. */
  function Product(x: seq<bool>, z: seq<bool>, v: seq<bool>): (r: seq<bool>)
    requires |z| == |v| == 128
    ensures |r| == 128
  {
    if x == [] then z else Product(x[1..], if x[0] then Xor(z, v) else z, Times(v))
  }

  /** X * Y in GF(2^128). */
  function Dot(x: seq<bool>, y: seq<bool>): (r: seq<bool>)
    requires |x| == |y| == 128
    ensures |r| == 128
  {
    Product(x, Zeros(128), y)
  }

  /** GHASH of section 6.4 over the blocks of xs, from Y0 = 0. */
  function GHash(h: seq<bool>, xs: seq<seq<bool>>): (y: seq<bool>)
    requires |h| == 128 && forall i :: 0 <= i < |xs| ==> |xs[i]| == 128
    ensures |y| == 128
  {
    if xs == [] then Zeros(128) else Dot(Xor(GHash(h, xs[..|xs| - 1]), xs[|xs| - 1]), h)
  }

  // ---- multiplication by x is linear ----

  lemma TimesXor(a: seq<bool>, b: seq<bool>)
    requires |a| == |b| == 128
    ensures Times(Xor(a, b)) == Xor(Times(a), Times(b))
  {
    hide R;
  }

  lemma TimesZero()
    ensures Times(Zeros(128)) == Zeros(128)
  {
    hide R;
  }

  lemma TimesSel(bit: bool, v: seq<bool>)
    requires |v| == 128
    ensures Times(Sel(bit, v)) == Sel(bit, Times(v))
  {
    hide Times;
    TimesZero();
  }

  /** The same sum from the last bit up. */
  function Horner(x: seq<bool>, h: seq<bool>): (r: seq<bool>)
    requires |h| == 128
    ensures |r| == 128
  {
    if x == [] then Zeros(128) else Xor(Sel(x[0], h), Times(Horner(x[1..], h)))
  }

  lemma {:induction false} HornerTimes(x: seq<bool>, h: seq<bool>)
    requires |h| == 128
    ensures Horner(x, Times(h)) == Times(Horner(x, h))
  {
    hide Times;
    if x == [] {
      TimesZero();
    } else {
      HornerTimes(x[1..], h);
      TimesXor(Sel(x[0], h), Times(Horner(x[1..], h)));
      TimesSel(x[0], h);
    }
  }

  lemma {:induction false} ProductIsHorner(x: seq<bool>, z: seq<bool>, v: seq<bool>)
    requires |z| == |v| == 128
    ensures Product(x, z, v) == Xor(z, Horner(x, v))
  {
    hide Times;
    if x == [] {
      XorZero(z);
    } else {
      var z' := if x[0] then Xor(z, v) else z;
      ProductIsHorner(x[1..], z', Times(v));
      HornerTimes(x[1..], v);
      XorZero(z);
      XorAssoc(z, Sel(x[0], v), Times(Horner(x[1..], v)));
    }
  }

  lemma DotIsHorner(x: seq<bool>, y: seq<bool>)
    requires |x| == |y| == 128
    ensures Dot(x, y) == Horner(x, y)
  {
    ProductIsHorner(x, Zeros(128), y);
    XorZero(Horner(x, y));
  }

  lemma {:induction false} HornerXor(x: seq<bool>, y: seq<bool>, h: seq<bool>)
    requires |x| == |y| && |h| == 128
    ensures Horner(Xor(x, y), h) == Xor(Horner(x, h), Horner(y, h))
  {
    hide Times;
    if x == [] {
      XorZero(Zeros(128));
    } else {
      HornerXor(x[1..], y[1..], h);
      assert Xor(x, y)[1..] == Xor(x[1..], y[1..]);
      var p, q := Horner(x[1..], h), Horner(y[1..], h);
      TimesXor(p, q);
      XorSwap(Sel(x[0], h), Times(p), Sel(y[0], h), Times(q));
      assert Sel(x[0] != y[0], h) == Xor(Sel(x[0], h), Sel(y[0], h));
    }
  }

  /** The product distributes over the sum. */
  lemma DotXor(x: seq<bool>, y: seq<bool>, h: seq<bool>)
    requires |x| == |y| == |h| == 128
    ensures Dot(Xor(x, y), h) == Xor(Dot(x, h), Dot(y, h))
  {
    DotIsHorner(x, h);
    DotIsHorner(y, h);
    DotIsHorner(Xor(x, y), h);
    HornerXor(x, y, h);
    hide *;
  }

  /** x multiplied by h k times. */
  function DotTimes(x: seq<bool>, h: seq<bool>, k: nat): (r: seq<bool>)
    requires |x| == |h| == 128
    ensures |r| == 128
  {
    if k == 0 then x else Dot(DotTimes(x, h, k - 1), h)
  }

  /** X1 * H^n + X2 * H^(n-1) + ... + Xn * H, and one more factor H^k on every term. */
  function HashSum(h: seq<bool>, xs: seq<seq<bool>>, k: nat): (y: seq<bool>)
    requires |h| == 128 && forall i :: 0 <= i < |xs| ==> |xs[i]| == 128
    ensures |y| == 128
  {
    if xs == [] then Zeros(128) else Xor(DotTimes(xs[0], h, |xs| + k), HashSum(h, xs[1..], k))
  }

  lemma {:induction false} HashSumSnoc(h: seq<bool>, xs: seq<seq<bool>>, x: seq<bool>, k: nat)
    requires |h| == |x| == 128 && forall i :: 0 <= i < |xs| ==> |xs[i]| == 128
    ensures HashSum(h, xs + [x], k) == Xor(HashSum(h, xs, k + 1), DotTimes(x, h, k + 1))
  {
    hide DotTimes;
    if xs == [] {
      assert (xs + [x])[1..] == [];
      XorZero(DotTimes(x, h, k + 1));
    } else {
      HashSumSnoc(h, xs[1..], x, k);
      assert (xs + [x])[1..] == xs[1..] + [x];
      XorAssoc(DotTimes(xs[0], h, |xs| + 1 + k), HashSum(h, xs[1..], k + 1), DotTimes(x, h, k + 1));
    }
  }

  lemma {:induction false} HashSumDot(h: seq<bool>, xs: seq<seq<bool>>, k: nat)
    requires |h| == 128 && forall i :: 0 <= i < |xs| ==> |xs[i]| == 128
    ensures HashSum(h, xs, k + 1) == Dot(HashSum(h, xs, k), h)
  {
    hide Dot;
    if xs == [] {
      DotZero(h);
    } else {
      HashSumDot(h, xs[1..], k);
      DotXor(DotTimes(xs[0], h, |xs| + k), HashSum(h, xs[1..], k), h);
    }
  }

  lemma DotZero(h: seq<bool>)
    requires |h| == 128
    ensures Dot(Zeros(128), h) == Zeros(128)
  {
    hide Dot;
    XorZero(Zeros(128));
    DotXor(Zeros(128), Zeros(128), h);
    XorZero(Dot(Zeros(128), h));
  }

  /** GHASH in closed form, as section 6.4 explains it: X1 * H^n + ... + Xn * H. */
  lemma {:induction false} GHashIsSum(h: seq<bool>, xs: seq<seq<bool>>)
    requires |h| == 128 && forall i :: 0 <= i < |xs| ==> |xs[i]| == 128
    ensures GHash(h, xs) == HashSum(h, xs, 0)
  {
    hide Dot;
    if xs != [] {
      var n := |xs| - 1;
      var x := xs[n];
      GHashIsSum(h, xs[..n]);
      DotXor(GHash(h, xs[..n]), x, h);
      HashSumDot(h, xs[..n], 0);
      assert xs == xs[..n] + [x];
      HashSumSnoc(h, xs[..n], x, 0);
      assert DotTimes(x, h, 1) == Dot(DotTimes(x, h, 0), h);
    }
  }

  // ---- four bits at a time ----

  function Times4(v: seq<bool>): (r: seq<bool>)
    requires |v| == 128
    ensures |r| == 128
  {
    Times(Times(Times(Times(v))))
  }

  /** The product of four bits, seen as a polynomial, and h. */
  function Entry(s: seq<bool>, h: seq<bool>): (r: seq<bool>)
    requires |s| == 4 && |h| == 128
    ensures |r| == 128
  {
    Xor(Xor(Sel(s[0], h), Sel(s[1], Times(h))), Xor(Sel(s[2], Times(Times(h))), Sel(s[3], Times(Times(Times(h))))))
  }

  /** Two bits taken out of a sum. */
  lemma TwoBits(c: bool, d: bool, h: seq<bool>, z: seq<bool>)
    requires |h| == |z| == 128
    ensures Xor(Sel(c, h), Times(Xor(Sel(d, h), Times(z)))) == Xor(Xor(Sel(c, h), Sel(d, Times(h))), Times(Times(z)))
  {
    hide Times, Sel;
    TimesXor(Sel(d, h), Times(z));
    TimesSel(d, h);
    XorAssoc(Sel(c, h), Sel(d, Times(h)), Times(Times(z)));
  }

  lemma NibbleStep(s: seq<bool>, h: seq<bool>, z: seq<bool>)
    requires |s| == 4 && |h| == |z| == 128
    ensures Xor(Sel(s[0], h), Times(Xor(Sel(s[1], h), Times(Xor(Sel(s[2], h), Times(Xor(Sel(s[3], h), Times(z))))))))
         == Xor(Entry(s, h), Times4(z))
  {
    hide Times, Sel;
    var low := Xor(Sel(s[2], h), Sel(s[3], Times(h)));
    TwoBits(s[2], s[3], h, z);
    TwoBits(s[0], s[1], h, Xor(low, Times(Times(z))));
    TimesXor(low, Times(Times(z)));
    TimesXor(Times(low), Times(Times(Times(z))));
    TimesXor(Sel(s[2], h), Sel(s[3], Times(h)));
    TimesXor(Times(Sel(s[2], h)), Times(Sel(s[3], Times(h))));
    TimesSel(s[2], h);
    TimesSel(s[3], Times(h));
    TimesSel(s[2], Times(h));
    TimesSel(s[3], Times(Times(h)));
    var high := Xor(Sel(s[0], h), Sel(s[1], Times(h)));
    var mid := Xor(Sel(s[2], Times(Times(h))), Sel(s[3], Times(Times(Times(h)))));
    assert Times(Times(low)) == mid;
    XorAssoc(high, mid, Times4(z));
  }

  lemma HornerFirst(x: seq<bool>, i: nat, h: seq<bool>)
    requires i < |x| && |h| == 128
    ensures Horner(x[i..], h) == Xor(Sel(x[i], h), Times(Horner(x[i + 1..], h)))
  {
    hide Times, Sel;
    assert x[i..][1..] == x[i + 1..];
  }

  lemma HornerNibble(s: seq<bool>, rest: seq<bool>, h: seq<bool>)
    requires |s| == 4 && |h| == 128
    ensures Horner(s + rest, h) == Xor(Entry(s, h), Times4(Horner(rest, h)))
  {
    hide *;
    var x := s + rest;
    HornerFirst(x, 0, h);
    HornerFirst(x, 1, h);
    HornerFirst(x, 2, h);
    HornerFirst(x, 3, h);
    assert x[0..] == x && x[4..] == rest;
    assert x[0] == s[0] && x[1] == s[1] && x[2] == s[2] && x[3] == s[3];
    NibbleStep(s, h, Horner(rest, h));
  }

  // ---- the reduction table ----

  /** Four bits of a hexadecimal digit. */
  function Nib(d: nat): (s: seq<bool>)
    ensures |s| == 4
  {
    [d / 8 % 2 == 1, d / 4 % 2 == 1, d / 2 % 2 == 1, d % 2 == 1]
  }

  /** The value of four bits. */
  function Num4(s: seq<bool>): (n: nat)
    requires |s| == 4
    ensures n < 16
  {
    (if s[0] then 8 else 0) + (if s[1] then 4 else 0) + (if s[2] then 2 else 0) + if s[3] then 1 else 0
  }

  lemma NibOfNum(s: seq<bool>)
    requires |s| == 4
    ensures Nib(Num4(s)) == s
  {
  }

  function Hex4(a: nat, b: nat, c: nat, d: nat): (s: seq<bool>)
    ensures |s| == 16
  {
    Nib(a) + Nib(b) + Nib(c) + Nib(d)
  }

  /** The table last4 of the code. */
  function Last4(n: nat): (s: seq<bool>)
    requires n < 16
    ensures |s| == 16
  {
    match n
    case 0 => Hex4(0x0, 0x0, 0x0, 0x0)
    case 1 => Hex4(0x1, 0xc, 0x2, 0x0)
    case 2 => Hex4(0x3, 0x8, 0x4, 0x0)
    case 3 => Hex4(0x2, 0x4, 0x6, 0x0)
    case 4 => Hex4(0x7, 0x0, 0x8, 0x0)
    case 5 => Hex4(0x6, 0xc, 0xa, 0x0)
    case 6 => Hex4(0x4, 0x8, 0xc, 0x0)
    case 7 => Hex4(0x5, 0x4, 0xe, 0x0)
    case 8 => Hex4(0xe, 0x1, 0x0, 0x0)
    case 9 => Hex4(0xf, 0xd, 0x2, 0x0)
    case 10 => Hex4(0xd, 0x9, 0x4, 0x0)
    case 11 => Hex4(0xc, 0x5, 0x6, 0x0)
    case 12 => Hex4(0x9, 0x1, 0x8, 0x0)
    case 13 => Hex4(0x8, 0xd, 0xa, 0x0)
    case 14 => Hex4(0xa, 0x9, 0xc, 0x0)
    case _ => Hex4(0xb, 0x5, 0xe, 0x0)
  }

  /** R shifted right k times, its first 16 bits. */
  function ShiftedR(k: nat): (s: seq<bool>)
    requires k <= 3
    ensures |s| == 16
  {
    match k
    case 0 => Hex4(0xe, 0x1, 0x0, 0x0)
    case 1 => Hex4(0x7, 0x0, 0x8, 0x0)
    case 2 => Hex4(0x3, 0x8, 0x4, 0x0)
    case _ => Hex4(0x1, 0xc, 0x2, 0x0)
  }

  lemma TimesR()
    ensures R() == ShiftedR(0) + Zeros(112)
    ensures Times(R()) == ShiftedR(1) + Zeros(112)
    ensures Times(Times(R())) == ShiftedR(2) + Zeros(112)
    ensures Times(Times(Times(R()))) == ShiftedR(3) + Zeros(112)
  {
    ShiftedRIs();
    hide ShiftedR;
    assert R() == ShiftedR(0) + Zeros(112);
    hide R;
    TimesShift(ShiftedR(0) + Zeros(112), ShiftedR(1));
    TimesShift(ShiftedR(1) + Zeros(112), ShiftedR(2));
    TimesShift(ShiftedR(2) + Zeros(112), ShiftedR(3));
  }

  lemma ShiftedRIs()
    ensures ShiftedR(0) == [true, true, true, false, false, false, false, true] + Zeros(8)
    ensures ShiftedR(1) == [false] + ShiftedR(0)[..15] && !ShiftedR(0)[15]
    ensures ShiftedR(2) == [false] + ShiftedR(1)[..15] && !ShiftedR(1)[15]
    ensures ShiftedR(3) == [false] + ShiftedR(2)[..15] && !ShiftedR(2)[15]
  {
    assert ShiftedR(0) == [true, true, true, false, false, false, false, true] + Zeros(8);
    ShiftedHex(0xe, 0x1, 0x0, 0x0, 0x7, 0x0, 0x8, 0x0);
    ShiftedHex(0x7, 0x0, 0x8, 0x0, 0x3, 0x8, 0x4, 0x0);
    ShiftedHex(0x3, 0x8, 0x4, 0x0, 0x1, 0xc, 0x2, 0x0);
  }

  /** Four hexadecimal digits shifted right by one bit. */
  lemma ShiftedHex(a: nat, b: nat, c: nat, d: nat, a': nat, b': nat, c': nat, d': nat)
    requires a' == a / 2 && b' == a % 2 * 8 + b / 2 && c' == b % 2 * 8 + c / 2 && d' == c % 2 * 8 + d / 2
    requires a < 16 && b < 16 && c < 16 && d < 16 && d % 2 == 0
    ensures Hex4(a', b', c', d') == [false] + Hex4(a, b, c, d)[..15] && !Hex4(a, b, c, d)[15]
  {
    ShiftedNib(0, a, a');
    ShiftedNib(a, b, b');
    ShiftedNib(b, c, c');
    ShiftedNib(c, d, d');
    hide Nib;
    var w, w' := Hex4(a, b, c, d), Hex4(a', b', c', d');
    JoinShifted(Nib(a), Nib(b), Nib(c), Nib(d), Nib(a'), Nib(b'), Nib(c'), Nib(d'));
  }

  lemma ShiftedNib(hi: nat, lo: nat, d: nat)
    requires hi < 16 && lo < 16 && d == hi % 2 * 8 + lo / 2
    ensures Nib(d)[0] == (hi % 2 == 1) == Nib(hi)[3] && Nib(d)[1] == Nib(lo)[0] && Nib(d)[2] == Nib(lo)[1] && Nib(d)[3] == Nib(lo)[2]
    ensures Nib(lo)[3] == (lo % 2 == 1)
  {
  }

  lemma JoinShifted(a: seq<bool>, b: seq<bool>, c: seq<bool>, d: seq<bool>, a': seq<bool>, b': seq<bool>, c': seq<bool>, d': seq<bool>)
    requires |a| == |b| == |c| == |d| == |a'| == |b'| == |c'| == |d'| == 4
    requires !a'[0] && a'[1..] == a[..3] && b' == [a[3]] + b[..3] && c' == [b[3]] + c[..3] && d' == [c[3]] + d[..3]
    ensures a' + b' + c' + d' == [false] + (a + b + c + d)[..15]
  {
  }

  lemma TimesShift(v: seq<bool>, t: seq<bool>)
    requires |v| == 128 && |t| == 16 && v[16..] == Zeros(112) && t == [false] + v[..15] && !v[15]
    ensures Times(v) == t + Zeros(112)
  {
    hide R;
    assert v[127] == v[16..][111] == false;
    XorZero([false] + v[..127]);
    assert v[..127] == v[..15] + [v[15]] + v[16..][..111];
    assert v[16..][..111] == Zeros(111);
    assert [v[15]] + Zeros(111) == Zeros(112);
  }

  /** Exclusive or of two hexadecimal digits. */
  function XorDigit(a: nat, b: nat): (d: nat)
    ensures d < 16
  {
    (if (a / 8 % 2 == 1) != (b / 8 % 2 == 1) then 8 else 0) + (if (a / 4 % 2 == 1) != (b / 4 % 2 == 1) then 4 else 0)
    + (if (a / 2 % 2 == 1) != (b / 2 % 2 == 1) then 2 else 0) + if (a % 2 == 1) != (b % 2 == 1) then 1 else 0
  }

  lemma NibXor(a: nat, b: nat)
    ensures Nib(XorDigit(a, b)) == Xor(Nib(a), Nib(b))
  {
    var x, y := Nib(a), Nib(b);
    assert XorDigit(a, b) == Num4([x[0] != y[0], x[1] != y[1], x[2] != y[2], x[3] != y[3]]);
    NibOfNum([x[0] != y[0], x[1] != y[1], x[2] != y[2], x[3] != y[3]]);
    assert Xor(x, y) == [x[0] != y[0], x[1] != y[1], x[2] != y[2], x[3] != y[3]];
  }

  lemma HexXor(a: nat, b: nat, c: nat, d: nat, a': nat, b': nat, c': nat, d': nat)
    ensures Xor(Hex4(a, b, c, d), Hex4(a', b', c', d')) == Hex4(XorDigit(a, a'), XorDigit(b, b'), XorDigit(c, c'), XorDigit(d, d'))
  {
    hide Nib, XorDigit;
    NibXor(a, a');
    NibXor(b, b');
    NibXor(c, c');
    NibXor(d, d');
    XorConcat(Nib(a), Nib(b), Nib(a'), Nib(b'));
    XorConcat(Nib(a) + Nib(b), Nib(c), Nib(a') + Nib(b'), Nib(c'));
    XorConcat(Nib(a) + Nib(b) + Nib(c), Nib(d), Nib(a') + Nib(b') + Nib(c'), Nib(d'));
  }

  function SelDigit(bit: bool, d: nat): nat {
    if bit then d else 0
  }

  lemma SelHex(bit: bool, a: nat, b: nat, c: nat, d: nat)
    ensures Sel(bit, Hex4(a, b, c, d)) == Hex4(SelDigit(bit, a), SelDigit(bit, b), SelDigit(bit, c), SelDigit(bit, d))
  {
    assert Nib(0) == Zeros(4);
    assert Zeros(4) + Zeros(4) + Zeros(4) + Zeros(4) == Zeros(16);
  }

  /** One digit of the combination of the rows that s selects. */
  function MixDigit(s: seq<bool>, d0: nat, d1: nat, d2: nat, d3: nat): nat
    requires |s| == 4
  {
    XorDigit(XorDigit(SelDigit(s[0], d0), SelDigit(s[1], d1)), XorDigit(SelDigit(s[2], d2), SelDigit(s[3], d3)))
  }

  function MixR(s: seq<bool>): (r: seq<bool>)
    requires |s| == 4
    ensures |r| == 16
  {
    Xor(Xor(Sel(s[0], ShiftedR(0)), Sel(s[1], ShiftedR(1))), Xor(Sel(s[2], ShiftedR(2)), Sel(s[3], ShiftedR(3))))
  }

  lemma MixIsHex(s: seq<bool>)
    requires |s| == 4
    ensures MixR(s) == Hex4(MixDigit(s, 0xe, 0x7, 0x3, 0x1), MixDigit(s, 0x1, 0x0, 0x8, 0xc),
                            MixDigit(s, 0x0, 0x8, 0x4, 0x2), MixDigit(s, 0x0, 0x0, 0x0, 0x0))
  {
    hide Hex4, XorDigit, SelDigit, Sel;
    SelHex(s[0], 0xe, 0x1, 0x0, 0x0);
    SelHex(s[1], 0x7, 0x0, 0x8, 0x0);
    SelHex(s[2], 0x3, 0x8, 0x4, 0x0);
    SelHex(s[3], 0x1, 0xc, 0x2, 0x0);
    var x := (b: bool, d: nat) => SelDigit(b, d);
    HexXor(x(s[0], 0xe), x(s[0], 0x1), x(s[0], 0x0), x(s[0], 0x0), x(s[1], 0x7), x(s[1], 0x0), x(s[1], 0x8), x(s[1], 0x0));
    HexXor(x(s[2], 0x3), x(s[2], 0x8), x(s[2], 0x4), x(s[2], 0x0), x(s[3], 0x1), x(s[3], 0xc), x(s[3], 0x2), x(s[3], 0x0));
    HexXor(XorDigit(x(s[0], 0xe), x(s[1], 0x7)), XorDigit(x(s[0], 0x1), x(s[1], 0x0)),
           XorDigit(x(s[0], 0x0), x(s[1], 0x8)), XorDigit(x(s[0], 0x0), x(s[1], 0x0)),
           XorDigit(x(s[2], 0x3), x(s[3], 0x1)), XorDigit(x(s[2], 0x8), x(s[3], 0xc)),
           XorDigit(x(s[2], 0x4), x(s[3], 0x2)), XorDigit(x(s[2], 0x0), x(s[3], 0x0)));
  }

  /** The table entries are the combinations of the shifted R. */
  lemma Last4IsMix(n: nat)
    requires n < 16
    ensures Last4(n) == MixR(Nib(n))
  {
    MixIsHex(Nib(n));
    MixDigits(n);
    hide MixDigit, MixR;
  }

  lemma MixDigits(n: nat)
    requires n < 16
    ensures Last4(n) == Hex4(MixDigit(Nib(n), 0xe, 0x7, 0x3, 0x1), MixDigit(Nib(n), 0x1, 0x0, 0x8, 0xc),
                             MixDigit(Nib(n), 0x0, 0x8, 0x4, 0x2), MixDigit(Nib(n), 0x0, 0x0, 0x0, 0x0))
  {
    hide Hex4;
    MixDigitIs(n, 0xe, 0x7, 0x3, 0x1);
    MixDigitIs(n, 0x1, 0x0, 0x8, 0xc);
    MixDigitIs(n, 0x0, 0x8, 0x4, 0x2);
    MixDigitIs(n, 0x0, 0x0, 0x0, 0x0);
    Column0(n);
    Column1(n);
    Column2(n);
    Column3(n);
    hide MixDigit, Nib, MixNum;
  }

  /** The same digit computed from the number. */
  function MixNum(n: nat, d0: nat, d1: nat, d2: nat, d3: nat): nat {
    XorDigit(XorDigit(SelDigit(n / 8 % 2 == 1, d0), SelDigit(n / 4 % 2 == 1, d1)),
             XorDigit(SelDigit(n / 2 % 2 == 1, d2), SelDigit(n % 2 == 1, d3)))
  }

  lemma MixDigitIs(n: nat, d0: nat, d1: nat, d2: nat, d3: nat)
    ensures MixDigit(Nib(n), d0, d1, d2, d3) == MixNum(n, d0, d1, d2, d3)
  {
    hide XorDigit, SelDigit;
  }

  lemma Column0Low(n: nat)
    requires n < 8
    ensures MixNum(n, 0xe, 0x7, 0x3, 0x1) ==
    match n
    case 0 => 0x0
    case 1 => 0x1
    case 2 => 0x3
    case 3 => 0x2
    case 4 => 0x7
    case 5 => 0x6
    case 6 => 0x4
    case _ => 0x5
  {
  }

  lemma Column0High(n: nat)
    requires 8 <= n < 16
    ensures MixNum(n, 0xe, 0x7, 0x3, 0x1) ==
    match n
    case 8 => 0xe
    case 9 => 0xf
    case 10 => 0xd
    case 11 => 0xc
    case 12 => 0x9
    case 13 => 0x8
    case 14 => 0xa
    case _ => 0xb
  {
  }

  lemma Column0(n: nat)
    requires n < 16
    ensures MixNum(n, 0xe, 0x7, 0x3, 0x1) ==
    match n
    case 0 => 0x0
    case 1 => 0x1
    case 2 => 0x3
    case 3 => 0x2
    case 4 => 0x7
    case 5 => 0x6
    case 6 => 0x4
    case 7 => 0x5
    case 8 => 0xe
    case 9 => 0xf
    case 10 => 0xd
    case 11 => 0xc
    case 12 => 0x9
    case 13 => 0x8
    case 14 => 0xa
    case _ => 0xb
  {
    hide MixNum;
    if n < 8 {
      Column0Low(n);
    } else {
      Column0High(n);
    }
  }

  lemma Column1Low(n: nat)
    requires n < 8
    ensures MixNum(n, 0x1, 0x0, 0x8, 0xc) ==
    match n
    case 0 => 0x0
    case 1 => 0xc
    case 2 => 0x8
    case 3 => 0x4
    case 4 => 0x0
    case 5 => 0xc
    case 6 => 0x8
    case _ => 0x4
  {
  }

  lemma Column1High(n: nat)
    requires 8 <= n < 16
    ensures MixNum(n, 0x1, 0x0, 0x8, 0xc) ==
    match n
    case 8 => 0x1
    case 9 => 0xd
    case 10 => 0x9
    case 11 => 0x5
    case 12 => 0x1
    case 13 => 0xd
    case 14 => 0x9
    case _ => 0x5
  {
  }

  lemma Column1(n: nat)
    requires n < 16
    ensures MixNum(n, 0x1, 0x0, 0x8, 0xc) ==
    match n
    case 0 => 0x0
    case 1 => 0xc
    case 2 => 0x8
    case 3 => 0x4
    case 4 => 0x0
    case 5 => 0xc
    case 6 => 0x8
    case 7 => 0x4
    case 8 => 0x1
    case 9 => 0xd
    case 10 => 0x9
    case 11 => 0x5
    case 12 => 0x1
    case 13 => 0xd
    case 14 => 0x9
    case _ => 0x5
  {
    hide MixNum;
    if n < 8 {
      Column1Low(n);
    } else {
      Column1High(n);
    }
  }

  lemma Column2Low(n: nat)
    requires n < 8
    ensures MixNum(n, 0x0, 0x8, 0x4, 0x2) ==
    match n
    case 0 => 0x0
    case 1 => 0x2
    case 2 => 0x4
    case 3 => 0x6
    case 4 => 0x8
    case 5 => 0xa
    case 6 => 0xc
    case _ => 0xe
  {
  }

  lemma Column2High(n: nat)
    requires 8 <= n < 16
    ensures MixNum(n, 0x0, 0x8, 0x4, 0x2) ==
    match n
    case 8 => 0x0
    case 9 => 0x2
    case 10 => 0x4
    case 11 => 0x6
    case 12 => 0x8
    case 13 => 0xa
    case 14 => 0xc
    case _ => 0xe
  {
  }

  lemma Column2(n: nat)
    requires n < 16
    ensures MixNum(n, 0x0, 0x8, 0x4, 0x2) ==
    match n
    case 0 => 0x0
    case 1 => 0x2
    case 2 => 0x4
    case 3 => 0x6
    case 4 => 0x8
    case 5 => 0xa
    case 6 => 0xc
    case 7 => 0xe
    case 8 => 0x0
    case 9 => 0x2
    case 10 => 0x4
    case 11 => 0x6
    case 12 => 0x8
    case 13 => 0xa
    case 14 => 0xc
    case _ => 0xe
  {
    hide MixNum;
    if n < 8 {
      Column2Low(n);
    } else {
      Column2High(n);
    }
  }

  lemma Column3(n: nat)
    requires n < 16
    ensures MixNum(n, 0x0, 0x0, 0x0, 0x0) ==
    match n
    case 0 => 0x0
    case 1 => 0x0
    case 2 => 0x0
    case 3 => 0x0
    case 4 => 0x0
    case 5 => 0x0
    case 6 => 0x0
    case 7 => 0x0
    case 8 => 0x0
    case 9 => 0x0
    case 10 => 0x0
    case 11 => 0x0
    case 12 => 0x0
    case 13 => 0x0
    case 14 => 0x0
    case _ => 0x0
  {
  }

  /** A word of the sums: s followed by zeros. */
  function Padded(s: seq<bool>): (r: seq<bool>)
    requires |s| == 16
    ensures |r| == 128
  {
    s + Zeros(112)
  }

  lemma PaddedXor(a: seq<bool>, b: seq<bool>)
    requires |a| == |b| == 16
    ensures Xor(Padded(a), Padded(b)) == Padded(Xor(a, b))
  {
    XorConcat(a, Zeros(112), b, Zeros(112));
    XorZero(Zeros(112));
  }

  lemma PaddedSel(bit: bool, a: seq<bool>)
    requires |a| == 16
    ensures Sel(bit, Padded(a)) == Padded(Sel(bit, a))
  {
    assert Zeros(16) + Zeros(112) == Zeros(128);
  }

  lemma EntryOfR(t: seq<bool>)
    requires |t| == 4
    ensures Entry(t, R()) == Padded(MixR(t))
  {
    hide Times, R, Sel, ShiftedR, Padded;
    TimesR();
    PaddedIs();
    PaddedSel(t[0], ShiftedR(0));
    PaddedSel(t[1], ShiftedR(1));
    PaddedSel(t[2], ShiftedR(2));
    PaddedSel(t[3], ShiftedR(3));
    PaddedXor(Sel(t[0], ShiftedR(0)), Sel(t[1], ShiftedR(1)));
    PaddedXor(Sel(t[2], ShiftedR(2)), Sel(t[3], ShiftedR(3)));
    PaddedXor(Xor(Sel(t[0], ShiftedR(0)), Sel(t[1], ShiftedR(1))), Xor(Sel(t[2], ShiftedR(2)), Sel(t[3], ShiftedR(3))));
  }

  lemma PaddedIs()
    ensures Padded(ShiftedR(0)) == ShiftedR(0) + Zeros(112) && Padded(ShiftedR(1)) == ShiftedR(1) + Zeros(112)
    ensures Padded(ShiftedR(2)) == ShiftedR(2) + Zeros(112) && Padded(ShiftedR(3)) == ShiftedR(3) + Zeros(112)
  {
  }

  /** One multiplication by x with the bit that falls out. */
  lemma PushOut(w: seq<bool>, d: bool)
    requires |w| == 127
    ensures Times(w + [d]) == Xor([false] + w, Sel(d, R()))
  {
    assert (w + [d])[..127] == w;
  }

  /** One multiplication by x under what has been reduced so far. */
  lemma PushOutSum(w: seq<bool>, d: bool, e: seq<bool>)
    requires |w| == 127 && |e| == 128
    ensures Times(Xor(w + [d], e)) == Xor([false] + w, Xor(Sel(d, R()), Times(e)))
  {
    hide Times, R, Sel;
    TimesXor(w + [d], e);
    PushOut(w, d);
    XorAssoc([false] + w, Sel(d, R()), Times(e));
  }

  /** Four multiplications by x: a shift by four and one table entry. */
  lemma Times4IsTable(u: seq<bool>, t: seq<bool>)
    requires |u| == 124 && |t| == 4
    ensures Times4(u + t) == Xor(Zeros(4) + u, Padded(Last4(Num4(t))))
  {
    EntryOfR(t);
    NibOfNum(t);
    Last4IsMix(Num4(t));
    Times4IsEntry(u, t);
  }

  lemma Times4IsEntry(u: seq<bool>, t: seq<bool>)
    requires |u| == 124 && |t| == 4
    ensures Times4(u + t) == Xor(Zeros(4) + u, Entry(t, R()))
  {
    hide Times, R, Sel;
    var r, f := R(), [false];
    var a, b, c, d := t[0], t[1], t[2], t[3];
    assert u + t == (u + [a, b, c]) + [d];
    PushOut(u + [a, b, c], d);
    assert f + (u + [a, b, c]) == (f + u + [a, b]) + [c];
    PushOutSum(f + u + [a, b], c, Sel(d, r));
    assert f + (f + u + [a, b]) == (f + f + u + [a]) + [b];
    PushOutSum(f + f + u + [a], b, Xor(Sel(c, r), Times(Sel(d, r))));
    assert f + (f + f + u + [a]) == (f + f + f + u) + [a];
    PushOutSum(f + f + f + u, a, Xor(Sel(b, r), Times(Xor(Sel(c, r), Times(Sel(d, r))))));
    assert f + (f + f + f + u) == Zeros(4) + u;
    SumIsEntry(t, r);
  }

  lemma SumIsEntry(t: seq<bool>, r: seq<bool>)
    requires |t| == 4 && |r| == 128
    ensures Xor(Sel(t[0], r), Times(Xor(Sel(t[1], r), Times(Xor(Sel(t[2], r), Times(Sel(t[3], r))))))) == Entry(t, r)
  {
    hide Times, Sel, Entry;
    NibbleStep(t, r, Zeros(128));
    TimesZero();
    XorZero(Sel(t[3], r));
    XorZero(Entry(t, r));
  }

  // ---- the code ----

  /** A 64-bit word as its bits. */
  type word = w: seq<bool> | |w| == 64 witness Zeros(64)

  function XorWord(a: word, b: word): word {
    Xor(a, b)
  }

  /** The low and the high four bits of a byte, as table indices. */
  function LowNibble(b: bv8): (n: nat)
    ensures n < 16 && n == Num4(ByteBits(b)[4..])
  {
    LowNibbleIs(b);
    (b & 0xf) as nat
  }

  function HighNibble(b: bv8): (n: nat)
    ensures n < 16 && n == Num4(ByteBits(b)[..4])
  {
    HighNibbleIs(b);
    ((b >> 4) & 0xf) as nat
  }

  lemma LowNibbleIs(b: bv8)
    ensures (b & 0xf) as nat == Num4(ByteBits(b)[4..])
  {
    var s := ByteBits(b)[4..];
    assert s[0] == Masked(b, 8) && s[1] == Masked(b, 4) && s[2] == Masked(b, 2) && s[3] == Masked(b, 1);
    NibbleValue(b & 0xf);
    assert (b & 0xf) & 8 == b & 8 && (b & 0xf) & 4 == b & 4 && (b & 0xf) & 2 == b & 2 && (b & 0xf) & 1 == b & 1;
  }

  lemma HighNibbleIs(b: bv8)
    ensures ((b >> 4) & 0xf) as nat == Num4(ByteBits(b)[..4])
  {
    var s := ByteBits(b)[..4];
    var n := (b >> 4) & 0xf;
    assert s[0] == Masked(b, 0x80) && s[1] == Masked(b, 0x40) && s[2] == Masked(b, 0x20) && s[3] == Masked(b, 0x10);
    NibbleValue(n);
    HighMasks(b);
  }

  lemma HighMasks(b: bv8)
    ensures ((b >> 4) & 0xf) & 8 != 0 <==> b & 0x80 != 0
    ensures ((b >> 4) & 0xf) & 4 != 0 <==> b & 0x40 != 0
    ensures ((b >> 4) & 0xf) & 2 != 0 <==> b & 0x20 != 0
    ensures ((b >> 4) & 0xf) & 1 != 0 <==> b & 0x10 != 0
  {
  }

  /** A value below 16 from its four bits. */
  lemma NibbleValue(n: bv8)
    requires n & 0xf0 == 0
    ensures n as nat == (if n & 8 != 0 then 8 else 0) + (if n & 4 != 0 then 4 else 0) + (if n & 2 != 0 then 2 else 0) + if n & 1 != 0 then 1 else 0
  {
    assert n == 0 || n == 1 || n == 2 || n == 3 || n == 4 || n == 5 || n == 6 || n == 7
        || n == 8 || n == 9 || n == 10 || n == 11 || n == 12 || n == 13 || n == 14 || n == 15;
  }

  /** The word shift of the code: four places down across both words. */
  lemma ShiftWords(zh: word, zl: word)
    ensures ShiftRight(zh, 4) + Or(ShiftLeft(zh, 60), ShiftRight(zl, 4)) == Zeros(4) + (zh + zl)[..124]
  {
    var w := Or(ShiftLeft(zh, 60), ShiftRight(zl, 4));
    forall i | 0 <= i < 64
      ensures w[i] == (zh + zl)[60 + i]
    {
    }
  }

  /** One step of the loop, as the code writes it. */
  function StepHigh(zh: word, zl: word, hh: word): word {
    XorWord(XorWord(ShiftRight(zh, 4), Last4(Num4(zl[60..])) + Zeros(48)), hh)
  }

  function StepLow(zh: word, zl: word, hl: word): word {
    XorWord(Or(ShiftLeft(zh, 60), ShiftRight(zl, 4)), hl)
  }

  lemma StepWords(zh: word, zl: word, hh: word, hl: word)
    ensures StepHigh(zh, zl, hh) + StepLow(zh, zl, hl) == Xor(Times4(zh + zl), hh + hl)
  {
    hide Times4, Last4, Num4;
    var t := zl[60..];
    var z := zh + zl;
    assert z == z[..124] + t;
    Times4IsTable(z[..124], t);
    ShiftWords(zh, zl);
    hide ShiftRight, ShiftLeft, Or;
    var sh, sl, m := ShiftRight(zh, 4), Or(ShiftLeft(zh, 60), ShiftRight(zl, 4)), Last4(Num4(t)) + Zeros(48);
    assert Padded(Last4(Num4(t))) == m + Zeros(64);
    XorConcat(sh, sl, m, Zeros(64));
    XorZero(sl);
    XorConcat(Xor(sh, m), sl, hh, hl);
  }

  /** Two words as 128 bits. */
  function Cat(high: word, low: word): (r: seq<bool>)
    ensures |r| == 128 && r == high + low
  {
    var h: seq<bool> := high;
    h + low
  }

  /** The table invariant. */
  ghost predicate IsTable(hh: seq<word>, hl: seq<word>, h: seq<bool>) {
    && |hh| == |hl| == 16 && |h| == 128
    && forall n: nat :: n < 16 ==> IsEntry(hh, hl, n, h)
  }

  ghost predicate IsEntry(hh: seq<word>, hl: seq<word>, n: nat, h: seq<bool>)
    requires |hh| == |hl| == 16 && |h| == 128 && n < 16
  {
    Cat(hh[n], hl[n]) == Entry(Nib(n), h)
  }

  /** Entries of single bits: each the double of the one before. */
  lemma EntryDoubles(h: seq<bool>)
    requires |h| == 128
    ensures Entry(Nib(0), h) == Zeros(128) && Entry(Nib(8), h) == h
    ensures Entry(Nib(4), h) == Times(h) && Entry(Nib(2), h) == Times(Times(h)) && Entry(Nib(1), h) == Times(Times(Times(h)))
  {
    hide Times;
    XorZero(h);
    XorZero(Times(h));
    XorZero(Times(Times(h)));
    XorZero(Times(Times(Times(h))));
    XorZero(Zeros(128));
  }

  /** Entries are sums of entries of smaller indices with disjoint bits. */
  lemma EntryAdds(i: nat, j: nat, h: seq<bool>)
    requires |h| == 128 && (i == 2 || i == 4 || i == 8) && 0 < j < i
    ensures Entry(Nib(i + j), h) == Xor(Entry(Nib(i), h), Entry(Nib(j), h))
  {
    hide Times, Sel;
    var a, b := Nib(i), Nib(j);
    var t1, t2, t3 := Times(h), Times(Times(h)), Times(Times(Times(h)));
    SelAdds(a[0], b[0], h);
    SelAdds(a[1], b[1], t1);
    SelAdds(a[2], b[2], t2);
    SelAdds(a[3], b[3], t3);
    var c := Nib(i + j);
    assert c[0] == (a[0] != b[0]) && c[1] == (a[1] != b[1]) && c[2] == (a[2] != b[2]) && c[3] == (a[3] != b[3]);
    XorSwap(Sel(a[0], h), Sel(b[0], h), Sel(a[1], t1), Sel(b[1], t1));
    XorSwap(Sel(a[2], t2), Sel(b[2], t2), Sel(a[3], t3), Sel(b[3], t3));
    XorSwap(Xor(Sel(a[0], h), Sel(a[1], t1)), Xor(Sel(b[0], h), Sel(b[1], t1)),
            Xor(Sel(a[2], t2), Sel(a[3], t3)), Xor(Sel(b[2], t2), Sel(b[3], t3)));
  }

  lemma SelAdds(a: bool, b: bool, v: seq<bool>)
    ensures Sel(a != b, v) == Xor(Sel(a, v), Sel(b, v))
  {
    XorZero(v);
    XorZero(Zeros(|v|));
  }

  /** The halves of a doubled value, as the code forms them. */
  lemma DoubleWords(vh: word, vl: word)
    ensures var t: word := Sel(vl[63], [true, true, true, false, false, false, false, true] + Zeros(56));
      XorWord(ShiftRight(vh, 1), t) + Or(ShiftLeft(vh, 63), ShiftRight(vl, 1)) == Times(vh + vl)
  {
    var e := [true, true, true, false, false, false, false, true];
    var t: word := Sel(vl[63], e + Zeros(56));
    var sh, sl := ShiftRight(vh, 1), Or(ShiftLeft(vh, 63), ShiftRight(vl, 1));
    var v := vh + vl;
    forall i | 0 <= i < 64
      ensures sl[i] == v[63 + i]
    {
    }
    assert sh + sl == [false] + v[..127];
    assert R() == (e + Zeros(56)) + Zeros(64);
    hide ShiftRight, ShiftLeft, Or, R;
    assert Sel(v[127], R()) == t + Zeros(64);
    XorConcat(sh, sl, t, Zeros(64));
    XorZero(sl);
  }

  lemma HornerOfByte(b: bv8, rest: seq<bv8>)
    ensures Flat([b] + rest) == ByteBits(b)[..4] + (ByteBits(b)[4..] + Flat(rest))
  {
    assert ([b] + rest)[1..] == rest;
    var s := ByteBits(b);
    hide ByteBits;
    assert s == s[..4] + s[4..];
    SeqAssoc(s[..4], s[4..], Flat(rest));
  }

  lemma FirstNibble(s: seq<bool>, h: seq<bool>)
    requires |s| == 4 && |h| == 128
    ensures Horner(s, h) == Entry(s, h)
  {
    hide Times, Entry;
    HornerNibble(s, [], h);
    assert s + [] == s;
    TimesZero();
    XorZero(Entry(s, h));
  }

  /** A block of bits written as sixteen bytes. */
  method PutBlock(z: seq<bool>, output: array<bv8>)
    requires |z| == 128 && output.Length == 16
    modifies output
    ensures output[..] == Unflat(z)
  {
    hide ByteOf;
    var k := 0;
    while k < 16
      invariant 0 <= k <= 16 && output[..k] + Unflat(z[8 * k..]) == Unflat(z)
    {
      var rest := z[8 * k..];
      assert rest[8..] == z[8 * (k + 1)..] && rest[..8] == z[8 * k..8 * k + 8];
      ghost var done := output[..k];
      UnflatHead(rest);
      output[k] := ByteOf(z[8 * k..8 * k + 8]);
      assert output[..k + 1] == done + [ByteOf(rest[..8])];
      k := k + 1;
    }
    assert output[..16] == output[..];
  }

  lemma UnflatHead(s: seq<bool>)
    requires |s| % 8 == 0 && s != []
    ensures |s| >= 8 && Unflat(s) == [ByteOf(s[..8])] + Unflat(s[8..])
  {
  }

  lemma ZeroBytes(s: seq<bv8>)
    requires |s| == 16 && forall i :: 0 <= i < 16 ==> s[i] == 0
    ensures Flat(s) == Zeros(128)
  {
    ZeroFlat(s);
  }

  lemma {:induction false} ZeroFlat(s: seq<bv8>)
    requires forall i :: 0 <= i < |s| ==> s[i] == 0
    ensures Flat(s) == Zeros(8 * |s|)
  {
    if s != [] {
      ZeroFlat(s[1..]);
      hide MaskAt;
      assert ByteBits(0) == Zeros(8) by { NoBits(); }
      assert Zeros(8) + Zeros(8 * (|s| - 1)) == Zeros(8 * |s|);
    }
  }

  lemma NoBits()
    ensures forall m: bv8 {:trigger Masked(0, m)} :: !Masked(0, m)
  {
  }

  lemma EmptyHash(h: seq<bool>)
    requires |h| == 128
    ensures GHash(h, []) == Zeros(128)
  {
  }

  lemma ZeroWords()
    ensures Zeros(64) + Zeros(64) == Zeros(128)
  {
  }

  lemma EntryIs(hh: seq<word>, hl: seq<word>, n: nat, h: seq<bool>)
    requires |hh| == |hl| == 16 && n < 16 && |h| == 128 && Cat(hh[n], hl[n]) == Entry(Nib(n), h)
    ensures IsEntry(hh, hl, n, h)
  {
  }

  /** Writing one entry keeps the others. */
  lemma EntryKept(ph: seq<word>, pl: seq<word>, hh: seq<word>, hl: seq<word>, i: nat, n: nat, h: seq<bool>)
    requires |ph| == |pl| == |hh| == |hl| == 16 && n < 16 && i < 16 && n != i && |h| == 128
    requires hh == ph[i := hh[i]] && hl == pl[i := hl[i]] && IsEntry(ph, pl, n, h)
    ensures IsEntry(hh, hl, n, h)
  {
  }

  lemma SumIsEntryOf(ph: seq<word>, pl: seq<word>, i: nat, j: nat, h: seq<bool>)
    requires |ph| == |pl| == 16 && |h| == 128 && (i == 2 || i == 4 || i == 8) && 0 < j < i
    requires IsEntry(ph, pl, i, h) && IsEntry(ph, pl, j, h)
    ensures Cat(XorWord(ph[i], ph[j]), XorWord(pl[i], pl[j])) == Entry(Nib(i + j), h)
  {
    hide Entry, Nib;
    EntryAdds(i, j, h);
    XorConcat(ph[i], pl[i], ph[j], pl[j]);
  }

  lemma TableEntry(hh: seq<word>, hl: seq<word>, n: nat, h: seq<bool>)
    requires IsTable(hh, hl, h) && n < 16
    ensures |hh| == |hl| == 16 && |h| == 128 && Cat(hh[n], hl[n]) == Entry(Nib(n), h)
  {
    assert IsEntry(hh, hl, n, h);
  }

  lemma NumBound(s: seq<bool>)
    requires |s| == 4
    ensures Num4(s) < 16
  {
  }

  lemma FlatNone()
    ensures Flat([]) == []
  {
  }

  lemma FlatLength(s: seq<bv8>)
    ensures |Flat(s)| == 8 * |s|
  {
  }

  lemma XorByteAt(a: seq<bv8>, b: seq<bv8>, i: nat)
    requires |a| == |b| && i < |a|
    ensures XorBytes(a, b)[i] == a[i] ^ b[i]
  {
  }

  lemma HashSnoc(h: seq<bool>, xs: seq<seq<bool>>, x: seq<bool>)
    requires |h| == |x| == 128 && forall i :: 0 <= i < |xs| ==> |xs[i]| == 128
    ensures GHash(h, xs + [x]) == Dot(Xor(GHash(h, xs), x), h)
  {
    assert (xs + [x])[..|xs|] == xs;
  }

  /** The doubling of ghash_init on two words. */
  method Double(vh: word, vl: word) returns (vh': word, vl': word)
    ensures vh' + vl' == Times(vh + vl)
  {
    hide Times;
    DoubleWords(vh, vl);
    var t: word := Sel(vl[63], [true, true, true, false, false, false, false, true] + Zeros(56));
    vl' := Or(ShiftLeft(vh, 63), ShiftRight(vl, 1));
    vh' := XorWord(ShiftRight(vh, 1), t);
  }

  /** The running hash and the tables of its key. */
  class GhashContext {
    const buf: array<bv8>
    const HH: array<word>
    const HL: array<word>
    /** The key, and the blocks hashed so far. */
    ghost const h: seq<bool>
    ghost var xs: seq<seq<bool>>

    ghost predicate Tables()
      reads HH, HL
    {
      HH.Length == HL.Length == 16 && IsTable(HH[..], HL[..], h)
    }

    /** a is not one of the tables. */
    ghost predicate Separate(a: array<bv8>) {
      var o: object := a;
      o != HH && o != HL
    }

    /** The buffer is GHASH of the blocks processed since the start. */
    ghost predicate Valid()
      reads this, buf, HH, HL
    {
      && Tables() && Separate(buf) && buf.Length == 16 && |h| == 128
      && (forall i :: 0 <= i < |xs| ==> |xs[i]| == 128)
      && Flat(buf[..]) == GHash(h, xs)
    }

    /** ghash_init. */
    constructor (hb: seq<bv8>)
      requires |hb| == 16
      ensures Valid() && fresh(buf) && fresh(HH) && fresh(HL) && h == Flat(hb) && xs == []
    {
      buf := new bv8[16](i => 0);
      HH := new word[16];
      HL := new word[16];
      h := Flat(hb);
      xs := [];
      new;
      hide *;
      FillTables(hb);
      assert buf[..] == seq(16, i => 0);
      ZeroBytes(buf[..]);
      EmptyHash(h);
    }

    /** The tables: single bits by doubling, then sums. */
    method FillTables(hb: seq<bv8>)
      requires |hb| == 16 && h == Flat(hb) && HH.Length == HL.Length == 16 && HH != HL
      modifies HH, HL
      ensures Tables()
    {
      hide *;
      var vh: word, vl: word := Flat(hb[..8]), Flat(hb[8..]);
      FlatAppend(hb[..8], hb[8..]);
      assert hb == hb[..8] + hb[8..];
      EntryDoubles(h);
      HL[8] := vl;
      HH[8] := vh;
      HH[0] := Zeros(64);
      HL[0] := Zeros(64);
      ZeroWords();
      EntryIs(HH[..], HL[..], 8, h);
      EntryIs(HH[..], HL[..], 0, h);
      var i := 4;
      while i > 0
        invariant i == 4 || i == 2 || i == 1 || i == 0
        invariant IsEntry(HH[..], HL[..], 0, h) && IsEntry(HH[..], HL[..], 8, h)
        invariant i < 4 ==> IsEntry(HH[..], HL[..], 4, h)
        invariant i < 2 ==> IsEntry(HH[..], HL[..], 2, h)
        invariant i < 1 ==> IsEntry(HH[..], HL[..], 1, h)
        invariant vh + vl == if i == 4 then h else if i == 2 then Times(h) else if i == 1 then Times(Times(h)) else Times(Times(Times(h)))
      {
        ghost var ph, pl := HH[..], HL[..];
        vh, vl := Double(vh, vl);
        HL[i] := vl;
        HH[i] := vh;
        EntryIs(HH[..], HL[..], i, h);
        EntryKept(ph, pl, HH[..], HL[..], i, 0, h);
        EntryKept(ph, pl, HH[..], HL[..], i, 8, h);
        if i < 4 { EntryKept(ph, pl, HH[..], HL[..], i, 4, h); }
        if i < 2 { EntryKept(ph, pl, HH[..], HL[..], i, 2, h); }
        i := i / 2;
      }
      FillSums();
    }

    /** HH[i + j] = HH[i] ^ HH[j] for i = 2, 4, 8 and j below i. */
    method FillSums()
      requires HH.Length == HL.Length == 16 && HH != HL && |h| == 128
      requires IsEntry(HH[..], HL[..], 0, h) && IsEntry(HH[..], HL[..], 1, h) && IsEntry(HH[..], HL[..], 2, h)
      requires IsEntry(HH[..], HL[..], 4, h) && IsEntry(HH[..], HL[..], 8, h)
      modifies HH, HL
      ensures Tables()
    {
      hide IsEntry, Entry, Nib, XorWord;
      var i := 2;
      while i <= 8
        invariant i == 2 || i == 4 || i == 8 || i == 16
        invariant i <= 4 ==> IsEntry(HH[..], HL[..], 4, h)
        invariant i <= 8 ==> IsEntry(HH[..], HL[..], 8, h)
        invariant i <= 2 ==> IsEntry(HH[..], HL[..], 2, h)
        invariant forall n: nat :: n < i ==> IsEntry(HH[..], HL[..], n, h)
      {
        SumRow(i);
        i := i * 2;
      }
    }

    method SumRow(i: nat)
      requires HH.Length == HL.Length == 16 && HH != HL && |h| == 128 && (i == 2 || i == 4 || i == 8)
      requires forall n: nat :: n <= i ==> IsEntry(HH[..], HL[..], n, h)
      requires i <= 4 ==> IsEntry(HH[..], HL[..], 8, h)
      requires i <= 2 ==> IsEntry(HH[..], HL[..], 4, h)
      modifies HH, HL
      ensures forall n: nat :: n < 2 * i ==> IsEntry(HH[..], HL[..], n, h)
      ensures i <= 4 ==> IsEntry(HH[..], HL[..], 8, h)
      ensures i <= 2 ==> IsEntry(HH[..], HL[..], 4, h)
    {
      hide IsEntry, Entry, Nib, XorWord;
      var vh, vl := HH[i], HL[i];
      var j := 1;
      while j < i
        invariant 1 <= j <= i && HH[i] == vh && HL[i] == vl
        invariant forall n: nat :: n < i + j ==> IsEntry(HH[..], HL[..], n, h)
        invariant i <= 4 ==> IsEntry(HH[..], HL[..], 8, h)
        invariant i <= 2 ==> IsEntry(HH[..], HL[..], 4, h)
      {
        ghost var ph, pl := HH[..], HL[..];
        SumIsEntryOf(ph, pl, i, j, h);
        HH[i + j] := XorWord(vh, HH[j]);
        HL[i + j] := XorWord(vl, HL[j]);
        EntryIs(HH[..], HL[..], i + j, h);
        forall n: nat | n < 16 && n != i + j && IsEntry(ph, pl, n, h)
          ensures IsEntry(HH[..], HL[..], n, h)
        {
          EntryKept(ph, pl, HH[..], HL[..], i + j, n, h);
        }
        j := j + 1;
      }
    }

    /** One step of Horner's rule by four bits. */
    method MulNibble(zh: word, zl: word, n: nat, ghost s: seq<bool>, ghost rest: seq<bool>) returns (zh': word, zl': word)
      requires Tables() && |s| == 4 && n == Num4(s) && |h| == 128 && zh + zl == Horner(rest, h)
      ensures zh' + zl' == Horner(s + rest, h)
    {
      hide *;
      NumBound(s);
      TablesParts();
      TableEntry(HH[..], HL[..], n, h);
      NibOfNum(s);
      HornerNibble(s, rest, h);
      XorCommutes(Entry(s, h), Times4(Horner(rest, h)));
      StepWords(zh, zl, HH[n], HL[n]);
      zh', zl' := StepHigh(zh, zl, HH[n]), StepLow(zh, zl, HL[n]);
    }

    /** Both nibbles of a byte; the low one of the last byte is already in the sum. */
    method MulByte(zh0: word, zl0: word, b: bv8, first: bool, ghost rest: seq<bv8>) returns (zh: word, zl: word)
      requires Tables() && |h| == 128
      requires first ==> rest == [] && Cat(zh0, zl0) == Horner(ByteBits(b)[4..], h)
      requires !first ==> Cat(zh0, zl0) == Horner(Flat(rest), h)
      ensures Cat(zh, zl) == Horner(Flat([b] + rest), h)
    {
      hide *;
      var lo, hi := LowNibble(b), HighNibble(b);
      ghost var s := ByteBits(b);
      zh, zl := zh0, zl0;
      if !first {
        zh, zl := MulNibble(zh, zl, lo, s[4..], Flat(rest));
      } else {
        FlatNone();
        assert s[4..] + Flat(rest) == s[4..];
      }
      zh, zl := MulNibble(zh, zl, hi, s[..4], s[4..] + Flat(rest));
      HornerOfByte(b, rest);
    }

    /** The table entry of the last nibble. */
    method FirstEntry(b: bv8) returns (zh: word, zl: word)
      requires Tables() && |h| == 128
      ensures Cat(zh, zl) == Horner(ByteBits(b)[4..], h)
    {
      hide *;
      var lo := LowNibble(b);
      TablesParts();
      TableEntry(HH[..], HL[..], lo, h);
      NibOfNum(ByteBits(b)[4..]);
      FirstNibble(ByteBits(b)[4..], h);
      zh, zl := HH[lo], HL[lo];
    }

    /** The loop of gcm_mult, from the last byte to the first. */
    method MultiplyWords(x: array<bv8>) returns (zh: word, zl: word)
      requires Tables() && |h| == 128 && x.Length == 16
      ensures Cat(zh, zl) == Horner(Flat(x[..]), h)
    {
      hide *;
      zh, zl := FirstEntry(x[15]);
      var i := 15;
      ghost var rest: seq<bv8> := [];
      while i >= 0
        invariant -1 <= i <= 15 && rest == x[i + 1..]
        invariant i == 15 ==> Cat(zh, zl) == Horner(ByteBits(x[15])[4..], h)
        invariant i < 15 ==> Cat(zh, zl) == Horner(Flat(rest), h)
      {
        zh, zl := MulByte(zh, zl, x[i], i == 15, rest);
        rest := [x[i]] + rest;
        i := i - 1;
      }
      assert rest == x[..];
    }

    /** gcm_mult: output = x * H; x may be output. */
    method GcmMult(x: array<bv8>, output: array<bv8>)
      requires Tables() && Separate(output) && |h| == 128 && x.Length == output.Length == 16
      modifies output
      ensures Flat(output[..]) == Dot(Flat(old(x[..])), h) && Tables()
    {
      hide *;
      var zh, zl := MultiplyWords(x);
      Written(x[..], zh, zl, output);
    }

    /** The product is written out. */
    method Written(ghost xb: seq<bv8>, zh: word, zl: word, output: array<bv8>)
      requires Tables() && Separate(output) && |h| == 128 && output.Length == |xb| == 16
      requires Cat(zh, zl) == Horner(Flat(xb), h)
      modifies output
      ensures Flat(output[..]) == Dot(Flat(xb), h) && Tables()
    {
      hide Flat, Dot, Horner, Unflat, Cat, IsTable;
      FlatLength(xb);
      DotIsHorner(Flat(xb), h);
      PutBlock(Cat(zh, zl), output);
      FlatUnflat(Cat(zh, zl));
    }

    /** ghash_process_block. */
    method ProcessBlock(block: seq<bv8>)
      requires Valid() && |block| == 16
      modifies this, buf
      ensures Valid() && xs == old(xs) + [Flat(block)]
    {
      hide GHash, Dot, Flat, IsTable, XorBytes, Xor;
      ValidParts();
      ghost var y := buf[..];
      var i := 0;
      while i < 16
        invariant 0 <= i <= 16 && buf[..i] == XorBytes(y, block)[..i] && buf[i..] == y[i..]
        invariant xs == old(xs)
      {
        assert buf[i] == buf[i..][0] == y[i];
        ghost var done := buf[..i];
        XorByteAt(y, block, i);
        buf[i] := buf[i] ^ block[i];
        assert buf[..i + 1] == done + [buf[i]];
        assert XorBytes(y, block)[..i + 1] == XorBytes(y, block)[..i] + [XorBytes(y, block)[i]];
        assert buf[i + 1..] == y[i + 1..];
        i := i + 1;
      }
      assert buf[..16] == buf[..] && XorBytes(y, block)[..16] == XorBytes(y, block);
      FlatXor(y, block);
      GcmMult(buf, buf);
      HashSnoc(h, xs, Flat(block));
      xs := xs + [Flat(block)];
      ValidIntro();
    }

    lemma TablesParts()
      requires Tables()
      ensures HH.Length == HL.Length == 16 && IsTable(HH[..], HL[..], h)
    {
    }

    lemma ValidParts()
      requires Valid()
      ensures Tables() && Separate(buf) && buf.Length == 16 && |h| == 128 && (forall i :: 0 <= i < |xs| ==> |xs[i]| == 128)
      ensures Flat(buf[..]) == GHash(h, xs)
    {
    }

    lemma ValidIntro()
      requires Tables() && Separate(buf) && buf.Length == 16 && |h| == 128 && (forall i :: 0 <= i < |xs| ==> |xs[i]| == 128)
      requires Flat(buf[..]) == GHash(h, xs)
      ensures Valid()
    {
    }

    /** ghash_finalize. */
    method Finalize() returns (out: seq<bv8>)
      requires Valid()
      ensures |out| == 16 && Flat(out) == GHash(h, xs)
    {
      out := buf[..];
    }
  }
}
