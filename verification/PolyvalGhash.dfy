/** POLYVAL against GHASH, the two hash functions that the code computes in different ways. */
module PolyvalGhash {
  import opened Bits
  import opened Gf2
  import Ghash
  import Polyval

  /** With the coefficients listed backwards, division by x in the one field is multiplication by x in the other. */
  lemma DivXIsTimes(v: seq<bool>)
    requires |v| == 128
    ensures Rev(Polyval.DivX(v)) == Ghash.Times(Rev(v))
  {
    var w, d := Rev(v), Polyval.DivX(v);
    forall i | 0 <= i < 128
      ensures Rev(d)[i] == Ghash.Times(w)[i]
    {
      Ghash.TimesIs(w, i);
      DivXIs(v, 127 - i);
    }
  }

  lemma DivXIs(v: seq<bool>, i: nat)
    requires |v| == 128 && i < 128
    ensures Polyval.DivX(v)[i] == ((i < 127 && v[i + 1]) != (v[0] && (i == 120 || i == 125 || i == 126 || i == 127)))
  {
    Polyval.ModulusIs(i + 1);
    hide Polyval.Modulus;
  }

  /** The bit-by-bit product after any prefix of the multiplier. */
  lemma {:induction false} DotBitsIsHorner(a: seq<bool>, b: seq<bool>)
    requires |b| == 128
    ensures Rev(Polyval.DotBits(a, b)) == Ghash.Horner(Rev(a), Ghash.Times(Rev(b)))
  {
    hide Polyval.DivX, Ghash.Times;
    if a == [] {
      assert Rev(a) == [] && Rev(Zeros(128)) == Zeros(128);
    } else {
      var n := |a| - 1;
      DotBitsIsHorner(a[..n], b);
      assert Rev(a) == [a[n]] + Rev(a[..n]) && Rev(a)[1..] == Rev(a[..n]);
      OneMoreBit(Polyval.DotBits(a[..n], b), a[n], b);
    }
  }

  lemma OneMoreBit(z: seq<bool>, e: bool, b: seq<bool>)
    requires |z| == |b| == 128
    ensures Rev(Polyval.DivX(Xor(z, Sel(e, b)))) == Xor(Sel(e, Ghash.Times(Rev(b))), Ghash.Times(Rev(z)))
  {
    hide Polyval.DivX, Ghash.Times, Sel;
    DivXIsTimes(Xor(z, Sel(e, b)));
    RevSum(z, e, b);
    Ghash.TimesXor(Rev(z), Sel(e, Rev(b)));
    Ghash.TimesSel(e, Rev(b));
    XorCommutes(Ghash.Times(Rev(z)), Sel(e, Ghash.Times(Rev(b))));
  }

  lemma RevSum(z: seq<bool>, e: bool, b: seq<bool>)
    requires |z| == |b| == 128
    ensures Rev(Xor(z, Sel(e, b))) == Xor(Rev(z), Sel(e, Rev(b)))
  {
  }

  /** dot of RFC 8452 in terms of the product of SP 800-38D: Appendix A of RFC 8452. */
  lemma DotIsGhashDot(a: seq<bool>, b: seq<bool>)
    requires |a| == |b| == 128
    ensures Rev(Polyval.Dot(a, b)) == Ghash.Dot(Rev(a), Ghash.Times(Rev(b)))
  {
    DotBitsIsHorner(a, b);
    Ghash.DotIsHorner(Rev(a), Ghash.Times(Rev(b)));
    hide *;
  }

  /** The bytes of a block backwards. */
  function ByteReverse(s: seq<bv8>): (r: seq<bv8>)
    ensures |r| == |s| && forall i :: 0 <= i < |s| ==> r[i] == s[|s| - 1 - i]
  {
    seq(|s|, i requires 0 <= i < |s| => s[|s| - 1 - i])
  }

  /** Reversing the bytes reverses the coefficients, because one function reads bytes from the low bit and the other from the high. */
  lemma BytesReversed(s: seq<bv8>, r: seq<bool>)
    requires LowBitsFirst(s, r)
    ensures HighBitsFirst(ByteReverse(s), Rev(r))
  {
    forall k | 0 <= k < |r|
      ensures Rev(r)[k] == BitOf(ByteReverse(s)[k / 8], 7 - k % 8)
    {
      BitReversed(|s|, k);
      assert Rev(r)[k] == r[|r| - 1 - k];
    }
  }

  lemma BitReversed(n: nat, k: nat)
    requires k < 8 * n
    ensures (8 * n - 1 - k) / 8 == n - 1 - k / 8 && (8 * n - 1 - k) % 8 == 7 - k % 8
  {
  }

  /** Every block with its bits backwards. */
  function Reversed(xs: seq<seq<bool>>): (r: seq<seq<bool>>)
    ensures |r| == |xs| && forall i :: 0 <= i < |xs| ==> r[i] == Rev(xs[i])
  {
    seq(|xs|, i requires 0 <= i < |xs| => Rev(xs[i]))
  }

  /** POLYVAL under a key is GHASH under x times the reversed key, of the reversed blocks. */
  lemma {:induction false} PolyvalIsGhash(h: seq<bool>, xs: seq<seq<bool>>)
    requires |h| == 128 && forall i :: 0 <= i < |xs| ==> |xs[i]| == 128
    ensures Rev(Polyval.PolyvalOf(h, xs)) == Ghash.GHash(Ghash.Times(Rev(h)), Reversed(xs))
  {
    hide Polyval.Dot, Ghash.Dot, Ghash.Times;
    if xs == [] {
      assert Rev(Zeros(128)) == Zeros(128);
    } else {
      var n := |xs| - 1;
      var s := Polyval.PolyvalOf(h, xs[..n]);
      PolyvalIsGhash(h, xs[..n]);
      assert Reversed(xs)[..n] == Reversed(xs[..n]);
      DotIsGhashDot(Xor(s, xs[n]), h);
      assert Rev(Xor(s, xs[n])) == Xor(Rev(s), Rev(xs[n]));
    }
  }
}
