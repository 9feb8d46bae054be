/** Bit strings, most significant bit first, and the bytes they are stored in. */
module Bits {

  function Zeros(n: nat): (r: seq<bool>)
    ensures |r| == n && forall i :: 0 <= i < n ==> !r[i]
  {
    seq(n, i => false)
  }

  /** Bitwise exclusive or. */
  function Xor(a: seq<bool>, b: seq<bool>): (r: seq<bool>)
    requires |a| == |b|
    ensures |r| == |a| && forall i :: 0 <= i < |a| ==> r[i] == (a[i] != b[i])
  {
    seq(|a|, i requires 0 <= i < |a| => a[i] != b[i])
  }

  /** Bitwise or. */
  function Or(a: seq<bool>, b: seq<bool>): (r: seq<bool>)
    requires |a| == |b|
    ensures |r| == |a| && forall i :: 0 <= i < |a| ==> r[i] == (a[i] || b[i])
  {
    seq(|a|, i requires 0 <= i < |a| => a[i] || b[i])
  }

  /** A word shifted right or left, zeros coming in. */
  function ShiftRight(w: seq<bool>, k: nat): (r: seq<bool>)
    requires k <= |w|
    ensures |r| == |w|
  {
    Zeros(k) + w[..|w| - k]
  }

  function ShiftLeft(w: seq<bool>, k: nat): (r: seq<bool>)
    requires k <= |w|
    ensures |r| == |w|
  {
    w[k..] + Zeros(k)
  }

  lemma XorZero(a: seq<bool>)
    ensures Xor(a, Zeros(|a|)) == a && Xor(Zeros(|a|), a) == a && Xor(a, a) == Zeros(|a|)
  {
  }

  lemma XorCommutes(a: seq<bool>, b: seq<bool>)
    requires |a| == |b|
    ensures Xor(a, b) == Xor(b, a)
  {
  }

  lemma XorAssoc(a: seq<bool>, b: seq<bool>, c: seq<bool>)
    requires |a| == |b| == |c|
    ensures Xor(Xor(a, b), c) == Xor(a, Xor(b, c))
  {
  }

  lemma XorSwap(a: seq<bool>, b: seq<bool>, c: seq<bool>, d: seq<bool>)
    requires |a| == |b| == |c| == |d|
    ensures Xor(Xor(a, b), Xor(c, d)) == Xor(Xor(a, c), Xor(b, d))
  {
  }

  lemma XorConcat(a: seq<bool>, b: seq<bool>, c: seq<bool>, d: seq<bool>)
    requires |a| == |c| && |b| == |d|
    ensures Xor(a + b, c + d) == Xor(a, c) + Xor(b, d)
  {
  }

  lemma XorSlice(a: seq<bool>, b: seq<bool>, i: nat, j: nat)
    requires |a| == |b| && i <= j <= |a|
    ensures Xor(a, b)[i..j] == Xor(a[i..j], b[i..j])
  {
  }

  /** a if the bit is set, else zeros. */
  function Sel(bit: bool, a: seq<bool>): (r: seq<bool>)
    ensures |r| == |a|
  {
    if bit then a else Zeros(|a|)
  }

  // ---- bytes ----

  predicate Masked(b: bv8, m: bv8) {
    b & m != 0
  }

  /** The mask of bit i, counted from the most significant. */
  function MaskAt(i: nat): (m: bv8)
    requires i < 8
    ensures m == 0x80 || m == 0x40 || m == 0x20 || m == 0x10 || m == 8 || m == 4 || m == 2 || m == 1
  {
    match i
    case 0 => 0x80
    case 1 => 0x40
    case 2 => 0x20
    case 3 => 0x10
    case 4 => 8
    case 5 => 4
    case 6 => 2
    case _ => 1
  }

  /** The bits of a byte. */
  function ByteBits(b: bv8): (s: seq<bool>)
    ensures |s| == 8 && forall i :: 0 <= i < 8 ==> s[i] == Masked(b, MaskAt(i))
  {
    seq(8, i requires 0 <= i < 8 => Masked(b, MaskAt(i)))
  }

  /** The byte with given bits. */
  function ByteOf(s: seq<bool>): bv8
    requires |s| == 8
  {
    var h: bv8 := (if s[0] then 0x80 else 0) | (if s[1] then 0x40 else 0) | (if s[2] then 0x20 else 0) | (if s[3] then 0x10 else 0);
    var l: bv8 := (if s[4] then 8 else 0) | (if s[5] then 4 else 0) | (if s[6] then 2 else 0) | (if s[7] then 1 else 0);
    h | l
  }

  lemma ByteRoundTrip(b: bv8)
    ensures ByteOf(ByteBits(b)) == b
  {
  }

  lemma BitsRoundTrip(s: seq<bool>)
    requires |s| == 8
    ensures ByteBits(ByteOf(s)) == s
  {
  }

  lemma ByteXor(a: bv8, b: bv8)
    ensures ByteBits(a ^ b) == Xor(ByteBits(a), ByteBits(b))
  {
    hide Masked, MaskAt;
    forall i | 0 <= i < 8
      ensures ByteBits(a ^ b)[i] == (ByteBits(a)[i] != ByteBits(b)[i])
    {
      MaskXor(a, b, MaskAt(i));
    }
  }

  lemma MaskXor(a: bv8, b: bv8, m: bv8)
    requires m == 0x80 || m == 0x40 || m == 0x20 || m == 0x10 || m == 8 || m == 4 || m == 2 || m == 1
    ensures Masked(a ^ b, m) == (Masked(a, m) != Masked(b, m))
  {
  }

  /** The bit string of a byte string. */
  function Flat(s: seq<bv8>): (r: seq<bool>)
    ensures |r| == 8 * |s|
  {
    if s == [] then [] else ByteBits(s[0]) + Flat(s[1..])
  }

  /** The byte string of a bit string. */
  function Unflat(s: seq<bool>): (r: seq<bv8>)
    requires |s| % 8 == 0
    ensures |r| == |s| / 8
  {
    if s == [] then [] else [ByteOf(s[..8])] + Unflat(s[8..])
  }

  lemma {:induction false} FlatUnflat(s: seq<bool>)
    requires |s| % 8 == 0
    ensures Flat(Unflat(s)) == s
  {
    if s != [] {
      FlatUnflat(s[8..]);
      BitsRoundTrip(s[..8]);
      var u := Unflat(s);
      assert u[0] == ByteOf(s[..8]) && u[1..] == Unflat(s[8..]);
    }
  }

  lemma {:induction false} UnflatFlat(s: seq<bv8>)
    ensures Unflat(Flat(s)) == s
  {
    if s != [] {
      UnflatFlat(s[1..]);
      ByteRoundTrip(s[0]);
      var f := Flat(s);
      assert f[..8] == ByteBits(s[0]) && f[8..] == Flat(s[1..]);
    }
  }

  lemma {:induction false} FlatAppend(s: seq<bv8>, t: seq<bv8>)
    ensures Flat(s + t) == Flat(s) + Flat(t)
  {
    if s == [] {
      assert s + t == t;
    } else {
      FlatAppend(s[1..], t);
      assert (s + t)[1..] == s[1..] + t && (s + t)[0] == s[0];
      FlatCons(s);
      FlatCons(s + t);
      hide *;
      SeqAssoc(ByteBits(s[0]), Flat(s[1..]), Flat(t));
    }
  }

  lemma FlatCons(s: seq<bv8>)
    requires s != []
    ensures Flat(s) == ByteBits(s[0]) + Flat(s[1..])
  {
  }

  lemma SeqAssoc(a: seq<bool>, b: seq<bool>, c: seq<bool>)
    ensures a + b + c == a + (b + c)
  {
  }

  /** Bit j of a byte, counted from the least significant. */
  predicate BitOf(b: bv8, j: nat)
    requires j < 8
  {
    (b >> j) & 1 == 1
  }

  /** Bit i of a byte is the one that a shift by 7 - i brings to the end. */
  lemma BitOfByte(b: bv8, i: nat)
    requires i < 8
    ensures ByteBits(b)[i] == BitOf(b, 7 - i)
  {
    if i < 4 {
      FirstBits(b);
    } else {
      LastBits(b);
    }
    hide ByteBits, MaskAt;
    MasksAre();
    if {
      case i == 0 => assert 7 - i == 7;
      case i == 1 => assert 7 - i == 6;
      case i == 2 => assert 7 - i == 5;
      case i == 3 => assert 7 - i == 4;
      case i == 4 => assert 7 - i == 3;
      case i == 5 => assert 7 - i == 2;
      case i == 6 => assert 7 - i == 1;
      case i == 7 => assert 7 - i == 0;
    }
  }

  lemma MasksAre()
    ensures MaskAt(0) == 0x80 && MaskAt(1) == 0x40 && MaskAt(2) == 0x20 && MaskAt(3) == 0x10
    ensures MaskAt(4) == 8 && MaskAt(5) == 4 && MaskAt(6) == 2 && MaskAt(7) == 1
  {
  }

  lemma FirstBits(b: bv8)
    ensures Masked(b, 0x80) == ((b >> 7) & 1 == 1) && Masked(b, 0x40) == ((b >> 6) & 1 == 1)
    ensures Masked(b, 0x20) == ((b >> 5) & 1 == 1) && Masked(b, 0x10) == ((b >> 4) & 1 == 1)
  {
  }

  lemma LastBits(b: bv8)
    ensures Masked(b, 8) == ((b >> 3) & 1 == 1) && Masked(b, 4) == ((b >> 2) & 1 == 1)
    ensures Masked(b, 2) == ((b >> 1) & 1 == 1) && Masked(b, 1) == ((b >> 0) & 1 == 1)
  {
  }

  lemma {:induction false} FlatByte(s: seq<bv8>, i: nat, j: nat)
    requires i < |s| && j < 8
    ensures Flat(s)[8 * i + j] == ByteBits(s[i])[j]
  {
    FlatCons(s);
    if i > 0 {
      FlatByte(s[1..], i - 1, j);
    }
    hide *;
  }

  /** r lists the bits of s byte by byte, the most significant bit of each byte first. */
  predicate HighBitsFirst(s: seq<bv8>, r: seq<bool>) {
    |r| == 8 * |s| && forall k :: 0 <= k < |r| ==> r[k] == BitOf(s[k / 8], 7 - k % 8)
  }

  /** The same with the least significant bit first. */
  predicate LowBitsFirst(s: seq<bv8>, r: seq<bool>) {
    |r| == 8 * |s| && forall k :: 0 <= k < |r| ==> r[k] == BitOf(s[k / 8], k % 8)
  }

  lemma FlatBits(s: seq<bv8>)
    ensures HighBitsFirst(s, Flat(s))
  {
    hide Flat, ByteBits;
    forall k | 0 <= k < 8 * |s|
      ensures Flat(s)[k] == BitOf(s[k / 8], 7 - k % 8)
    {
      FlatByte(s, k / 8, k % 8);
      BitOfByte(s[k / 8], k % 8);
    }
  }

  /** Byte by byte exclusive or. */
  function XorBytes(a: seq<bv8>, b: seq<bv8>): (r: seq<bv8>)
    requires |a| == |b|
    ensures |r| == |a| && forall i :: 0 <= i < |a| ==> r[i] == a[i] ^ b[i]
  {
    seq(|a|, i requires 0 <= i < |a| => a[i] ^ b[i])
  }

  lemma {:induction false} FlatXor(a: seq<bv8>, b: seq<bv8>)
    requires |a| == |b|
    ensures Flat(XorBytes(a, b)) == Xor(Flat(a), Flat(b))
  {
    hide ByteBits;
    if a != [] {
      FlatXor(a[1..], b[1..]);
      ByteXor(a[0], b[0]);
      var x := XorBytes(a, b);
      assert x[1..] == XorBytes(a[1..], b[1..]);
      XorConcat(ByteBits(a[0]), Flat(a[1..]), ByteBits(b[0]), Flat(b[1..]));
    }
  }
}
