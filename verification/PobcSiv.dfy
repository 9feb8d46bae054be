/** AES-POBC-SIV: a synthetic initialization vector from a block-wise MAC, then counter mode. */
module PobcSiv {
  import opened Bits
  import opened Blocks
  import opened Gcm
  import opened Wrappers

  // ---- specification ----

  /** One bit, then zeros up to a block boundary: always at least one byte. */
  function Padded(x: seq<bv8>): (p: seq<bv8>)
    ensures |p| == 16 * (|x| / 16 + 1)
  {
    x + [0x80] + ZeroBytes(15 - |x| % 16)
  }

  /** The accumulator and the nonce over the blocks of p: each nonce is the last input, incremented. */
  ghost function Absorbed(e: Cipher, y: seq<bv8>, nonce: seq<bv8>, p: seq<bv8>): (r: seq<bv8>)
    requires IsCipher(e) && |y| == |nonce| == 16 && |p| % 16 == 0
    ensures |r| == 16
    decreases |p|
  {
    if p == [] then y
    else
      var x := XorBytes(nonce, p[..16]);
      Absorbed(e, XorBytes(y, e(x)), Inc32(x), p[16..])
  }

  function StartNonce(): (n: seq<bv8>)
    ensures |n| == 16
  {
    [1] + ZeroBytes(15)
  }

  /** The synthetic initialization vector, which is the tag. */
  ghost function Iv(e: Cipher, ad: seq<bv8>, m: seq<bv8>): (iv: seq<bv8>)
    requires IsCipher(e)
    ensures |iv| == 16
  {
    var y := Absorbed(e, Absorbed(e, ZeroBytes(16), StartNonce(), Padded(ad)), StartNonce(), Padded(m));
    e([0] + y[1..])
  }

  ghost function EncSpec(e: Cipher, ad: seq<bv8>, m: seq<bv8>): (seq<bv8>, seq<bv8>)
    requires IsCipher(e)
  {
    var iv := Iv(e, ad, m);
    (Gctr(e, iv, m), iv)
  }

  ghost function DecSpec(e: Cipher, ad: seq<bv8>, c: seq<bv8>, iv: seq<bv8>): Option<seq<bv8>>
    requires IsCipher(e) && |iv| == 16
  {
    var m := Gctr(e, iv, c);
    if Iv(e, ad, m) == iv then Some(m) else None
  }

  /** Decryption accepts and returns m exactly when encryption of m gives this ciphertext and vector. */
  lemma DecryptsIffEncrypts(e: Cipher, ad: seq<bv8>, m: seq<bv8>, c: seq<bv8>, iv: seq<bv8>)
    requires IsCipher(e) && |iv| == 16
    ensures DecSpec(e, ad, c, iv) == Some(m) <==> EncSpec(e, ad, m) == (c, iv)
  {
    hide Iv, Gctr;
    GctrTwice(e, iv, c);
    GctrTwice(e, iv, m);
  }

  /** The padding can be taken off again: different data never share their padded blocks. */
  lemma PaddedInjective(x: seq<bv8>, z: seq<bv8>)
    requires Padded(x) == Padded(z)
    ensures x == z
  {
    if |x| < |z| {
      PaddedLonger(x, z);
    } else if |z| < |x| {
      PaddedLonger(z, x);
    } else {
      assert Padded(x)[..|x|] == x && Padded(z)[..|z|] == z;
    }
  }

  lemma PaddedLonger(x: seq<bv8>, z: seq<bv8>)
    requires |x| < |z|
    ensures Padded(x) != Padded(z)
  {
    assert |x| / 16 <= |z| / 16;
    if |x| / 16 == |z| / 16 {
      assert Padded(z)[|z|] == 0x80;
      assert Padded(x)[|z|] == 0;
    }
  }

  lemma XorBytesSwap(a: seq<bv8>, b: seq<bv8>, c: seq<bv8>)
    requires |a| == |b| == |c|
    ensures XorBytes(XorBytes(a, b), c) == XorBytes(XorBytes(a, c), b)
  {
    forall i | 0 <= i < |a|
      ensures XorBytes(XorBytes(a, b), c)[i] == XorBytes(XorBytes(a, c), b)[i]
    {
      XorByteSwap(a[i], b[i], c[i]);
    }
  }

  lemma XorByteSwap(a: bv8, b: bv8, c: bv8)
    ensures (a ^ b) ^ c == (a ^ c) ^ b
  {
  }

  lemma XorBytesCommute(a: seq<bv8>, b: seq<bv8>)
    requires |a| == |b|
    ensures XorBytes(a, b) == XorBytes(b, a)
  {
    forall i | 0 <= i < |a|
      ensures XorBytes(a, b)[i] == XorBytes(b, a)[i]
    {
      XorByteCommutes(a[i], b[i]);
    }
  }

  lemma XorByteCommutes(a: bv8, b: bv8)
    ensures a ^ b == b ^ a
  {
  }

  /** The blocks are added into the accumulator: what was in it only is added. */
  lemma {:induction false} AbsorbedAdds(e: Cipher, y: seq<bv8>, d: seq<bv8>, nonce: seq<bv8>, p: seq<bv8>)
    requires IsCipher(e) && |y| == |d| == |nonce| == 16 && |p| % 16 == 0
    ensures Absorbed(e, XorBytes(y, d), nonce, p) == XorBytes(Absorbed(e, y, nonce, p), d)
    decreases |p|
  {
    hide Inc32, XorBytes;
    if p != [] {
      var x := XorBytes(nonce, p[..16]);
      AbsorbedAdds(e, XorBytes(y, e(x)), d, Inc32(x), p[16..]);
      XorBytesSwap(y, d, e(x));
    }
  }

  /** Both passes start from one nonce and one accumulator, so additional data and message can change places. */
  lemma IvSymmetric(e: Cipher, ad: seq<bv8>, m: seq<bv8>)
    requires IsCipher(e)
    ensures Iv(e, ad, m) == Iv(e, m, ad)
  {
    hide XorBytes, Absorbed, Padded, IsCipher;
    var zero, n := ZeroBytes(16), StartNonce();
    var a, b := Absorbed(e, zero, n, Padded(ad)), Absorbed(e, zero, n, Padded(m));
    FromZero(a);
    FromZero(b);
    AbsorbedAdds(e, zero, a, n, Padded(m));
    AbsorbedAdds(e, zero, b, n, Padded(ad));
    XorBytesCommute(a, b);
  }

  /** Data that equal the message cancel it: the vector is that of the zero block, whatever they are. */
  lemma IvOfEqualData(e: Cipher, x: seq<bv8>)
    requires IsCipher(e)
    ensures Iv(e, x, x) == e(ZeroBytes(16))
  {
    hide XorBytes, Absorbed, Padded, IsCipher;
    var zero, n := ZeroBytes(16), StartNonce();
    var a := Absorbed(e, zero, n, Padded(x));
    FromZero(a);
    AbsorbedAdds(e, zero, a, n, Padded(x));
    XorBytesSame(a);
    assert [0] + zero[1..] == zero;
  }

  lemma XorBytesSame(a: seq<bv8>)
    requires |a| == 16
    ensures XorBytes(a, a) == ZeroBytes(16)
  {
    forall i | 0 <= i < 16
      ensures XorBytes(a, a)[i] == 0
    {
      XorByteSame(a[i]);
    }
  }

  lemma XorByteSame(a: bv8)
    ensures a ^ a == 0
  {
  }

  lemma FromZero(a: seq<bv8>)
    requires |a| == 16
    ensures XorBytes(ZeroBytes(16), a) == a
  {
    XorBytesCommute(ZeroBytes(16), a);
    forall i | 0 <= i < 16
      ensures XorBytes(a, ZeroBytes(16))[i] == a[i]
    {
      XorByteZero(a[i]);
    }
  }

  lemma XorByteZero(a: bv8)
    ensures a ^ 0 == a
  {
  }

  // ---- the mode written out ----

  /** The cipher inputs and the sums over the blocks of p: the first nonce is a 1 and fifteen zeros, each further one is
    * the last input with its low 32 bits incremented. */
  ghost predicate MacRun(e: Cipher, nonce: seq<bv8>, p: seq<bv8>, xs: seq<seq<bv8>>, ys: seq<seq<bv8>>) {
    && |p| == 16 * |xs| && |ys| == |xs| + 1 && |nonce| == 16
    && (forall i :: 0 <= i < |ys| ==> |ys[i]| == 16) && (forall i :: 0 <= i < |xs| ==> |xs[i]| == 16)
    && (xs != [] ==> xs[0] == XorBytes(nonce, p[..16]))
    && (forall i :: 0 <= i < |xs| ==> |e(xs[i])| == 16 && ys[i + 1] == XorBytes(ys[i], e(xs[i])))
    && forall i :: 0 < i < |xs| ==> xs[i] == XorBytes(Inc32(xs[i - 1]), p[16 * i..16 * i + 16])
  }

  lemma MacRunTail(e: Cipher, nonce: seq<bv8>, p: seq<bv8>, xs: seq<seq<bv8>>, ys: seq<seq<bv8>>)
    requires MacRun(e, nonce, p, xs, ys) && xs != []
    ensures MacRun(e, Inc32(xs[0]), p[16..], xs[1..], ys[1..])
  {
    hide Inc32, XorBytes;
    var us, vs, q := xs[1..], ys[1..], p[16..];
    if us != [] {
      assert xs[1] == XorBytes(Inc32(xs[1 - 1]), p[16 * 1..16 * 1 + 16]);
      assert p[16..32] == q[..16];
    }
    forall i | 0 < i < |us|
      ensures us[i] == XorBytes(Inc32(us[i - 1]), q[16 * i..16 * i + 16])
    {
      assert xs[i + 1] == XorBytes(Inc32(xs[i + 1 - 1]), p[16 * (i + 1)..16 * (i + 1) + 16]);
      assert p[16 * (i + 1)..16 * (i + 1) + 16] == q[16 * i..16 * i + 16];
    }
  }

  lemma {:induction false} AbsorbedIsRun(e: Cipher, nonce: seq<bv8>, p: seq<bv8>, xs: seq<seq<bv8>>, ys: seq<seq<bv8>>)
    requires IsCipher(e) && MacRun(e, nonce, p, xs, ys)
    ensures Absorbed(e, ys[0], nonce, p) == ys[|xs|]
    decreases |xs|
  {
    if xs == [] {
      AbsorbedNone(e, ys[0], nonce);
    } else {
      MacRunTail(e, nonce, p, xs, ys);
      AbsorbedIsRun(e, Inc32(xs[0]), p[16..], xs[1..], ys[1..]);
      assert ys[0 + 1] == XorBytes(ys[0], e(xs[0]));
      hide Inc32, XorBytes, MacRun;
    }
  }

  /** Every such run over the padded additional data from zero, and on over the padded message, gives the vector:
    * the last sum with its first byte cleared, encrypted. */
  lemma IvIsRun(e: Cipher, ad: seq<bv8>, m: seq<bv8>, xs: seq<seq<bv8>>, ys: seq<seq<bv8>>, us: seq<seq<bv8>>, vs: seq<seq<bv8>>)
    requires IsCipher(e) && |vs| > 0
    requires MacRun(e, [1] + ZeroBytes(15), ad + [0x80] + ZeroBytes(15 - |ad| % 16), xs, ys) && ys[0] == ZeroBytes(16)
    requires MacRun(e, [1] + ZeroBytes(15), m + [0x80] + ZeroBytes(15 - |m| % 16), us, vs) && vs[0] == ys[|xs|]
    ensures Iv(e, ad, m) == e([0] + vs[|us|][1..])
  {
    AbsorbedIsRun(e, [1] + ZeroBytes(15), Padded(ad), xs, ys);
    AbsorbedIsRun(e, [1] + ZeroBytes(15), Padded(m), us, vs);
    hide Absorbed, MacRun, IsCipher;
  }

  /** The first nonce. */
  lemma StartNonceIs(i: nat)
    requires i < 16
    ensures StartNonce()[i] == if i == 0 then 1 else 0
  {
  }

  /** Less than a block of each. */
  lemma ShortIv(e: Cipher, ad: seq<bv8>, m: seq<bv8>, x: seq<bv8>, z: seq<bv8>)
    requires IsCipher(e) && |ad| < 16 && |m| < 16
    requires x == XorBytes([1] + ZeroBytes(15), ad + [0x80] + ZeroBytes(15 - |ad|))
    requires z == XorBytes([1] + ZeroBytes(15), m + [0x80] + ZeroBytes(15 - |m|))
    ensures |e(x)| == |e(z)| == 16 && Iv(e, ad, m) == e([0] + XorBytes(e(x), e(z))[1..])
  {
    PaddedShort(ad);
    PaddedShort(m);
    hide XorBytes, Padded, Absorbed, StartNonce, IsCipher;
    OneBlock(e, ZeroBytes(16), Padded(ad), x);
    FromZero(e(x));
    OneBlock(e, e(x), Padded(m), z);
  }

  lemma PaddedShort(x: seq<bv8>)
    requires |x| < 16
    ensures Padded(x) == x + [0x80] + ZeroBytes(15 - |x|)
  {
  }

  lemma OneBlock(e: Cipher, y: seq<bv8>, p: seq<bv8>, x: seq<bv8>)
    requires IsCipher(e) && |y| == |p| == 16 && x == XorBytes([1] + ZeroBytes(15), p)
    ensures |e(x)| == 16 && Absorbed(e, y, StartNonce(), p) == XorBytes(y, e(x))
  {
    hide XorBytes, Inc32;
    assert p[..16] == p && p[16..] == [];
  }

  /** Byte i of the ciphertext: the counter starts at the vector itself. */
  lemma CiphertextByte(e: Cipher, ad: seq<bv8>, m: seq<bv8>, i: nat)
    requires IsCipher(e) && i < |m|
    ensures var (c, iv) := EncSpec(e, ad, m);
      |c| == |m| && |iv| == 16 && |e(iv[..12] + BeBytes(BeVal(iv[12..]) + i / 16, 4))| == 16
      && c[i] == m[i] ^ e(iv[..12] + BeBytes(BeVal(iv[12..]) + i / 16, 4))[i % 16]
  {
    hide Iv, Gctr, BeBytes, BeVal, IsCipher;
    var iv := Iv(e, ad, m);
    BeRoundTrip(iv[12..]);
    assert iv == iv[..12] + iv[12..];
    GctrByte(e, iv[..12], BeVal(iv[12..]), m, i);
  }

  // ---- steps of the loops ----

  /** One block of the padded data: a piece of x, padded if it is short. */
  function PadOne(piece: seq<bv8>): (b: seq<bv8>)
    requires |piece| <= 16
    ensures |b| == 16
  {
    if |piece| == 16 then piece else piece + [0x80] + ZeroBytes(15 - |piece|)
  }

  function PieceEnd(n: nat, i: nat): nat {
    if n - i < 16 then n else i + 16
  }

  lemma PieceOf(x: seq<bv8>, i: nat)
    requires i <= |x| && i % 16 == 0
    ensures i <= PieceEnd(|x|, i) <= |x| && PieceEnd(|x|, i) - i <= 16 && i + 16 <= |Padded(x)|
    ensures Padded(x)[i..i + 16] == PadOne(x[i..PieceEnd(|x|, i)])
  {
    var k := i / 16;
    assert i == 16 * k && k <= |x| / 16;
    var p := Padded(x);
    if |x| - i < 16 {
      assert |x| % 16 == |x| - i && |p| == i + 16;
      assert p[i..] == x[i..] + [0x80] + ZeroBytes(15 - (|x| - i));
    } else {
      assert p[i..i + 16] == x[i..i + 16];
    }
  }

  /** The MAC over one more block. */
  lemma AbsorbedStep(e: Cipher, y: seq<bv8>, nonce: seq<bv8>, p: seq<bv8>, i: nat, x: seq<bv8>)
    requires IsCipher(e) && |y| == |nonce| == 16 && |p| % 16 == 0 && i % 16 == 0 && i + 16 <= |p|
    requires x == XorBytes(nonce, p[i..i + 16])
    ensures |e(x)| == 16 && |Inc32(x)| == 16 && (i + 16) % 16 == 0 && |p[i..]| % 16 == |p[i + 16..]| % 16 == 0
    ensures Absorbed(e, y, nonce, p[i..]) == Absorbed(e, XorBytes(y, e(x)), Inc32(x), p[i + 16..])
  {
    hide *;
    BlockMods(|p|, i);
    BlockLength(e, x);
    var q := p[i..];
    assert q[..16] == p[i..i + 16] && q[16..] == p[i + 16..];
    AbsorbedFirst(e, y, nonce, q, x);
  }

  lemma AbsorbedFirst(e: Cipher, y: seq<bv8>, nonce: seq<bv8>, q: seq<bv8>, x: seq<bv8>)
    requires IsCipher(e) && |y| == |nonce| == 16 && |q| >= 16 && |q| % 16 == |q[16..]| % 16 == 0 && x == XorBytes(nonce, q[..16])
    requires |e(x)| == 16
    ensures Absorbed(e, y, nonce, q) == Absorbed(e, XorBytes(y, e(x)), Inc32(x), q[16..])
  {
    hide Inc32, XorBytes, IsCipher;
  }

  lemma BlockLength(e: Cipher, x: seq<bv8>)
    requires IsCipher(e) && |x| == 16
    ensures |e(x)| == 16
  {
  }

  lemma BlockMods(n: nat, i: nat)
    requires n % 16 == 0 && i % 16 == 0 && i + 16 <= n
    ensures (i + 16) % 16 == 0 && (n - i) % 16 == 0 && (n - i - 16) % 16 == 0
  {
  }

  lemma AbsorbedNone(e: Cipher, y: seq<bv8>, nonce: seq<bv8>)
    requires IsCipher(e) && |y| == |nonce| == 16
    ensures Absorbed(e, y, nonce, []) == y
  {
  }

  lemma Multiple(n: nat)
    ensures 16 * (n / 16 + 1) % 16 == 0 && 16 * (n / 16) <= n < 16 * (n / 16 + 1)
  {
  }

  /** Counter mode over one more chunk. */
  lemma GctrChunk(e: Cipher, k: seq<bv8>, x: seq<bv8>, n: nat)
    requires IsCipher(e) && |k| == 16 && n == if |x| < 16 then |x| else 16
    ensures |e(k)| == 16 && |Inc32(k)| == 16 && n <= |x|
    ensures Gctr(e, k, x) == XorBytes(x[..n], e(k)[..n]) + Gctr(e, Inc32(k), x[n..])
  {
    hide Inc32, XorBytes;
    if |x| <= 16 {
      assert x[..n] == x && x[n..] == [];
    } else {
      assert e(k)[..16] == e(k);
    }
  }

  lemma GctrNext(e: Cipher, icb: seq<bv8>, m: seq<bv8>, out: seq<bv8>, k: seq<bv8>, i: nat, n: nat)
    requires IsCipher(e) && |icb| == |k| == 16 && i <= |m| && n == if |m| - i < 16 then |m| - i else 16
    requires Gctr(e, icb, m) == out + Gctr(e, k, m[i..])
    ensures |e(k)| == 16 && |Inc32(k)| == 16
    ensures Gctr(e, icb, m) == out + XorBytes(m[i..i + n], e(k)[..n]) + Gctr(e, Inc32(k), m[i + n..])
  {
    hide *;
    var x := m[i..];
    assert x[..n] == m[i..i + n] && x[n..] == m[i + n..];
    GctrChunk(e, k, x, n);
    JoinThree(out, XorBytes(x[..n], e(k)[..n]), Gctr(e, Inc32(k), x[n..]));
  }

  // ---- the code ----

  /** a[j] ^= b[j] over a block. */
  method XorBlock(a: array<bv8>, b: seq<bv8>)
    requires a.Length == |b| == 16
    modifies a
    ensures a[..] == XorBytes(old(a[..]), b)
  {
    ghost var r := XorBytes(a[..], b);
    var j := 0;
    while j < 16
      invariant 0 <= j <= 16 && a[..j] == r[..j] && a[j..] == old(a[j..])
    {
      assert a[j] == old(a[..])[j];
      a[j] := a[j] ^ b[j];
      assert a[..j + 1] == a[..j] + [r[j]];
      j := j + 1;
    }
  }

  /** block = the next at most 16 bytes of x, with the padding byte if they are fewer. */
  method FillBlock(block: array<bv8>, piece: seq<bv8>)
    requires block.Length == 16 && |piece| <= 16
    modifies block
    ensures block[..] == PadOne(piece)
  {
    var j := 0;
    while j < 16
      invariant 0 <= j <= 16 && forall t :: 0 <= t < j ==> block[t] == 0
    {
      block[j] := 0;
      j := j + 1;
    }
    j := 0;
    while j < |piece|
      invariant 0 <= j <= |piece| && block[..j] == piece[..j] && forall t :: j <= t < 16 ==> block[t] == 0
    {
      block[j] := piece[j];
      j := j + 1;
    }
    if |piece| < 16 {
      block[|piece|] := 0x80;
    }
  }

  /** One of the two MAC loops: ad_blocks or m_blocks rounds. */
  method AbsorbData(e: Cipher, y: array<bv8>, x: seq<bv8>)
    requires IsCipher(e) && y.Length == 16
    modifies y
    ensures y[..] == Absorbed(e, old(y[..]), StartNonce(), Padded(x))
  {
    hide *;
    var nonce, block := new bv8[16], new bv8[16];
    CopyBlock(nonce, StartNonce());
    ghost var p := Padded(x);
    Multiple(|x|);
    var blocks := |x| / 16 + 1;
    var i := 0;
    assert p[0..] == p;
    while i < blocks
      invariant 0 <= i <= blocks && |p| % 16 == 0 && 16 * i <= |p| && |p[16 * i..]| % 16 == 0
      invariant Absorbed(e, old(y[..]), StartNonce(), p) == Absorbed(e, y[..], nonce[..], p[16 * i..])
      invariant fresh(nonce) && fresh(block) && nonce != block
      modifies y, nonce, block
    {
      PieceOf(x, 16 * i);
      var piece := x[16 * i..PieceEnd(|x|, 16 * i)];
      FillBlock(block, piece);
      ghost var y0, n0 := y[..], nonce[..];
      XorBlock(nonce, block[..]);
      AbsorbedStep(e, y0, n0, p, 16 * i, nonce[..]);
      CopyBlock(block, e(nonce[..]));
      XorBlock(y, block[..]);
      GcmIncr(nonce);
      i := i + 1;
    }
    assert p[16 * i..] == [];
    AbsorbedNone(e, y[..], nonce[..]);
  }

  /** pobc_mac. */
  method PobcMac(e: Cipher, ad: seq<bv8>, m: seq<bv8>) returns (iv: seq<bv8>)
    requires IsCipher(e)
    ensures iv == Iv(e, ad, m)
  {
    hide Absorbed, Padded, IsCipher;
    var y := new bv8[16];
    CopyBlock(y, ZeroBytes(16));
    AbsorbData(e, y, ad);
    AbsorbData(e, y, m);
    var finalNonce := [0] + y[1..];
    iv := e(finalNonce);
  }

  /** The counter-mode loop of both directions. */
  method CtrLoop(e: Cipher, iv: seq<bv8>, m: seq<bv8>, c: array<bv8>)
    requires IsCipher(e) && |iv| == 16 && c.Length == |m|
    modifies c
    ensures c[..] == Gctr(e, iv, m)
  {
    hide *;
    var counter := new bv8[16];
    CopyBlock(counter, iv);
    var i := 0;
    assert m[0..] == m && c[..0] == [];
    assert [] + Gctr(e, iv, m) == Gctr(e, iv, m);
    while i < |m|
      invariant 0 <= i <= |m| && fresh(counter)
      invariant Gctr(e, iv, m) == c[..i] + Gctr(e, counter[..], m[i..])
      modifies c, counter
    {
      var chunk: nat := if |m| - i < 16 then |m| - i else 16;
      GctrNext(e, iv, m, c[..i], counter[..], i, chunk);
      ghost var k := counter[..];
      ghost var done := c[..i];
      XorInto(c, i, m[i..i + chunk], e(counter[..]), chunk);
      assert c[..i + chunk] == done + c[i..i + chunk];
      GcmIncr(counter);
      i := i + chunk;
    }
    assert m[i..] == [] && c[..i] == c[..];
    GctrNone(e, counter[..]);
  }

  /** aes_pobc_siv_encrypt. */
  method Enc(e: Cipher, c: array<bv8>, m: seq<bv8>, ad: seq<bv8>) returns (iv: seq<bv8>)
    requires IsCipher(e) && c.Length == |m|
    modifies c
    ensures (c[..], iv) == EncSpec(e, ad, m)
  {
    hide Iv, IsCipher, Gctr;
    iv := PobcMac(e, ad, m);
    CtrLoop(e, iv, m, c);
  }

  /** aes_pobc_siv_decrypt: 0 with the message, or -1 with the output wiped. */
  method Dec(e: Cipher, m: array<bv8>, c: seq<bv8>, ad: seq<bv8>, iv: seq<bv8>) returns (ret: int)
    requires IsCipher(e) && m.Length == |c| && |iv| == 16
    modifies m
    ensures ret == 0 || ret == -1
    ensures ret == 0 ==> DecSpec(e, ad, c, iv) == Some(m[..])
    ensures ret == -1 ==> DecSpec(e, ad, c, iv) == None && m[..] == ZeroBytes(|c|)
  {
    hide Iv, IsCipher, Gctr;
    CtrLoop(e, iv, c, m);
    var recomputed := PobcMac(e, ad, m[..]);
    if iv != recomputed {
      Wipe(m);
      return -1;
    }
    return 0;
  }

  method Wipe(m: array<bv8>)
    modifies m
    ensures m[..] == ZeroBytes(m.Length)
  {
    var j := 0;
    while j < m.Length
      invariant 0 <= j <= m.Length && forall t :: 0 <= t < j ==> m[t] == 0
    {
      m[j] := 0;
      j := j + 1;
    }
  }
}
