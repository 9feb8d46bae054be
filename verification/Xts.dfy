/** AES-XTS with ciphertext stealing. */
module Xts {
  import opened Bits
  import opened Blocks
  import opened Gf2

  // ---- the tweak ----

  /** Eight bytes as 64 bits, least significant first. */
  function Load64(s: seq<bv8>): (w: seq<bool>)
    requires |s| == 8
    ensures |w| == 64
  {
    Rev(ByteBits(s[0])) + Rev(ByteBits(s[1])) + Rev(ByteBits(s[2])) + Rev(ByteBits(s[3]))
    + Rev(ByteBits(s[4])) + Rev(ByteBits(s[5])) + Rev(ByteBits(s[6])) + Rev(ByteBits(s[7]))
  }

  function Store64(w: seq<bool>): (s: seq<bv8>)
    requires |w| == 64
    ensures |s| == 8
  {
    [ByteOf(Rev(w[0..8])), ByteOf(Rev(w[8..16])), ByteOf(Rev(w[16..24])), ByteOf(Rev(w[24..32])),
     ByteOf(Rev(w[32..40])), ByteOf(Rev(w[40..48])), ByteOf(Rev(w[48..56])), ByteOf(Rev(w[56..64]))]
  }

  /** The bits of a tweak, least significant first. */
  function TweakBits(t: seq<bv8>): (r: seq<bool>)
    requires |t| == 16
    ensures |r| == 128
  {
    Load64(t[..8]) + Load64(t[8..])
  }

  /** Left shift of a word whose bits are listed least significant first. */
  function Up(w: seq<bool>, k: nat): (r: seq<bool>)
    requires k <= |w|
    ensures |r| == |w|
  {
    Zeros(k) + w[..|w| - k]
  }

  function Down(w: seq<bool>, k: nat): (r: seq<bool>)
    requires k <= |w|
    ensures |r| == |w|
  {
    w[k..] + Zeros(k)
  }

  /** The word 0x87. */
  function Poly(): (r: seq<bool>)
    ensures |r| == 64
  {
    [true, true, true, false, false, false, false, true] + Zeros(56)
  }

  /** mbedtls_gf128mul_x_ble: the shift count of the constant is 0 or 8. */
  function MulXBle(x: seq<bv8>): (r: seq<bv8>)
    requires |x| == 16
    ensures |r| == 16
  {
    var a, b := Load64(x[..8]), Load64(x[8..]);
    var ra := Xor(Up(a, 1), Down(Poly(), 8 - (if b[63] then 8 else 0)));
    var rb := Or(Down(a, 63), Up(b, 1));
    Store64(ra) + Store64(rb)
  }

  /** T * x modulo x^128 + x^7 + x^2 + x + 1. */
  function TimesX(t: seq<bool>): (r: seq<bool>)
    requires |t| == 128
    ensures |r| == 128
  {
    Xor([false] + t[..127], Sel(t[127], Poly() + Zeros(64)))
  }

  /** Bit by bit: x^128 is x^7 + x^2 + x + 1. */
  lemma TimesXIs(t: seq<bool>, i: nat)
    requires |t| == 128 && i < 128
    ensures TimesX(t)[i] == ((i > 0 && t[i - 1]) != (t[127] && (i == 0 || i == 1 || i == 2 || i == 7)))
  {
  }

  lemma EightOctets(w: seq<bool>, o: seq<seq<bool>>, i: nat, j: nat)
    requires |o| == 8 && (forall k :: 0 <= k < 8 ==> |o[k]| == 8) && i < 8 && j < 8
    requires w == o[0] + o[1] + o[2] + o[3] + o[4] + o[5] + o[6] + o[7]
    ensures |w| == 64 && w[8 * i + j] == o[i][j]
  {
    if {
      case i == 0 =>
      case i == 1 =>
      case i == 2 =>
      case i == 3 =>
      case i == 4 =>
      case i == 5 =>
      case i == 6 =>
      case i == 7 =>
    }
  }

  lemma Load64Bit(s: seq<bv8>, i: nat, j: nat)
    requires |s| == 8 && i < 8 && j < 8
    ensures Load64(s)[8 * i + j] == Rev(ByteBits(s[i]))[j]
  {
    hide ByteBits, Rev;
    EightOctets(Load64(s), seq(8, k requires 0 <= k < 8 => Rev(ByteBits(s[k]))), i, j);
  }

  lemma RevBit(b: bv8, j: nat)
    requires j < 8
    ensures Rev(ByteBits(b))[j] == ByteBits(b)[7 - j]
  {
    hide ByteBits;
  }

  /** The first byte of a tweak holds the lowest coefficients, its least significant bit first. */
  lemma TweakBitsAre(t: seq<bv8>)
    requires |t| == 16
    ensures LowBitsFirst(t, TweakBits(t))
  {
    hide *;
    forall k | 0 <= k < 128
      ensures TweakBits(t)[k] == BitOf(t[k / 8], k % 8)
    {
      TweakBit(t, k);
      BitOfByte(t[k / 8], 7 - k % 8);
      assert 7 - (7 - k % 8) == k % 8;
    }
    LowBitsFirstIs(t, TweakBits(t));
  }

  lemma LowBitsFirstIs(s: seq<bv8>, r: seq<bool>)
    requires |r| == 8 * |s| && forall k :: 0 <= k < |r| ==> r[k] == BitOf(s[k / 8], k % 8)
    ensures LowBitsFirst(s, r)
  {
  }

  lemma TweakBit(t: seq<bv8>, k: nat)
    requires |t| == 16 && k < 128
    ensures TweakBits(t)[k] == ByteBits(t[k / 8])[7 - k % 8]
  {
    hide Load64, ByteBits;
    if k < 64 {
      Load64Bit(t[..8], k / 8, k % 8);
    } else {
      Load64Bit(t[8..], k / 8 - 8, k % 8);
    }
    RevBit(t[k / 8], k % 8);
  }

  lemma ByteLoad(t: seq<bool>)
    requires |t| == 8
    ensures Rev(ByteBits(ByteOf(Rev(t)))) == t
  {
    BitsRoundTrip(Rev(t));
    hide ByteOf, ByteBits;
    assert Rev(Rev(t)) == t;
  }

  lemma Store64Load(w: seq<bool>)
    requires |w| == 64
    ensures Load64(Store64(w)) == w
  {
    ByteLoad(w[0..8]);
    ByteLoad(w[8..16]);
    ByteLoad(w[16..24]);
    ByteLoad(w[24..32]);
    ByteLoad(w[32..40]);
    ByteLoad(w[40..48]);
    ByteLoad(w[48..56]);
    ByteLoad(w[56..64]);
    hide ByteOf, ByteBits, Rev;
    JoinEight(w);
  }

  lemma JoinEight(w: seq<bool>)
    requires |w| == 64
    ensures w == w[0..8] + w[8..16] + w[16..24] + w[24..32] + w[32..40] + w[40..48] + w[48..56] + w[56..64]
  {
  }

  /** The 64-bit word code multiplies by x in the field. */
  lemma MulXBleIsTimesX(x: seq<bv8>)
    requires |x| == 16
    ensures TweakBits(MulXBle(x)) == TimesX(TweakBits(x))
  {
    hide Load64, Store64;
    var a, b := Load64(x[..8]), Load64(x[8..]);
    var ra := Xor(Up(a, 1), Down(Poly(), 8 - (if b[63] then 8 else 0)));
    var rb := Or(Down(a, 63), Up(b, 1));
    Store64Load(ra);
    Store64Load(rb);
    var s := Store64(ra) + Store64(rb);
    assert s[..8] == Store64(ra) && s[8..] == Store64(rb);
    WordsAreTimesX(a, b);
  }

  lemma PolyShift(top: bool)
    ensures Down(Poly(), 8 - (if top then 8 else 0)) == Sel(top, Poly())
  {
    if top {
      assert Zeros(0) == [];
    } else {
      assert Down(Poly(), 8) == Zeros(64);
    }
  }

  lemma WordsAreTimesX(a: seq<bool>, b: seq<bool>)
    requires |a| == |b| == 64
    ensures Xor(Up(a, 1), Down(Poly(), 8 - (if b[63] then 8 else 0))) + Or(Down(a, 63), Up(b, 1)) == TimesX(a + b)
  {
    PolyShift(b[63]);
    var t, p := a + b, Sel(b[63], Poly());
    var high := Or(Down(a, 63), Up(b, 1));
    assert high == [a[63]] + b[..63];
    assert [false] + t[..127] == Up(a, 1) + high;
    assert Sel(t[127], Poly() + Zeros(64)) == p + Zeros(64) by { assert Zeros(64) + Zeros(64) == Zeros(128); }
    hide Up, Down, Or, Poly;
    XorConcat(Up(a, 1), high, p, Zeros(64));
    XorZero(high);
  }

  /** On bytes, as the standard draws it: every bit moves up by one place, and the one that falls out of the last byte
    * comes back as 0x87 in the first. */
  lemma MulXBleBit(x: seq<bv8>, k: nat)
    requires |x| == 16 && k < 128
    ensures BitOf(MulXBle(x)[k / 8], k % 8)
      == ((k > 0 && BitOf(x[(k - 1) / 8], (k - 1) % 8)) != (BitOf(x[15], 7) && (k == 0 || k == 1 || k == 2 || k == 7)))
  {
    hide *;
    MulXBleIsTimesX(x);
    TweakBitAt(x, 127);
    TweakBitAt(MulXBle(x), k);
    TimesXIs(TweakBits(x), k);
    if k > 0 {
      TweakBitAt(x, k - 1);
    }
  }

  lemma TweakBitAt(t: seq<bv8>, k: nat)
    requires |t| == 16 && k < 128
    ensures TweakBits(t)[k] == BitOf(t[k / 8], k % 8)
  {
    TweakBitsAre(t);
    hide TweakBits;
  }

  // ---- IEEE Std 1619-2007, sections 5.3 and 5.4 ----

  /** One block under a tweak. */
  function XtsBlock(f: Cipher, t: seq<bv8>, p: seq<bv8>): (c: seq<bv8>)
    requires |t| == |p| == 16 && |f(XorBytes(p, t))| == 16
    ensures |c| == 16
  {
    XorBytes(f(XorBytes(p, t)), t)
  }

  /** One block and b more bytes: they complete a second block with the end of the first output, and swap places with its start. */
  function StealBlock(f: Cipher, t: seq<bv8>, c: seq<bv8>, rest: seq<bv8>): (r: seq<bv8>)
    requires |t| == |c| == 16 && |rest| < 16 && (forall x: seq<bv8> :: |x| == 16 ==> |f(x)| == 16)
    ensures |r| == 16 + |rest|
  {
    XtsBlock(f, t, rest + c[|rest|..]) + c[..|rest|]
  }

  /** Encryption from tweak t on; the last partial block steals from the one before it. */
  ghost function Encrypt(enc: Cipher, t: seq<bv8>, p: seq<bv8>): (c: seq<bv8>)
    requires IsCipher(enc) && |t| == 16 && |p| >= 16
    ensures |c| == |p|
    decreases |p|
  {
    if |p| == 16 then XtsBlock(enc, t, p)
    else if |p| < 32 then
      StealBlock(enc, MulXBle(t), XtsBlock(enc, t, p[..16]), p[16..])
    else XtsBlock(enc, t, p[..16]) + Encrypt(enc, MulXBle(t), p[16..])
  }

  /** Decryption: the last two tweaks are swapped when there is a partial block. */
  ghost function Decrypt(dec: Cipher, t: seq<bv8>, c: seq<bv8>): (p: seq<bv8>)
    requires IsCipher(dec) && |t| == 16 && |c| >= 16
    ensures |p| == |c|
    decreases |c|
  {
    if |c| == 16 then XtsBlock(dec, t, c)
    else if |c| < 32 then
      StealBlock(dec, t, XtsBlock(dec, MulXBle(t), c[..16]), c[16..])
    else XtsBlock(dec, t, c[..16]) + Decrypt(dec, MulXBle(t), c[16..])
  }

  lemma BlockInverse(enc: Cipher, dec: Cipher, t: seq<bv8>, p: seq<bv8>)
    requires IsCipher(enc) && IsCipher(dec) && Undoes(dec, enc) && |t| == |p| == 16
    ensures XtsBlock(dec, t, XtsBlock(enc, t, p)) == p
  {
    hide XorBytes;
    XorBytesTwice(enc(XorBytes(p, t)), t);
    XorBytesTwice(p, t);
  }

  /** Decryption inverts encryption for every length from one block. */
  lemma {:induction false} RoundTrip(enc: Cipher, dec: Cipher, t: seq<bv8>, p: seq<bv8>)
    requires IsCipher(enc) && IsCipher(dec) && Undoes(dec, enc) && |t| == 16 && |p| >= 16
    ensures Decrypt(dec, t, Encrypt(enc, t, p)) == p
    decreases |p|
  {
    hide XtsBlock, MulXBle;
    if |p| == 16 {
      BlockInverse(enc, dec, t, p);
    } else if |p| < 32 {
      StolenBlocks(enc, dec, t, p);
    } else {
      var first := XtsBlock(enc, t, p[..16]);
      var c := Encrypt(enc, t, p);
      assert c[..16] == first && c[16..] == Encrypt(enc, MulXBle(t), p[16..]);
      BlockInverse(enc, dec, t, p[..16]);
      RoundTrip(enc, dec, MulXBle(t), p[16..]);
    }
  }

  lemma StolenBlocks(enc: Cipher, dec: Cipher, t: seq<bv8>, p: seq<bv8>)
    requires IsCipher(enc) && IsCipher(dec) && Undoes(dec, enc) && |t| == 16 && 16 < |p| < 32
    ensures Decrypt(dec, t, Encrypt(enc, t, p)) == p
  {
    hide *;
    var b, u := |p| - 16, MulXBle(t);
    BlockOfCipher(enc, t, p[..16]);
    var cc := XtsBlock(enc, t, p[..16]);
    var full := p[16..] + cc[b..];
    EncryptStealing(enc, t, p, cc);
    BlockInverse(enc, dec, u, full);
    BlockInverse(enc, dec, t, p[..16]);
    BlockOfCipher(enc, u, full);
    BlockOfCipher(dec, u, XtsBlock(enc, u, full));
    var c := Encrypt(enc, t, p);
    DecryptStealing(dec, t, c, full);
    SplitFull(p[16..], cc, full, b);
    assert c[16..] + full[b..] == cc;
    assert p == p[..16] + p[16..];
  }

  lemma BlockOfCipher(f: Cipher, u: seq<bv8>, x: seq<bv8>)
    requires IsCipher(f) && |u| == |x| == 16
    ensures |f(XorBytes(x, u))| == 16
  {
    hide XorBytes;
  }

  lemma SplitFull(r: seq<bv8>, cc: seq<bv8>, full: seq<bv8>, b: nat)
    requires |r| == b < 16 == |cc| && full == r + cc[b..]
    ensures |full| == 16 && full[..b] == r && full[b..] == cc[b..] && cc[..b] + full[b..] == cc
  {
  }

  lemma EncryptStealing(enc: Cipher, u: seq<bv8>, r: seq<bv8>, cc: seq<bv8>)
    requires IsCipher(enc) && |u| == 16 && 16 < |r| < 32
    requires |enc(XorBytes(r[..16], u))| == 16 && cc == XtsBlock(enc, u, r[..16])
    ensures var q := r[16..] + cc[|r| - 16..];
      |enc(XorBytes(q, MulXBle(u)))| == 16 && |Encrypt(enc, u, r)| == |r|
      && Encrypt(enc, u, r)[..16] == XtsBlock(enc, MulXBle(u), q) && Encrypt(enc, u, r)[16..] == cc[..|r| - 16]
  {
    hide MulXBle, XtsBlock, XorBytes;
  }

  lemma DecryptStealing(dec: Cipher, t: seq<bv8>, c: seq<bv8>, full: seq<bv8>)
    requires IsCipher(dec) && |t| == |full| == 16 && 16 < |c| < 32
    requires |dec(XorBytes(c[..16], MulXBle(t)))| == 16 && full == XtsBlock(dec, MulXBle(t), c[..16])
    ensures var b := |c| - 16; var q := c[16..] + full[b..];
      |dec(XorBytes(q, t))| == 16 && Decrypt(dec, t, c) == XtsBlock(dec, t, q) + full[..b]
  {
    hide MulXBle, XtsBlock, XorBytes;
  }

  // ---- the same block by block ----

  /** The tweak of block j: j multiplications by x. */
  function TweakOf(t: seq<bv8>, j: nat): (r: seq<bv8>)
    requires |t| == 16
    ensures |r| == 16
  {
    if j == 0 then t else MulXBle(TweakOf(t, j - 1))
  }

  lemma {:induction false} TweakOfNext(t: seq<bv8>, j: nat)
    requires |t| == 16
    ensures TweakOf(MulXBle(t), j) == TweakOf(t, j + 1)
  {
    hide MulXBle;
    if j > 0 {
      TweakOfNext(t, j - 1);
    }
  }

  /** From block j on, encryption goes on under the j-th tweak. */
  lemma {:induction false} EncryptFrom(enc: Cipher, t: seq<bv8>, p: seq<bv8>, j: nat)
    requires IsCipher(enc) && |t| == 16 && |p| >= 16 * j + 16
    ensures |p[16 * j..]| >= 16
    ensures Encrypt(enc, t, p)[16 * j..] == Encrypt(enc, TweakOf(t, j), p[16 * j..])
    decreases j
  {
    hide MulXBle, XtsBlock, StealBlock;
    if j > 0 {
      EncryptFrom(enc, MulXBle(t), p[16..], j - 1);
      TweakOfNext(t, j - 1);
      var c := Encrypt(enc, t, p);
      assert c[16..] == Encrypt(enc, MulXBle(t), p[16..]);
      assert c[16..][16 * (j - 1)..] == c[16 * j..] && p[16..][16 * (j - 1)..] == p[16 * j..];
    }
  }
  /** c is f(x + u) + u. */
  ghost predicate IsMasked(f: Cipher, u: seq<bv8>, x: seq<bv8>, c: seq<bv8>) {
    |u| == |x| == |f(XorBytes(x, u))| == 16 && c == XorBytes(f(XorBytes(x, u)), u)
  }

  lemma MaskedBlock(f: Cipher, u: seq<bv8>, x: seq<bv8>)
    requires IsCipher(f) && |u| == |x| == 16
    ensures |f(XorBytes(x, u))| == 16 && IsMasked(f, u, x, XtsBlock(f, u, x))
  {
    hide XorBytes;
  }

  /** Block j of the ciphertext, unless the end of the data steals from it: e(P + T) + T under the j-th tweak. */
  lemma EncryptedBlock(enc: Cipher, t: seq<bv8>, p: seq<bv8>, j: nat)
    requires IsCipher(enc) && |t| == 16 && |p| >= 16 * j + 16 && (|p| == 16 * j + 16 || |p| >= 16 * j + 32)
    ensures IsMasked(enc, TweakOf(t, j), p[16 * j..16 * j + 16], Encrypt(enc, t, p)[16 * j..16 * j + 16])
  {
    hide *;
    EncryptFrom(enc, t, p, j);
    var q, u := p[16 * j..], TweakOf(t, j);
    PartOfTail(p, 16 * j);
    PartOfTail(Encrypt(enc, t, p), 16 * j);
    MaskedBlock(enc, u, q[..16]);
    EncryptFirst(enc, u, q);
  }

  lemma PartOfTail(c: seq<bv8>, n: nat)
    requires n + 16 <= |c|
    ensures c[n..][..16] == c[n..n + 16] && c[n..][16..] == c[n + 16..]
  {
  }

  lemma EncryptFirst(enc: Cipher, u: seq<bv8>, q: seq<bv8>)
    requires IsCipher(enc) && |u| == 16 && (|q| == 16 || |q| >= 32) && |enc(XorBytes(q[..16], u))| == 16
    ensures Encrypt(enc, u, q)[..16] == XtsBlock(enc, u, q[..16])
  {
    hide XtsBlock, XorBytes, MulXBle;
    assert |q| == 16 ==> q[..16] == q;
  }

  /** b bytes left over after block n: that block becomes cc; the left-over bytes and the end of cc are encrypted in its place
    * under the next tweak, and the start of cc is the last ciphertext. */
  lemma StolenEnd(enc: Cipher, t: seq<bv8>, p: seq<bv8>, n: nat, b: nat) returns (cc: seq<bv8>)
    requires IsCipher(enc) && |t| == 16 && 0 < b < 16 && |p| == 16 * n + 16 + b
    ensures |cc| == 16 && IsMasked(enc, TweakOf(t, n), p[16 * n..16 * n + 16], cc)
    ensures IsMasked(enc, TweakOf(t, n + 1), p[16 * n + 16..] + cc[b..], Encrypt(enc, t, p)[16 * n..16 * n + 16])
    ensures Encrypt(enc, t, p)[16 * n + 16..] == cc[..b]
  {
    hide *;
    EncryptFrom(enc, t, p, n);
    var r, u := p[16 * n..], TweakOf(t, n);
    PartOfTail(p, 16 * n);
    PartOfTail(Encrypt(enc, t, p), 16 * n);
    MaskedBlock(enc, u, r[..16]);
    cc := XtsBlock(enc, u, r[..16]);
    TweakOfStep(t, n);
    var q := r[16..] + cc[b..];
    MaskedBlock(enc, MulXBle(u), q);
    EncryptStealing(enc, u, r, cc);
  }

  lemma TweakOfStep(t: seq<bv8>, n: nat)
    requires |t| == 16
    ensures TweakOf(t, n + 1) == MulXBle(TweakOf(t, n))
  {
    hide MulXBle;
  }

  // ---- the code ----

  datatype Mode = ENCRYPT | DECRYPT | OTHER(code: int)

  const ERR_BAD_INPUT_DATA := -0x0021
  const ERR_INVALID_INPUT_LENGTH := -0x0022

  /** What the data unit becomes. */
  ghost function Crypt(mode: Mode, f: Cipher, t: seq<bv8>, x: seq<bv8>): (y: seq<bv8>)
    requires IsCipher(f) && |t| == 16 && |x| >= 16 && !mode.OTHER?
    ensures |y| == |x|
  {
    if mode == ENCRYPT then Encrypt(f, t, x) else Decrypt(f, t, x)
  }

  /** The input from a position on, under the current tweak, completes the output. */
  ghost predicate Pending(mode: Mode, f: Cipher, t: seq<bv8>, x: seq<bv8>, out: seq<bv8>, total: seq<bv8>)
    requires IsCipher(f) && |t| == 16 && |x| >= 16 && !mode.OTHER?
  {
    total == out + Crypt(mode, f, t, x)
  }

  /** Another whole block follows, or this is the last and nothing is left over. */
  lemma PendingStep(mode: Mode, f: Cipher, t: seq<bv8>, x: seq<bv8>, out: seq<bv8>, total: seq<bv8>)
    requires IsCipher(f) && |t| == 16 && |x| >= 16 && !mode.OTHER? && Pending(mode, f, t, x, out, total)
    ensures |x| >= 32 ==> Pending(mode, f, MulXBle(t), x[16..], out + XtsBlock(f, t, x[..16]), total)
    ensures |x| == 16 ==> total == out + XtsBlock(f, t, x[..16])
  {
    hide XtsBlock, MulXBle;
    assert |x| == 16 ==> x[..16] == x;
  }

  /** The last whole block with bytes left over: its output c, the other tweak u for the stolen block. */
  ghost predicate Stealing(f: Cipher, u: seq<bv8>, rest: seq<bv8>, out: seq<bv8>, c: seq<bv8>, total: seq<bv8>)
    requires IsCipher(f) && |u| == |c| == 16 && 0 < |rest| < 16
  {
    total == out + StealBlock(f, u, c, rest)
  }

  /** The same at position n of the input x and the output buffer. */
  ghost predicate StealingAt(f: Cipher, u: seq<bv8>, x: seq<bv8>, buf: seq<bv8>, n: nat, total: seq<bv8>)
    requires IsCipher(f) && |u| == 16
  {
    16 <= n <= |buf| && n < |x| < n + 16 && Stealing(f, u, x[n..], buf[..n - 16], buf[n - 16..n], total)
  }

  lemma StealingHere(f: Cipher, u: seq<bv8>, x: seq<bv8>, buf: seq<bv8>, n: nat, total: seq<bv8>, out: seq<bv8>, c: seq<bv8>)
    requires IsCipher(f) && |u| == |c| == 16 && 16 <= n <= |buf| && n <= |x| && out == buf[..n - 16] && c == buf[n - 16..n]
    ensures n < |x| < n + 16 && Stealing(f, u, x[n..], out, c, total) ==> StealingAt(f, u, x, buf, n, total)
  {
  }

  lemma PendingSteals(mode: Mode, f: Cipher, t: seq<bv8>, x: seq<bv8>, out: seq<bv8>, total: seq<bv8>)
    requires IsCipher(f) && |t| == 16 && 16 < |x| < 32 && !mode.OTHER? && Pending(mode, f, t, x, out, total)
    ensures mode == ENCRYPT ==> Stealing(f, MulXBle(t), x[16..], out, XtsBlock(f, t, x[..16]), total)
    ensures mode == DECRYPT ==> Stealing(f, t, x[16..], out, XtsBlock(f, MulXBle(t), x[..16]), total)
  {
    hide XtsBlock, MulXBle, StealBlock;
  }

  /** output[i] = tmp[i] ^ tweak[i] of the transformed block. */
  method CryptBlock(f: Cipher, tweak: seq<bv8>, block: seq<bv8>, output: array<bv8>, pos: nat)
    requires IsCipher(f) && |tweak| == |block| == 16 && pos + 16 <= output.Length
    modifies output
    ensures output[pos..pos + 16] == XtsBlock(f, tweak, block)
    ensures output[..pos] == old(output[..pos]) && output[pos + 16..] == old(output[pos + 16..])
  {
    var tmp := f(XorBytes(block, tweak));
    ghost var r := XorBytes(tmp, tweak);
    var i := 0;
    while i < 16
      invariant 0 <= i <= 16 && output[pos..pos + i] == r[..i]
      invariant output[..pos] == old(output[..pos]) && output[pos + 16..] == old(output[pos + 16..])
    {
      ghost var done := output[pos..pos + i];
      output[pos + i] := tmp[i] ^ tweak[i];
      assert output[pos..pos + (i + 1)] == done + [r[i]];
      i := i + 1;
    }
  }

  /** Where the loop over the whole blocks stands. */
  ghost predicate Progress(mode: Mode, f: Cipher, tweak: seq<bv8>, prev: seq<bv8>, x: seq<bv8>, buf: seq<bv8>,
                           pos: nat, blocks: nat, total: seq<bv8>)
    requires IsCipher(f) && |tweak| == |prev| == 16 && !mode.OTHER?
  {
    && pos + 16 * blocks + |x| % 16 == |x| <= |buf|
    && (blocks > 0 ==> Pending(mode, f, tweak, x[pos..], buf[..pos], total))
    && (blocks == 0 && |x| % 16 == 0 ==> buf[..pos] == total)
    && (blocks == 0 && |x| % 16 > 0 ==> StealingAt(f, if mode == DECRYPT then prev else tweak, x, buf, pos, total))
  }

  lemma ProgressStart(mode: Mode, f: Cipher, tweak: seq<bv8>, x: seq<bv8>, buf: seq<bv8>, total: seq<bv8>)
    requires IsCipher(f) && |tweak| == 16 && !mode.OTHER? && 16 <= |x| <= |buf| && Pending(mode, f, tweak, x, [], total)
    ensures Progress(mode, f, tweak, tweak, x, buf, 0, |x| / 16, total)
  {
    hide Pending, StealingAt;
    assert x[0..] == x && buf[..0] == [];
  }

  /** One more block, with the tweak that the code uses for it. */
  lemma ProgressStep(mode: Mode, f: Cipher, tweak: seq<bv8>, prev: seq<bv8>, x: seq<bv8>, buf: seq<bv8>, pos: nat, blocks: nat,
                     total: seq<bv8>, buf': seq<bv8>)
    requires IsCipher(f) && |tweak| == |prev| == 16 && !mode.OTHER? && blocks > 0
    requires Progress(mode, f, tweak, prev, x, buf, pos, blocks, total)
    requires |buf'| == |buf| && buf'[..pos] == buf[..pos] && pos + 16 <= |x|
    requires var swap := |x| % 16 > 0 && mode == DECRYPT && blocks == 1;
      buf'[pos..pos + 16] == XtsBlock(f, if swap then MulXBle(tweak) else tweak, x[pos..pos + 16])
    ensures var swap := |x| % 16 > 0 && mode == DECRYPT && blocks == 1;
      Progress(mode, f, MulXBle(if swap then MulXBle(tweak) else tweak), if swap then tweak else prev, x, buf', pos + 16, blocks - 1, total)
  {
    hide XtsBlock, MulXBle, Pending, StealingAt, Stealing;
    var rest, out := x[pos..], buf[..pos];
    assert rest[..16] == x[pos..pos + 16] && rest[16..] == x[pos + 16..];
    assert buf'[..pos + 16] == out + buf'[pos..pos + 16];
    if blocks > 1 || |x| % 16 == 0 {
      PendingStep(mode, f, tweak, rest, out, total);
    } else {
      PendingSteals(mode, f, tweak, rest, out, total);
      assert buf'[..pos + 16 - 16] == out;
      StealingHere(f, if mode == DECRYPT then tweak else MulXBle(tweak), x, buf', pos + 16, total, out, buf'[pos..pos + 16]);
    }
  }

  /** The whole blocks of the data unit. Returns the tweak for the left-over bytes. */
  method CryptBlocks(mode: Mode, f: Cipher, tweak0: seq<bv8>, length: nat, input: array<bv8>, output: array<bv8>,
                     ghost total: seq<bv8>) returns (t: seq<bv8>)
    requires IsCipher(f) && |tweak0| == 16 && length >= 16 && !mode.OTHER? && input != output
    requires length <= input.Length && length <= output.Length && Pending(mode, f, tweak0, input[..length], [], total)
    modifies output
    ensures |t| == 16
    ensures length % 16 == 0 ==> output[..length] == total
    ensures length % 16 != 0 ==> StealingAt(f, t, input[..length], output[..], length / 16 * 16, total)
  {
    hide *;
    var blocks, leftover := length / 16, length % 16;
    var tweak, prevTweak := tweak0, tweak0;
    var pos := 0;
    ghost var x := input[..length];
    ProgressStart(mode, f, tweak, x, output[..], total);
    while blocks > 0
      invariant 0 <= blocks && pos + 16 * blocks + leftover == length && |tweak| == |prevTweak| == 16 && input[..length] == x
      invariant Progress(mode, f, tweak, prevTweak, x, output[..], pos, blocks, total)
    {
      ghost var t0, prev0, buf, blocks0 := tweak, prevTweak, output[..], blocks;
      blocks := blocks - 1;
      if leftover > 0 && mode == DECRYPT && blocks == 0 {
        prevTweak := tweak;
        tweak := MulXBle(tweak);
      }
      assert input[pos..pos + 16] == x[pos..pos + 16];
      CryptBlock(f, tweak, input[pos..pos + 16], output, pos);
      assert output[..][..pos] == buf[..pos] && output[..][pos..pos + 16] == output[pos..pos + 16];
      ProgressStep(mode, f, t0, prev0, x, buf, pos, blocks0, total, output[..]);
      tweak := MulXBle(tweak);
      pos := pos + 16;
    }
    t := if mode == DECRYPT then prevTweak else tweak;
    ProgressEnds(mode, f, tweak, prevTweak, x, output[..], pos, total);
    assert output[..][..pos] == output[..pos];
  }

  lemma ProgressEnds(mode: Mode, f: Cipher, tweak: seq<bv8>, prev: seq<bv8>, x: seq<bv8>, buf: seq<bv8>, pos: nat, total: seq<bv8>)
    requires IsCipher(f) && |tweak| == |prev| == 16 && !mode.OTHER? && Progress(mode, f, tweak, prev, x, buf, pos, 0, total)
    ensures pos == |x| / 16 * 16 <= |buf|
    ensures |x| % 16 == 0 ==> buf[..pos] == total
    ensures |x| % 16 > 0 ==> StealingAt(f, if mode == DECRYPT then prev else tweak, x, buf, pos, total)
  {
    hide StealingAt, Pending;
  }

  /** Ciphertext stealing for the left-over bytes. */
  method Steal(f: Cipher, t: seq<bv8>, length: nat, input: array<bv8>, output: array<bv8>, ghost total: seq<bv8>)
    requires IsCipher(f) && |t| == 16 && length >= 16 && length % 16 != 0 && input != output
    requires length <= input.Length && length <= output.Length
    requires StealingAt(f, t, input[..length], output[..], length / 16 * 16, total)
    modifies output
    ensures output[..length] == total
  {
    hide XtsBlock, XorBytes, StealBlock;
    var n := length / 16 * 16;
    ghost var rest, out, c := input[n..length], output[..n - 16], output[n - 16..n];
    assert input[..length][n..] == rest && output[..][..n - 16] == out && output[..][n - 16..n] == c;
    var block := StealInput(length, n, input, output, rest, c);
    ghost var tail := output[n..length];
    CryptBlock(f, t, block, output, n - 16);
    assert n - 16 + 16 == n && output[n..length] == output[n..][..length - n] == tail;
    assert output[..length] == output[..n - 16] + output[n - 16..n] + output[n..length];
    StolenIs(f, t, c, rest);
  }

  lemma StolenIs(f: Cipher, t: seq<bv8>, c: seq<bv8>, rest: seq<bv8>)
    requires IsCipher(f) && |t| == |c| == 16 && |rest| < 16
    ensures StealBlock(f, t, c, rest) == XtsBlock(f, t, rest + c[|rest|..]) + c[..|rest|]
  {
  }

  /** The last bytes of output come from the previous block; the rest of it completes the input. */
  method StealInput(length: nat, n: nat, input: array<bv8>, output: array<bv8>, ghost rest: seq<bv8>, ghost c: seq<bv8>)
    returns (block: seq<bv8>)
    requires 16 <= n < length < n + 16 && length <= input.Length && length <= output.Length && input != output
    requires rest == input[n..length] && c == output[n - 16..n]
    modifies output
    ensures block == rest + c[|rest|..] && output[n..length] == c[..|rest|]
    ensures output[..n - 16] == old(output[..n - 16]) && output[n - 16..n] == c
  {
    var leftover := length - n;
    block := [];
    var i := 0;
    while i < leftover
      invariant 0 <= i <= leftover && |block| == i && block == rest[..i] && input[n..length] == rest
      invariant output[..n - 16] == old(output[..n - 16]) && output[n - 16..n] == c && output[n..n + i] == c[..i]
    {
      ghost var done := output[n..n + i];
      assert output[n - 16 + i] == c[i] && rest[i] == input[n + i];
      output[n + i] := output[n - 16 + i];
      block := block + [input[n + i]];
      assert output[n..n + (i + 1)] == done + [c[i]];
      i := i + 1;
    }
    assert n + leftover == length && rest[..leftover] == rest;
    while i < 16
      modifies {}
      invariant leftover <= i <= 16 && block == rest + c[leftover..i]
    {
      assert output[n - 16 + i] == c[i];
      block := block + [output[n - 16 + i]];
      i := i + 1;
    }
  }

  /** mbedtls_aes_crypt_xts on disjoint buffers. */
  method CryptXts(enc: Cipher, dec: Cipher, tweakEnc: Cipher, mode: Mode, length: nat, dataUnit: seq<bv8>,
                  input: array<bv8>, output: array<bv8>) returns (ret: int)
    requires IsCipher(enc) && IsCipher(dec) && IsCipher(tweakEnc) && |dataUnit| == 16 && input != output
    requires length <= input.Length && length <= output.Length
    modifies output
    ensures mode.OTHER? ==> ret == ERR_BAD_INPUT_DATA
    ensures !mode.OTHER? && (length < 16 || length > 0x100000 * 16) ==> ret == ERR_INVALID_INPUT_LENGTH
    ensures ret != 0 ==> output[..] == old(output[..])
    ensures !mode.OTHER? && 16 <= length <= 0x100000 * 16 ==> ret == 0
    ensures ret == 0 ==> 16 <= length <= 0x100000 * 16 && !mode.OTHER?
    ensures ret == 0 ==> output[..length] == Crypt(mode, if mode == ENCRYPT then enc else dec, tweakEnc(dataUnit), input[..length])
  {
    hide XtsBlock, Encrypt, Decrypt, StealingAt, MulXBle;
    if mode.OTHER? {
      return ERR_BAD_INPUT_DATA;
    }
    if length < 16 {
      return ERR_INVALID_INPUT_LENGTH;
    }
    if length > 0x100000 * 16 {
      return ERR_INVALID_INPUT_LENGTH;
    }
    var tweak := tweakEnc(dataUnit);
    var f := if mode == ENCRYPT then enc else dec;
    ghost var total := Crypt(mode, f, tweak, input[..length]);
    assert total == [] + total;
    var t := CryptBlocks(mode, f, tweak, length, input, output, total);
    if length % 16 != 0 {
      Steal(f, t, length, input, output, total);
    }
    ret := 0;
  }
}
