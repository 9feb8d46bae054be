/** CCM with data in any number of pieces. */
module Ccm {
  import opened Bytes

  datatype Mode = DECRYPT | ENCRYPT | STAR_DECRYPT | STAR_ENCRYPT

  predicate Encrypts(mode: Mode) {
    mode == ENCRYPT || mode == STAR_ENCRYPT
  }

  /** CCM* of IEEE Std 802.15.4, which may go without a tag. */
  predicate Star(mode: Mode) {
    mode == STAR_ENCRYPT || mode == STAR_DECRYPT
  }

  const ERR_BAD_INPUT := -0x000D
  const ERR_AUTH_FAILED := -0x000F
  const ERR_CORRUPTION_DETECTED := -0x006E

  // ---- NIST SP 800-38C, Appendix A ----

  /** What one message is authenticated with. */
  datatype Params = Params(nonce: seq<byte>, adLen: nat, plainLen: nat, tagLen: nat)

  ghost predicate ValidParams(p: Params) {
    && 7 <= |p.nonce| <= 13 && p.adLen < 0xFF00
    && 4 <= p.tagLen <= 16 && p.tagLen % 2 == 0
    && p.plainLen < Pow256(15 - |p.nonce|)
  }

  /** The formatting flags, nonce and payload length. */
  function FirstBlock(p: Params): (b: seq<byte>)
    requires 7 <= |p.nonce| <= 13 && 4 <= p.tagLen <= 16
    ensures |b| == 16
  {
    [(if p.adLen > 0 then 64 else 0) + 8 * ((p.tagLen - 2) / 2) + (14 - |p.nonce|)] + p.nonce + Be(p.plainLen, 15 - |p.nonce|)
  }

  function CtrBlock(n: seq<byte>, j: nat): (b: seq<byte>)
    requires 7 <= |n| <= 13
    ensures |b| == 16
  {
    [14 - |n|] + n + Be(j, 15 - |n|)
  }

  /** Byte i of the key stream. */
  ghost function KeyByte(e: BlockFunction, n: seq<byte>, i: nat): byte
    requires IsBlockFunction(e) && 7 <= |n| <= 13
  {
    e(CtrBlock(n, 1 + i / 16))[i % 16]
  }

  /** Data at position pos of the payload under the key stream. */
  ghost function CryptAt(e: BlockFunction, n: seq<byte>, pos: nat, x: seq<byte>): (y: seq<byte>)
    requires IsBlockFunction(e) && 7 <= |n| <= 13
    ensures |y| == |x| && forall i :: 0 <= i < |x| ==> y[i] == XorB(x[i], KeyByte(e, n, pos + i))
  {
    seq(|x|, i requires 0 <= i < |x| => XorB(x[i], KeyByte(e, n, pos + i)))
  }

  /** CBC-MAC of whole blocks from state y. */
  ghost function CbcMac(e: BlockFunction, y: seq<byte>, x: seq<byte>): (r: seq<byte>)
    requires IsBlockFunction(e) && |y| == 16 && |x| % 16 == 0
    ensures |r| == 16
    decreases |x|
  {
    if x == [] then y else CbcMac(e, e(XorS(y, x[..16])), x[16..])
  }

  /** x with zeros up to a whole block. */
  function Pad(x: seq<byte>): (r: seq<byte>)
    ensures |r| % 16 == 0
  {
    if |x| % 16 == 0 then x else x + Zeros(16 - |x| % 16)
  }

  /** Two strings of whole blocks. */
  function WholeBlocks(a: seq<byte>, b: seq<byte>): (r: seq<byte>)
    requires |a| % 16 == |b| % 16 == 0
    ensures |r| % 16 == 0 && r == a + b
  {
    a + b
  }

  /** The MAC over the formatted nonce, additional data and payload: section 6.1, steps 1 to 4. */
  ghost function Mac(e: BlockFunction, p: Params, ad: seq<byte>, m: seq<byte>): (t: seq<byte>)
    requires IsBlockFunction(e) && 7 <= |p.nonce| <= 13 && 4 <= p.tagLen <= 16
    ensures |t| == 16
  {
    CbcMac(e, Zeros(16), WholeBlocks(FirstBlock(p), WholeBlocks(if ad == [] then [] else Pad(Be(|ad|, 2) + ad), Pad(m))))
  }

  /** The tag before truncation. */
  ghost function Tag(e: BlockFunction, p: Params, ad: seq<byte>, m: seq<byte>): (t: seq<byte>)
    requires IsBlockFunction(e) && 7 <= |p.nonce| <= 13 && 4 <= p.tagLen <= 16
    ensures |t| == 16
  {
    XorS(Mac(e, p, ad, m), e(CtrBlock(p.nonce, 0)))
  }

  /** The bytes of a counter block: q - 1, the nonce, and the counter in the last q. */
  lemma CtrBlockBytes(n: seq<byte>, j: nat, i: nat)
    requires 7 <= |n| <= 13 && i < 16
    ensures CtrBlock(n, j)[i] == if i == 0 then 14 - |n| else if i <= |n| then n[i - 1] else j / Pow256(15 - i) % 256
  {
    if i > |n| {
      BeByte(j, 15 - |n|, i - 1 - |n|);
    }
    hide Be, Pow256;
  }

  /** The tag is the MAC under the key stream of counter block 0, and taking that off gives the MAC back: sections 6.1 and 6.2. */
  lemma TagIsMasked(e: BlockFunction, p: Params, ad: seq<byte>, m: seq<byte>)
    requires IsBlockFunction(e) && 7 <= |p.nonce| <= 13 && 4 <= p.tagLen <= 16
    ensures var s0 := e([14 - |p.nonce|] + p.nonce + Zeros(15 - |p.nonce|));
      |s0| == 16 && Tag(e, p, ad, m) == XorS(Mac(e, p, ad, m), s0) && XorS(Tag(e, p, ad, m), s0) == Mac(e, p, ad, m)
  {
    hide Mac, Be, XorS;
    ZeroBe(15 - |p.nonce|);
    XorSTwice(Mac(e, p, ad, m), e(CtrBlock(p.nonce, 0)));
  }

  /** Byte i of the ciphertext of a whole payload: the counters start at 1. */
  lemma CryptByte(e: BlockFunction, n: seq<byte>, x: seq<byte>, i: nat)
    requires IsBlockFunction(e) && 7 <= |n| <= 13 && i < |x|
    ensures |e([14 - |n|] + n + Be(1 + i / 16, 15 - |n|))| == 16
    ensures CryptAt(e, n, 0, x)[i] == XorB(x[i], e([14 - |n|] + n + Be(1 + i / 16, 15 - |n|))[i % 16])
  {
    hide XorB, Be;
  }

  /** The first block: two flags and two lengths in the first byte, the nonce, and the payload length. */
  function Header(p: Params): (b: seq<byte>)
    requires 7 <= |p.nonce| <= 13 && 4 <= p.tagLen <= 16
    ensures |b| == 16
  {
    [(if p.adLen > 0 then 64 else 0) + (p.tagLen / 2 - 1) * 8 + (14 - |p.nonce|)] + p.nonce + Be(p.plainLen, 15 - |p.nonce|)
  }

  /** Additional data after their length in two bytes, with zeros up to a block; nothing if there are none. */
  function AdPart(ad: seq<byte>): seq<byte> {
    if ad == [] then [] else [|ad| / 256 % 256, |ad| % 256] + ad + Zeros(ToBlock(2 + |ad|))
  }

  /** What the MAC is taken of. */
  function Formatted(p: Params, ad: seq<byte>, m: seq<byte>): (b: seq<byte>)
    requires 7 <= |p.nonce| <= 13 && 4 <= p.tagLen <= 16
  {
    Header(p) + AdPart(ad) + m + Zeros(ToBlock(|m|))
  }

  /** The zeros up to the end of a block. */
  function ToBlock(n: nat): nat {
    (16 - n % 16) % 16
  }

  lemma PadIs(x: seq<byte>)
    ensures Pad(x) == x + Zeros(ToBlock(|x|))
  {
    assert |x| % 16 == 0 ==> x + Zeros(0) == x;
  }

  lemma MacOfFormatted(e: BlockFunction, p: Params, ad: seq<byte>, m: seq<byte>)
    requires IsBlockFunction(e) && 7 <= |p.nonce| <= 13 && 4 <= p.tagLen <= 16
    ensures |Formatted(p, ad, m)| % 16 == 0 && Mac(e, p, ad, m) == CbcMac(e, Zeros(16), Formatted(p, ad, m))
  {
    hide *;
    FormattedIs(p, ad, m);
    MacIs(e, p, ad, m, Formatted(p, ad, m));
  }

  lemma MacIs(e: BlockFunction, p: Params, ad: seq<byte>, m: seq<byte>, x: seq<byte>)
    requires IsBlockFunction(e) && 7 <= |p.nonce| <= 13 && 4 <= p.tagLen <= 16
    requires x == FirstBlock(p) + ((if ad == [] then [] else Pad(Be(|ad|, 2) + ad)) + Pad(m))
    ensures |x| % 16 == 0 && Mac(e, p, ad, m) == CbcMac(e, Zeros(16), x)
  {
    hide Be, CbcMac, Pad, FirstBlock, IsBlockFunction;
    var a := if ad == [] then [] else Pad(Be(|ad|, 2) + ad);
    var y := WholeBlocks(a, Pad(m));
    assert x == WholeBlocks(FirstBlock(p), y);
  }

  lemma FormattedIs(p: Params, ad: seq<byte>, m: seq<byte>)
    requires 7 <= |p.nonce| <= 13 && 4 <= p.tagLen <= 16
    ensures Formatted(p, ad, m) == FirstBlock(p) + ((if ad == [] then [] else Pad(Be(|ad|, 2) + ad)) + Pad(m))
  {
    HeaderIs(p);
    AdPartIs(ad);
    PadIs(m);
    hide Header, AdPart, FirstBlock, Be, Pad, ToBlock;
    JoinFour(Header(p), AdPart(ad), m, Zeros(ToBlock(|m|)));
  }

  lemma HeaderIs(p: Params)
    requires 7 <= |p.nonce| <= 13 && 4 <= p.tagLen <= 16
    ensures Header(p) == FirstBlock(p)
  {
    hide Be;
  }

  lemma AdPartIs(ad: seq<byte>)
    ensures AdPart(ad) == if ad == [] then [] else Pad(Be(|ad|, 2) + ad)
  {
    TwoBytes(|ad|);
    PadIs([|ad| / 256 % 256, |ad| % 256] + ad);
    hide Be, Pad, ToBlock;
  }

  lemma JoinFour(h: seq<byte>, a: seq<byte>, m: seq<byte>, z: seq<byte>)
    ensures h + a + m + z == h + (a + (m + z))
  {
  }

  /** The chain of section 6.1, steps 2 to 4: each state is the encryption of the last one plus a block. */
  ghost predicate MacChain(e: BlockFunction, b: seq<byte>, ys: seq<seq<byte>>) {
    && |b| % 16 == 0 && |ys| == |b| / 16 + 1 && (forall i :: 0 <= i < |ys| ==> |ys[i]| == 16)
    && forall i :: 0 <= i < |ys| - 1 ==> ys[i + 1] == e(XorS(ys[i], b[16 * i..16 * i + 16]))
  }

  lemma {:induction false} ChainIsCbcMac(e: BlockFunction, b: seq<byte>, ys: seq<seq<byte>>)
    requires IsBlockFunction(e) && MacChain(e, b, ys)
    ensures CbcMac(e, ys[0], b) == ys[|b| / 16]
    decreases |b|
  {
    hide XorS;
    if b != [] {
      var c, zs := b[16..], ys[1..];
      forall i | 0 <= i < |zs| - 1
        ensures zs[i + 1] == e(XorS(zs[i], c[16 * i..16 * i + 16]))
      {
        assert ys[i + 1 + 1] == e(XorS(ys[i + 1], b[16 * (i + 1)..16 * (i + 1) + 16]));
        assert c[16 * i..16 * i + 16] == b[16 * (i + 1)..16 * (i + 1) + 16];
      }
      ChainIsCbcMac(e, c, zs);
      assert ys[0 + 1] == e(XorS(ys[0], b[16 * 0..16 * 0 + 16]));
      assert b[0..16] == b[..16];
    }
  }

  /** Every chain from zero over the formatted data ends in the MAC. */
  lemma MacIsChain(e: BlockFunction, p: Params, ad: seq<byte>, m: seq<byte>, ys: seq<seq<byte>>)
    requires IsBlockFunction(e) && 7 <= |p.nonce| <= 13 && 4 <= p.tagLen <= 16
    requires MacChain(e, Formatted(p, ad, m), ys) && ys[0] == Zeros(16)
    ensures Mac(e, p, ad, m) == ys[|Formatted(p, ad, m)| / 16]
  {
    hide Mac, Formatted, CbcMac;
    MacOfFormatted(e, p, ad, m);
    ChainIsCbcMac(e, Formatted(p, ad, m), ys);
  }

  /** The tag of these data: their MAC under the encrypted counter block 0, cut. */
  ghost predicate IsTag(e: BlockFunction, p: Params, ad: seq<byte>, m: seq<byte>, tag: seq<byte>)
    requires IsBlockFunction(e) && 7 <= |p.nonce| <= 13 && 4 <= p.tagLen <= 16
  {
    var s0 := e([14 - |p.nonce|] + p.nonce + Zeros(15 - |p.nonce|));
    |tag| <= |s0| == 16 && tag == XorS(Mac(e, p, ad, m), s0)[..|tag|]
  }

  lemma CutTag(e: BlockFunction, p: Params, ad: seq<byte>, m: seq<byte>, k: nat)
    requires IsBlockFunction(e) && 7 <= |p.nonce| <= 13 && 4 <= p.tagLen <= 16 && k <= 16
    ensures IsTag(e, p, ad, m, Tag(e, p, ad, m)[..k])
  {
    TagIsMasked(e, p, ad, m);
    hide Tag, Mac, XorS;
  }

  // ---- the MAC byte by byte ----

  /** z added into y from offset o. */
  function XorAt(y: seq<byte>, o: nat, z: seq<byte>): (r: seq<byte>)
    requires |y| == 16 && o + |z| <= 16
    ensures |r| == 16
  {
    seq(16, i requires 0 <= i < 16 => if o <= i < o + |z| then XorB(y[i], z[i - o]) else y[i])
  }

  /** The MAC state after x, whose last block may be incomplete. */
  ghost function Partial(e: BlockFunction, y: seq<byte>, x: seq<byte>): (r: seq<byte>)
    requires IsBlockFunction(e) && |y| == 16
    ensures |r| == 16
    decreases |x|
  {
    if |x| < 16 then XorAt(y, 0, x) else Partial(e, e(XorAt(y, 0, x[..16])), x[16..])
  }

  /** The MAC state once x is complete. */
  ghost function Final(e: BlockFunction, y: seq<byte>, x: seq<byte>): (r: seq<byte>)
    requires IsBlockFunction(e) && |y| == 16
    ensures |r| == 16
  {
    if |x| % 16 == 0 then Partial(e, y, x) else e(Partial(e, y, x))
  }

  lemma XorAtTwice(y: seq<byte>, x: seq<byte>, z: seq<byte>)
    requires |y| == 16 && |x| + |z| <= 16
    ensures XorAt(XorAt(y, 0, x), |x|, z) == XorAt(y, 0, x + z)
  {
    hide XorB;
  }

  lemma XorAtNone(y: seq<byte>)
    requires |y| == 16
    ensures XorAt(y, 0, []) == y
  {
  }

  /** Adding bytes that at most complete the current block. */
  lemma {:induction false} PartialExtend(e: BlockFunction, y: seq<byte>, x: seq<byte>, z: seq<byte>)
    requires IsBlockFunction(e) && |y| == 16 && |x| % 16 + |z| <= 16
    ensures var w := XorAt(Partial(e, y, x), |x| % 16, z);
      Partial(e, y, x + z) == if |x| % 16 + |z| == 16 then e(w) else w
    decreases |x|
  {
    hide XorAt;
    if |x| < 16 {
      XorAtTwice(y, x, z);
      if |x| + |z| == 16 {
        assert (x + z)[..16] == x + z && (x + z)[16..] == [];
        XorAtNone(e(XorAt(y, 0, x + z)));
      }
    } else {
      PartialExtend(e, e(XorAt(y, 0, x[..16])), x[16..], z);
      assert (x + z)[..16] == x[..16] && (x + z)[16..] == x[16..] + z;
    }
  }

  /** The state that the code keeps: complete once the announced length is reached. */
  ghost function MacState(e: BlockFunction, y: seq<byte>, x: seq<byte>, complete: bool): (r: seq<byte>)
    requires IsBlockFunction(e) && |y| == 16
    ensures |r| == 16
  {
    if complete then Final(e, y, x) else Partial(e, y, x)
  }

  /** One piece of at most a block: the code applies the cipher when the block or the data is complete. */
  lemma MacStep(e: BlockFunction, y: seq<byte>, x: seq<byte>, z: seq<byte>, complete: bool)
    requires IsBlockFunction(e) && |y| == 16 && |x| % 16 + |z| <= 16 && z != []
    ensures var w := XorAt(Partial(e, y, x), |x| % 16, z);
      MacState(e, y, x + z, complete) == if |x| % 16 + |z| == 16 || complete then e(w) else w
  {
    hide *;
    PartialExtend(e, y, x, z);
    PiecesMod(|x|, |z|);
    var xz := x + z;
    assert |xz| == |x| + |z|;
    MacStateIs(e, y, xz, complete);
  }

  lemma MacStateIs(e: BlockFunction, y: seq<byte>, x: seq<byte>, complete: bool)
    requires IsBlockFunction(e) && |y| == 16
    ensures MacState(e, y, x, complete) == if complete && |x| % 16 != 0 then e(Partial(e, y, x)) else Partial(e, y, x)
  {
    hide Partial;
  }

  lemma PiecesMod(x: nat, z: nat)
    requires x % 16 + z <= 16 && z > 0
    ensures (x + z) % 16 == 0 <==> x % 16 + z == 16
  {
  }

  lemma ShortIsCbcMac(e: BlockFunction, y: seq<byte>, x: seq<byte>)
    requires IsBlockFunction(e) && |y| == 16 && |x| < 16
    ensures Final(e, y, x) == CbcMac(e, y, Pad(x))
  {
    if x == [] {
      XorAtNone(y);
      EmptyMac(e, y);
      hide *;
    } else {
      XorAtPadded(y, x);
      PadShort(x);
      OneBlockMac(e, y, Pad(x));
      hide XorAt, XorS, Pad, CbcMac;
    }
  }

  lemma EmptyMac(e: BlockFunction, y: seq<byte>)
    requires IsBlockFunction(e) && |y| == 16
    ensures Final(e, y, []) == XorAt(y, 0, []) && CbcMac(e, y, Pad([])) == y
  {
    hide XorAt;
  }

  lemma PadShort(x: seq<byte>)
    requires 0 < |x| < 16
    ensures Pad(x) == x + Zeros(16 - |x|)
  {
  }

  lemma OneBlockMac(e: BlockFunction, y: seq<byte>, b: seq<byte>)
    requires IsBlockFunction(e) && |y| == |b| == 16
    ensures CbcMac(e, y, b) == e(XorS(y, b))
  {
    hide XorS;
    assert b[..16] == b && b[16..] == [];
  }

  /** The running MAC is CBC-MAC of the padded data. */
  lemma {:induction false} FinalIsCbcMac(e: BlockFunction, y: seq<byte>, x: seq<byte>)
    requires IsBlockFunction(e) && |y| == 16
    ensures Final(e, y, x) == CbcMac(e, y, Pad(x))
    decreases |x|
  {
    if |x| < 16 {
      ShortIsCbcMac(e, y, x);
    } else {
      var y' := e(XorAt(y, 0, x[..16]));
      FinalIsCbcMac(e, y', x[16..]);
      XorAtBlock(y, x[..16]);
      PadLong(x);
      hide XorAt, XorS, Pad;
    }
  }

  lemma PadLong(x: seq<byte>)
    requires |x| >= 16
    ensures Pad(x) != [] && Pad(x)[..16] == x[..16] && Pad(x)[16..] == Pad(x[16..])
  {
    LessSixteen(|x|);
    if |x| % 16 != 0 {
      var z := Zeros(16 - |x| % 16);
      assert (x + z)[..16] == x[..16] && (x + z)[16..] == x[16..] + z;
    }
  }

  lemma LessSixteen(n: nat)
    requires n >= 16
    ensures (n - 16) % 16 == n % 16
  {
  }

  lemma XorAtBlock(y: seq<byte>, x: seq<byte>)
    requires |y| == |x| == 16
    ensures XorAt(y, 0, x) == XorS(y, x)
  {
    hide XorB;
  }

  lemma XorAtPadded(y: seq<byte>, x: seq<byte>)
    requires |y| == 16 && |x| < 16
    ensures XorAt(y, 0, x) == XorS(y, x + Zeros(16 - |x|))
  {
    hide XorB;
    var p := x + Zeros(16 - |x|);
    forall i | 0 <= i < 16
      ensures XorAt(y, 0, x)[i] == XorS(y, p)[i]
    {
      XorBZero(y[i]);
    }
  }

  lemma {:induction false} CbcMacSplit(e: BlockFunction, y: seq<byte>, a: seq<byte>, b: seq<byte>)
    requires IsBlockFunction(e) && |y| == 16 && |a| % 16 == |b| % 16 == 0
    ensures |a + b| % 16 == 0 && CbcMac(e, y, a + b) == CbcMac(e, CbcMac(e, y, a), b)
    decreases |a|
  {
    hide XorS;
    if a == [] {
      assert a + b == b;
    } else {
      assert (a + b)[..16] == a[..16] && (a + b)[16..] == a[16..] + b;
      assert |a[16..]| % 16 == 0;
      CbcMacSplit(e, e(XorS(y, a[..16])), a[16..], b);
      assert (a + b)[..16] == a[..16] && (a + b)[16..] == a[16..] + b;
    }
  }

  // ---- states of a message ----

  /** The state after the first block. */
  ghost function StartState(e: BlockFunction, p: Params): (y: seq<byte>)
    requires IsBlockFunction(e) && 7 <= |p.nonce| <= 13 && 4 <= p.tagLen <= 16
    ensures |y| == 16
  {
    e(FirstBlock(p))
  }

  /** The state while additional data arrives. */
  ghost function AdState(e: BlockFunction, p: Params, a: seq<byte>): (y: seq<byte>)
    requires IsBlockFunction(e) && 7 <= |p.nonce| <= 13 && 4 <= p.tagLen <= 16
    ensures |y| == 16
  {
    if a == [] then StartState(e, p) else MacState(e, StartState(e, p), Be(p.adLen, 2) + a, |a| == p.adLen)
  }

  /** The state while payload arrives. */
  ghost function PayloadState(e: BlockFunction, p: Params, a: seq<byte>, m: seq<byte>): (y: seq<byte>)
    requires IsBlockFunction(e) && 7 <= |p.nonce| <= 13 && 4 <= p.tagLen <= 16
    ensures |y| == 16
  {
    MacState(e, AdState(e, p, a), m, |m| == p.plainLen)
  }

  /** Counter blocks used up by the first n payload bytes. */
  function BlocksUsed(n: nat, complete: bool): nat {
    if complete then (n + 15) / 16 else n / 16
  }

  /** With all data in, the state is the MAC of the standard. */
  lemma StateIsMac(e: BlockFunction, p: Params, a: seq<byte>, m: seq<byte>)
    requires IsBlockFunction(e) && ValidParams(p) && |a| == p.adLen && |m| == p.plainLen
    ensures PayloadState(e, p, a, m) == Mac(e, p, a, m)
  {
    hide FirstBlock, Be, CbcMac, Final, Partial, Pow256, Pad;
    var b0, y := FirstBlock(p), StartState(e, p);
    FirstMac(e, b0);
    FinalIsCbcMac(e, AdState(e, p, a), m);
    if a == [] {
      CbcMacSplit(e, Zeros(16), b0, [] + Pad(m));
      assert [] + Pad(m) == Pad(m);
    } else {
      FinalIsCbcMac(e, y, Be(p.adLen, 2) + a);
      CbcMacSplit(e, Zeros(16), b0, Pad(Be(|a|, 2) + a) + Pad(m));
      CbcMacSplit(e, y, Pad(Be(|a|, 2) + a), Pad(m));
    }
  }

  lemma FirstMac(e: BlockFunction, b: seq<byte>)
    requires IsBlockFunction(e) && |b| == 16
    ensures CbcMac(e, Zeros(16), b) == e(b)
  {
    hide XorB;
    XorZeros(b);
    assert b[..16] == b && b[16..] == [];
  }

  lemma XorZeros(b: seq<byte>)
    requires |b| == 16
    ensures XorS(Zeros(16), b) == b
  {
    forall i | 0 <= i < 16
      ensures XorS(Zeros(16), b)[i] == b[i]
    {
      XorBZero(b[i]);
    }
  }

  // ---- counters never run out ----

  /** Every counter that a message with a tag uses fits its q bytes and differs from the 0 kept for the tag. */
  lemma CounterFits(p: Params, n: nat, complete: bool)
    requires ValidParams(p) && n <= p.plainLen
    ensures 0 < 1 + BlocksUsed(n, complete) < Pow256(15 - |p.nonce|)
    ensures CtrBlock(p.nonce, 1 + BlocksUsed(n, complete)) != CtrBlock(p.nonce, 0)
  {
    var q := 15 - |p.nonce|;
    assert Pow256(q) == 256 * Pow256(q - 1) && Pow256(q - 1) == 256 * Pow256(q - 2);
    var j := 1 + BlocksUsed(n, complete);
    hide Be, Pow256;
    if CtrBlock(p.nonce, j) == CtrBlock(p.nonce, 0) {
      assert CtrBlock(p.nonce, j)[1 + |p.nonce|..] == Be(j, q) && CtrBlock(p.nonce, 0)[1 + |p.nonce|..] == Be(0, q);
      BeInjective(j, 0, q);
    }
  }

  lemma CtrBlocksAgree(n: seq<byte>, i: nat, j: nat)
    requires 7 <= |n| <= 13
    ensures CtrBlock(n, i) == CtrBlock(n, j) <==> Be(i, 15 - |n|) == Be(j, 15 - |n|)
  {
    hide Be;
    var h := [14 - |n|] + n;
    assert CtrBlock(n, i)[|h|..] == Be(i, 15 - |n|) && CtrBlock(n, j)[|h|..] == Be(j, 15 - |n|);
  }

  /** Without a tag, which leaves the length free, the counter comes back to 0 exactly at the multiples of 256^q. */
  lemma CounterReturns(n: seq<byte>, j: nat)
    requires 7 <= |n| <= 13
    ensures CtrBlock(n, j) == CtrBlock(n, 0) <==> j % Pow256(15 - |n|) == 0
  {
    hide CtrBlock, Be, Pow256;
    CtrBlocksAgree(n, j, 0);
    BeIsZero(j, 15 - |n|);
  }

  /** So the key stream repeats after that many blocks. */
  lemma KeyStreamRepeats(e: BlockFunction, n: seq<byte>, i: nat)
    requires IsBlockFunction(e) && 7 <= |n| <= 13
    ensures KeyByte(e, n, i + 16 * Pow256(15 - |n|)) == KeyByte(e, n, i)
  {
    hide CtrBlock, Be, Pow256;
    var p := Pow256(15 - |n|);
    assert (i + 16 * p) / 16 == i / 16 + p && (i + 16 * p) % 16 == i % 16;
    BePeriodic(1 + i / 16, 1, 15 - |n|);
    CtrBlocksAgree(n, 1 + i / 16 + p, 1 + i / 16);
  }

  // ---- the context ----

  /** The lowest q bytes of n, and what does not fit them. */
  function Beyond(n: nat, k: nat): nat {
    if k == 0 then n else Beyond(n / 256, k - 1)
  }

  lemma BeyondNext(n: nat, k: nat)
    requires k > 0
    ensures Beyond(n, k) == Beyond(n / 256, k - 1)
  {
  }

  lemma NothingLeft(n: nat)
    ensures Be(n, 0) == [] && Beyond(n, 0) == n
  {
  }

  lemma JoinTail(h: seq<byte>, b: byte, t: seq<byte>)
    ensures h + [b] + t == h + ([b] + t)
  {
  }

  lemma {:induction false} BeyondZero(n: nat, k: nat)
    ensures Beyond(n, k) == 0 <==> n < Pow256(k)
  {
    if k > 0 {
      BeyondZero(n / 256, k - 1);
    }
  }

  class Context {
    const e: BlockFunction
    const y: array<byte>
    const ctr: array<byte>
    var plaintextLen: nat
    var addLen: nat
    var tagLen: nat
    var processed: nat
    var q: nat
    var mode: Mode
    // The bits of the state field.
    var started: bool
    var lengthsSet: bool
    var adStarted: bool
    var adFinished: bool
    var error: bool

    ghost predicate Valid()
      reads this`q
    {
      y.Length == ctr.Length == 16 && y != ctr && IsBlockFunction(e) && q <= 8
    }

    /** Ready for a new message. */
    ghost predicate Clear()
      reads this, y
    {
      Valid() && y[..] == Zeros(16) && !started && !lengthsSet && !adStarted && !adFinished && !error
    }

    /** The fields agree with the message's parameters. */
    ghost predicate Holds(p: Params)
      reads this
    {
      && Valid() && ValidParams(p) && started && lengthsSet && !error
      && addLen == p.adLen && plaintextLen == p.plainLen && tagLen == p.tagLen && q == 15 - |p.nonce|
    }

    /** Additional data a has arrived. */
    ghost predicate AdPhase(p: Params, a: seq<byte>)
      reads this, y, ctr
    {
      && Holds(p) && |a| <= p.adLen
      && adFinished == (p.adLen > 0 && |a| == p.adLen)
      && (if adFinished then processed == 0 else processed == |a| && adStarted == (a != []))
      && y[..] == AdState(e, p, a) && ctr[..] == CtrBlock(p.nonce, 1)
    }

    /** All additional data a and the payload bytes m have arrived. */
    ghost predicate PayloadPhase(p: Params, a: seq<byte>, m: seq<byte>)
      reads this, y, ctr
    {
      && Holds(p) && |a| == p.adLen && (p.adLen > 0 ==> adFinished) && |m| <= p.plainLen && processed == |m|
      && y[..] == PayloadState(e, p, a, m)
      && ctr[..] == CtrBlock(p.nonce, 1 + BlocksUsed(|m|, |m| == p.plainLen))
    }

    /** Lengths are set and starts has not been called. */
    ghost predicate Announced(adLen: nat, plainLen: nat, tagLen: nat)
      reads this, y
    {
      && Valid() && y[..] == Zeros(16) && !started && lengthsSet && !adStarted && !adFinished && !error && processed == 0
      && addLen == adLen && plaintextLen == plainLen && this.tagLen == tagLen
    }

    /** The fields of a message without a tag. */
    ghost predicate Untagged(p: Params)
      reads this
    {
      && Valid() && 7 <= |p.nonce| <= 13 && started && lengthsSet && !error
      && tagLen == p.tagLen == 0 && plaintextLen == 0 && addLen == p.adLen && q == 15 - |p.nonce|
    }

    ghost predicate UntaggedAd(p: Params, k: nat)
      reads this, ctr
    {
      && Untagged(p) && k <= p.adLen && adFinished == (p.adLen > 0 && k == p.adLen)
      && (if adFinished then processed == 0 else processed == k && adStarted == (k > 0))
      && ctr[..] == CtrBlock(p.nonce, 1)
    }

    ghost predicate UntaggedPayload(p: Params, k: nat)
      reads this, ctr
    {
      Untagged(p) && (p.adLen > 0 ==> adFinished) && processed == k && ctr[..] == CtrBlock(p.nonce, 1 + k / 16)
    }

    /** Additional data a has arrived, for a message with or without a tag. */
    ghost predicate InAd(p: Params, a: seq<byte>)
      reads this, y, ctr
    {
      if p.tagLen == 0 then UntaggedAd(p, |a|) else AdPhase(p, a)
    }

    /** All additional data a and the payload bytes m have arrived, with or without a tag. */
    ghost predicate InPayload(p: Params, a: seq<byte>, m: seq<byte>)
      reads this, y, ctr
    {
      if p.tagLen == 0 then |a| == p.adLen && UntaggedPayload(p, |m|) else PayloadPhase(p, a, m)
    }

    /** mbedtls_ccm_init and setkey. */
    constructor (cipher: BlockFunction)
      requires IsBlockFunction(cipher)
      ensures Clear() && e == cipher && fresh(y) && fresh(ctr)
    {
      e := cipher;
      y := new byte[16](i => 0);
      ctr := new byte[16](i => 0);
      plaintextLen, addLen, tagLen, processed, q := 0, 0, 0, 0, 0;
      mode := DECRYPT;
      started, lengthsSet, adStarted, adFinished, error := false, false, false, false, false;
      new;
      assert y[..] == Zeros(16);
    }

    /** The cipher applied to the MAC state. */
    method CipherY()
      requires Valid()
      modifies y
      ensures y[..] == old(e(y[..]))
    {
      var t := e(y[..]);
      var i := 0;
      while i < 16
        invariant 0 <= i <= 16 && y[..i] == t[..i]
      {
        y[i] := t[i];
        i := i + 1;
      }
      assert y[..16] == y[..] && t[..16] == t;
    }

    /** y[i + o] ^= z[i]. */
    method XorInto(o: nat, z: seq<byte>)
      requires Valid() && o + |z| <= 16
      modifies y
      ensures y[..] == XorAt(old(y[..]), o, z)
    {
      hide XorB;
      ghost var y0 := y[..];
      var i := 0;
      while i < |z|
        invariant 0 <= i <= |z|
        invariant forall k :: 0 <= k < 16 ==> y[k] == if o <= k < o + i then XorB(y0[k], z[k - o]) else y0[k]
      {
        y[o + i] := XorB(y[o + i], z[i]);
        i := i + 1;
      }
    }

    /** ++ctr on q bytes. */
    method IncrementCounter(ghost n: seq<byte>, ghost j: nat, ghost ok: bool)
      requires Valid() && (ok ==> 7 <= |n| <= 13 && q == 15 - |n| && ctr[..] == CtrBlock(n, j))
      modifies ctr
      ensures ok ==> ctr[..] == CtrBlock(n, j + 1)
    {
      hide CtrBlock, Carry;
      ghost var v: nat := j;
      var i := 0;
      if ok {
        CounterStart(n, j, ctr[..]);
      }
      while i < q
        invariant 0 <= i <= q && (ok ==> Carry(ctr[..], n, j, v, i))
      {
        ghost var c := ctr[..];
        if ok {
          CarryStep(c, n, j, v, i);
        }
        ctr[15 - i] := Inc(ctr[15 - i]);
        assert ctr[..] == c[15 - i := Inc(c[15 - i])];
        if ctr[15 - i] != 0 {
          return;
        }
        i := i + 1;
        v := v / 256;
      }
      if ok {
        CarryEnd(ctr[..], n, j, v);
      }
    }

    /** ccm_calculate_first_block_if_ready. */
    method CalculateFirstBlockIfReady(ghost n: seq<byte>) returns (ret: int)
      requires Valid() && 7 <= |n| <= 13
      modifies this`plaintextLen, this`error, y
      ensures Valid()
      ensures !(started && lengthsSet) ==> ret == 0 && plaintextLen == old(plaintextLen) && error == old(error) && y[..] == old(y[..])
      ensures started && lengthsSet && tagLen == 0 && !Star(mode) ==> ret == ERR_BAD_INPUT
      ensures started && lengthsSet && tagLen == 0 && Star(mode) ==> ret == 0 && plaintextLen == 0 && error == old(error)
      ensures started && lengthsSet && 4 <= tagLen <= 16 && q == 15 - |n| && old(y[0] == 0 && y[1..1 + |n|] == n) ==>
        plaintextLen == old(plaintextLen) &&
        (if plaintextLen < Pow256(q)
         then ret == 0 && error == old(error) && y[..] == StartState(e, Params(n, addLen, plaintextLen, tagLen))
         else ret == ERR_BAD_INPUT && error)
    {
      hide Pow256, Be, OrB, Beyond;
      if !started || !lengthsSet {
        return 0;
      }
      if tagLen == 0 {
        if mode == STAR_ENCRYPT || mode == STAR_DECRYPT {
          plaintextLen := 0;
        } else {
          return ERR_BAD_INPUT;
        }
      }
      ghost var y0 := y[..];
      SetFlags();
      ghost var y1, flags := y[..], y[0];
      assert y1 == [flags] + y[1..] && y[1..] == y0[1..];
      var lenLeft := PutLength();
      BeyondZero(plaintextLen, q);
      if lenLeft > 0 {
        error := true;
        return ERR_BAD_INPUT;
      }
      ghost var b := y[..];
      if 4 <= tagLen <= 16 && q == 15 - |n| && y0[0] == 0 && y0[1..1 + |n|] == n {
        assert b[..16 - q] == y1[..16 - q] && y0[1..][..|n|] == n;
        assert b[..16 - q] == [flags] + n;
        assert b == FirstBlock(Params(n, addLen, plaintextLen, tagLen));
      }
      CipherY();
      ret := 0;
    }

    /** y[0] collects the three parts of the flags. */
    method SetFlags()
      requires Valid()
      modifies y
      ensures y[1..] == old(y[1..])
      ensures old(y[0]) == 0 && 4 <= tagLen <= 16 && 1 <= q <= 8 ==>
        y[0] == (if addLen > 0 then 64 else 0) + 8 * ((tagLen - 2) / 2) + (q - 1)
    {
      hide OrB;
      var f := y[0];
      f := OrB(f, if addLen > 0 then 64 else 0);
      f := OrB(f, TagFlag(tagLen));
      f := OrB(f, if q >= 1 then q - 1 else 255);
      if y[0] == 0 && 4 <= tagLen <= 16 && 1 <= q {
        FlagParts(if addLen > 0 then 1 else 0, (tagLen - 2) / 2, q - 1);
      }
      y[0] := f;
    }

    /** The payload length into the last q bytes; what does not fit is returned. */
    method PutLength() returns (lenLeft: nat)
      requires Valid()
      modifies y
      ensures lenLeft == Beyond(plaintextLen, q)
      ensures y[16 - q..] == Be(plaintextLen, q) && y[..16 - q] == old(y[..16 - q])
    {
      hide *;
      ValidFacts();
      lenLeft := plaintextLen;
      var i := 0;
      assert y[16..] == [];
      assert Be(plaintextLen, q) + [] == Be(plaintextLen, q);
      while i < q
        invariant 0 <= i <= q && y[..16 - q] == old(y[..16 - q])
        invariant Be(plaintextLen, q) == Be(lenLeft, q - i) + y[16 - i..]
        invariant Beyond(plaintextLen, q) == Beyond(lenLeft, q - i)
      {
        ghost var tail := y[16 - i..];
        BeNext(lenLeft, q - i);
        BeyondNext(lenLeft, q - i);
        y[15 - i] := lenLeft % 256;
        assert y[15 - i..] == [lenLeft % 256] + tail;
        JoinTail(Be(lenLeft / 256, q - i - 1), lenLeft % 256, tail);
        lenLeft := lenLeft / 256;
        i := i + 1;
      }
      NothingLeft(lenLeft);
      assert [] + y[16 - q..] == y[16 - q..];
    }

    /** The result of the call, starts or set_lengths, that completes the first block. */
    ghost predicate FirstBlockOutcome(ret: int, p: Params)
      reads this, y, ctr
    {
      if 7 <= |p.nonce| <= 13 && (if p.tagLen == 0 then Star(mode) else p.plainLen < Pow256(15 - |p.nonce|))
      then ret == 0 && InAd(p, [])
      else ret == ERR_BAD_INPUT && (p.tagLen > 0 ==> error)
    }

    /** mbedtls_ccm_starts. */
    method Starts(mode: Mode, iv: seq<byte>) returns (ret: int)
      requires Valid()
      modifies this, y, ctr
      ensures Valid()
      ensures |iv| < 7 || |iv| > 13 ==> ret == ERR_BAD_INPUT && started == old(started) && y[..] == old(y[..]) && ctr[..] == old(ctr[..])
      ensures 7 <= |iv| <= 13 && old(Clear()) ==> ret == 0 && started && !lengthsSet && !adStarted && !adFinished && !error
      ensures 7 <= |iv| <= 13 ==> this.mode == mode && q == 15 - |iv| && ctr[..] == CtrBlock(iv, 1)
      ensures 7 <= |iv| <= 13 && old(Clear()) ==> y[0] == 0 && y[1..1 + |iv|] == iv
      ensures var p := Params(iv, old(addLen), old(plaintextLen), old(tagLen));
        7 <= |iv| <= 13 && old(Announced(addLen, plaintextLen, tagLen)) && LegalLengths(p.adLen, p.tagLen) ==>
        FirstBlockOutcome(ret, p)
    {
      hide Be;
      if |iv| < 7 || |iv| > 13 {
        return ERR_BAD_INPUT;
      }
      this.mode := mode;
      q := 16 - 1 - |iv|;
      SetCounter(iv);
      CopyNonce(iv);
      started := true;
      ret := CalculateFirstBlockIfReady(iv);
    }

    /** The nonce after the flags of the first block. */
    method CopyNonce(iv: seq<byte>)
      requires Valid() && |iv| <= 13
      modifies y
      ensures y[0] == old(y[0]) && y[1..1 + |iv|] == iv
    {
      var i := 0;
      while i < |iv|
        invariant 0 <= i <= |iv| && y[0] == old(y[0]) && y[1..1 + i] == iv[..i]
      {
        y[1 + i] := iv[i];
        i := i + 1;
      }
      assert iv[..|iv|] == iv;
    }

    /** The counter block with counter 1. */
    method SetCounter(iv: seq<byte>)
      requires Valid() && 7 <= |iv| <= 13 && q == 15 - |iv|
      modifies ctr
      ensures ctr[..] == CtrBlock(iv, 1)
    {
      var i := 0;
      while i < 16
        invariant 0 <= i <= 16 && forall k :: 0 <= k < i ==> ctr[k] == 0
      {
        ctr[i] := 0;
        i := i + 1;
      }
      ctr[0] := q - 1;
      i := 0;
      while i < |iv|
        invariant 0 <= i <= |iv| && ctr[0] == q - 1 && ctr[1..1 + i] == iv[..i] && forall k :: 1 + i <= k < 16 ==> ctr[k] == 0
      {
        ctr[1 + i] := iv[i];
        i := i + 1;
      }
      ctr[15] := 1;
      OneAtEnd(q);
      assert ctr[1..1 + |iv|] == iv;
      assert ctr[..] == [q - 1] + iv + (Zeros(q - 1) + [1]);
    }

    /** mbedtls_ccm_set_lengths. */
    method SetLengths(totalAdLen: nat, plaintextLen: nat, tagLen: nat, ghost n: seq<byte>) returns (ret: int)
      requires Valid() && 7 <= |n| <= 13
      modifies this, y
      ensures Valid()
      ensures mode == old(mode)
      ensures !LegalLengths(totalAdLen, tagLen) ==> ret == ERR_BAD_INPUT && y[..] == old(y[..]) && lengthsSet == old(lengthsSet)
      ensures LegalLengths(totalAdLen, tagLen) && old(Clear()) ==> ret == 0 && Announced(totalAdLen, plaintextLen, tagLen)
      ensures LegalLengths(totalAdLen, tagLen)
        && old(started && !adStarted && !adFinished && !error && q == 15 - |n| && y[0] == 0 && y[1..1 + |n|] == n && ctr[..] == CtrBlock(n, 1))
        ==> FirstBlockOutcome(ret, Params(n, totalAdLen, plaintextLen, tagLen))
    {
      hide Pow256, FirstBlock, CtrBlock;
      if tagLen == 2 || tagLen > 16 || tagLen % 2 != 0 {
        return ERR_BAD_INPUT;
      }
      if totalAdLen >= 0xFF00 {
        return ERR_BAD_INPUT;
      }
      this.plaintextLen := plaintextLen;
      this.addLen := totalAdLen;
      this.tagLen := tagLen;
      this.processed := 0;
      lengthsSet := true;
      ret := CalculateFirstBlockIfReady(n);
    }

    /** mbedtls_ccm_update_ad. */
    method UpdateAd(add: seq<byte>, ghost p: Params, ghost a: seq<byte>) returns (ret: int)
      requires Valid()
      modifies this`adStarted, this`adFinished, this`processed, y
      ensures Valid()
      ensures error || add == [] ==> y[..] == old(y[..]) && processed == old(processed) && ret == if error then ERR_BAD_INPUT else 0
      ensures old(InAd(p, a)) && |a| + |add| <= p.adLen ==> ret == 0 && InAd(p, a + add)
      ensures old(InAd(p, a)) && |a| + |add| > p.adLen ==> ret == ERR_BAD_INPUT && InAd(p, a)
    {
      hide AdState, CtrBlock, Pow256, FirstBlock, XorAt, StartState, MacState, Partial, Be;
      if error {
        return ERR_BAD_INPUT;
      }
      if add == [] {
        assert a + add == a;
        return 0;
      }
      if adFinished {
        return ERR_BAD_INPUT;
      }
      ghost var ok := AdPhase(p, a);
      ghost var y0 := if ok then StartState(e, p) else y[..];
      if !adStarted {
        if |add| > addLen {
          return ERR_BAD_INPUT;
        }
        ghost var was := y[..];
        XorInto(0, [addLen / 256 % 256, addLen % 256]);
        if ok {
          AdBegins(e, p, was, y[..]);
        }
        adStarted := true;
      } else if processed + |add| > addLen {
        return ERR_BAD_INPUT;
      } else if ok {
        AdContinues(e, p, a);
      }
      AbsorbAd(add, y0, p, a, ok);
      if processed == addLen {
        adFinished := true;
        processed := 0;
      }
      if ok {
        AdStateIs(e, p, a + add);
      }
      ret := 0;
    }

    /** The loop of update_ad over pieces of at most a block. */
    method AbsorbAd(add: seq<byte>, ghost y0: seq<byte>, ghost p: Params, ghost a: seq<byte>, ghost ok: bool)
      requires Valid() && |y0| == 16
      requires ok ==> processed == |a| && processed + |add| <= addLen && |a| < addLen && addLen == p.adLen
      requires ok ==> y[..] == Partial(e, y0, Be(p.adLen, 2) + a)
      modifies this`processed, y
      ensures processed == old(processed) + |add|
      ensures ok ==> y[..] == MacState(e, y0, Be(p.adLen, 2) + (a + add), processed == addLen)
    {
      hide Partial, Final, XorAt, Be;
      ghost var d, p0 := Be(p.adLen, 2), processed;
      var pos := 0;
      assert a + add[..0] == a;
      while pos < |add|
        invariant 0 <= pos <= |add| && processed == p0 + pos
        invariant ok ==> y[..] == MacState(e, y0, d + (a + add[..pos]), processed == addLen)
      {
        var offset := (processed + 2) % 16;
        var useLen := 16 - offset;
        if useLen > |add| - pos {
          useLen := |add| - pos;
        }
        ghost var x, z := d + (a + add[..pos]), add[pos..pos + useLen];
        XorInto(offset, add[pos..pos + useLen]);
        processed := processed + useLen;
        if useLen + offset == 16 || processed == addLen {
          CipherY();
        }
        if ok {
          MacStep(e, y0, x, z, processed == addLen);
          assert x + z == d + (a + add[..pos + useLen]);
        }
        pos := pos + useLen;
      }
      assert add[..|add|] == add;
    }

    /** mbedtls_ccm_crypt: key-stream bytes from an offset of the current counter block. */
    method CryptPiece(offset: nat, input: seq<byte>) returns (output: seq<byte>)
      requires Valid() && offset + |input| <= 16
      ensures |output| == |input| && forall i :: 0 <= i < |input| ==> output[i] == XorB(input[i], e(ctr[..])[offset + i])
    {
      var tmp := e(ctr[..]);
      output := [];
      var i := 0;
      while i < |input|
        invariant 0 <= i <= |input| && |output| == i
        invariant forall k :: 0 <= k < i ==> output[k] == XorB(input[k], tmp[offset + k])
      {
        output := output + [XorB(input[i], tmp[offset + i])];
        i := i + 1;
      }
    }

    /** mbedtls_ccm_update, for the four modes. */
    method Update(input: seq<byte>, outputSize: nat, ghost p: Params, ghost a: seq<byte>, ghost m: seq<byte>)
      returns (ret: int, output: seq<byte>)
      requires Valid()
      modifies this`processed, y, ctr
      ensures Valid()
      ensures old(InPayload(p, a, m)) ==> 7 <= |p.nonce| <= 13
      ensures old(InPayload(p, a, m)) && (p.tagLen == 0 || |m| + |input| <= p.plainLen) && |input| <= outputSize ==>
        ret == 0 && output == CryptAt(e, p.nonce, |m|, input)
        && InPayload(p, a, m + if Encrypts(mode) then input else output)
      ensures old(InPayload(p, a, m)) && ((p.tagLen > 0 && |m| + |input| > p.plainLen) || |input| > outputSize) ==>
        ret == ERR_BAD_INPUT && InPayload(p, a, m)
    {
      hide *;
      output := [];
      ghost var ok := InPayload(p, a, m);
      ValidFacts();
      if ok {
        InPayloadFacts(p, a, m);
      }
      if error {
        return ERR_BAD_INPUT, [];
      }
      if tagLen != 0 && processed + |input| > plaintextLen {
        return ERR_BAD_INPUT, [];
      }
      if outputSize < |input| {
        return ERR_BAD_INPUT, [];
      }
      output := UpdateLoop(input, p, a, m, ok);
      ret := 0;
    }

    /** The loop over pieces of at most a block. */
    method UpdateLoop(input: seq<byte>, ghost p: Params, ghost a: seq<byte>, ghost m: seq<byte>, ghost ok: bool) returns (output: seq<byte>)
      requires Valid() && (ok ==> InPayload(p, a, m) && (p.tagLen == 0 || |m| + |input| <= p.plainLen) && 7 <= |p.nonce| <= 13 && IsBlockFunction(e))
      modifies this`processed, y, ctr
      ensures Valid() && |output| == |input|
      ensures ok ==> output == CryptAt(e, p.nonce, |m|, input) && InPayload(p, a, m + if Encrypts(mode) then input else output)
    {
      hide *;
      output := [];
      var pos := 0;
      ghost var plain: seq<byte> := [];
      assert m + plain == m && input[..0] == [];
      if ok {
        CryptNothing(e, p.nonce, |m|);
      }
      while pos < |input|
        invariant 0 <= pos <= |input| && |output| == pos && Valid()
        invariant ok ==> |plain| == pos && plain == (if Encrypts(mode) then input[..pos] else output)
        invariant ok ==> InPayload(p, a, m + plain)
        invariant ok ==> output == CryptAt(e, p.nonce, |m|, input[..pos])
      {
        var piece := UpdatePiece(input[pos..], p, a, m + plain, ok);
        ghost var z := input[pos..pos + |piece|];
        assert input[pos..][..|piece|] == z && input[..pos + |piece|] == input[..pos] + z;
        ghost var more := if Encrypts(mode) then z else piece;
        assert m + (plain + more) == (m + plain) + more;
        if ok {
          CryptAppend(e, p.nonce, |m|, input[..pos], z);
        }
        output := output + piece;
        plain := plain + more;
        pos := pos + |piece|;
      }
      assert input[..|input|] == input;
    }

    /** The fields that stay as they are while payload arrives. */
    ghost predicate Fixed(p: Params, a: seq<byte>)
      reads this`plaintextLen, this`addLen, this`tagLen, this`q, this`started, this`lengthsSet, this`adFinished, this`error
    {
      && ValidParams(p) && y.Length == ctr.Length == 16 && y != ctr && IsBlockFunction(e) && started && lengthsSet && !error
      && addLen == p.adLen && plaintextLen == p.plainLen && tagLen == p.tagLen && q == 15 - |p.nonce|
      && |a| == p.adLen && (p.adLen > 0 ==> adFinished)
    }

    lemma FixedFacts(p: Params, a: seq<byte>)
      requires Fixed(p, a)
      ensures Valid() && 7 <= |p.nonce| <= 13 && 4 <= p.tagLen <= 16 && !error && tagLen > 0
      ensures plaintextLen == p.plainLen && q == 15 - |p.nonce|
    {
      hide Pow256;
    }

    lemma PayloadFacts(p: Params, a: seq<byte>, m: seq<byte>)
      requires PayloadPhase(p, a, m)
      ensures Fixed(p, a) && Valid() && 7 <= |p.nonce| <= 13 && 4 <= p.tagLen <= 16
      ensures processed == |m| <= p.plainLen
      ensures y[..] == PayloadState(e, p, a, m) && ctr[..] == CtrBlock(p.nonce, 1 + BlocksUsed(|m|, |m| == p.plainLen))
    {
      hide Pow256, PayloadState, CtrBlock;
    }

    lemma PayloadIntro(p: Params, a: seq<byte>, m: seq<byte>)
      requires Fixed(p, a) && processed == |m| <= p.plainLen && 7 <= |p.nonce| <= 13 && 4 <= p.tagLen <= 16
      requires IsBlockFunction(e) && y.Length == ctr.Length == 16
      requires y[..] == PayloadState(e, p, a, m)
      requires ctr[..] == CtrBlock(p.nonce, 1 + BlocksUsed(|m|, |m| == p.plainLen))
      ensures InPayload(p, a, m)
    {
      hide Pow256, PayloadState, CtrBlock;
    }

    /** One round of the loop: at most up to the end of the block. */
    method UpdatePiece(input: seq<byte>, ghost p: Params, ghost a: seq<byte>, ghost m: seq<byte>, ghost ok: bool)
      returns (output: seq<byte>)
      requires Valid() && input != [] && (ok ==> InPayload(p, a, m) && (p.tagLen == 0 || |m| + |input| <= p.plainLen))
      modifies this`processed, y, ctr
      ensures Valid() && 0 < |output| <= |input|
      ensures ok ==> 7 <= |p.nonce| <= 13 && output == CryptAt(e, p.nonce, |m|, input[..|output|])
      ensures ok ==> InPayload(p, a, m + if Encrypts(mode) then input[..|output|] else output)
    {
      hide *;
      if ok {
        InPayloadFacts(p, a, m);
      }
      ghost var tagged, untagged := ok && p.tagLen > 0, ok && p.tagLen == 0;
      if tagged {
        PayloadFacts(p, a, m);
        FixedFacts(p, a);
      }
      if untagged {
        UntaggedFacts(p, a, m);
      }
      ValidFacts();
      var offset := processed % 16;
      var useLen := 16 - offset;
      if useLen > |input| {
        useLen := |input|;
      }
      processed := processed + useLen;
      var piece := input[..useLen];
      ghost var c := ctr[..];
      output := CryptPiece(offset, piece);
      var z := if Encrypts(mode) then piece else output;
      XorInto(offset, z);
      var full := useLen + offset == 16 || processed == plaintextLen;
      if full {
        CipherY();
      }
      if tagged {
        PieceIs(e, p, m, piece, output, c);
        PayloadStep(e, p, a, m, z);
      }
      if untagged {
        PieceIs(e, p.(plainLen := |m| + 1), m, piece, output, c);
      }
      if full {
        IncrementCounter(p.nonce, 1 + BlocksUsed(|m|, false), ok);
      }
      if tagged {
        CountBlocks(|m|, useLen, processed == plaintextLen);
        FixedFacts(p, a);
        PayloadIntro(p, a, m + z);
      }
      if untagged {
        CountBlocks(|m|, useLen, false);
        UntaggedIntro(p, a, m + z);
      }
    }

    lemma InPayloadFacts(p: Params, a: seq<byte>, m: seq<byte>)
      requires InPayload(p, a, m)
      ensures Valid() && 7 <= |p.nonce| <= 13 && IsBlockFunction(e) && !error && processed == |m|
      ensures tagLen == p.tagLen && plaintextLen == (if p.tagLen == 0 then 0 else p.plainLen) && q == 15 - |p.nonce|
      ensures p.tagLen > 0 ==> PayloadPhase(p, a, m)
    {
      hide Pow256, PayloadState, CtrBlock;
    }

    lemma UntaggedFacts(p: Params, a: seq<byte>, m: seq<byte>)
      requires InPayload(p, a, m) && p.tagLen == 0
      ensures |a| == p.adLen && UntaggedRest(p) && 7 <= |p.nonce| <= 13 && IsBlockFunction(e) && plaintextLen == 0 && q == 15 - |p.nonce|
      ensures ctr[..] == CtrBlock(p.nonce, 1 + BlocksUsed(|m|, false))
    {
      hide CtrBlock;
    }

    /** What UntaggedPayload says of the fields that stay as they are. */
    ghost predicate UntaggedRest(p: Params)
      reads this`plaintextLen, this`addLen, this`tagLen, this`q, this`started, this`lengthsSet, this`adFinished, this`error
    {
      && Valid() && 7 <= |p.nonce| <= 13 && started && lengthsSet && !error
      && tagLen == p.tagLen == 0 && plaintextLen == 0 && addLen == p.adLen && q == 15 - |p.nonce| && (p.adLen > 0 ==> adFinished)
    }

    lemma UntaggedIntro(p: Params, a: seq<byte>, m: seq<byte>)
      requires |a| == p.adLen && UntaggedRest(p) && processed == |m| && 7 <= |p.nonce| <= 13
      requires y.Length == ctr.Length == 16 && ctr[..] == CtrBlock(p.nonce, 1 + BlocksUsed(|m|, false))
      ensures InPayload(p, a, m)
    {
      hide CtrBlock;
    }

    lemma ValidFacts()
      requires Valid()
      ensures y.Length == ctr.Length == 16 && y != ctr && IsBlockFunction(e) && q <= 8
    {
    }

    /** mbedtls_ccm_finish. */
    method Finish(tagSize: nat, ghost p: Params, ghost a: seq<byte>, ghost m: seq<byte>) returns (ret: int, tag: seq<byte>)
      requires Valid() && tagSize <= 16
      modifies this, y, ctr
      ensures Valid() && mode == old(mode)
      ensures old(error) ==> ret == ERR_CORRUPTION_DETECTED
      ensures old(InAd(p, a)) && |a| < p.adLen ==> ret == ERR_BAD_INPUT
      ensures old(PayloadPhase(p, a, m)) && |m| < p.plainLen ==> ret == ERR_BAD_INPUT
      ensures old(PayloadPhase(p, a, m)) && |m| == p.plainLen ==> ret == 0 && tag == Tag(e, p, a, m)[..tagSize] && Clear()
      ensures old(PayloadPhase(p, a, m)) && |m| == p.plainLen ==> 7 <= |p.nonce| <= 13 && 4 <= p.tagLen <= 16 && IsTag(e, p, a, m, tag)
      ensures old(InPayload(p, a, m)) && p.tagLen == 0 ==> ret == 0 && |tag| == tagSize && Clear()
    {
      hide Mac, PayloadState, AdState, XorB, StartState, IsTag;
      tag := [];
      if error {
        return ERR_CORRUPTION_DETECTED, [];
      }
      if addLen > 0 && !adFinished {
        return ERR_BAD_INPUT, [];
      }
      if plaintextLen > 0 && processed != plaintextLen {
        return ERR_BAD_INPUT, [];
      }
      ghost var ok := PayloadPhase(p, a, m);
      ghost var t := y[..];
      if ok {
        StateIsMac(e, p, a, m);
      }
      ResetCounter(p.nonce, 1 + BlocksUsed(|m|, true), ok);
      var full := CryptPiece(0, y[..]);
      tag := full[..tagSize];
      if ok {
        assert full == XorS(t, e(CtrBlock(p.nonce, 0)));
        CutTag(e, p, a, m, tagSize);
      }
      ClearState();
      ret := 0;
    }

    /** The counter bytes of ctr set to zero. */
    method ResetCounter(ghost n: seq<byte>, ghost j: nat, ghost ok: bool)
      requires Valid() && (ok ==> 7 <= |n| <= 13 && q == 15 - |n| && ctr[..] == CtrBlock(n, j))
      modifies ctr
      ensures ok ==> ctr[..] == CtrBlock(n, 0)
    {
      hide Be;
      ghost var c := ctr[..];
      var i := 0;
      while i < q
        invariant 0 <= i <= q && ctr[..16 - q] == c[..16 - q] && forall k :: 16 - i <= k < 16 ==> ctr[k] == 0
      {
        ctr[15 - i] := 0;
        i := i + 1;
      }
      ZeroBe(q);
      if ok {
        assert c[..16 - q] == [14 - |n|] + n;
        assert ctr[..] == c[..16 - q] + Zeros(q);
      }
    }

    /** mbedtls_ccm_clear_state. */
    method ClearState()
      requires Valid()
      modifies this, y, ctr
      ensures Clear() && mode == old(mode)
    {
      started, lengthsSet, adStarted, adFinished, error := false, false, false, false, false;
      var i := 0;
      while i < 16
        invariant 0 <= i <= 16 && (forall k :: 0 <= k < i ==> y[k] == 0) && Valid()
        invariant !started && !lengthsSet && !adStarted && !adFinished && !error && mode == old(mode)
      {
        y[i] := 0;
        ctr[i] := 0;
        i := i + 1;
      }
      assert y[..] == Zeros(16);
    }

    /** ccm_auth_crypt on a clear context. */
    method AuthCrypt(mode: Mode, iv: seq<byte>, add: seq<byte>, input: seq<byte>, tagSize: nat) returns (ret: int, output: seq<byte>, tag: seq<byte>)
      requires Clear()
      modifies this, y, ctr
      ensures Valid()
      ensures ret == if ValidRequest(mode, iv, |add|, |input|, tagSize) then 0 else ERR_BAD_INPUT
      ensures ret == 0 ==> Clear() && 7 <= |iv| <= 13 && |tag| == tagSize && output == CryptAt(e, iv, 0, input)
      ensures ret == 0 && tagSize > 0 ==> 4 <= tagSize <= 16
      ensures ret == 0 && tagSize > 0 ==>
        tag == Tag(e, Params(iv, |add|, |input|, tagSize), add, if Encrypts(mode) then input else output)[..tagSize]
      ensures ret == 0 && tagSize > 0 ==>
        IsTag(e, Params(iv, |add|, |input|, tagSize), add, if Encrypts(mode) then input else output, tag)
    {
      hide Pow256, CtrBlock, FirstBlock, Tag, IsTag, CryptAt, AdPhase, PayloadPhase, UntaggedAd;
      output, tag := [], [];
      ghost var p := Params(iv, |add|, |input|, tagSize);
      ret := Starts(mode, iv);
      if ret != 0 {
        return;
      }
      ret := SetLengths(|add|, |input|, tagSize, iv);
      if ret != 0 {
        return;
      }
      ret, output, tag := AuthData(add, input, tagSize, p);
    }

    /** The data calls of ccm_auth_crypt. */
    method AuthData(add: seq<byte>, input: seq<byte>, tagSize: nat, ghost p: Params) returns (ret: int, output: seq<byte>, tag: seq<byte>)
      requires Valid() && InAd(p, []) && p.adLen == |add| && p.plainLen == |input| && p.tagLen == tagSize <= 16
      modifies this, y, ctr
      ensures Valid() && mode == old(mode) && ret == 0 && Clear() && 7 <= |p.nonce| <= 13
      ensures output == CryptAt(e, p.nonce, 0, input) && |tag| == tagSize
      ensures tagSize > 0 ==> 4 <= tagSize && tag == Tag(e, p, add, if Encrypts(mode) then input else output)[..tagSize]
      ensures tagSize > 0 ==> IsTag(e, p, add, if Encrypts(mode) then input else output, tag)
    {
      hide *;
      output, tag := [], [];
      ValidFacts();
      ret := UpdateAd(add, p, []);
      assert [] + add == add;
      if ret != 0 {
        return;
      }
      AdToPayload(p, add);
      InPayloadFacts(p, add, []);
      CryptLength(e, p.nonce, 0, input);
      ret, output := Update(input, |input|, p, add, []);
      if ret != 0 {
        return;
      }
      ghost var m := if Encrypts(mode) then input else output;
      assert [] + m == m;
      InPayloadFacts(p, add, m);
      if tagSize > 0 {
        PayloadFacts(p, add, m);
      }
      ret, tag := Finish(tagSize, p, add, m);
    }

    /** With the additional data complete, payload may arrive. */
    lemma AdToPayload(p: Params, a: seq<byte>)
      requires InAd(p, a) && |a| == p.adLen
      ensures InPayload(p, a, [])
    {
      hide Pow256, CtrBlock, AdState, XorAt;
      if p.tagLen > 0 {
        NothingAbsorbed(e, AdState(e, p, a));
      }
    }

    /** ccm_auth_decrypt on a clear context: the output is wiped when the tag does not match. */
    method AuthDecrypt(mode: Mode, iv: seq<byte>, add: seq<byte>, input: seq<byte>, tag: seq<byte>) returns (ret: int, output: seq<byte>)
      requires Clear() && !Encrypts(mode)
      modifies this, y, ctr
      ensures Valid()
      ensures !ValidRequest(mode, iv, |add|, |input|, |tag|) ==> ret == ERR_BAD_INPUT
      ensures ValidRequest(mode, iv, |add|, |input|, |tag|) ==> Clear() && 7 <= |iv| <= 13 && (|tag| > 0 ==> 4 <= |tag| <= 16)
      ensures ValidRequest(mode, iv, |add|, |input|, |tag|) ==>
        (if tag == [] || tag == Tag(e, Params(iv, |add|, |input|, |tag|), add, CryptAt(e, iv, 0, input))[..|tag|]
         then ret == 0 && output == CryptAt(e, iv, 0, input)
         else ret == ERR_AUTH_FAILED && output == Zeros(|input|))
    {
      hide Pow256, Tag, CryptAt;
      var check;
      ret, output, check := AuthCrypt(mode, iv, add, input, |tag|);
      if ret != 0 {
        return;
      }
      var same := CompareTags(tag, check);
      if !same {
        return ERR_AUTH_FAILED, Zeros(|output|);
      }
    }
  }

  /** The low i bytes of the counter have wrapped; the bytes above hold v and take the carry. */
  ghost predicate Carry(c: seq<byte>, n: seq<byte>, j: nat, v: nat, i: nat) {
    && 7 <= |n| <= 13 && i <= 15 - |n|
    && c == [14 - |n|] + n + Be(v, 15 - |n| - i) + Zeros(i)
    && Be(j + 1, 15 - |n|) == Be(v + 1, 15 - |n| - i) + Zeros(i)
  }

  lemma CounterStart(n: seq<byte>, j: nat, c: seq<byte>)
    requires 7 <= |n| <= 13 && c == CtrBlock(n, j)
    ensures Carry(c, n, j, j, 0)
  {
    hide Be;
    assert Be(j, 15 - |n|) + Zeros(0) == Be(j, 15 - |n|) && Be(j + 1, 15 - |n|) + Zeros(0) == Be(j + 1, 15 - |n|);
    assert [14 - |n|] + n + Be(j, 15 - |n|) + Zeros(0) == c;
  }

  lemma CarryStep(c: seq<byte>, n: seq<byte>, j: nat, v: nat, i: nat)
    requires Carry(c, n, j, v, i) && i < 15 - |n|
    ensures |c| == 16
    ensures Inc(c[15 - i]) != 0 ==> c[15 - i := Inc(c[15 - i])] == CtrBlock(n, j + 1)
    ensures Inc(c[15 - i]) == 0 ==> Carry(c[15 - i := Inc(c[15 - i])], n, j, v / 256, i + 1)
  {
    var k := 15 - |n| - i;
    BeNext(v, k);
    hide Be;
    var head := [14 - |n|] + n;
    assert c == (head + Be(v / 256, k - 1)) + [v % 256] + Zeros(i);
    assert |head + Be(v / 256, k - 1)| == 15 - i;
    var x := Inc(v % 256);
    var d := c[15 - i := x];
    assert d == (head + Be(v / 256, k - 1)) + [x] + Zeros(i);
    if x != 0 {
      assert d == head + (Be(v / 256, k - 1) + [x] + Zeros(i));
    } else {
      assert [0] + Zeros(i) == Zeros(i + 1);
      assert d == head + Be(v / 256, k - 1) + ([0] + Zeros(i));
      assert Be(v / 256 + 1, k - 1) + [0] + Zeros(i) == Be(v / 256 + 1, k - 1) + ([0] + Zeros(i));
    }
  }

  lemma CarryEnd(c: seq<byte>, n: seq<byte>, j: nat, v: nat)
    requires 7 <= |n| <= 13 && Carry(c, n, j, v, 15 - |n|)
    ensures c == CtrBlock(n, j + 1)
  {
    assert Be(v, 0) == [] && Be(v + 1, 0) == [];
    hide Be;
    assert [] + Zeros(15 - |n|) == Zeros(15 - |n|);
  }

  /** ((tag_len - 2) / 2) << 3 in a byte; an empty tag wraps to the highest value. */
  function TagFlag(tagLen: nat): byte {
    if tagLen >= 2 then (tagLen - 2) / 2 * 8 % 256 else 0xF8
  }

  /** Flags whose bits do not overlap add up. */
  lemma FlagParts(a: nat, t: nat, q: nat)
    requires a <= 1 && t <= 7 && q <= 7
    ensures OrB(OrB(OrB(0, 64 * a), 8 * t), q) == 64 * a + 8 * t + q
  {
    hide *;
    var high, mid: byte := 64 * a, 8 * t;
    OrBIsSum(0, high, 0, 0);
    OrBIsSum(high, mid, a, 6);
    OrBIsSum(high + mid, q, 8 * a + t, 3);
  }

  /** h in the bits above the lowest j, w below. */
  lemma OrBIsSum(x: byte, w: byte, h: nat, j: nat)
    requires (j == 0 && x == 0) || (j == 6 && x == 64 * h && h < 4 && w < 64) || (j == 3 && x == 8 * h && h < 32 && w < 8)
    ensures OrB(x, w) == x + w
  {
    EightBits();
    FourBits();
    if j == 0 {
      OrZero(w, 8);
    } else {
      OrSum(h, w, j, 8);
    }
    hide OrBits, TwoTo;
  }

  lemma FourBits()
    ensures TwoTo(2) == 4 && TwoTo(5) == 32
  {
  }

  lemma OneAtEnd(q: nat)
    requires q >= 2
    ensures Be(1, q) == Zeros(q - 1) + [1]
  {
    ZeroBe(q - 1);
  }

  lemma {:induction false} ZeroBe(q: nat)
    ensures Be(0, q) == Zeros(q)
  {
    if q > 0 {
      ZeroBe(q - 1);
    }
  }

  // ---- one call at a time ----

  /** The two length bytes start the additional data. */
  lemma AdBegins(e: BlockFunction, p: Params, was: seq<byte>, y: seq<byte>)
    requires IsBlockFunction(e) && 7 <= |p.nonce| <= 13 && 4 <= p.tagLen <= 16 && p.adLen < 0xFF00
    requires was == AdState(e, p, []) && y == XorAt(was, 0, [p.adLen / 256 % 256, p.adLen % 256])
    ensures y == Partial(e, StartState(e, p), Be(p.adLen, 2) + [])
  {
    TwoBytes(p.adLen);
    hide Be, XorAt;
    assert Be(p.adLen, 2) + [] == Be(p.adLen, 2);
  }

  lemma TwoBytes(n: nat)
    ensures Be(n, 2) == [n / 256 % 256, n % 256]
  {
    assert Be(n, 2) == Be(n / 256, 1) + [n % 256] && Be(n / 256, 1) == Be(n / 256 / 256, 0) + [n / 256 % 256];
    assert Be(n / 256 / 256, 0) == [];
  }

  lemma AdContinues(e: BlockFunction, p: Params, a: seq<byte>)
    requires IsBlockFunction(e) && 7 <= |p.nonce| <= 13 && 4 <= p.tagLen <= 16
    ensures a != [] && |a| < p.adLen ==> AdState(e, p, a) == Partial(e, StartState(e, p), Be(p.adLen, 2) + a)
  {
  }

  lemma AdStateIs(e: BlockFunction, p: Params, a: seq<byte>)
    requires IsBlockFunction(e) && 7 <= |p.nonce| <= 13 && 4 <= p.tagLen <= 16 && a != []
    ensures AdState(e, p, a) == MacState(e, StartState(e, p), Be(p.adLen, 2) + a, |a| == p.adLen)
  {
  }

  lemma CryptAppend(e: BlockFunction, n: seq<byte>, pos: nat, x: seq<byte>, z: seq<byte>)
    requires IsBlockFunction(e) && 7 <= |n| <= 13
    ensures CryptAt(e, n, pos, x + z) == CryptAt(e, n, pos, x) + CryptAt(e, n, pos + |x|, z)
  {
    hide KeyByte, XorB;
  }

  /** A piece within one block uses one counter block. */
  lemma PieceIs(e: BlockFunction, p: Params, m: seq<byte>, z: seq<byte>, out: seq<byte>, c: seq<byte>)
    requires IsBlockFunction(e) && 7 <= |p.nonce| <= 13 && |m| % 16 + |z| <= 16 && |out| == |z| && |m| < p.plainLen
    requires c == CtrBlock(p.nonce, 1 + BlocksUsed(|m|, |m| == p.plainLen))
    requires forall i :: 0 <= i < |z| ==> out[i] == XorB(z[i], e(c)[|m| % 16 + i])
    ensures out == CryptAt(e, p.nonce, |m|, z)
  {
    hide CtrBlock, XorB;
    forall i | 0 <= i < |z|
      ensures out[i] == XorB(z[i], KeyByte(e, p.nonce, |m| + i))
    {
      assert (|m| + i) / 16 == |m| / 16 && (|m| + i) % 16 == |m| % 16 + i;
    }
  }

  lemma PayloadStep(e: BlockFunction, p: Params, a: seq<byte>, m: seq<byte>, z: seq<byte>)
    requires IsBlockFunction(e) && 7 <= |p.nonce| <= 13 && 4 <= p.tagLen <= 16
    requires |m| % 16 + |z| <= 16 && z != [] && |m| + |z| <= p.plainLen
    ensures var w := XorAt(PayloadState(e, p, a, m), |m| % 16, z);
      PayloadState(e, p, a, m + z) == if |m| % 16 + |z| == 16 || |m| + |z| == p.plainLen then e(w) else w
  {
    hide XorAt, AdState;
    MacStep(e, AdState(e, p, a), m, z, |m + z| == p.plainLen);
  }

  lemma CountBlocks(n: nat, k: nat, complete: bool)
    requires k > 0 && n % 16 + k <= 16
    ensures BlocksUsed(n + k, complete) == BlocksUsed(n, false) + if n % 16 + k == 16 || complete then 1 else 0
  {
  }

  lemma CryptNothing(e: BlockFunction, n: seq<byte>, pos: nat)
    requires IsBlockFunction(e) && 7 <= |n| <= 13
    ensures CryptAt(e, n, pos, []) == []
  {
  }

  /** What set_lengths accepts: section A.1, and no tag for CCM*. */
  predicate LegalLengths(adLen: nat, tagLen: nat) {
    adLen < 0xFF00 && tagLen != 2 && tagLen <= 16 && tagLen % 2 == 0
  }

  /** The requests that the code accepts: without a tag only CCM*, whose payload then has no length limit. */
  ghost predicate ValidRequest(mode: Mode, iv: seq<byte>, adLen: nat, plainLen: nat, tagLen: nat) {
    7 <= |iv| <= 13 && if tagLen == 0 then Star(mode) && adLen < 0xFF00 else ValidParams(Params(iv, adLen, plainLen, tagLen))
  }

  lemma NothingAbsorbed(e: BlockFunction, y: seq<byte>)
    requires IsBlockFunction(e) && |y| == 16
    ensures MacState(e, y, [], true) == y && MacState(e, y, [], false) == y
  {
    XorAtNone(y);
  }

  /** The comparison looks at every byte. */
  method CompareTags(a: seq<byte>, b: seq<byte>) returns (same: bool)
    requires |a| == |b|
    ensures same <==> a == b
  {
    hide XorB, OrB;
    var diff: byte := 0;
    var i := 0;
    while i < |a|
      invariant 0 <= i <= |a| && (diff == 0 <==> a[..i] == b[..i])
    {
      XorBSame(a[i], b[i]);
      OrBZero(diff, XorB(a[i], b[i]));
      SamePrefix(a, b, i);
      diff := OrB(diff, XorB(a[i], b[i]));
      i := i + 1;
    }
    same := diff == 0;
    assert a[..|a|] == a && b[..|b|] == b;
  }

  lemma SamePrefix(a: seq<byte>, b: seq<byte>, i: nat)
    requires |a| == |b| && i < |a|
    ensures a[..i + 1] == b[..i + 1] <==> a[..i] == b[..i] && a[i] == b[i]
  {
    assert a[..i + 1] == a[..i] + [a[i]] && b[..i + 1] == b[..i] + [b[i]];
    if a[..i + 1] == b[..i + 1] {
      assert a[..i + 1][i] == b[..i + 1][i] && a[..i + 1][..i] == b[..i + 1][..i];
    }
  }

  /** The key stream applied twice gives the data back. */
  lemma CryptTwice(e: BlockFunction, n: seq<byte>, pos: nat, x: seq<byte>)
    requires IsBlockFunction(e) && 7 <= |n| <= 13
    ensures CryptAt(e, n, pos, CryptAt(e, n, pos, x)) == x
  {
    hide XorB, KeyByte;
    forall i | 0 <= i < |x|
      ensures CryptAt(e, n, pos, CryptAt(e, n, pos, x))[i] == x[i]
    {
      XorBTwice(x[i], KeyByte(e, n, pos + i));
    }
  }

  /** Decryption of an encrypted message accepts it and recovers the message, with or without a tag. */
  method RoundTrip(ctx: Context, star: bool, iv: seq<byte>, add: seq<byte>, m: seq<byte>, tagSize: nat)
    returns (ret: int, c: seq<byte>, tag: seq<byte>, out: seq<byte>)
    requires ctx.Clear() && ValidRequest(if star then STAR_ENCRYPT else ENCRYPT, iv, |add|, |m|, tagSize)
    modifies ctx, ctx.y, ctx.ctr
    ensures ret == 0 && out == m && |tag| == tagSize && |c| == |m| && ctx.Clear()
  {
    hide Pow256, Tag, CryptAt;
    ret, c, tag := ctx.AuthCrypt(if star then STAR_ENCRYPT else ENCRYPT, iv, add, m, tagSize);
    CryptTwice(ctx.e, iv, 0, m);
    ret, out := ctx.AuthDecrypt(if star then STAR_DECRYPT else DECRYPT, iv, add, c, tag);
  }

  lemma {:induction false} ConcatPrefix(xs: seq<seq<byte>>, i: nat)
    requires i <= |xs|
    ensures |Concat(xs[..i])| <= |Concat(xs)|
  {
    if i < |xs| {
      ConcatSnoc(xs, |xs| - 1);
      assert xs[..|xs|] == xs && xs[..|xs| - 1][..i] == xs[..i];
      ConcatPrefix(xs[..|xs| - 1], i);
    } else {
      assert xs[..i] == xs;
    }
  }

  /** Any split of additional data and payload, after starts and set_lengths in either order, gives the one-shot ciphertext and tag. */
  method AnySplit(ctx: Context, lengthsFirst: bool, mode: Mode, iv: seq<byte>, ads: seq<seq<byte>>, ins: seq<seq<byte>>, tagSize: nat)
    returns (ret: int, output: seq<byte>, tag: seq<byte>)
    requires ctx.Clear() && ValidRequest(mode, iv, |Concat(ads)|, |Concat(ins)|, tagSize)
    modifies ctx, ctx.y, ctx.ctr
    ensures ret == 0 && 7 <= |iv| <= 13 && ctx.Clear() && |tag| == tagSize
    ensures output == CryptAt(ctx.e, iv, 0, Concat(ins))
    ensures tagSize > 0 ==> 4 <= tagSize <= 16
    ensures tagSize > 0 ==>
      tag == Tag(ctx.e, Params(iv, |Concat(ads)|, |Concat(ins)|, tagSize), Concat(ads), if Encrypts(mode) then Concat(ins) else output)[..tagSize]
    ensures tagSize > 0 ==>
      IsTag(ctx.e, Params(iv, |Concat(ads)|, |Concat(ins)|, tagSize), Concat(ads), if Encrypts(mode) then Concat(ins) else output, tag)
  {
    hide Pow256, Tag, IsTag, CryptAt, CtrBlock, Concat;
    ghost var a, x := Concat(ads), Concat(ins);
    ghost var p := Params(iv, |a|, |x|, tagSize);
    var adLen := TotalLength(ads);
    var inLen := TotalLength(ins);
    ret := Begin(ctx, lengthsFirst, mode, iv, adLen, inLen, tagSize);
    ret := FeedAd(ctx, ads, p);
    ctx.AdToPayload(p, a);
    ret, output := FeedPayload(ctx, ins, p, a);
    ret, tag := ctx.Finish(tagSize, p, a, if Encrypts(mode) then x else output);
  }

  /** The two calls before the data, in either order. */
  method Begin(ctx: Context, lengthsFirst: bool, mode: Mode, iv: seq<byte>, adLen: nat, inLen: nat, tagSize: nat) returns (ret: int)
    requires ctx.Clear() && ValidRequest(mode, iv, adLen, inLen, tagSize)
    modifies ctx, ctx.y, ctx.ctr
    ensures ret == 0 && ctx.mode == mode && ctx.InAd(Params(iv, adLen, inLen, tagSize), [])
  {
    hide Pow256, Be, CtrBlock;
    if lengthsFirst {
      ret := ctx.SetLengths(adLen, inLen, tagSize, iv);
      ret := ctx.Starts(mode, iv);
    } else {
      ret := ctx.Starts(mode, iv);
      ret := ctx.SetLengths(adLen, inLen, tagSize, iv);
    }
  }

  method TotalLength(xs: seq<seq<byte>>) returns (n: nat)
    ensures n == |Concat(xs)|
  {
    n := 0;
    var i := 0;
    assert xs[..0] == [];
    while i < |xs|
      invariant 0 <= i <= |xs| && n == |Concat(xs[..i])|
    {
      ConcatSnoc(xs, i);
      n := n + |xs[i]|;
      i := i + 1;
    }
    assert xs[..|xs|] == xs;
  }

  method FeedAd(ctx: Context, ads: seq<seq<byte>>, ghost p: Params) returns (ret: int)
    requires ctx.InAd(p, []) && p.adLen == |Concat(ads)|
    modifies ctx`adStarted, ctx`adFinished, ctx`processed, ctx.y
    ensures ret == 0 && ctx.InAd(p, Concat(ads))
  {
    hide *;
    ret := 0;
    var i := 0;
    assert ads[..0] == [];
    ConcatNone();
    ValidOfAd(ctx, p, []);
    while i < |ads|
      invariant 0 <= i <= |ads| && ret == 0 && ctx.Valid() && ctx.InAd(p, Concat(ads[..i]))
    {
      ConcatSnoc(ads, i);
      ConcatPrefix(ads, i + 1);
      ret := ctx.UpdateAd(ads[i], p, Concat(ads[..i]));
      i := i + 1;
    }
    assert ads[..|ads|] == ads;
  }

  lemma ValidOfAd(ctx: Context, p: Params, a: seq<byte>)
    requires ctx.InAd(p, a)
    ensures ctx.Valid()
  {
  }

  lemma ValidOfPayload(ctx: Context, p: Params, a: seq<byte>, m: seq<byte>)
    requires ctx.InPayload(p, a, m)
    ensures ctx.Valid() && 7 <= |p.nonce| <= 13 && IsBlockFunction(ctx.e)
  {
    hide Pow256;
  }

  method FeedPayload(ctx: Context, ins: seq<seq<byte>>, ghost p: Params, ghost a: seq<byte>) returns (ret: int, output: seq<byte>)
    requires ctx.InPayload(p, a, []) && p.plainLen == |Concat(ins)|
    modifies ctx`processed, ctx.y, ctx.ctr
    ensures 7 <= |p.nonce| <= 13 && IsBlockFunction(ctx.e) && output == CryptAt(ctx.e, p.nonce, 0, Concat(ins))
    ensures ret == 0 && ctx.InPayload(p, a, if Encrypts(ctx.mode) then Concat(ins) else output)
  {
    hide *;
    ghost var m: seq<byte> := [];
    ret, output := 0, [];
    var i := 0;
    assert ins[..0] == [];
    ConcatNone();
    ValidOfPayload(ctx, p, a, []);
    CryptNothing(ctx.e, p.nonce, 0);
    while i < |ins|
      invariant 0 <= i <= |ins| && ret == 0 && ctx.Valid() && ctx.InPayload(p, a, m) && |m| == |Concat(ins[..i])|
      invariant m == (if Encrypts(ctx.mode) then Concat(ins[..i]) else output)
      invariant output == CryptAt(ctx.e, p.nonce, 0, Concat(ins[..i]))
    {
      ConcatSnoc(ins, i);
      ConcatPrefix(ins, i + 1);
      CryptAppend(ctx.e, p.nonce, 0, Concat(ins[..i]), ins[i]);
      CryptLength(ctx.e, p.nonce, |m|, ins[i]);
      var out;
      ret, out := ctx.Update(ins[i], |ins[i]|, p, a, m);
      output := output + out;
      m := m + if Encrypts(ctx.mode) then ins[i] else out;
      i := i + 1;
    }
    assert ins[..|ins|] == ins;
  }

  lemma CryptLength(e: BlockFunction, n: seq<byte>, pos: nat, x: seq<byte>)
    requires IsBlockFunction(e) && 7 <= |n| <= 13
    ensures |CryptAt(e, n, pos, x)| == |x|
  {
  }
}
