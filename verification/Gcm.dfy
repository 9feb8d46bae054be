/** AES-GCM encryption with two blocks at a time. */
module Gcm {
  import opened Bits
  import opened Blocks
  import opened Ghash

  // ---- counters ----

  function ByteVal(b: bv8): nat {
    b as nat
  }

  /** ++b, which wraps. */
  function Succ(b: bv8): bv8 {
    b + 1
  }

  /** A byte string as a number, most significant byte first. */
  function BeVal(s: seq<bv8>): nat {
    if s == [] then 0 else BeVal(s[..|s| - 1]) * 256 + ByteVal(s[|s| - 1])
  }

  function LowByteOf(n: nat): bv8 {
    (n % 256) as bv8
  }

  /** The k low bytes of a number. */
  function BeBytes(n: nat, k: nat): (s: seq<bv8>)
    ensures |s| == k
  {
    if k == 0 then [] else BeBytes(n / 256, k - 1) + [LowByteOf(n)]
  }

  /** inc_32 of NIST SP 800-38D, section 6.2. */
  function Inc32(y: seq<bv8>): (r: seq<bv8>)
    requires |y| == 16
    ensures |r| == 16
  {
    y[..12] + BeBytes(BeVal(y[12..]) + 1, 4)
  }

  function ZeroBytes(n: nat): (s: seq<bv8>)
    ensures |s| == n && forall i :: 0 <= i < n ==> s[i] == 0
  {
    seq(n, i => 0)
  }

  lemma IncByte(b: bv8)
    ensures Succ(b) != 0 ==> ByteVal(Succ(b)) == ByteVal(b) + 1
    ensures Succ(b) == 0 ==> ByteVal(b) == 255
    ensures ByteVal(b) < 256 && LowByteOf(ByteVal(b)) == b && ByteVal(0) == 0
  {
  }

  lemma {:induction false} BeRoundTrip(s: seq<bv8>)
    ensures BeBytes(BeVal(s), |s|) == s
  {
    hide ByteVal, LowByteOf;
    if s != [] {
      var n := |s| - 1;
      BeRoundTrip(s[..n]);
      BeSnoc(BeVal(s[..n]), s[n], n);
    }
  }

  lemma LowByte(h: nat, l: nat)
    requires l < 256
    ensures (h * 256 + l) / 256 == h && (h * 256 + l) % 256 == l
  {
  }

  /** Adding one: the last byte takes it. */
  lemma IncTakes(s: seq<bv8>, b: bv8)
    requires Succ(b) != 0
    ensures BeBytes(BeVal(s + [b]) + 1, |s| + 1) == s + [Succ(b)]
  {
    hide *;
    BeValSnoc(s, b);
    IncByte(b);
    BeRoundTrip(s);
    BeSnoc(BeVal(s), Succ(b), |s|);
  }

  /** Adding one: the last byte wraps to z = 0 and passes it on. */
  lemma IncWraps(s: seq<bv8>, h: nat, v: nat, b: bv8, z: bv8)
    requires ByteVal(b) == 255 && ByteVal(z) == 0 && h == BeVal(s) && v == BeVal(s + [b])
    ensures BeBytes(v + 1, |s| + 1) == BeBytes(h + 1, |s|) + [z]
  {
    hide *;
    BeValSnoc(s, b);
    WrapCarry(v, h, ByteVal(b));
    BeZero(h + 1, v + 1, z, |s|);
  }

  lemma WrapCarry(v: nat, h: nat, c: nat)
    requires v == h * 256 + c && c == 255
    ensures v + 1 == (h + 1) * 256
  {
  }

  lemma BeZero(h: nat, v: nat, z: bv8, k: nat)
    requires ByteVal(z) == 0 && v == h * 256
    ensures BeBytes(v, k + 1) == BeBytes(h, k) + [z]
  {
    hide *;
    BeSnoc(h, z, k);
  }

  lemma BeValSnoc(s: seq<bv8>, b: bv8)
    ensures BeVal(s + [b]) == BeVal(s) * 256 + ByteVal(b)
  {
    hide ByteVal;
    assert (s + [b])[..|s|] == s;
  }

  lemma BeSnoc(h: nat, b: bv8, k: nat)
    ensures BeBytes(h * 256 + ByteVal(b), k + 1) == BeBytes(h, k) + [b]
  {
    IncByte(b);
    LowByte(h, ByteVal(b));
    LowByteMod(h, ByteVal(b));
    hide ByteVal, LowByteOf;
  }

  lemma LowByteMod(h: nat, l: nat)
    requires l < 256
    ensures LowByteOf(h * 256 + l) == LowByteOf(l)
  {
    LowByte(h, l);
  }

  /** The bytes from i on have wrapped to zero; the rest is still to be incremented. */
  ghost predicate IncInv(cur: seq<bv8>, y0: seq<bv8>, i: nat) {
    && |cur| == |y0| == 16 && 12 <= i <= 16 && cur[..i] == y0[..i] && cur[i..] == ZeroBytes(16 - i)
    && Inc32(y0) == y0[..12] + BeBytes(BeVal(y0[12..i]) + 1, i - 12) + ZeroBytes(16 - i)
  }

  lemma IncStart(y0: seq<bv8>)
    requires |y0| == 16
    ensures IncInv(y0, y0, 16)
  {
    hide BeVal, BeBytes;
    assert y0[12..16] == y0[12..];
  }

  lemma IncStep(cur: seq<bv8>, y0: seq<bv8>, i: nat, next: seq<bv8>)
    requires IncInv(cur, y0, i) && i > 12 && next == cur[i - 1 := Succ(cur[i - 1])]
    ensures next[i - 1] != 0 ==> next == Inc32(y0)
    ensures next[i - 1] == 0 ==> IncInv(next, y0, i - 1)
  {
    hide BeVal, BeBytes, Inc32, Succ, ByteVal;
    var part, b := y0[12..i - 1], cur[i - 1];
    assert b == cur[..i][i - 1] == y0[i - 1];
    assert y0[12..i] == part + [b];
    IncByte(b);
    assert next[..i - 1] == y0[..i - 1] && next[i..] == cur[i..] && next[i - 1..] == [next[i - 1]] + next[i..];
    if next[i - 1] != 0 {
      IncTakes(part, b);
      FinishedIncrement(next, y0, part, Succ(b), i);
    } else {
      IncWraps(part, BeVal(part), BeVal(part + [b]), b, 0);
      ZeroAdded(16 - i);
      JoinZero(y0[..12], BeBytes(BeVal(part) + 1, i - 13), ZeroBytes(16 - i));
    }
  }

  lemma ZeroAdded(n: nat)
    ensures [0] + ZeroBytes(n) == ZeroBytes(n + 1)
  {
  }

  lemma FinishedIncrement(next: seq<bv8>, y0: seq<bv8>, part: seq<bv8>, b: bv8, i: nat)
    requires |next| == |y0| == 16 && 12 < i <= 16 && next[..i - 1] == y0[..i - 1] && part == y0[12..i - 1]
    requires next[i - 1..] == [b] + ZeroBytes(16 - i)
    ensures next == y0[..12] + (part + [b]) + ZeroBytes(16 - i)
  {
    assert next == next[..i - 1] + next[i - 1..];
    assert y0[..i - 1] == y0[..12] + part;
  }

  lemma JoinZero(a: seq<bv8>, b: seq<bv8>, z: seq<bv8>)
    ensures a + (b + [0]) + z == a + b + ([0] + z)
  {
  }

  lemma IncEnd(cur: seq<bv8>, y0: seq<bv8>)
    requires IncInv(cur, y0, 12)
    ensures cur == Inc32(y0)
  {
    NoBytes(BeVal(y0[12..12]) + 1);
    hide BeBytes, Inc32, BeVal;
    assert cur == cur[..12] + cur[12..];
  }

  /** gcm_incr: a byte-wise carry that stops at the first byte that does not wrap. */
  method GcmIncr(y: array<bv8>)
    requires y.Length == 16
    modifies y
    ensures y[..] == Inc32(old(y[..]))
  {
    hide *;
    ghost var y0 := y[..];
    var i := 16;
    IncStart(y0);
    while i > 12
      invariant 12 <= i <= 16 && IncInv(y[..], y0, i)
    {
      ghost var cur := y[..];
      y[i - 1] := Succ(y[i - 1]);
      IncStep(cur, y0, i, y[..]);
      if y[i - 1] != 0 {
        return;
      }
      i := i - 1;
    }
    IncEnd(y[..], y0);
  }

  lemma NoBytes(n: nat)
    ensures BeBytes(n, 0) == []
  {
  }

  // ---- GCTR: section 6.5 ----

  ghost function Gctr(e: Cipher, icb: seq<bv8>, x: seq<bv8>): (y: seq<bv8>)
    requires IsCipher(e) && |icb| == 16
    ensures |y| == |x|
    decreases |x|
  {
    if |x| <= 16 then XorBytes(x, e(icb)[..|x|])
    else XorBytes(x[..16], e(icb)) + Gctr(e, Inc32(icb), x[16..])
  }

  /** Applying the key stream twice gives the data back. */
  lemma {:induction false} GctrTwice(e: Cipher, icb: seq<bv8>, x: seq<bv8>)
    requires IsCipher(e) && |icb| == 16
    ensures Gctr(e, icb, Gctr(e, icb, x)) == x
    decreases |x|
  {
    hide Inc32;
    var y := Gctr(e, icb, x);
    if |x| <= 16 {
      XorBytesTwice(x, e(icb)[..|x|]);
    } else {
      GctrTwice(e, Inc32(icb), x[16..]);
      XorBytesTwice(x[..16], e(icb));
      assert y[..16] == XorBytes(x[..16], e(icb)) && y[16..] == Gctr(e, Inc32(icb), x[16..]);
    }
  }

  lemma XorBytesConcat(a: seq<bv8>, b: seq<bv8>, s: seq<bv8>, t: seq<bv8>)
    requires |a| == |s| && |b| == |t|
    ensures XorBytes(a + b, s + t) == XorBytes(a, s) + XorBytes(b, t)
  {
  }

  /** Two key-stream blocks serve any input of at most 32 bytes. */
  lemma GctrPair(e: Cipher, icb: seq<bv8>, x: seq<bv8>)
    requires IsCipher(e) && |icb| == 16 && |x| <= 32
    ensures Gctr(e, icb, x) == XorBytes(x, (e(icb) + e(Inc32(icb)))[..|x|])
  {
    hide Inc32;
    var s := e(icb) + e(Inc32(icb));
    if |x| <= 16 {
      assert s[..|x|] == e(icb)[..|x|];
    } else {
      assert s[..|x|] == e(icb) + e(Inc32(icb))[..|x| - 16];
      assert x == x[..16] + x[16..];
      XorBytesConcat(x[..16], x[16..], e(icb), e(Inc32(icb))[..|x| - 16]);
    }
  }

  /** Two key-stream blocks, then the rest. */
  lemma GctrSplit(e: Cipher, icb: seq<bv8>, x: seq<bv8>)
    requires IsCipher(e) && |icb| == 16 && |x| >= 32
    ensures Gctr(e, icb, x) == XorBytes(x[..32], e(icb) + e(Inc32(icb))) + Gctr(e, Inc32(Inc32(icb)), x[32..])
  {
    hide *;
    if |x| == 32 {
      GctrPair(e, icb, x);
      GctrLength(e, icb, x);
      PairLength(e, icb);
      assert (e(icb) + e(Inc32(icb)))[..32] == e(icb) + e(Inc32(icb));
      assert x[..32] == x && x[32..] == [];
      GctrNone(e, Inc32(Inc32(icb)));
    } else {
      var y := x[16..];
      PairLength(e, icb);
      PairLength(e, Inc32(icb));
      GctrFirst(e, icb, x);
      GctrFirst(e, Inc32(icb), y);
      assert y[..16] == x[16..32] && y[16..] == x[32..] && x[..32] == x[..16] + x[16..32];
      XorBytesConcat(x[..16], x[16..32], e(icb), e(Inc32(icb)));
      JoinThree(XorBytes(x[..16], e(icb)), XorBytes(x[16..32], e(Inc32(icb))), Gctr(e, Inc32(Inc32(icb)), x[32..]));
    }
  }

  lemma JoinThree(a: seq<bv8>, b: seq<bv8>, c: seq<bv8>)
    ensures a + (b + c) == a + b + c
  {
  }

  lemma GctrNone(e: Cipher, icb: seq<bv8>)
    requires IsCipher(e) && |icb| == 16
    ensures Gctr(e, icb, []) == []
  {
  }

  lemma GctrFirst(e: Cipher, icb: seq<bv8>, x: seq<bv8>)
    requires IsCipher(e) && |icb| == 16 && |x| > 16
    ensures |e(icb)| == 16 && |Inc32(icb)| == 16 && Gctr(e, icb, x) == XorBytes(x[..16], e(icb)) + Gctr(e, Inc32(icb), x[16..])
  {
    hide Inc32;
  }

  /** Two blocks with both counters, which then move on by two. */
  method TwoBlocks(e: Cipher, cnt0: array<bv8>, cnt1: array<bv8>, m: seq<bv8>, c: array<bv8>, pos: nat)
    requires IsCipher(e) && cnt0.Length == cnt1.Length == 16 && cnt0 != cnt1 && c != cnt0 && c != cnt1
    requires |m| == 32 && pos + 32 <= c.Length && cnt1[..] == Inc32(cnt0[..])
    modifies cnt0, cnt1, c
    ensures |Inc32(old(cnt0[..]))| == 16
    ensures cnt0[..] == Inc32(Inc32(old(cnt0[..]))) && cnt1[..] == Inc32(cnt0[..])
    ensures c[pos..pos + 32] == XorBytes(m, e(old(cnt0[..])) + e(Inc32(old(cnt0[..]))))
    ensures c[..pos] == old(c[..pos]) && c[pos + 32..] == old(c[pos + 32..])
  {
    hide *;
    var out := e(cnt0[..]) + e(cnt1[..]);
    PairLength(e, cnt0[..]);
    assert out[..32] == out;
    XorInto(c, pos, m, out, 32);
    GcmIncr(cnt0);
    GcmIncr(cnt0);
    GcmIncr(cnt1);
    GcmIncr(cnt1);
  }

  /** The paired-counter loop and its remainder. */
  method PairedCtr(e: Cipher, nonceBlock: seq<bv8>, m: seq<bv8>, c: array<bv8>)
    requires IsCipher(e) && |nonceBlock| == 16 && |m| <= c.Length
    modifies c
    ensures c[..|m|] == Gctr(e, nonceBlock, m) && c[|m|..] == old(c[|m|..])
  {
    hide *;
    var cnt0, cnt1 := new bv8[16], new bv8[16];
    CopyBlock(cnt0, nonceBlock);
    CopyBlock(cnt1, nonceBlock);
    GcmIncr(cnt1);
    var nBlocks := |m| / 16;
    var i, pos := 0, 0;
    assert m[0..] == m && c[..0] == [];
    GctrLength(e, nonceBlock, m);
    while i < nBlocks / 2
      invariant 0 <= i <= nBlocks / 2 && pos == 32 * i && pos <= |m| && cnt0 != cnt1
      invariant cnt1[..] == Inc32(cnt0[..]) && fresh(cnt0) && fresh(cnt1)
      invariant Gctr(e, nonceBlock, m) == c[..pos] + Gctr(e, cnt0[..], m[pos..]) && c[|m|..] == old(c[|m|..])
    {
      PairLength(e, cnt0[..]);
      PairStep(e, nonceBlock, m, c[..pos], cnt0[..], pos);
      ghost var s := c[..];
      TwoBlocks(e, cnt0, cnt1, m[pos..pos + 32], c, pos);
      assert c[..pos + 32] == c[..pos] + c[pos..pos + 32];
      TailKept(s, c[..], pos + 32, |m|);
      i, pos := i + 1, pos + 32;
    }
    LastBytes(e, cnt0, cnt1, m[pos..], c, pos);
    assert c[..|m|] == c[..pos] + c[pos..|m|];
  }

  /** Less than two blocks are left: as many key-stream bytes as needed. */
  method LastBytes(e: Cipher, cnt0: array<bv8>, cnt1: array<bv8>, m: seq<bv8>, c: array<bv8>, pos: nat)
    requires IsCipher(e) && cnt0.Length == cnt1.Length == 16 && c != cnt0 && c != cnt1
    requires |m| <= 32 && pos + |m| <= c.Length && cnt1[..] == Inc32(cnt0[..])
    modifies c
    ensures c[pos..pos + |m|] == Gctr(e, cnt0[..], m) && c[..pos] == old(c[..pos]) && c[pos + |m|..] == old(c[pos + |m|..])
  {
    hide *;
    var out := e(cnt0[..]) + e(cnt1[..]);
    PairLength(e, cnt0[..]);
    GctrPair(e, cnt0[..], m);
    XorInto(c, pos, m, out, |m|);
  }

  lemma TailKept(s: seq<bv8>, s': seq<bv8>, i: nat, n: nat)
    requires |s| == |s'| && i <= n <= |s| && s[i..] == s'[i..]
    ensures s[n..] == s'[n..]
  {
    assert s[i..][n - i..] == s[n..] && s'[i..][n - i..] == s'[n..];
  }

  /** The invariant of the paired loop over one more pair. */
  lemma PairStep(e: Cipher, icb: seq<bv8>, m: seq<bv8>, done: seq<bv8>, k: seq<bv8>, pos: nat)
    requires IsCipher(e) && |icb| == |k| == 16 && pos + 32 <= |m|
    requires Gctr(e, icb, m) == done + Gctr(e, k, m[pos..])
    ensures |Inc32(k)| == 16 && |e(k)| == 16 && |e(Inc32(k))| == 16 && |Inc32(Inc32(k))| == 16
    ensures Gctr(e, icb, m) == done + XorBytes(m[pos..pos + 32], e(k) + e(Inc32(k))) + Gctr(e, Inc32(Inc32(k)), m[pos + 32..])
  {
    hide *;
    PairLength(e, k);
    PairLength(e, Inc32(k));
    var rest := m[pos..];
    assert rest[..32] == m[pos..pos + 32] && rest[32..] == m[pos + 32..];
    GctrSplit(e, k, rest);
    JoinThree(done, XorBytes(m[pos..pos + 32], e(k) + e(Inc32(k))), Gctr(e, Inc32(Inc32(k)), m[pos + 32..]));
  }

  lemma GctrLength(e: Cipher, icb: seq<bv8>, x: seq<bv8>)
    requires IsCipher(e) && |icb| == 16
    ensures |Gctr(e, icb, x)| == |x|
  {
  }

  lemma PairLength(e: Cipher, k: seq<bv8>)
    requires IsCipher(e) && |k| == 16
    ensures |Inc32(k)| == 16 && |e(k)| == 16 && |e(Inc32(k))| == 16
  {
  }

  method CopyBlock(a: array<bv8>, s: seq<bv8>)
    requires a.Length == |s|
    modifies a
    ensures a[..] == s
  {
    var i := 0;
    while i < |s|
      invariant 0 <= i <= |s| && a[..i] == s[..i]
    {
      a[i] := s[i];
      i := i + 1;
    }
  }

  /** c[pos + j] = m[j] ^ out[j] for the first n bytes. */
  method XorInto(c: array<bv8>, pos: nat, m: seq<bv8>, out: seq<bv8>, n: nat)
    requires |m| == n <= |out| && pos + n <= c.Length
    modifies c
    ensures c[pos..pos + n] == XorBytes(m, out[..n]) && c[..pos] == old(c[..pos]) && c[pos + n..] == old(c[pos + n..])
  {
    ghost var r := XorBytes(m, out[..n]);
    var j := 0;
    while j < n
      invariant 0 <= j <= n && c[pos..pos + j] == r[..j] && c[..pos] == old(c[..pos]) && c[pos + n..] == old(c[pos + n..])
    {
      ghost var done := c[pos..pos + j];
      c[pos + j] := m[j] ^ out[j];
      assert c[pos..pos + (j + 1)] == done + [r[j]];
      j := j + 1;
    }
  }

  // ---- the authentication tag: section 7.1 ----

  /** The blocks of a byte string, the last one padded with zeros. */
  function BlocksOf(x: seq<bv8>): (bs: seq<seq<bool>>)
    ensures forall i :: 0 <= i < |bs| ==> |bs[i]| == 128
    decreases |x|
  {
    if x == [] then []
    else if |x| < 16 then [Flat(x + ZeroBytes(16 - |x|))]
    else [Flat(x[..16])] + BlocksOf(x[16..])
  }

  /** Bit lengths of the additional data and the ciphertext, 64 bits each. */
  function LengthBlock(adlen: nat, clen: nat): (b: seq<bv8>)
    ensures |b| == 16
  {
    BeBytes(8 * adlen, 8) + BeBytes(8 * clen, 8)
  }

  /** J0 for a 96-bit nonce. */
  function FirstCounter(nonce: seq<bv8>): (j: seq<bv8>)
    requires |nonce| == 12
    ensures |j| == 16
  {
    nonce + [0, 0, 0, 1]
  }

  ghost function HashInput(ad: seq<bv8>, c: seq<bv8>): (xs: seq<seq<bool>>)
    ensures forall i :: 0 <= i < |xs| ==> |xs[i]| == 128
  {
    BlocksOf(ad) + BlocksOf(c) + [Flat(LengthBlock(|ad|, |c|))]
  }

  /** The tag of GCM-AE. */
  ghost function Tag(e: Cipher, nonce: seq<bv8>, ad: seq<bv8>, c: seq<bv8>): (t: seq<bv8>)
    requires IsCipher(e) && |nonce| == 12
    ensures |t| == 16
  {
    var h := Flat(e(ZeroBytes(16)));
    XorBytes(Unflat(GHash(h, HashInput(ad, c))), e(FirstCounter(nonce)))
  }

  /** The ciphertext of GCM-AE. */
  ghost function Ciphertext(e: Cipher, nonce: seq<bv8>, m: seq<bv8>): (c: seq<bv8>)
    requires IsCipher(e) && |nonce| == 12
    ensures |c| == |m|
  {
    Gctr(e, Inc32(FirstCounter(nonce)), m)
  }

  // ---- the same byte by byte ----

  /** Four bytes hold a number, most significant byte first. */
  lemma FourBytesValue(n: nat)
    requires n < 0x1_0000_0000
    ensures var s := BeBytes(n, 4);
      s[0] as nat * 0x100_0000 + s[1] as nat * 0x1_0000 + s[2] as nat * 0x100 + s[3] as nat == n
  {
    PutUint32Is(n);
    LowByteVal(n);
    LowByteVal(n / 0x100);
    LowByteVal(n / 0x1_0000);
    LowByteVal(n / 0x100_0000);
    hide BeBytes, LowByteOf;
    FourDigits(n);
  }

  lemma FourDigits(n: nat)
    requires n < 0x1_0000_0000
    ensures n / 0x100_0000 % 256 * 0x100_0000 + n / 0x1_0000 % 256 * 0x1_0000 + n / 0x100 % 256 * 0x100 + n % 256 == n
  {
  }

  /** Adding one to the bytes of n gives the bytes of n + 1, also where they wrap. */
  lemma {:induction false} NextBytes(n: nat, k: nat)
    ensures BeBytes(BeVal(BeBytes(n, k)) + 1, k) == BeBytes(n + 1, k)
  {
    hide *;
    if k == 0 {
      NoBytes(BeVal(BeBytes(n, 0)) + 1);
      NoBytes(n + 1);
    } else {
      OneByte(n, k - 1);
      OneByte(n + 1, k - 1);
      NextBytes(n / 256, k - 1);
      NextLowByte(n);
      AddOne(BeBytes(n / 256, k - 1), LowByteOf(n));
    }
  }

  /** One more byte: it takes the one, or wraps and passes it on. */
  lemma AddOne(s: seq<bv8>, b: bv8)
    ensures Succ(b) != 0 ==> BeBytes(BeVal(s + [b]) + 1, |s| + 1) == s + [Succ(b)]
    ensures Succ(b) == 0 ==> BeBytes(BeVal(s + [b]) + 1, |s| + 1) == BeBytes(BeVal(s) + 1, |s|) + [0]
  {
    hide *;
    IncByte(b);
    if Succ(b) == 0 {
      IncWraps(s, BeVal(s), BeVal(s + [b]), b, 0);
    } else {
      IncTakes(s, b);
    }
  }

  lemma NextLowByte(n: nat)
    ensures Succ(LowByteOf(n)) == LowByteOf(n + 1)
    ensures (n + 1) / 256 == n / 256 + if Succ(LowByteOf(n)) == 0 then 1 else 0
  {
    hide *;
    var b := LowByteOf(n);
    LowByteVal(n);
    IncByte(b);
    IncByte(Succ(b));
    Increment(n);
    if Succ(b) == 0 {
      SameLowByte(n + 1, 0);
    } else {
      SameLowByte(n + 1, ByteVal(Succ(b)));
    }
  }

  lemma LowByteVal(n: nat)
    ensures ByteVal(LowByteOf(n)) == n % 256
  {
    hide *;
    LowByteOfSmall(n % 256);
    SameLowByte(n, n % 256);
  }

  lemma {:induction false} LowByteOfSmall(r: nat)
    requires r < 256
    ensures ByteVal(LowByteOf(r)) == r
  {
    hide *;
    IncByte(LowByteOf(0));
    ZeroByte();
    if r > 0 {
      LowByteOfSmall(r - 1);
      IncByte(LowByteOf(r - 1));
      IncByte(Succ(LowByteOf(r - 1)));
    }
  }

  lemma ZeroByte()
    ensures ByteVal(LowByteOf(0)) == 0
  {
  }

  lemma SameLowByte(m: nat, n: nat)
    requires m % 256 == n % 256
    ensures LowByteOf(m) == LowByteOf(n)
  {
  }

  lemma Increment(n: nat)
    ensures if n % 256 == 255 then (n + 1) % 256 == 0 && (n + 1) / 256 == n / 256 + 1
            else (n + 1) % 256 == n % 256 + 1 && (n + 1) / 256 == n / 256
  {
  }

  lemma NextCounter(nonce: seq<bv8>, n: nat)
    requires |nonce| == 12
    ensures |nonce + BeBytes(n, 4)| == 16 && Inc32(nonce + BeBytes(n, 4)) == nonce + BeBytes(n + 1, 4)
  {
    hide BeBytes, BeVal;
    var y := nonce + BeBytes(n, 4);
    assert y[..12] == nonce && y[12..] == BeBytes(n, 4);
    NextBytes(n, 4);
  }

  /** Byte i of the output comes from counter block n + i / 16. */
  lemma {:induction false} GctrByte(e: Cipher, nonce: seq<bv8>, n: nat, x: seq<bv8>, i: nat)
    requires IsCipher(e) && |nonce| == 12 && i < |x|
    ensures |nonce + BeBytes(n, 4)| == |nonce + BeBytes(n + i / 16, 4)| == |e(nonce + BeBytes(n + i / 16, 4))| == 16
    ensures Gctr(e, nonce + BeBytes(n, 4), x)[i] == x[i] ^ e(nonce + BeBytes(n + i / 16, 4))[i % 16]
    decreases |x|
  {
    hide BeBytes, Inc32;
    NextCounter(nonce, n);
    if |x| > 16 {
      if i >= 16 {
        GctrByte(e, nonce, n + 1, x[16..], i - 16);
        assert n + 1 + (i - 16) / 16 == n + i / 16 && (i - 16) % 16 == i % 16;
      }
    }
  }

  /** The number in four bytes. */
  lemma FourBytesNumber(s: seq<bv8>)
    requires |s| == 4
    ensures BeVal(s) == ByteVal(s[0]) * 0x100_0000 + ByteVal(s[1]) * 0x1_0000 + ByteVal(s[2]) * 0x100 + ByteVal(s[3])
  {
    hide *;
    var t := s[..3];
    BeValSnoc(t, s[3]);
    BeValSnoc(t[..2], t[2]);
    BeValSnoc(t[..1], t[1]);
    BeValSnoc([], t[0]);
    NoValue();
    assert s == t + [s[3]] && t == t[..2] + [t[2]] && t[..2] == t[..1] + [t[1]] && t[..1] == [] + [t[0]];
  }

  lemma NoValue()
    ensures BeVal([]) == 0
  {
  }

  lemma FirstCounterIs(nonce: seq<bv8>)
    requires |nonce| == 12
    ensures FirstCounter(nonce) == nonce + BeBytes(1, 4)
  {
    PutUint32Is(1);
    hide BeBytes;
  }

  /** Byte i of the ciphertext: the counters of the message start at 2. */
  lemma CiphertextByte(e: Cipher, nonce: seq<bv8>, m: seq<bv8>, i: nat)
    requires IsCipher(e) && |nonce| == 12 && i < |m|
    ensures |e(nonce + BeBytes(2 + i / 16, 4))| == 16
    ensures Ciphertext(e, nonce, m)[i] == m[i] ^ e(nonce + BeBytes(2 + i / 16, 4))[i % 16]
  {
    hide BeBytes, Gctr, FirstCounter, Inc32, IsCipher;
    FirstCounterIs(nonce);
    NextCounter(nonce, 1);
    GctrByte(e, nonce, 2, m, i);
  }

  /** Taking the mask of counter 1 off the tag leaves GHASH, under the encrypted zero block, of the hash input. */
  lemma TagUnmasked(e: Cipher, nonce: seq<bv8>, ad: seq<bv8>, c: seq<bv8>)
    requires IsCipher(e) && |nonce| == 12
    ensures |e(nonce + BeBytes(1, 4))| == |e(ZeroBytes(16))| == 16
    ensures Flat(XorBytes(Tag(e, nonce, ad, c), e(nonce + BeBytes(1, 4)))) == GHash(Flat(e(ZeroBytes(16))), HashInput(ad, c))
  {
    hide BeBytes, FirstCounter, GHash, HashInput, Flat, Unflat, XorBytes;
    FirstCounterIs(nonce);
    var y := GHash(Flat(e(ZeroBytes(16))), HashInput(ad, c));
    FlatUnflat(y);
    XorBytesTwice(Unflat(y), e(FirstCounter(nonce)));
  }

  /** The blocks one after the other. */
  function Joined(xs: seq<seq<bool>>): seq<bool> {
    if xs == [] then [] else xs[0] + Joined(xs[1..])
  }

  lemma {:induction false} JoinedAppend(xs: seq<seq<bool>>, ys: seq<seq<bool>>)
    ensures Joined(xs + ys) == Joined(xs) + Joined(ys)
  {
    if xs == [] {
      assert xs + ys == ys;
    } else {
      JoinedAppend(xs[1..], ys);
      assert (xs + ys)[1..] == xs[1..] + ys;
      SeqAssoc(xs[0], Joined(xs[1..]), Joined(ys));
    }
  }

  /** How many zeros complete the last block. */
  function Missing(n: nat): nat {
    if n % 16 == 0 then 0 else 16 - n % 16
  }

  lemma {:induction false} JoinedBlocks(x: seq<bv8>)
    ensures Joined(BlocksOf(x)) == Flat(x + ZeroBytes(Missing(|x|)))
    decreases |x|
  {
    hide Flat;
    if x == [] {
      FlatNone();
      assert x + ZeroBytes(0) == [];
    } else if |x| < 16 {
      JoinedOne(Flat(x + ZeroBytes(16 - |x|)));
    } else {
      JoinedBlocks(x[16..]);
      assert BlocksOf(x) == [Flat(x[..16])] + BlocksOf(x[16..]);
      assert Missing(|x[16..]|) == Missing(|x|);
      hide *;
      HeadAndTail(x, ZeroBytes(Missing(|x|)));
      FlatAppend(x[..16], x[16..] + ZeroBytes(Missing(|x|)));
      JoinedAppend([Flat(x[..16])], BlocksOf(x[16..]));
      JoinedOne(Flat(x[..16]));
    }
  }

  lemma HeadAndTail(x: seq<bv8>, z: seq<bv8>)
    requires |x| >= 16
    ensures x + z == x[..16] + (x[16..] + z)
  {
  }

  lemma JoinedOne(b: seq<bool>)
    ensures Joined([b]) == b
  {
    assert Joined([b][1..]) == [];
  }

  /** What is hashed, in order: additional data and ciphertext, each with zeros up to a block, and both lengths in bits. */
  lemma HashInputBytes(ad: seq<bv8>, c: seq<bv8>)
    ensures Joined(HashInput(ad, c))
      == Flat(ad + ZeroBytes(Missing(|ad|)) + (c + ZeroBytes(Missing(|c|))) + (BeBytes(8 * |ad|, 8) + BeBytes(8 * |c|, 8)))
  {
    hide *;
    var a, d, l := ad + ZeroBytes(Missing(|ad|)), c + ZeroBytes(Missing(|c|)), LengthBlock(|ad|, |c|);
    HashInputIs(ad, c);
    LengthBlockIs(|ad|, |c|);
    JoinedBlocks(ad);
    JoinedBlocks(c);
    JoinedOne(Flat(l));
    JoinedAppend(BlocksOf(ad) + BlocksOf(c), [Flat(l)]);
    JoinedAppend(BlocksOf(ad), BlocksOf(c));
    FlatAppend(a, d);
    FlatAppend(a + d, l);
  }

  lemma {:induction false} BlocksOfSplit(x: seq<bv8>, n: nat)
    requires n % 16 == 0 && n <= |x|
    ensures BlocksOf(x) == BlocksOf(x[..n]) + BlocksOf(x[n..])
    decreases |x|
  {
    if n == 0 {
      assert x[..0] == [] && x[0..] == x;
    } else {
      BlocksOfSplit(x[16..], n - 16);
      assert x[16..][..n - 16] == x[..n][16..] && x[16..][n - 16..] == x[n..] && x[..n][..16] == x[..16];
    }
  }

  lemma BlocksOfOne(x: seq<bv8>)
    ensures |x| == 16 ==> BlocksOf(x) == [Flat(x)]
    ensures 0 < |x| < 16 ==> BlocksOf(x) == [Flat(x + ZeroBytes(16 - |x|))]
  {
    if |x| == 16 {
      assert x[..16] == x && x[16..] == [];
    }
  }

  /** All blocks of a byte string into the hash, the last one padded. */
  method HashData(g: GhashContext, x: seq<bv8>)
    requires g.Valid()
    modifies g, g.buf
    ensures g.Valid() && g.xs == old(g.xs) + BlocksOf(x)
  {
    hide Flat, GHash, IsTable;
    ghost var xs0 := g.xs;
    if |x| > 0 {
      var blocks := |x| / 16;
      var i, pos := 0, 0;
      assert x[..0] == [];
      while i < blocks
        invariant 0 <= i <= blocks && pos == 16 * i <= |x| && g.Valid() && g.xs == xs0 + BlocksOf(x[..pos])
      {
        BlocksOfSplit(x[..pos + 16], pos);
        assert x[..pos + 16][..pos] == x[..pos] && x[..pos + 16][pos..] == x[pos..pos + 16];
        BlocksOfOne(x[pos..pos + 16]);
        hide BlocksOf;
        g.ProcessBlock(x[pos..pos + 16]);
        i, pos := i + 1, pos + 16;
      }
      BlocksOfSplit(x, pos);
      if |x| % 16 != 0 {
        BlocksOfOne(x[pos..]);
        var buf := x[pos..] + ZeroBytes(16 - |x| % 16);
        g.ProcessBlock(buf);
      } else {
        assert x[pos..] == [];
      }
    }
  }

  /** PUT_UINT32_BE of the high and the low word of a 64-bit length. */
  function PutLength(n: nat): (s: seq<bv8>)
    ensures |s| == 8
  {
    PutUint32(n / 0x1_0000_0000) + PutUint32(n)
  }

  function PutUint32(n: nat): (s: seq<bv8>)
    ensures |s| == 4
  {
    [LowByteOf(n / 0x100_0000), LowByteOf(n / 0x1_0000), LowByteOf(n / 0x100), LowByteOf(n)]
  }

  lemma PutUint32Is(n: nat)
    ensures PutUint32(n) == BeBytes(n, 4)
  {
    Quotients(n);
    OneByte(n, 3);
    OneByte(n / 256, 2);
    OneByte(n / 256 / 256, 1);
    OneByte(n / 256 / 256 / 256, 0);
    hide BeBytes, LowByteOf;
  }

  lemma OneByte(n: nat, k: nat)
    ensures n / 256 >= 0 && BeBytes(n, k + 1) == BeBytes(n / 256, k) + [LowByteOf(n)]
    ensures BeBytes(n, 0) == []
  {
    hide LowByteOf;
  }

  lemma Quotients(n: nat)
    ensures n / 256 / 256 == n / 0x1_0000 && n / 256 / 256 / 256 == n / 0x100_0000 && n / 256 / 256 / 256 / 256 == n / 0x1_0000_0000
  {
  }

  lemma PutLengthIs(n: nat)
    ensures PutLength(n) == BeBytes(n, 8)
  {
    PutUint32Is(n);
    PutUint32Is(n / 0x1_0000_0000);
    Quotients(n);
    hide PutUint32;
    EightBytes(n);
  }

  lemma EightBytes(n: nat)
    ensures n / 256 / 256 / 256 / 256 >= 0
    ensures BeBytes(n, 8) == BeBytes(n / 256 / 256 / 256 / 256, 4) + BeBytes(n, 4)
  {
    BytesSplit(n, 4, 4);
    Four(n);
  }

  /** n divided by 256 k times. */
  function Drop(n: nat, k: nat): nat {
    if k == 0 then n else Drop(n / 256, k - 1)
  }

  lemma Four(n: nat)
    ensures Drop(n, 4) == n / 256 / 256 / 256 / 256
  {
    assert Drop(n, 4) == Drop(n / 256, 3) && Drop(n / 256, 3) == Drop(n / 256 / 256, 2);
    assert Drop(n / 256 / 256, 2) == Drop(n / 256 / 256 / 256, 1);
  }

  lemma {:induction false} BytesSplit(n: nat, j: nat, k: nat)
    ensures BeBytes(n, j + k) == BeBytes(Drop(n, k), j) + BeBytes(n, k)
  {
    if k > 0 {
      BytesSplit(n / 256, j, k - 1);
    }
  }

  /** aes_gcm_128_encrypt: the ciphertext and tag of GCM-AE under a 96-bit nonce. */
  method AesGcm128Encrypt(e: Cipher, c: array<bv8>, m: seq<bv8>, ad: seq<bv8>, npub: seq<bv8>) returns (tag: seq<bv8>)
    requires IsCipher(e) && |npub| == 12 && |m| <= c.Length
    modifies c
    ensures c[..|m|] == Ciphertext(e, npub, m)
    ensures tag == Tag(e, npub, ad, c[..|m|])
    ensures forall i :: 0 <= i < |m| ==> |e(npub + BeBytes(2 + i / 16, 4))| == 16 && c[i] == m[i] ^ e(npub + BeBytes(2 + i / 16, 4))[i % 16]
    ensures |e(npub + BeBytes(1, 4))| == |tag| == 16
    ensures Flat(XorBytes(tag, e(npub + BeBytes(1, 4)))) == GHash(Flat(e(ZeroBytes(16))), HashInput(ad, c[..|m|]))
    ensures c[|m|..] == old(c[|m|..])
  {
    hide *;
    var j0 := FirstCounter(npub);
    var hashKey, tagMask := e(ZeroBytes(16)), e(j0);
    BlockLengths(e, npub);
    PairedCtr(e, Inc32(j0), m, c);
    CiphertextIs(e, npub, m);
    var ghash := new GhashContext(hashKey);
    HashData(ghash, ad);
    HashData(ghash, c[..|m|]);
    PutLengthIs(8 * |ad|);
    PutLengthIs(8 * |m|);
    LengthBlockIs(|ad|, |m|);
    ghash.ProcessBlock(PutLength(8 * |ad|) + PutLength(8 * |m|));
    var buf := ghash.Finalize();
    UnflatFlat(buf);
    HashInputIs(ad, c[..|m|]);
    assert [] + BlocksOf(ad) == BlocksOf(ad);
    tag := XorBytes(buf, tagMask);
    TagIs(e, npub, ad, c[..|m|], buf);
    TagUnmasked(e, npub, ad, c[..|m|]);
    forall i | 0 <= i < |m|
      ensures |e(npub + BeBytes(2 + i / 16, 4))| == 16 && c[i] == m[i] ^ e(npub + BeBytes(2 + i / 16, 4))[i % 16]
    {
      CiphertextByte(e, npub, m, i);
      assert c[i] == c[..|m|][i];
    }
  }

  lemma BlockLengths(e: Cipher, nonce: seq<bv8>)
    requires IsCipher(e) && |nonce| == 12
    ensures |FirstCounter(nonce)| == 16 && |e(ZeroBytes(16))| == 16 && |e(FirstCounter(nonce))| == 16 && |Inc32(FirstCounter(nonce))| == 16
    ensures |Flat(e(ZeroBytes(16)))| == 128
  {
  }

  lemma CiphertextIs(e: Cipher, nonce: seq<bv8>, m: seq<bv8>)
    requires IsCipher(e) && |nonce| == 12
    ensures |Inc32(FirstCounter(nonce))| == 16 && Ciphertext(e, nonce, m) == Gctr(e, Inc32(FirstCounter(nonce)), m)
    ensures |Ciphertext(e, nonce, m)| == |m|
  {
  }

  lemma LengthBlockIs(a: nat, c: nat)
    ensures LengthBlock(a, c) == BeBytes(8 * a, 8) + BeBytes(8 * c, 8) && |LengthBlock(a, c)| == 16
  {
  }

  lemma HashInputIs(ad: seq<bv8>, c: seq<bv8>)
    ensures HashInput(ad, c) == BlocksOf(ad) + BlocksOf(c) + [Flat(LengthBlock(|ad|, |c|))]
  {
  }

  lemma TagIs(e: Cipher, nonce: seq<bv8>, ad: seq<bv8>, c: seq<bv8>, buf: seq<bv8>)
    requires IsCipher(e) && |nonce| == 12 && |buf| == 16
    requires |Flat(e(ZeroBytes(16)))| == 128 && (forall i :: 0 <= i < |HashInput(ad, c)| ==> |HashInput(ad, c)[i]| == 128)
    requires buf == Unflat(GHash(Flat(e(ZeroBytes(16))), HashInput(ad, c)))
    requires |e(FirstCounter(nonce))| == 16
    ensures XorBytes(buf, e(FirstCounter(nonce))) == Tag(e, nonce, ad, c)
  {
    hide GHash, HashInput, Flat, Unflat, XorBytes, FirstCounter;
  }
}
