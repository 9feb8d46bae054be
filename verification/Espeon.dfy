/** Espeon: tweaks from the last ciphertext blocks, in the 384 and the 256 bit variant. */
module Espeon {
  import Arith
  import opened Bytes
  import opened ForkAead
  import opened Wrappers

  const MAX_AD_LENGTH := 1048576

  datatype Variant = V384 | V256

  function NonceSize(v: Variant): nat {
    if v == V384 then 16 else 13
  }

  // ---- tweaks; the tweakey is the tweak followed by the key ----

  /** The tweak of the first message block. */
  function FirstTweak(v: Variant, npub: seq<byte>): (r: seq<byte>)
    requires |npub| == NonceSize(v)
    ensures |r| == if v == V384 then 32 else 16
  {
    if v == V384 then npub + Zeros(14) + [4, 0] else npub + [0, 0, 1]
  }

  /** The tweak after ciphertext cs: its last block, then the block before or the nonce. */
  function TweakAfter(v: Variant, npub: seq<byte>, cs: seq<byte>): (r: seq<byte>)
    requires |npub| == NonceSize(v)
    ensures |r| == if v == V384 then 32 else 16
  {
    if |cs| < 16 then FirstTweak(v, npub)
    else if v == V256 then cs[|cs| - 16..|cs| - 1] + [1]
    else cs[|cs| - 16..] + (if |cs| < 32 then npub[..15] else cs[|cs| - 32..|cs| - 17]) + [1]
  }

  /** The last block marks its tweak with 2 if it is whole and 3 if it is padded. */
  function Marked(tweak: seq<byte>, complete: bool): (r: seq<byte>)
    requires |tweak| > 0
    ensures |r| == |tweak|
  {
    tweak[|tweak| - 1 := if complete then 2 else 3]
  }

  function EspeonScheme(v: Variant, k: seq<byte>, npub: seq<byte>): (s: Scheme)
    requires |npub| == NonceSize(v)
    ensures s.block == 16 && s.mixFirst && !s.sumCiphertext
  {
    Scheme(16, cs => TweakAfter(v, npub, cs) + k, (cs, complete) => Marked(TweakAfter(v, npub, cs), complete) + k, true, false)
  }

  // ---- additional data ----

  function AdCounter(i: nat): seq<byte> {
    [(i + 4) / 256 % 256, (i + 4) % 256, 0]
  }

  /** The code's last counter bytes: the conditional binds weaker than the sum. */
  function AdLastCounter(noM: bool, complete: bool): (r: seq<byte>)
    ensures |r| == 3
  {
    [0, if (if noM then 4 else 0) + (if complete then 1 else 0) != 0 then 0 else 0xc, 0]
  }

  lemma AdCountersRepeat(i: nat, j: nat)
    ensures AdCounter(i) == AdCounter(j) <==> (i + 4) % 65536 == (j + 4) % 65536
    ensures AdCounter(i) == AdLastCounter(true, true) <==> (i + 4) % 65536 == 0
    ensures AdCounter(i) == AdLastCounter(false, false) <==> (i + 4) % 65536 == 12
  {
    SixteenBits(i + 4);
    SixteenBits(j + 4);
  }

  /** Two bytes hold a 16-bit counter. */
  lemma SixteenBits(a: nat)
    ensures a % 65536 == a / 256 % 256 * 256 + a % 256
  {
    Arith.DivMod(a, 256);
    Arith.DivMod(a / 256, 256);
    Arith.DivModUnique(a, 65536, a / 256 / 256, a / 256 % 256 * 256 + a % 256);
  }

  /** Within the limit no two whole blocks of additional data share a counter; that of the last block comes up at one place:
    * where the 16-bit counter wraps to 0, or at block 8 for padded data before a message. */
  lemma AdCounters(n: nat, mLen: nat, i: nat, j: nat)
    requires Accepted(n, mLen) && n > 0 && i < WholeBlocks(n, 16) && j < WholeBlocks(n, 16)
    ensures AdCounter(i) == AdCounter(j) <==> i == j
    ensures AdCounter(i) == AdLastCounter(mLen == 0, n % 16 == 0) <==> i == if mLen == 0 || n % 16 == 0 then 65532 else 8
  {
    hide AdCounter;
    AdCountersRepeat(i, j);
    assert i <= 65534 && j <= 65534;
  }

  /** Lengths at which it does: 145 bytes before a message, and near the limit, which is 2^16 blocks. */
  lemma SharedCounters()
    ensures Accepted(65536 * 16, 0) && !Accepted(65536 * 16 + 1, 0)
    ensures Accepted(145, 1) && 8 < WholeBlocks(145, 16) && AdCounter(8) == AdLastCounter(false, 145 % 16 == 0)
    ensures Accepted(1048544, 0) && 65532 < WholeBlocks(1048544, 16) && AdCounter(65532) == AdLastCounter(true, 1048544 % 16 == 0)
  {
  }

  /** The last counter does not tell four cases apart but two: no message or whole data, and padded data before a message. */
  lemma AdLastCountersMerge(n1: bool, c1: bool, n2: bool, c2: bool)
    ensures AdLastCounter(n1, c1) == AdLastCounter(n2, c2) <==> ((n1 || c1) == (n2 || c2))
  {
    assert AdLastCounter(n1, c1)[1] == if n1 || c1 then 0 else 0xc;
    assert AdLastCounter(n2, c2)[1] == if n2 || c2 then 0 else 0xc;
  }

  /** Counter and nonce: two tweakey parts, or one that they share. */
  function WithNonce(v: Variant, npub: seq<byte>, counter: seq<byte>): seq<byte> {
    if v == V384 then Zeros(13) + counter + npub else npub + counter
  }

  function AdTweak(v: Variant, k: seq<byte>, npub: seq<byte>): nat -> seq<byte> {
    (i: nat) => WithNonce(v, npub, AdCounter(i)) + k
  }

  function AdLastTweak(v: Variant, k: seq<byte>, npub: seq<byte>, noM: bool): bool -> seq<byte> {
    (complete: bool) => WithNonce(v, npub, AdLastCounter(noM, complete)) + k
  }

  // ---- tweaks of additional data against those of a message ----

  lemma TweakParts(npub: seq<byte>, x: seq<byte>)
    requires |npub| == 16 && |x| == 3
    ensures var w := WithNonce(V384, npub, x); |w| == 32 && w[..16] == Zeros(13) + x && w[16..] == npub && w[31] == npub[15]
  {
  }

  lemma HalvesAgree(a: seq<byte>, b: seq<byte>)
    requires |a| == |b| == 32
    ensures a == b <==> a[..16] == b[..16] && a[16..] == b[16..]
  {
    assert a == a[..16] + a[16..] && b == b[..16] + b[16..];
  }

  /** In the 256-bit variant no counter block of additional data is the tweak of a message block. */
  lemma AdTweaksApart256(npub: seq<byte>, x: seq<byte>, cs: seq<byte>, complete: bool)
    requires |npub| == 13 && |x| == 3 && x[2] == 0
    ensures WithNonce(V256, npub, x) != TweakAfter(V256, npub, cs)
    ensures WithNonce(V256, npub, x) != Marked(TweakAfter(V256, npub, cs), complete)
  {
    assert WithNonce(V256, npub, x)[15] == 0 && TweakAfter(V256, npub, cs)[15] == 1;
  }

  /** In the 384-bit variant one is that of the first block for one nonce and counter 4 alone. */
  lemma AdTweakIsFirst384(npub: seq<byte>, x: seq<byte>, complete: bool)
    requires |npub| == 16 && |x| == 3 && x[2] == 0
    ensures WithNonce(V384, npub, x) == FirstTweak(V384, npub) <==> npub == Zeros(14) + [4, 0] && x == [0, 4, 0]
    ensures WithNonce(V384, npub, x) != Marked(FirstTweak(V384, npub), complete)
  {
    var w, t, z := WithNonce(V384, npub, x), FirstTweak(V384, npub), Zeros(14) + [4, 0];
    TweakParts(npub, x);
    HalvesAgree(w, t);
    assert t[..16] == npub && t[16..] == z;
    assert z[..13] == Zeros(13) && z[13..] == [0, 4, 0];
    assert (Zeros(13) + x)[..13] == Zeros(13) && (Zeros(13) + x)[13..] == x;
    var m := Marked(t, complete);
    assert m[..16] == npub && m[31] != 0 && w[..16][15] == 0;
  }

  /** And that of a later block exactly if the ciphertext spells the counter and the nonce. */
  lemma AdTweakIsLater384(npub: seq<byte>, x: seq<byte>, cs: seq<byte>, complete: bool)
    requires |npub| == 16 && |x| == 3 && |cs| >= 16
    ensures WithNonce(V384, npub, x) == TweakAfter(V384, npub, cs) <==> SpelledOut(npub, x, cs) && npub[15] == 1
    ensures WithNonce(V384, npub, x) == Marked(TweakAfter(V384, npub, cs), complete)
      <==> SpelledOut(npub, x, cs) && npub[15] == if complete then 2 else 3
  {
    var w, t := WithNonce(V384, npub, x), TweakAfter(V384, npub, cs);
    var before := if |cs| < 32 then npub[..15] else cs[|cs| - 32..|cs| - 17];
    TweakParts(npub, x);
    assert npub == npub[..15] + [npub[15]];
    LastByte(w, t, cs[|cs| - 16..], before, 1, npub, x);
    var m := Marked(t, complete);
    assert m == cs[|cs| - 16..] + before + [if complete then 2 else 3];
    LastByte(w, m, cs[|cs| - 16..], before, if complete then 2 else 3, npub, x);
  }

  /** The last ciphertext block is the counter block, and the one before it starts like the nonce. */
  predicate SpelledOut(npub: seq<byte>, x: seq<byte>, cs: seq<byte>)
    requires |npub| == 16 && |cs| >= 16
  {
    cs[|cs| - 16..] == Zeros(13) + x && (|cs| >= 32 ==> cs[|cs| - 32..|cs| - 17] == npub[..15])
  }

  lemma LastByte(w: seq<byte>, t: seq<byte>, last: seq<byte>, before: seq<byte>, mark: byte, npub: seq<byte>, x: seq<byte>)
    requires |npub| == 16 && |x| == 3 && |last| == 16 && |before| == 15 && t == last + before + [mark]
    requires |w| == 32 && w[..16] == Zeros(13) + x && w[16..] == npub
    ensures w == t <==> last == Zeros(13) + x && before == npub[..15] && npub[15] == mark
  {
    HalvesAgree(w, t);
    assert t[..16] == last && t[16..] == before + [mark];
    assert npub == npub[..15] + [npub[15]];
    assert (before + [mark])[..15] == before && (before + [mark])[15] == mark;
  }

  lemma SameKey(a: seq<byte>, b: seq<byte>, k: seq<byte>)
    ensures a + k == b + k <==> a == b
  {
    if |a| == |b| {
      assert (a + k)[..|a|] == a && (b + k)[..|b|] == b;
    }
  }

  /** The tweakey of a block of additional data is that of the first message block exactly in the 384-bit variant,
    * under one nonce, for the block with counter 4. */
  lemma AdTweakIsFirst(v: Variant, k: seq<byte>, npub: seq<byte>, i: nat)
    requires |npub| == NonceSize(v)
    ensures AdTweak(v, k, npub)(i) == FirstTweak(v, npub) + k <==> v == V384 && npub == Zeros(14) + [4, 0] && i % 65536 == 0
  {
    hide FirstTweak, WithNonce;
    var x := AdCounter(i);
    SameKey(WithNonce(v, npub, x), FirstTweak(v, npub), k);
    SixteenBits(i + 4);
    if v == V384 {
      AdTweakIsFirst384(npub, x, true);
      assert x == [0, 4, 0] <==> (i + 4) % 65536 == 4;
    } else {
      TweakStart(v, npub);
      AdTweaksApart256(npub, x, [], true);
    }
  }

  /** In the 256-bit variant no tweakey of additional data, whole or last, ever is one of a message. */
  lemma AdTweakeysApart(k: seq<byte>, npub: seq<byte>, i: nat, noM: bool, whole: bool, cs: seq<byte>, complete: bool)
    requires |npub| == NonceSize(V256)
    ensures var s := EspeonScheme(V256, k, npub);
      AdTweak(V256, k, npub)(i) != s.tweak(cs) && AdTweak(V256, k, npub)(i) != s.last(cs, complete)
      && AdLastTweak(V256, k, npub, noM)(whole) != s.tweak(cs) && AdLastTweak(V256, k, npub, noM)(whole) != s.last(cs, complete)
  {
    hide TweakAfter, WithNonce, Marked;
    SchemeIs(V256, k, npub, cs);
    TweakLength(V256, npub, cs);
    var x, y, t := AdCounter(i), AdLastCounter(noM, whole), TweakAfter(V256, npub, cs);
    AdTweaksApart256(npub, x, cs, complete);
    AdTweaksApart256(npub, y, cs, complete);
    SameKey(WithNonce(V256, npub, x), t, k);
    SameKey(WithNonce(V256, npub, y), t, k);
    SameKey(WithNonce(V256, npub, x), Marked(t, complete), k);
    SameKey(WithNonce(V256, npub, y), Marked(t, complete), k);
  }

  // ---- the tweakeys byte by byte ----

  /** The tweakey of additional data: nonce, counter n in two bytes, a zero byte and the key. */
  predicate HasCounter(v: Variant, t: seq<byte>, npub: seq<byte>, k: seq<byte>, n: nat)
    requires |npub| == NonceSize(v)
  {
    && |t| == (if v == V384 then 32 else 16) + |k| && t[13] as nat * 256 + t[14] == n && t[15] == 0
    && if v == V384 then t[..13] == Zeros(13) && t[16..32] == npub && t[32..] == k
       else t[..13] == npub && t[16..] == k
  }

  lemma HasCounterIntro(v: Variant, npub: seq<byte>, k: seq<byte>, x: seq<byte>)
    requires |npub| == NonceSize(v) && |x| == 3 && x[2] == 0
    ensures HasCounter(v, WithNonce(v, npub, x) + k, npub, k, x[0] as nat * 256 + x[1])
  {
    var t := WithNonce(v, npub, x) + k;
    if v == V384 {
      assert t == Zeros(13) + (x + (npub + k)) && t[13..] == x + (npub + k);
    } else {
      assert t[13..] == x + k;
    }
  }

  /** Block i of additional data is driven by counter i + 4 in 16 bits. */
  lemma AdTweakIs(v: Variant, k: seq<byte>, npub: seq<byte>, i: nat)
    requires |npub| == NonceSize(v)
    ensures HasCounter(v, AdTweak(v, k, npub)(i), npub, k, (i + 4) % 65536)
  {
    SixteenBits(i + 4);
    hide HasCounter, WithNonce;
    HasCounterIntro(v, npub, k, AdCounter(i));
  }

  lemma AdLastTweakIs(v: Variant, k: seq<byte>, npub: seq<byte>, noM: bool, complete: bool)
    requires |npub| == NonceSize(v)
    ensures HasCounter(v, AdLastTweak(v, k, npub, noM)(complete), npub, k, if noM || complete then 0 else 12)
  {
    hide HasCounter, WithNonce;
    HasCounterIntro(v, npub, k, AdLastCounter(noM, complete));
  }

  lemma CountersDecide(v: Variant, t: seq<byte>, u: seq<byte>, npub: seq<byte>, k: seq<byte>, m: nat, n: nat)
    requires |npub| == NonceSize(v) && HasCounter(v, t, npub, k, m) && HasCounter(v, u, npub, k, n)
    ensures t == u <==> m == n
  {
    if m == n {
      assert t[13..16] == [t[13], t[14], t[15]] && u[13..16] == [u[13], u[14], u[15]];
      if v == V384 {
        assert t == t[..13] + t[13..16] + t[16..32] + t[32..] && u == u[..13] + u[13..16] + u[16..32] + u[32..];
      } else {
        assert t == t[..13] + t[13..16] + t[16..] && u == u[..13] + u[13..16] + u[16..];
      }
    }
  }

  lemma Below(a: nat)
    requires a < 131072
    ensures a % 65536 == if a < 65536 then a else a - 65536
  {
  }

  lemma WithinLimit(n: nat, mLen: nat)
    requires Accepted(n, mLen) && n > 0
    ensures WholeBlocks(n, 16) <= 65535
  {
  }

  /** Two whole blocks of accepted additional data have different tweakeys, and none has that of the last block but one. */
  lemma AdTweakeys(v: Variant, k: seq<byte>, npub: seq<byte>, n: nat, mLen: nat, i: nat, j: nat)
    requires |npub| == NonceSize(v) && Accepted(n, mLen) && n > 0 && i < WholeBlocks(n, 16) && j < WholeBlocks(n, 16)
    ensures AdTweak(v, k, npub)(i) == AdTweak(v, k, npub)(j) <==> i == j
    ensures AdTweak(v, k, npub)(i) == AdLastTweak(v, k, npub, mLen == 0)(n % 16 == 0)
      <==> i == if mLen == 0 || n % 16 == 0 then 65532 else 8
  {
    WithinLimit(n, mLen);
    hide *;
    AdTweakIs(v, k, npub, i);
    AdTweakIs(v, k, npub, j);
    AdLastTweakIs(v, k, npub, mLen == 0, n % 16 == 0);
    var t := AdTweak(v, k, npub)(i);
    CountersDecide(v, t, AdTweak(v, k, npub)(j), npub, k, (i + 4) % 65536, (j + 4) % 65536);
    Below(i + 4);
    Below(j + 4);
    CountersDecide(v, t, AdLastTweak(v, k, npub, mLen == 0)(n % 16 == 0), npub, k, (i + 4) % 65536,
                   if mLen == 0 || n % 16 == 0 then 0 else 12);
  }

  /** The tweakey of the first message block: the nonce, and a constant that marks it. */
  lemma FirstTweakIs(v: Variant, k: seq<byte>, npub: seq<byte>)
    requires |npub| == NonceSize(v)
    ensures var t := EspeonScheme(v, k, npub).tweak([]);
      if v == V384 then |t| == 32 + |k| && t[..16] == npub && t[16..30] == Zeros(14) && t[30] == 4 && t[31] == 0 && t[32..] == k
      else |t| == 16 + |k| && t[..13] == npub && t[13] == 0 && t[14] == 0 && t[15] == 1 && t[16..] == k
  {
    var t := FirstTweak(v, npub);
    if v == V384 {
      assert t[..16] == npub && t[16..30] == Zeros(14);
      assert (t + k)[..16] == npub && (t + k)[16..30] == t[16..30] && (t + k)[32..] == k;
    } else {
      assert (t + k)[..13] == npub && (t + k)[16..] == k;
    }
  }

  /** That of a later one: the last ciphertext block, in the 384-bit variant also the one before it or the nonce, and a 1. */
  lemma LaterTweakIs(v: Variant, k: seq<byte>, npub: seq<byte>, cs: seq<byte>)
    requires |npub| == NonceSize(v) && |cs| >= 16
    ensures var (t, n) := (EspeonScheme(v, k, npub).tweak(cs), |cs|);
      if v == V256 then |t| == 16 + |k| && t[..15] == cs[n - 16..n - 1] && t[15] == 1 && t[16..] == k
      else |t| == 32 + |k| && t[..16] == cs[n - 16..] && t[16..31] == (if n < 32 then npub[..15] else cs[n - 32..n - 17])
           && t[31] == 1 && t[32..] == k
  {
    var t, n := TweakAfter(v, npub, cs), |cs|;
    if v == V256 {
      assert (t + k)[..15] == t[..15] && (t + k)[16..] == k;
    } else {
      assert t[..16] == cs[n - 16..] && t[16..31] == (if n < 32 then npub[..15] else cs[n - 32..n - 17]);
      assert (t + k)[..16] == t[..16] && (t + k)[16..31] == t[16..31] && (t + k)[32..] == k;
    }
  }

  /** That of the last block has 2 or 3 for the last tweak byte and is the same otherwise. */
  lemma LastTweakIs(v: Variant, k: seq<byte>, npub: seq<byte>, cs: seq<byte>, complete: bool)
    requires |npub| == NonceSize(v)
    ensures var (t, u, at) := (EspeonScheme(v, k, npub).last(cs, complete), EspeonScheme(v, k, npub).tweak(cs), if v == V384 then 31 else 15);
      |t| == |u| == at + 1 + |k| && t[..at] == u[..at] && t[at] == (if complete then 2 else 3) && t[at + 1..] == u[at + 1..]
  {
    hide TweakAfter;
    TweakLength(v, npub, cs);
    var w, at := TweakAfter(v, npub, cs), if v == V384 then 31 else 15;
    var m := Marked(w, complete);
    assert (m + k)[..at] == m[..at] && (w + k)[..at] == w[..at] && (m + k)[at + 1..] == k == (w + k)[at + 1..];
  }

  ghost function Checksum(v: Variant, f: Fork, k: seq<byte>, npub: seq<byte>, ad: seq<byte>, noM: bool): (ta: seq<byte>)
    requires IsFork(f, 16)
    ensures |ta| == 16
  {
    if ad == [] then Zeros(16)
    else AdFrom(f, 16, AdTweak(v, k, npub), AdLastTweak(v, k, npub, noM), 0, Zeros(16), ad)
  }

  // ---- encryption and decryption ----

  predicate Accepted(adLen: nat, mLen: nat) {
    adLen <= MAX_AD_LENGTH && (adLen > 0 || mLen > 0)
  }

  ghost function EncSpec(v: Variant, f: Fork, k: seq<byte>, npub: seq<byte>, ad: seq<byte>, m: seq<byte>): Option<(seq<byte>, seq<byte>)>
    requires IsFork(f, 16) && |npub| == NonceSize(v)
  {
    if !Accepted(|ad|, |m|) then None
    else Some(Encrypt(EspeonScheme(v, k, npub), f, Checksum(v, f, k, npub, ad, m == []), m))
  }

  ghost function DecSpec(v: Variant, f: Fork, k: seq<byte>, npub: seq<byte>, ad: seq<byte>, c: seq<byte>, tag: seq<byte>): Option<seq<byte>>
    requires IsFork(f, 16) && |npub| == NonceSize(v) && |tag| == 16
  {
    if !Accepted(|ad|, |c|) then None
    else Decrypt(EspeonScheme(v, k, npub), f, Checksum(v, f, k, npub, ad, c == []), c, tag)
  }

  /** Decryption accepts and returns m exactly when encryption of m gives this ciphertext and tag. */
  lemma DecryptsIffEncrypts(v: Variant, f: Fork, k: seq<byte>, npub: seq<byte>, ad: seq<byte>, m: seq<byte>, c: seq<byte>, tag: seq<byte>)
    requires IsFork(f, 16) && |npub| == NonceSize(v) && |tag| == 16
    ensures DecSpec(v, f, k, npub, ad, c, tag) == Some(m) <==> EncSpec(v, f, k, npub, ad, m) == Some((c, tag))
  {
    hide Checksum, Encrypt, Decrypt, IsFork;
    if |m| == |c| {
      DecryptIffEncrypt(EspeonScheme(v, k, npub), f, Checksum(v, f, k, npub, ad, c == []), m, c, tag);
    }
  }

  /** Padded data has a tweak of its own exactly if there is a message. */
  lemma PaddingHasItsTweak(v: Variant, k: seq<byte>, npub: seq<byte>, noM: bool)
    ensures AdLastTweak(v, k, npub, noM)(false) != AdLastTweak(v, k, npub, noM)(true) <==> !noM
  {
    hide AdLastCounter;
    AdLastCountersMerge(noM, false, noM, true);
    var x, y := AdLastCounter(noM, false), AdLastCounter(noM, true);
    CounterOf(v, k, npub, x);
    CounterOf(v, k, npub, y);
  }

  lemma CounterOf(v: Variant, k: seq<byte>, npub: seq<byte>, x: seq<byte>)
    ensures var at := if v == V384 then 13 else |npub|; (WithNonce(v, npub, x) + k)[at..][..|x|] == x
  {
    if v == V384 {
      assert (WithNonce(v, npub, x) + k)[13..] == x + npub + k;
    } else {
      assert (WithNonce(v, npub, x) + k)[|npub|..] == x + k;
    }
  }

  /** What that does to the mode: without a message, incomplete data and the same data with its padding written out
    * are both accepted and get the same tag. */
  lemma PaddingWithoutMessage(v: Variant, f: Fork, k: seq<byte>, npub: seq<byte>, ad: seq<byte>)
    requires IsFork(f, 16) && |npub| == NonceSize(v) && |ad| <= MAX_AD_LENGTH && |ad| % 16 != 0
    ensures Completed(ad, 16) != ad && EncSpec(v, f, k, npub, ad, []).Some?
    ensures EncSpec(v, f, k, npub, Completed(ad, 16), []) == EncSpec(v, f, k, npub, ad, [])
  {
    hide AdFrom, IsFork, AdTweak, AdLastTweak;
    PaddingHasItsTweak(v, k, npub, true);
    AdFromCompleted(f, 16, AdTweak(v, k, npub), AdLastTweak(v, k, npub, true), 0, Zeros(16), ad);
  }

  /** One byte of additional data and no message. */
  lemma OneByteAndItsPadding(v: Variant, f: Fork, k: seq<byte>, npub: seq<byte>, x: byte)
    requires IsFork(f, 16) && |npub| == NonceSize(v)
    ensures EncSpec(v, f, k, npub, [x], []).Some?
    ensures EncSpec(v, f, k, npub, [x, 0x80] + Zeros(14), []) == EncSpec(v, f, k, npub, [x], [])
  {
    hide EncSpec, IsFork;
    PaddingWithoutMessage(v, f, k, npub, [x]);
    assert Completed([x], 16) == [x, 0x80] + Zeros(14);
  }

  /** After a block: the tweak's bytes are overwritten with that block and the one before or the nonce. */
  method Chain(v: Variant, npub: seq<byte>, first: bool, tweak: seq<byte>, y: seq<byte>, before: seq<byte>) returns (r: seq<byte>)
    requires |npub| == NonceSize(v) && |tweak| == (if v == V384 then 32 else 16) && |y| == 16 && (first || |before| == 16)
    ensures r == if v == V256 then y[..15] + tweak[15..] else if first then y + npub[..15] + [1] else y + before[..15] + tweak[31..]
  {
    if v == V256 {
      r := y[..15] + tweak[15..];
    } else if first {
      r := y + npub[..15] + tweak[31..];
      r := r[31 := 1];
    } else {
      r := y + before[..15] + tweak[31..];
    }
  }

  /** What Chain builds is the tweak after one more block. */
  lemma ChainIs(v: Variant, npub: seq<byte>, cs: seq<byte>, y: seq<byte>, tweak: seq<byte>, r: seq<byte>)
    requires |npub| == NonceSize(v) && |y| == 16 && (cs == [] || |cs| >= 16) && tweak == TweakAfter(v, npub, cs)
    requires v == V256 ==> r == y[..15] + tweak[15..]
    requires v == V384 && cs == [] ==> r == y + npub[..15] + [1]
    requires v == V384 && cs != [] ==> r == y + cs[|cs| - 16..][..15] + tweak[31..]
    ensures r == TweakAfter(v, npub, cs + y)
  {
    var d := cs + y;
    assert d[|d| - 16..] == y;
    if v == V256 {
      assert tweak[15..] == [1];
      assert d[|d| - 16..|d| - 1] == y[..15];
    } else if cs != [] {
      assert tweak[31..] == [1];
      assert d[|d| - 32..|d| - 17] == cs[|cs| - 16..][..15];
    }
  }

  lemma SchemeIs(v: Variant, k: seq<byte>, npub: seq<byte>, cs: seq<byte>)
    requires |npub| == NonceSize(v)
    ensures EspeonScheme(v, k, npub).tweak(cs) == TweakAfter(v, npub, cs) + k
    ensures forall complete: bool :: EspeonScheme(v, k, npub).last(cs, complete) == Marked(TweakAfter(v, npub, cs), complete) + k
    ensures Mixed(EspeonScheme(v, k, npub), cs) <==> cs == []
  {
    hide TweakAfter, Marked;
  }

  /** The tweak never is empty. */
  lemma TweakLength(v: Variant, npub: seq<byte>, cs: seq<byte>)
    requires |npub| == NonceSize(v)
    ensures |TweakAfter(v, npub, cs)| == if v == V384 then 32 else 16
  {
  }

  /** The encrypt function: 1 for unsupported lengths, else 0 with ciphertext and tag. */
  method Enc(v: Variant, f: Fork, k: seq<byte>, npub: seq<byte>, m: seq<byte>, ad: seq<byte>) returns (ret: int, c: seq<byte>, tag: seq<byte>)
    requires IsFork(f, 16) && |npub| == NonceSize(v)
    ensures ret == if Accepted(|ad|, |m|) then 0 else 1
    ensures ret == 0 ==> EncSpec(v, f, k, npub, ad, m) == Some((c, tag))
  {
    hide AdFrom, IsFork, EncFrom;
    c, tag := [], [];
    if |ad| > MAX_AD_LENGTH {
      return 1, [], [];
    }
    if |ad| == 0 && |m| == 0 {
      return 1, [], [];
    }
    var ta := Zeros(16);
    if |ad| > 0 {
      ta := AbsorbAd(f, 16, AdTweak(v, k, npub), AdLastTweak(v, k, npub, |m| == 0), ad);
    }
    ret := 0;
    if |m| == 0 {
      tag := ta;
      return;
    }
    c, tag := EncMessage(v, f, k, npub, ta, m);
  }

  method EncMessage(v: Variant, f: Fork, k: seq<byte>, npub: seq<byte>, ta0: seq<byte>, m: seq<byte>) returns (c: seq<byte>, tag: seq<byte>)
    requires IsFork(f, 16) && |npub| == NonceSize(v) && |ta0| == 16 && m != []
    ensures (c, tag) == EncFrom(EspeonScheme(v, k, npub), f, ta0, [], m)
  {
    hide *;
    ghost var s := EspeonScheme(v, k, npub);
    var ta := ta0;
    var blocks := WholeBlocks(|m|, 16);
    var i, pos := 0, 0;
    var tweak := FirstTweak(v, npub);
    c := [];
    TweakStart(v, npub);
    AtStart(16, blocks, |m|);
    AtBounds(i, pos, 16, blocks, |m|);
    EncStart(s, f, ta0, m);
    while i < blocks
      invariant pos == |c| && At(i, pos, 16, blocks, |m|) && i <= blocks && pos < |m| && |ta| == 16
      invariant EncPending(s, f, ta0, m, pos, ta, c) && tweak == TweakAfter(v, npub, c)
      decreases blocks - i
    {
      AtBounds(i, pos, 16, blocks, |m|);
      AtFirst(i, pos, blocks, |m|);
      var input := m[pos..pos + 16];
      SchemeIs(v, k, npub, c);
      TweakLength(v, npub, c);
      FirstOutIs(s, f, ta, c, input);
      ghost var y := FirstOut(s, f, ta, c, input);
      CarryIs(s, ta, input, y);
      EncStep(s, f, ta0, m, pos, ta, c, input, y);
      ta := XorS(ta, input);
      var output := f.tagLeg(tweak + k, if i == 0 then ta else input);
      var before := if i == 0 then [] else c[pos - 16..];
      var chained := Chain(v, npub, i == 0, tweak, output, before);
      ChainIs(v, npub, c, output, tweak, chained);
      tweak := chained;
      c := c + output;
      i, pos := i + 1, pos + 16;
      AtBounds(i, pos, 16, blocks, |m|);
    }
    AtBounds(i, pos, 16, blocks, |m|);
    var last := m[pos..];
    var lastM := FillLast(last, 16);
    lastM := XorS(lastM, ta);
    SchemeIs(v, k, npub, c);
    TweakLength(v, npub, c);
    var tk := Marked(tweak, |last| == 16) + k;
    EncEnd(s, f, ta0, m, pos, ta, c, lastM, tk);
    tag := f.tagLeg(tk, lastM);
    var lastBlock := f.otherLeg(tk, lastM);
    c := c + XorS(last, lastBlock[..|last|]);
  }

  lemma TweakStart(v: Variant, npub: seq<byte>)
    requires |npub| == NonceSize(v)
    ensures FirstTweak(v, npub) == TweakAfter(v, npub, [])
  {
  }

  lemma AtFirst(i: nat, pos: nat, blocks: nat, n: nat)
    requires At(i, pos, 16, blocks, n)
    ensures if i == 0 then pos == 0 else pos >= 16
  {
  }

  /** The decrypt function: 0 with the message, or 1. */
  method Dec(v: Variant, f: Fork, k: seq<byte>, npub: seq<byte>, c: seq<byte>, tag: seq<byte>, ad: seq<byte>) returns (ret: int, m: seq<byte>)
    requires IsFork(f, 16) && |npub| == NonceSize(v) && |tag| == 16
    ensures ret == 0 || ret == 1
    ensures ret == 0 ==> DecSpec(v, f, k, npub, ad, c, tag) == Some(m)
    ensures ret == 1 ==> DecSpec(v, f, k, npub, ad, c, tag) == None
  {
    hide AdFrom, IsFork, DecFrom;
    m := [];
    if |ad| > MAX_AD_LENGTH {
      return 1, [];
    }
    if |ad| == 0 && |c| == 0 {
      return 1, [];
    }
    var ta := Zeros(16);
    if |ad| > 0 {
      ta := AbsorbAd(f, 16, AdTweak(v, k, npub), AdLastTweak(v, k, npub, |c| == 0), ad);
    }
    if |c| == 0 {
      var same := SameBlock(tag, ta);
      return if same then 0 else 1, [];
    }
    var ok;
    ok, m := DecMessage(v, f, k, npub, ta, c, tag);
    ret := if ok then 0 else 1;
  }

  method DecMessage(v: Variant, f: Fork, k: seq<byte>, npub: seq<byte>, ta0: seq<byte>, c: seq<byte>, tag: seq<byte>)
    returns (ok: bool, m: seq<byte>)
    requires IsFork(f, 16) && |npub| == NonceSize(v) && |ta0| == |tag| == 16 && c != []
    ensures DecFrom(EspeonScheme(v, k, npub), f, ta0, [], c, tag) == if ok then Some(m) else None
  {
    hide *;
    var s := EspeonScheme(v, k, npub);
    var ta := ta0;
    var blocks := WholeBlocks(|c|, 16);
    var i, pos := 0, 0;
    var tweak := FirstTweak(v, npub);
    m := [];
    TweakStart(v, npub);
    assert c[..0] == [];
    AtStart(16, blocks, |c|);
    AtBounds(i, pos, 16, blocks, |c|);
    DecStart(s, f, ta, c, tag);
    while i < blocks
      invariant pos == |m| && At(i, pos, 16, blocks, |c|) && i <= blocks && pos < |c| && |ta| == 16
      invariant DecPending(s, f, ta0, c, tag, pos, ta, m) && tweak == TweakAfter(v, npub, c[..pos])
      decreases blocks - i
    {
      AtBounds(i, pos, 16, blocks, |c|);
      AtFirst(i, pos, blocks, |c|);
      var input := c[pos..pos + 16];
      SchemeIs(v, k, npub, c[..pos]);
      TweakLength(v, npub, c[..pos]);
      FirstInIs(s, f, ta, c[..pos], input);
      ghost var p := FirstIn(s, f, ta, c[..pos], input);
      CarryIs(s, ta, p, input);
      DecStep(s, f, ta0, c, tag, pos, ta, m, input, p);
      var output := f.invert(tweak + k, input);
      if i == 0 {
        output := XorS(output, ta);
      }
      ta := XorS(ta, output);
      var before := if i == 0 then [] else c[pos - 16..pos];
      var chained := Chain(v, npub, i == 0, tweak, input, before);
      Blocks16(c, pos);
      ChainIs(v, npub, c[..pos], input, tweak, chained);
      tweak := chained;
      m := m + output;
      i, pos := i + 1, pos + 16;
      AtBounds(i, pos, 16, blocks, |c|);
    }
    AtBounds(i, pos, 16, blocks, |c|);
    var last := c[pos..];
    SchemeIs(v, k, npub, c[..pos]);
    TweakLength(v, npub, c[..pos]);
    var tk := Marked(tweak, |last| == 16) + k;
    var tail;
    ok, tail := FinishDecrypt(s, f, tk, ta, c[..pos], last, tag);
    DecEnd(s, f, ta0, c, tag, pos, ta, m, if ok then Some(tail) else None);
    m := m + tail;
  }

  lemma Blocks16(c: seq<byte>, pos: nat)
    requires pos + 16 <= |c| && (pos == 0 || pos >= 16)
    ensures c[..pos] + c[pos..pos + 16] == c[..pos + 16]
    ensures pos >= 16 ==> c[..pos][pos - 16..] == c[pos - 16..pos]
  {
  }
}
