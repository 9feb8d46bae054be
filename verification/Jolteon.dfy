/** Jolteon: tweaks from a block counter. */
module Jolteon {
  import Arith
  import opened Bytes
  import opened ForkAead
  import opened Wrappers

  /** Block size and length limit of an instance. */
  datatype Config = Config(block: nat, maxLength: nat)

  const FORKSKINNY_64_192 := Config(8, 262144)
  const FORKSKINNY_128_256 := Config(16, 524288)

  /** The two counter bytes of message block i; the top bit marks message blocks. */
  function MessageCounter(i: nat): seq<byte> {
    [(i + 2) / 256 % 128 + 128, (i + 2) % 256]
  }

  function AdCounter(i: nat): seq<byte> {
    [(i + 4) / 256 % 128, (i + 4) % 256]
  }

  /** The code's last counter byte: the conditional binds weaker than the sum. */
  function AdLastCounter(noM: bool, complete: bool): seq<byte> {
    [0, if (if noM then 1 else 0) + (if complete then 1 else 0) != 0 then 0 else 2]
  }

  function LastCounter(complete: bool): seq<byte> {
    [0x80, if complete then 0 else 1]
  }

  /** Two bytes hold a 15-bit counter under a flag. */
  lemma FifteenBits(a: nat)
    ensures a % 32768 == a / 256 % 128 * 256 + a % 256
  {
    Arith.DivMod(a, 256);
    Arith.DivMod(a / 256, 128);
    Arith.DivModUnique(a, 32768, a / 256 / 128, a / 256 % 128 * 256 + a % 256);
  }

  /** The counters of two message blocks agree exactly when their numbers agree modulo 2^15. */
  lemma MessageCountersRepeat(i: nat, j: nat)
    ensures MessageCounter(i) == MessageCounter(j) <==> (i + 2) % 32768 == (j + 2) % 32768
    ensures MessageCounter(i) == LastCounter(true) <==> (i + 2) % 32768 == 0
    ensures MessageCounter(i) == LastCounter(false) <==> (i + 2) % 32768 == 1
  {
    FifteenBits(i + 2);
    FifteenBits(j + 2);
  }

  lemma AdCountersRepeat(i: nat, j: nat)
    ensures AdCounter(i) == AdCounter(j) <==> (i + 4) % 32768 == (j + 4) % 32768
    ensures AdCounter(i) == AdLastCounter(true, true) <==> (i + 4) % 32768 == 0
    ensures AdCounter(i) == AdLastCounter(false, false) <==> (i + 4) % 32768 == 2
  {
    FifteenBits(i + 4);
    FifteenBits(j + 4);
  }

  /** The limit of an instance is what 15 bits count: 2^15 blocks. */
  predicate CountsBlocks(cfg: Config) {
    cfg.block > 1 && cfg.maxLength == 32768 * cfg.block
  }

  lemma InstancesCountBlocks()
    ensures CountsBlocks(FORKSKINNY_64_192) && CountsBlocks(FORKSKINNY_128_256)
  {
  }

  lemma Multiples(x: nat, y: nat, b: nat)
    ensures x <= y ==> x * b <= y * b
  {
  }

  /** How many whole blocks precede the last one within the limit, and when there are as many as possible. */
  lemma BlocksWithinLimit(n: nat, b: nat)
    requires b > 0 && 0 < n <= 32768 * b
    ensures WholeBlocks(n, b) <= 32767
    ensures WholeBlocks(n, b) == 32767 && n % b == 0 <==> n == 32768 * b
  {
    var k := WholeBlocks(n, b);
    Multiples(32768, k, b);
    Multiples(k, 32766, b);
    Arith.DivModUnique(32768 * b, b, 32768, 0);
    if k == 32767 && n % b == 0 {
      Arith.DivMod(n, b);
    }
  }

  /** Within the limit no two whole blocks of a message share a counter, and none has that of the last block,
    * except for the one before it in a message of exactly the permitted maximum. */
  lemma MessageCounters(cfg: Config, n: nat, adLen: nat, i: nat, j: nat)
    requires CountsBlocks(cfg) && Accepted(cfg, adLen, n) && n > 0
    requires i < WholeBlocks(n, cfg.block) && j < WholeBlocks(n, cfg.block)
    ensures MessageCounter(i) == MessageCounter(j) <==> i == j
    ensures MessageCounter(i) == LastCounter(n % cfg.block == 0) <==> n == cfg.maxLength && i == 32766
  {
    hide MessageCounter, LastCounter, WholeBlocks;
    BlocksWithinLimit(n, cfg.block);
    MessageCountersRepeat(i, j);
    Below(i + 2);
    Below(j + 2);
  }

  lemma Below(a: nat)
    requires a <= 65535
    ensures a % 32768 == if a < 32768 then a else a - 32768
  {
  }

  /** Block 32766 of the longest message does meet the last block's counter, in both instances. */
  lemma LongestMessage()
    ensures Accepted(FORKSKINNY_64_192, 0, 262144) && 32766 < WholeBlocks(262144, 8)
    ensures Accepted(FORKSKINNY_128_256, 0, 524288) && 32766 < WholeBlocks(524288, 16)
    ensures MessageCounter(32766) == LastCounter(262144 % 8 == 0) == LastCounter(524288 % 16 == 0)
  {
  }

  /** Within the limit no two whole blocks of additional data share a counter; that of the last block comes up at one place,
    * because the counter starts at 4 and wraps. */
  lemma AdCounters(cfg: Config, n: nat, mLen: nat, i: nat, j: nat)
    requires CountsBlocks(cfg) && Accepted(cfg, n, mLen) && n > 0
    requires i < WholeBlocks(n, cfg.block) && j < WholeBlocks(n, cfg.block)
    ensures AdCounter(i) == AdCounter(j) <==> i == j
    ensures AdCounter(i) == AdLastCounter(mLen == 0, n % cfg.block == 0)
      <==> i == if mLen == 0 || n % cfg.block == 0 then 32764 else 32766
  {
    hide AdCounter, WholeBlocks;
    BlocksWithinLimit(n, cfg.block);
    AdCountersRepeat(i, j);
    Below(i + 4);
    Below(j + 4);
  }

  /** Lengths at which the last block of additional data does share a counter. */
  lemma LongData()
    ensures Accepted(FORKSKINNY_64_192, 262128, 0) && 32764 < WholeBlocks(262128, 8)
    ensures AdCounter(32764) == AdLastCounter(true, 262128 % 8 == 0)
    ensures Accepted(FORKSKINNY_64_192, 262143, 1) && 32766 < WholeBlocks(262143, 8)
    ensures AdCounter(32766) == AdLastCounter(false, 262143 % 8 == 0)
  {
  }

  /** The last counter does not tell four cases apart but two: no message or whole data, and padded data before a message. */
  lemma AdLastCountersMerge(n1: bool, c1: bool, n2: bool, c2: bool)
    ensures AdLastCounter(n1, c1) == AdLastCounter(n2, c2) <==> ((n1 || c1) == (n2 || c2))
  {
    assert AdLastCounter(n1, c1)[1] == if n1 || c1 then 0 else 2;
    assert AdLastCounter(n2, c2)[1] == if n2 || c2 then 0 else 2;
  }

  /** The counters of additional data never are those of message blocks. */
  lemma AdCountersApart(i: nat, j: nat, noM: bool, complete: bool, last: bool)
    ensures AdCounter(i) != MessageCounter(j) && AdCounter(i) != LastCounter(last)
    ensures AdLastCounter(noM, complete) != MessageCounter(j) && AdLastCounter(noM, complete) != LastCounter(last)
  {
    assert AdCounter(i)[0] < 128 && AdLastCounter(noM, complete)[0] < 128;
    assert MessageCounter(j)[0] >= 128 && LastCounter(last)[0] >= 128;
  }

  /** The tweakeys under base, which is key and nonce. */
  function JolteonScheme(cfg: Config, base: seq<byte>): Scheme
    requires cfg.block > 0
  {
    Scheme(cfg.block, cs => base + MessageCounter(|cs| / cfg.block), (cs, complete) => base + LastCounter(complete), false, true)
  }

  function AdTweak(base: seq<byte>): nat -> seq<byte> {
    (i: nat) => base + AdCounter(i)
  }

  function AdLastTweak(base: seq<byte>, noM: bool): bool -> seq<byte> {
    (complete: bool) => base + AdLastCounter(noM, complete)
  }

  // ---- the tweakeys by value ----

  /** Key and nonce, then n in two bytes, high byte first. */
  predicate HasCounter(t: seq<byte>, base: seq<byte>, n: nat) {
    |t| == |base| + 2 && t[..|base|] == base && t[|base|] as nat * 256 + t[|base| + 1] == n
  }

  lemma HasCounterIntro(base: seq<byte>, x: seq<byte>)
    requires |x| == 2
    ensures HasCounter(base + x, base, x[0] as nat * 256 + x[1])
  {
  }

  /** Block i of additional data is driven by counter i + 4 in 15 bits. */
  lemma AdTweakIs(base: seq<byte>, i: nat)
    ensures HasCounter(AdTweak(base)(i), base, (i + 4) % 32768)
  {
    FifteenBits(i + 4);
    hide HasCounter;
    HasCounterIntro(base, AdCounter(i));
  }

  lemma AdLastTweakIs(base: seq<byte>, noM: bool, complete: bool)
    ensures HasCounter(AdLastTweak(base, noM)(complete), base, if noM || complete then 0 else 2)
  {
    hide HasCounter;
    HasCounterIntro(base, AdLastCounter(noM, complete));
  }

  /** Message block i by counter i + 2 in 15 bits, under the flag 0x8000. */
  lemma MessageTweakIs(cfg: Config, base: seq<byte>, cs: seq<byte>, i: nat)
    requires cfg.block > 0 && |cs| == i * cfg.block
    ensures HasCounter(JolteonScheme(cfg, base).tweak(cs), base, 32768 + (i + 2) % 32768)
  {
    FifteenBits(i + 2);
    BlockIndex(i, cfg.block);
    hide HasCounter;
    HasCounterIntro(base, MessageCounter(i));
  }

  lemma LastTweakIs(cfg: Config, base: seq<byte>, cs: seq<byte>, complete: bool)
    requires cfg.block > 0
    ensures HasCounter(JolteonScheme(cfg, base).last(cs, complete), base, 32768 + if complete then 0 else 1)
  {
    hide HasCounter;
    HasCounterIntro(base, LastCounter(complete));
  }

  /** Under one key and nonce tweakeys differ exactly if their counters do. */
  lemma CountersDecide(t: seq<byte>, u: seq<byte>, base: seq<byte>, m: nat, n: nat)
    requires HasCounter(t, base, m) && HasCounter(u, base, n)
    ensures t == u <==> m == n
  {
    if m == n {
      assert t == t[..|base|] + [t[|base|], t[|base| + 1]] && u == u[..|base|] + [u[|base|], u[|base| + 1]];
    }
  }

  /** Two whole blocks of accepted additional data have different tweakeys, and none has that of the last block but one. */
  lemma AdTweakeys(cfg: Config, base: seq<byte>, n: nat, mLen: nat, i: nat, j: nat)
    requires CountsBlocks(cfg) && Accepted(cfg, n, mLen) && n > 0
    requires i < WholeBlocks(n, cfg.block) && j < WholeBlocks(n, cfg.block)
    ensures AdTweak(base)(i) == AdTweak(base)(j) <==> i == j
    ensures AdTweak(base)(i) == AdLastTweak(base, mLen == 0)(n % cfg.block == 0)
      <==> i == if mLen == 0 || n % cfg.block == 0 then 32764 else 32766
  {
    hide *;
    AdTweakIs(base, i);
    AdTweakIs(base, j);
    AdLastTweakIs(base, mLen == 0, n % cfg.block == 0);
    CountersDecide(AdTweak(base)(i), AdTweak(base)(j), base, (i + 4) % 32768, (j + 4) % 32768);
    CountersDecide(AdTweak(base)(i), AdLastTweak(base, mLen == 0)(n % cfg.block == 0), base, (i + 4) % 32768,
                   if mLen == 0 || n % cfg.block == 0 then 0 else 2);
    WithinLimit(cfg, n, mLen, n);
    Below(i + 4);
    Below(j + 4);
  }

  lemma WithinLimit(cfg: Config, adLen: nat, mLen: nat, n: nat)
    requires CountsBlocks(cfg) && Accepted(cfg, adLen, mLen) && n > 0 && (n == adLen || n == mLen)
    ensures cfg.block > 1 && WholeBlocks(n, cfg.block) <= 32767
    ensures WholeBlocks(n, cfg.block) == 32767 && n % cfg.block == 0 <==> n == cfg.maxLength
  {
    hide WholeBlocks;
    BlocksWithinLimit(n, cfg.block);
  }

  /** The same for a message of n bytes: only block 32766 of the longest one has the last block's tweakey. */
  lemma MessageTweakeys(cfg: Config, base: seq<byte>, n: nat, adLen: nat, i: nat, j: nat, ci: seq<byte>, cj: seq<byte>, cs: seq<byte>)
    requires CountsBlocks(cfg) && Accepted(cfg, adLen, n) && n > 0
    requires i < WholeBlocks(n, cfg.block) && j < WholeBlocks(n, cfg.block) && |ci| == i * cfg.block && |cj| == j * cfg.block
    ensures var s := JolteonScheme(cfg, base);
      (s.tweak(ci) == s.tweak(cj) <==> i == j)
      && (s.tweak(ci) == s.last(cs, n % cfg.block == 0) <==> n == cfg.maxLength && i == 32766)
  {
    hide *;
    WithinLimit(cfg, adLen, n, n);
    var s, whole := JolteonScheme(cfg, base), n % cfg.block == 0;
    MessageTweakIs(cfg, base, ci, i);
    MessageTweakIs(cfg, base, cj, j);
    LastTweakIs(cfg, base, cs, whole);
    CountersDecide(s.tweak(ci), s.tweak(cj), base, 32768 + (i + 2) % 32768, 32768 + (j + 2) % 32768);
    CountersDecide(s.tweak(ci), s.last(cs, whole), base, 32768 + (i + 2) % 32768, 32768 + if whole then 0 else 1);
    CounterFacts(i, j, whole, WholeBlocks(n, cfg.block));
  }

  lemma CounterFacts(i: nat, j: nat, whole: bool, k: nat)
    requires i < k && j < k && k <= 32767
    ensures (i + 2) % 32768 == (j + 2) % 32768 <==> i == j
    ensures (i + 2) % 32768 == (if whole then 0 else 1) <==> k == 32767 && whole && i == 32766
  {
  }

  /** No tweakey of additional data ever is one of a message. */
  lemma AdTweakeysApart(cfg: Config, base: seq<byte>, i: nat, noM: bool, whole: bool, cs: seq<byte>, j: nat, complete: bool)
    requires cfg.block > 0 && |cs| == j * cfg.block
    ensures var s := JolteonScheme(cfg, base);
      AdTweak(base)(i) != s.tweak(cs) && AdTweak(base)(i) != s.last(cs, complete)
      && AdLastTweak(base, noM)(whole) != s.tweak(cs) && AdLastTweak(base, noM)(whole) != s.last(cs, complete)
  {
    hide *;
    var s := JolteonScheme(cfg, base);
    AdTweakIs(base, i);
    AdLastTweakIs(base, noM, whole);
    MessageTweakIs(cfg, base, cs, j);
    LastTweakIs(cfg, base, cs, complete);
    var a, b: nat := (i + 4) % 32768, if noM || whole then 0 else 2;
    var m, l: nat := 32768 + (j + 2) % 32768, 32768 + if complete then 0 else 1;
    CountersDecide(AdTweak(base)(i), s.tweak(cs), base, a, m);
    CountersDecide(AdTweak(base)(i), s.last(cs, complete), base, a, l);
    CountersDecide(AdLastTweak(base, noM)(whole), s.tweak(cs), base, b, m);
    CountersDecide(AdLastTweak(base, noM)(whole), s.last(cs, complete), base, b, l);
  }

  /** The checksum of the additional data. */
  ghost function Checksum(cfg: Config, f: Fork, base: seq<byte>, ad: seq<byte>, noM: bool): (ta: seq<byte>)
    requires cfg.block > 0 && IsFork(f, cfg.block)
    ensures |ta| == cfg.block
  {
    if ad == [] then Zeros(cfg.block)
    else AdFrom(f, cfg.block, AdTweak(base), AdLastTweak(base, noM), 0, Zeros(cfg.block), ad)
  }

  predicate Accepted(cfg: Config, adLen: nat, mLen: nat) {
    mLen <= cfg.maxLength && adLen <= cfg.maxLength && (adLen > 0 || mLen > 0)
  }

  ghost function EncSpec(cfg: Config, f: Fork, base: seq<byte>, ad: seq<byte>, m: seq<byte>): Option<(seq<byte>, seq<byte>)>
    requires cfg.block > 0 && IsFork(f, cfg.block)
  {
    if !Accepted(cfg, |ad|, |m|) then None
    else Some(Encrypt(JolteonScheme(cfg, base), f, Checksum(cfg, f, base, ad, m == []), m))
  }

  ghost function DecSpec(cfg: Config, f: Fork, base: seq<byte>, ad: seq<byte>, c: seq<byte>, tag: seq<byte>): Option<seq<byte>>
    requires cfg.block > 0 && IsFork(f, cfg.block) && |tag| == cfg.block
  {
    if !Accepted(cfg, |ad|, |c|) then None
    else Decrypt(JolteonScheme(cfg, base), f, Checksum(cfg, f, base, ad, c == []), c, tag)
  }

  /** Decryption accepts and returns m exactly when encryption of m gives this ciphertext and tag. */
  lemma DecryptsIffEncrypts(cfg: Config, f: Fork, base: seq<byte>, ad: seq<byte>, m: seq<byte>, c: seq<byte>, tag: seq<byte>)
    requires cfg.block > 0 && IsFork(f, cfg.block) && |tag| == cfg.block
    ensures DecSpec(cfg, f, base, ad, c, tag) == Some(m) <==> EncSpec(cfg, f, base, ad, m) == Some((c, tag))
  {
    hide Checksum, Encrypt, Decrypt, IsFork;
    if |m| == |c| {
      DecryptIffEncrypt(JolteonScheme(cfg, base), f, Checksum(cfg, f, base, ad, c == []), m, c, tag);
    }
  }

  /** Padded data has a tweak of its own exactly if there is a message. */
  lemma PaddingHasItsTweak(base: seq<byte>, noM: bool)
    ensures AdLastTweak(base, noM)(false) != AdLastTweak(base, noM)(true) <==> !noM
  {
    hide AdLastCounter;
    AdLastCountersMerge(noM, false, noM, true);
    var x, y := AdLastCounter(noM, false), AdLastCounter(noM, true);
    assert (base + x)[|base|..] == x && (base + y)[|base|..] == y;
  }

  /** What that does to the mode: without a message, incomplete data and the same data with its padding written out
    * are both accepted and get the same tag. */
  lemma PaddingWithoutMessage(cfg: Config, f: Fork, base: seq<byte>, ad: seq<byte>)
    requires CountsBlocks(cfg) && IsFork(f, cfg.block) && |ad| <= cfg.maxLength && |ad| % cfg.block != 0
    ensures Completed(ad, cfg.block) != ad && EncSpec(cfg, f, base, ad, []).Some?
    ensures EncSpec(cfg, f, base, Completed(ad, cfg.block), []) == EncSpec(cfg, f, base, ad, [])
  {
    hide AdFrom, IsFork, AdTweak, AdLastTweak;
    var b := cfg.block;
    Arith.DivMod(|ad|, b);
    assert |ad| > 0 by {
      if |ad| == 0 {
        Arith.DivModUnique(0, b, 0, 0);
      }
    }
    BlocksUpTo(|ad|, b);
    PaddingHasItsTweak(base, true);
    AdFromCompleted(f, b, AdTweak(base), AdLastTweak(base, true), 0, Zeros(b), ad);
  }

  lemma BlocksUpTo(n: nat, b: nat)
    requires b > 0 && n <= 32768 * b && n % b != 0
    ensures n / b * b + b <= 32768 * b
  {
    Arith.DivMod(n, b);
    Multiples(32768, n / b, b);
    Multiples(n / b + 1, 32768, b);
  }

  /** One byte of additional data and no message. */
  lemma OneByteAndItsPadding(f: Fork, base: seq<byte>, x: byte)
    requires IsFork(f, 8)
    ensures EncSpec(FORKSKINNY_64_192, f, base, [x], []).Some?
    ensures EncSpec(FORKSKINNY_64_192, f, base, [x, 0x80, 0, 0, 0, 0, 0, 0], []) == EncSpec(FORKSKINNY_64_192, f, base, [x], [])
  {
    hide EncSpec, IsFork;
    InstancesCountBlocks();
    PaddingWithoutMessage(FORKSKINNY_64_192, f, base, [x]);
    assert Completed([x], 8) == [x, 0x80, 0, 0, 0, 0, 0, 0];
  }

  lemma BlockIndex(i: nat, b: nat)
    requires b > 0
    ensures i * b / b == i
  {
    Arith.DivModUnique(i * b, b, i, 0);
  }

  lemma SchemeAt(cfg: Config, base: seq<byte>, i: nat, cs: seq<byte>, blocks: nat, n: nat)
    requires cfg.block > 0 && At(i, |cs|, cfg.block, blocks, n)
    ensures JolteonScheme(cfg, base).tweak(cs) == base + MessageCounter(i) && !Mixed(JolteonScheme(cfg, base), cs)
  {
    hide MessageCounter;
    BlockIndex(i, cfg.block);
  }

  lemma SchemeIs(cfg: Config, base: seq<byte>)
    requires cfg.block > 0
    ensures var s := JolteonScheme(cfg, base); s.block == cfg.block && s.sumCiphertext
    ensures forall cs, complete :: JolteonScheme(cfg, base).last(cs, complete) == base + LastCounter(complete)
  {
    hide MessageCounter, LastCounter;
  }

  /** The encrypt function: 1 for unsupported lengths, else 0 with ciphertext and tag. */
  method Enc(cfg: Config, f: Fork, k: seq<byte>, npub: seq<byte>, m: seq<byte>, ad: seq<byte>) returns (ret: int, c: seq<byte>, tag: seq<byte>)
    requires cfg.block > 0 && IsFork(f, cfg.block)
    ensures ret == if Accepted(cfg, |ad|, |m|) then 0 else 1
    ensures ret == 0 ==> EncSpec(cfg, f, k + npub, ad, m) == Some((c, tag))
  {
    c, tag := [], [];
    if |m| > cfg.maxLength {
      return 1, [], [];
    }
    if |ad| > cfg.maxLength {
      return 1, [], [];
    }
    if |ad| == 0 && |m| == 0 {
      return 1, [], [];
    }
    var base := k + npub;
    var ta := Zeros(cfg.block);
    if |ad| > 0 {
      ta := AbsorbAd(f, cfg.block, AdTweak(base), AdLastTweak(base, |m| == 0), ad);
    }
    hide AdFrom, IsFork, EncFrom;
    ret := 0;
    if |m| == 0 {
      tag := ta;
      return;
    }
    c, tag := EncMessage(cfg, f, base, ta, m);
  }

  method EncMessage(cfg: Config, f: Fork, base: seq<byte>, ta0: seq<byte>, m: seq<byte>) returns (c: seq<byte>, tag: seq<byte>)
    requires cfg.block > 0 && IsFork(f, cfg.block) && |ta0| == cfg.block && m != []
    ensures (c, tag) == EncFrom(JolteonScheme(cfg, base), f, ta0, [], m)
  {
    hide *;
    var b := cfg.block;
    ghost var s := JolteonScheme(cfg, base);
    SchemeIs(cfg, base);
    var ta := ta0;
    var blocks := WholeBlocks(|m|, b);
    var i, pos := 0, 0;
    c := [];
    AtStart(b, blocks, |m|);
    AtBounds(i, pos, b, blocks, |m|);
    EncStart(s, f, ta0, m);
    while i < blocks
      invariant pos == |c| && At(i, pos, b, blocks, |m|) && i <= blocks && pos < |m| && |ta| == b
      invariant EncPending(s, f, ta0, m, pos, ta, c)
      decreases blocks - i
    {
      AtBounds(i, pos, b, blocks, |m|);
      var mIn := m[pos..pos + b];
      SchemeAt(cfg, base, i, c, blocks, |m|);
      FirstOutIs(s, f, ta, c, mIn);
      ghost var y := FirstOut(s, f, ta, c, mIn);
      CarryIs(s, ta, mIn, y);
      EncStep(s, f, ta0, m, pos, ta, c, mIn, y);
      var tweakey := base + MessageCounter(i);
      ta := XorS(ta, mIn);
      var cOut := f.tagLeg(tweakey, mIn);
      ta := XorS(ta, cOut);
      c := c + cOut;
      i, pos := i + 1, pos + b;
      AtBounds(i, pos, b, blocks, |m|);
    }
    AtBounds(i, pos, b, blocks, |m|);
    var last := m[pos..];
    var lastM := FillLast(last, b);
    lastM := XorS(lastM, ta);
    var tweakey := base + LastCounter(|last| == b);
    EncEnd(s, f, ta0, m, pos, ta, c, lastM, tweakey);
    tag := f.tagLeg(tweakey, lastM);
    var lastBlock := f.otherLeg(tweakey, lastM);
    c := c + XorS(last, lastBlock[..|last|]);
  }

  /** The decrypt function: 0 with the message, or 1. */
  method Dec(cfg: Config, f: Fork, k: seq<byte>, npub: seq<byte>, c: seq<byte>, tag: seq<byte>, ad: seq<byte>) returns (ret: int, m: seq<byte>)
    requires cfg.block > 0 && IsFork(f, cfg.block) && |tag| == cfg.block
    ensures ret == 0 || ret == 1
    ensures ret == 0 ==> DecSpec(cfg, f, k + npub, ad, c, tag) == Some(m)
    ensures ret == 1 ==> DecSpec(cfg, f, k + npub, ad, c, tag) == None
  {
    m := [];
    if |c| > cfg.maxLength {
      return 1, [];
    }
    if |ad| > cfg.maxLength {
      return 1, [];
    }
    if |ad| == 0 && |c| == 0 {
      return 1, [];
    }
    var base := k + npub;
    var ta := Zeros(cfg.block);
    if |ad| > 0 {
      ta := AbsorbAd(f, cfg.block, AdTweak(base), AdLastTweak(base, |c| == 0), ad);
    }
    hide AdFrom, IsFork, DecFrom;
    if |c| == 0 {
      var same := SameBlock(tag, ta);
      return if same then 0 else 1, [];
    }
    var ok;
    ok, m := DecMessage(cfg, f, base, ta, c, tag);
    ret := if ok then 0 else 1;
  }

  method DecMessage(cfg: Config, f: Fork, base: seq<byte>, ta0: seq<byte>, c: seq<byte>, tag: seq<byte>) returns (ok: bool, m: seq<byte>)
    requires cfg.block > 0 && IsFork(f, cfg.block) && |ta0| == |tag| == cfg.block && c != []
    ensures DecFrom(JolteonScheme(cfg, base), f, ta0, [], c, tag) == if ok then Some(m) else None
  {
    hide *;
    var b := cfg.block;
    var s := JolteonScheme(cfg, base);
    SchemeIs(cfg, base);
    var ta := ta0;
    var blocks := WholeBlocks(|c|, b);
    var i, pos := 0, 0;
    m := [];
    AtStart(b, blocks, |c|);
    AtBounds(i, pos, b, blocks, |c|);
    DecStart(s, f, ta, c, tag);
    while i < blocks
      invariant pos == |m| && At(i, pos, b, blocks, |c|) && i <= blocks && pos < |c| && |ta| == b
      invariant DecPending(s, f, ta0, c, tag, pos, ta, m)
      decreases blocks - i
    {
      AtBounds(i, pos, b, blocks, |c|);
      var cIn := c[pos..pos + b];
      SchemeAt(cfg, base, i, c[..pos], blocks, |c|);
      FirstInIs(s, f, ta, c[..pos], cIn);
      ghost var p := FirstIn(s, f, ta, c[..pos], cIn);
      CarryIs(s, ta, p, cIn);
      DecStep(s, f, ta0, c, tag, pos, ta, m, cIn, p);
      var tweakey := base + MessageCounter(i);
      var mOut := f.invert(tweakey, cIn);
      XorSSwap(ta, cIn, mOut);
      ta := XorS(ta, cIn);
      ta := XorS(ta, mOut);
      m := m + mOut;
      i, pos := i + 1, pos + b;
      AtBounds(i, pos, b, blocks, |c|);
    }
    AtBounds(i, pos, b, blocks, |c|);
    var last := c[pos..];
    var tweakey := base + LastCounter(|last| == b);
    var tail;
    ok, tail := FinishDecrypt(s, f, tweakey, ta, c[..pos], last, tag);
    DecEnd(s, f, ta0, c, tag, pos, ta, m, if ok then Some(tail) else None);
    m := m + tail;
  }
}
