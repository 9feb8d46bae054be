/** Authenticated encryption from a forkcipher: what Jolteon and Espeon have in common. */
module ForkAead {
  import Arith
  import opened Bytes
  import opened Wrappers

  /** The two legs of a forkcipher under a tweakey, and the inverse of the tag leg. */
  datatype Fork = Fork(
    tagLeg: (seq<byte>, seq<byte>) -> seq<byte>,
    otherLeg: (seq<byte>, seq<byte>) -> seq<byte>,
    invert: (seq<byte>, seq<byte>) -> seq<byte>)

  /** Blocks of b bytes go to blocks, and the tag leg is a permutation under every tweakey. */
  ghost predicate IsFork(f: Fork, b: nat) {
    && (forall t: seq<byte>, x: seq<byte> :: |x| == b ==> |f.tagLeg(t, x)| == b && f.invert(t, f.tagLeg(t, x)) == x)
    && (forall t: seq<byte>, x: seq<byte> :: |x| == b ==> |f.invert(t, x)| == b && f.tagLeg(t, f.invert(t, x)) == x)
    && (forall t: seq<byte>, x: seq<byte> :: |x| == b ==> |f.otherLeg(t, x)| == b)
  }

  /** How a mode drives the forkcipher: tweakeys by the ciphertext so far, and what enters the checksum. */
  datatype Scheme = Scheme(
    block: nat,
    tweak: seq<byte> -> seq<byte>,
    last: (seq<byte>, bool) -> seq<byte>,
    mixFirst: bool,
    sumCiphertext: bool)

  /** The padding 10...0 of an incomplete block. */
  function PadBlock(x: seq<byte>, b: nat): (r: seq<byte>)
    requires |x| <= b
    ensures |r| == b
  {
    if |x| == b then x else x + [0x80] + Zeros(b - |x| - 1)
  }

  /** Its bytes. */
  lemma PadBlockBytes(x: seq<byte>, b: nat, i: nat)
    requires |x| <= b && i < b
    ensures PadBlock(x, b)[i] == if i < |x| then x[i] else if i == |x| then 0x80 else 0
  {
  }

  /** Whether the checksum goes into this block: Espeon's first one. */
  predicate Mixed(s: Scheme, cs: seq<byte>) {
    s.mixFirst && cs == []
  }

  /** A whole block, encrypted after ciphertext cs. */
  ghost function FirstOut(s: Scheme, f: Fork, ta: seq<byte>, cs: seq<byte>, p: seq<byte>): (y: seq<byte>)
    requires IsFork(f, s.block) && |ta| == |p| == s.block
    ensures |y| == s.block
  {
    f.tagLeg(s.tweak(cs), if Mixed(s, cs) then XorS(ta, p) else p)
  }

  /** A whole block, decrypted after ciphertext cs. */
  ghost function FirstIn(s: Scheme, f: Fork, ta: seq<byte>, cs: seq<byte>, y: seq<byte>): (p: seq<byte>)
    requires IsFork(f, s.block) && |ta| == |y| == s.block
    ensures |p| == s.block
  {
    var x := f.invert(s.tweak(cs), y);
    if Mixed(s, cs) then XorS(x, ta) else x
  }

  /** The checksum after a whole block p that went to y. */
  function Carry(s: Scheme, ta: seq<byte>, p: seq<byte>, y: seq<byte>): (r: seq<byte>)
    requires |ta| == |p| == |y|
    ensures |r| == |ta|
  {
    if s.sumCiphertext then XorS(XorS(ta, p), y) else XorS(ta, p)
  }

  /** The ciphertext and tag of m, after ciphertext cs and with checksum ta. */
  ghost function EncFrom(s: Scheme, f: Fork, ta: seq<byte>, cs: seq<byte>, m: seq<byte>): (r: (seq<byte>, seq<byte>))
    requires s.block > 0 && IsFork(f, s.block) && |ta| == s.block && 0 < |m|
    ensures |r.0| == |m| && |r.1| == s.block
    decreases |m|
  {
    if |m| > s.block then
      var p := m[..s.block];
      var y := FirstOut(s, f, ta, cs, p);
      var rest := EncFrom(s, f, Carry(s, ta, p, y), cs + y, m[s.block..]);
      (y + rest.0, rest.1)
    else
      var tk := s.last(cs, |m| == s.block);
      var x := XorS(PadBlock(m, s.block), ta);
      (XorS(m, f.otherLeg(tk, x)[..|m|]), f.tagLeg(tk, x))
  }

  /** The padding check on the bytes from n on. */
  predicate PadOk(out: seq<byte>, n: nat)
    requires n <= |out|
  {
    n == |out| || (out[n] == 0x80 && forall i :: n < i < |out| ==> out[i] == 0)
  }

  function Prepend(p: seq<byte>, r: Option<seq<byte>>): Option<seq<byte>> {
    match r
    case None => None
    case Some(v) => Some(p + v)
  }

  /** The message of a ciphertext and tag, if they are valid. */
  ghost function DecFrom(s: Scheme, f: Fork, ta: seq<byte>, cs: seq<byte>, c: seq<byte>, tag: seq<byte>): (r: Option<seq<byte>>)
    requires s.block > 0 && IsFork(f, s.block) && |ta| == |tag| == s.block && 0 < |c|
    ensures r.Some? ==> |r.value| == |c|
    decreases |c|
  {
    if |c| > s.block then
      var y := c[..s.block];
      var p := FirstIn(s, f, ta, cs, y);
      Prepend(p, DecFrom(s, f, Carry(s, ta, p, y), cs + y, c[s.block..], tag))
    else
      var tk := s.last(cs, |c| == s.block);
      var x := f.invert(tk, tag);
      var out := XorS(x, ta);
      if PadOk(out, |c|) && XorS(out[..|c|], f.otherLeg(tk, x)[..|c|]) == c then Some(out[..|c|]) else None
  }

  lemma PadCheck(out: seq<byte>, n: nat)
    requires 0 < n <= |out|
    ensures PadOk(out, n) <==> out == PadBlock(out[..n], |out|)
  {
    if PadOk(out, n) && n < |out| {
      assert out == out[..n] + [out[n]] + out[n + 1..];
      assert out[n + 1..] == Zeros(|out| - n - 1);
    }
    if out == PadBlock(out[..n], |out|) && n < |out| {
      assert PadBlock(out[..n], |out|)[n] == 0x80;
      forall i | n < i < |out|
        ensures out[i] == 0
      {
        assert PadBlock(out[..n], |out|)[i] == 0;
      }
    }
  }

  lemma PadPrefix(m: seq<byte>, b: nat)
    requires |m| <= b
    ensures PadBlock(m, b)[..|m|] == m
  {
  }

  lemma XorSCancel(a: seq<byte>, b: seq<byte>, c: seq<byte>)
    requires |a| == |b| == |c|
    ensures XorS(a, b) == c <==> a == XorS(c, b)
  {
    hide XorS;
    XorSTwice(a, b);
    XorSTwice(c, b);
  }

  /** The last block: the tag and the ciphertext determine the message and conversely. */
  lemma LastBlock(s: Scheme, f: Fork, ta: seq<byte>, cs: seq<byte>, m: seq<byte>, c: seq<byte>, tag: seq<byte>)
    requires s.block > 0 && IsFork(f, s.block) && |ta| == |tag| == s.block && 0 < |c| == |m| <= s.block
    ensures DecFrom(s, f, ta, cs, c, tag) == Some(m) <==> EncFrom(s, f, ta, cs, m) == (c, tag)
  {
    hide XorS, PadBlock, PadOk;
    var tk := s.last(cs, |c| == s.block);
    var x := f.invert(tk, tag);
    var out := XorS(x, ta);
    PadCheck(out, |c|);
    PadPrefix(m, s.block);
    XorSCancel(x, ta, PadBlock(m, s.block));
    XorSCancel(PadBlock(m, s.block), ta, x);
  }

  /** Decryption returns m exactly when encryption of m gives the ciphertext and tag. */
  lemma {:induction false} DecIffEnc(s: Scheme, f: Fork, ta: seq<byte>, cs: seq<byte>, m: seq<byte>, c: seq<byte>, tag: seq<byte>)
    requires s.block > 0 && IsFork(f, s.block) && |ta| == |tag| == s.block && 0 < |c| == |m|
    ensures DecFrom(s, f, ta, cs, c, tag) == Some(m) <==> EncFrom(s, f, ta, cs, m) == (c, tag)
    decreases |m|
  {
    if |m| <= s.block {
      LastBlock(s, f, ta, cs, m, c, tag);
    } else {
      var p, y := m[..s.block], c[..s.block];
      hide XorS, PadBlock, PadOk, EncFrom, DecFrom, FirstIn, FirstOut, Carry;
      if FirstIn(s, f, ta, cs, y) == p {
        DecIffEnc(s, f, Carry(s, ta, p, y), cs + y, m[s.block..], c[s.block..], tag);
        FirstSplits(s, f, ta, cs, m, c, tag);
      } else {
        FirstDiffers(s, f, ta, cs, m, c, tag);
      }
    }
  }

  /** A whole block, either way round. */
  lemma WholeBlock(s: Scheme, f: Fork, ta: seq<byte>, cs: seq<byte>, p: seq<byte>, y: seq<byte>)
    requires IsFork(f, s.block) && |ta| == |p| == |y| == s.block
    ensures FirstIn(s, f, ta, cs, y) == p <==> FirstOut(s, f, ta, cs, p) == y
  {
    var x := f.invert(s.tweak(cs), y);
    XorSCancel(x, ta, p);
    XorSCommutes(p, ta);
    hide XorS;
  }

  lemma XorSCommutes(a: seq<byte>, b: seq<byte>)
    requires |a| == |b|
    ensures XorS(a, b) == XorS(b, a)
  {
    hide XorB;
    forall i | 0 <= i < |a|
      ensures XorS(a, b)[i] == XorS(b, a)[i]
    {
      XorBCommutes(a[i], b[i]);
    }
  }

  lemma EncUnfold(s: Scheme, f: Fork, ta: seq<byte>, cs: seq<byte>, m: seq<byte>, p: seq<byte>, y: seq<byte>, rest: (seq<byte>, seq<byte>))
    requires s.block > 0 && IsFork(f, s.block) && |ta| == s.block < |m| && p == m[..s.block] && y == FirstOut(s, f, ta, cs, p)
    requires rest == EncFrom(s, f, Carry(s, ta, p, y), cs + y, m[s.block..])
    ensures EncFrom(s, f, ta, cs, m) == (y + rest.0, rest.1)
  {
    hide IsFork, Carry, FirstOut, PadBlock, XorS;
  }

  lemma DecUnfold(s: Scheme, f: Fork, ta: seq<byte>, cs: seq<byte>, c: seq<byte>, tag: seq<byte>, p: seq<byte>, y: seq<byte>, rest: Option<seq<byte>>)
    requires s.block > 0 && IsFork(f, s.block) && |ta| == |tag| == s.block < |c| && y == c[..s.block] && p == FirstIn(s, f, ta, cs, y)
    requires rest == DecFrom(s, f, Carry(s, ta, p, y), cs + y, c[s.block..], tag)
    ensures DecFrom(s, f, ta, cs, c, tag) == Prepend(p, rest)
  {
    hide IsFork, Carry, FirstIn, PadOk, XorS;
  }

  /** With the first block right, both sides continue with the rest. */
  lemma FirstSplits(s: Scheme, f: Fork, ta: seq<byte>, cs: seq<byte>, m: seq<byte>, c: seq<byte>, tag: seq<byte>)
    requires s.block > 0 && IsFork(f, s.block) && |ta| == |tag| == s.block && s.block < |c| == |m|
    requires FirstIn(s, f, ta, cs, c[..s.block]) == m[..s.block]
    requires var ta2 := Carry(s, ta, m[..s.block], c[..s.block]); var cs2 := cs + c[..s.block];
      DecFrom(s, f, ta2, cs2, c[s.block..], tag) == Some(m[s.block..]) <==> EncFrom(s, f, ta2, cs2, m[s.block..]) == (c[s.block..], tag)
    ensures DecFrom(s, f, ta, cs, c, tag) == Some(m) <==> EncFrom(s, f, ta, cs, m) == (c, tag)
  {
    hide *;
    var p, y := m[..s.block], c[..s.block];
    WholeBlock(s, f, ta, cs, p, y);
    var ta2 := Carry(s, ta, p, y);
    var rest, back := EncFrom(s, f, ta2, cs + y, m[s.block..]), DecFrom(s, f, ta2, cs + y, c[s.block..], tag);
    EncUnfold(s, f, ta, cs, m, p, y, rest);
    DecUnfold(s, f, ta, cs, c, tag, p, y, back);
    SamePair(c, s.block, rest.0);
    SameOption(m, s.block, back);
  }

  lemma SamePair(c: seq<byte>, b: nat, r: seq<byte>)
    requires b <= |c|
    ensures c[..b] + r == c <==> r == c[b..]
  {
    SameTail(c[..b], r, c[b..]);
    assert c == c[..b] + c[b..];
  }

  lemma SameOption(m: seq<byte>, b: nat, r: Option<seq<byte>>)
    requires b <= |m|
    ensures Prepend(m[..b], r) == Some(m) <==> r == Some(m[b..])
  {
    if r.Some? {
      SamePair(m, b, r.value);
    }
  }

  lemma SameTail(h: seq<byte>, a: seq<byte>, b: seq<byte>)
    ensures h + a == h + b <==> a == b
  {
    assert (h + a)[|h|..] == a && (h + b)[|h|..] == b;
  }

  /** With the first block wrong, neither side holds. */
  lemma FirstDiffers(s: Scheme, f: Fork, ta: seq<byte>, cs: seq<byte>, m: seq<byte>, c: seq<byte>, tag: seq<byte>)
    requires s.block > 0 && IsFork(f, s.block) && |ta| == |tag| == s.block && s.block < |c| == |m|
    requires FirstIn(s, f, ta, cs, c[..s.block]) != m[..s.block]
    ensures DecFrom(s, f, ta, cs, c, tag) != Some(m) && EncFrom(s, f, ta, cs, m) != (c, tag)
  {
    hide *;
    var p, y := m[..s.block], c[..s.block];
    WholeBlock(s, f, ta, cs, p, y);
    var q, z := FirstIn(s, f, ta, cs, y), FirstOut(s, f, ta, cs, p);
    var rest := EncFrom(s, f, Carry(s, ta, p, z), cs + z, m[s.block..]);
    var back := DecFrom(s, f, Carry(s, ta, q, y), cs + y, c[s.block..], tag);
    EncUnfold(s, f, ta, cs, m, p, z, rest);
    DecUnfold(s, f, ta, cs, c, tag, q, y, back);
    OtherHead(z, rest.0, c);
    OtherOption(q, back, m);
  }

  lemma OtherHead(h: seq<byte>, r: seq<byte>, c: seq<byte>)
    requires |h| <= |c| && h != c[..|h|]
    ensures h + r != c
  {
    assert (h + r)[..|h|] == h;
  }

  lemma OtherOption(h: seq<byte>, r: Option<seq<byte>>, m: seq<byte>)
    requires |h| <= |m| && h != m[..|h|]
    ensures Prepend(h, r) != Some(m)
  {
    if r.Some? {
      OtherHead(h, r.value, m);
    }
  }

  // ---- the checksum of the additional data ----

  /** From block i on: whole blocks under tweak(i), the last one under its own tweak. */
  ghost function AdFrom(f: Fork, b: nat, tweak: nat -> seq<byte>, last: bool -> seq<byte>, i: nat, ta: seq<byte>, ad: seq<byte>): (r: seq<byte>)
    requires b > 0 && IsFork(f, b) && |ta| == b && 0 < |ad|
    ensures |r| == b
    decreases |ad|
  {
    if |ad| > b then AdFrom(f, b, tweak, last, i + 1, XorS(ta, f.tagLeg(tweak(i), ad[..b])), ad[b..])
    else XorS(ta, f.tagLeg(last(|ad| == b), PadBlock(ad, b)))
  }

  /** Additional data followed by the padding 10...0 that its incomplete last block gets. */
  function Completed(ad: seq<byte>, b: nat): (r: seq<byte>)
    requires b > 0
    ensures |ad| % b != 0 ==> |r| % b == 0 && |r| == |ad| / b * b + b && r == ad + [0x80] + Zeros(b - |ad| % b - 1)
    ensures |ad| % b == 0 ==> r == ad
  {
    if |ad| % b == 0 then ad
    else
      RoundedUp(|ad|, b);
      ad + [0x80] + Zeros(b - |ad| % b - 1)
  }

  lemma RoundedUp(n: nat, b: nat)
    requires b > 0
    ensures n == n / b * b + n % b && (n / b * b + b) % b == 0
  {
    Arith.DivMod(n, b);
    Arith.DivModUnique(n / b * b + b, b, n / b + 1, 0);
  }

  lemma CompletedTail(ad: seq<byte>, b: nat)
    requires b > 0 && |ad| > b && |ad| % b != 0
    ensures (|ad| - b) % b != 0 && |Completed(ad, b)| > b
    ensures Completed(ad, b)[..b] == ad[..b] && Completed(ad, b)[b..] == Completed(ad[b..], b)
  {
    Arith.DivMod(|ad|, b);
    Arith.DivModUnique(|ad| - b, b, |ad| / b - 1, |ad| % b);
  }

  /** Under a last tweak that does not tell whole from padded, data and its padding have one checksum. */
  lemma {:induction false} AdFromCompleted(f: Fork, b: nat, tweak: nat -> seq<byte>, last: bool -> seq<byte>, i: nat, ta: seq<byte>, ad: seq<byte>)
    requires b > 0 && IsFork(f, b) && |ta| == b && 0 < |ad| && |ad| % b != 0 && last(false) == last(true)
    ensures |Completed(ad, b)| > 0 && AdFrom(f, b, tweak, last, i, ta, Completed(ad, b)) == AdFrom(f, b, tweak, last, i, ta, ad)
    decreases |ad|
  {
    hide XorS;
    if |ad| > b {
      CompletedTail(ad, b);
      AdFromCompleted(f, b, tweak, last, i + 1, XorS(ta, f.tagLeg(tweak(i), ad[..b])), ad[b..]);
    } else {
      Arith.DivModUnique(|ad|, b, 0, |ad|);
      assert Completed(ad, b) == PadBlock(ad, b);
    }
  }

  // ---- whole messages ----

  /** A mode under a key and nonce: its checksum of the additional data and its scheme. */
  ghost function Encrypt(s: Scheme, f: Fork, ta: seq<byte>, m: seq<byte>): (r: (seq<byte>, seq<byte>))
    requires s.block > 0 && IsFork(f, s.block) && |ta| == s.block
    ensures |r.0| == |m| && |r.1| == s.block
  {
    if m == [] then ([], ta) else EncFrom(s, f, ta, [], m)
  }

  ghost function Decrypt(s: Scheme, f: Fork, ta: seq<byte>, c: seq<byte>, tag: seq<byte>): (r: Option<seq<byte>>)
    requires s.block > 0 && IsFork(f, s.block) && |ta| == |tag| == s.block
    ensures r.Some? ==> |r.value| == |c|
  {
    if c == [] then (if tag == ta then Some([]) else None) else DecFrom(s, f, ta, [], c, tag)
  }

  lemma DecryptIffEncrypt(s: Scheme, f: Fork, ta: seq<byte>, m: seq<byte>, c: seq<byte>, tag: seq<byte>)
    requires s.block > 0 && IsFork(f, s.block) && |ta| == |tag| == s.block
    ensures Decrypt(s, f, ta, c, tag) == Some(m) <==> Encrypt(s, f, ta, m) == (c, tag)
  {
    if |m| == |c| && c != [] {
      DecIffEnc(s, f, ta, [], m, c, tag);
    }
    hide EncFrom, DecFrom;
  }

  // ---- parts of the code that both modes share ----

  /** Copies the last bytes and pads them: 0x80, then zeros. */
  method FillLast(src: seq<byte>, b: nat) returns (r: seq<byte>)
    requires |src| <= b
    ensures r == PadBlock(src, b)
  {
    r := src;
    if |src| < b {
      r := r + [0x80];
      var i := |src| + 1;
      while i < b
        invariant |src| + 1 <= i <= b && r == src + [0x80] + Zeros(i - |src| - 1)
      {
        assert Zeros(i - |src| - 1) + [0] == Zeros(i - |src|);
        r := r + [0];
        i := i + 1;
      }
    }
  }

  /** The padding check after the message bytes. */
  method CheckPadding(out: seq<byte>, n: nat) returns (ok: bool)
    requires n <= |out|
    ensures ok <==> PadOk(out, n)
  {
    if n < |out| && out[n] != 0x80 {
      return false;
    }
    var i := n + 1;
    while i < |out|
      invariant n + 1 <= i && forall k :: n < k < i && k < |out| ==> out[k] == 0
    {
      if out[i] != 0 {
        return false;
      }
      i := i + 1;
    }
    return true;
  }

  /** Whether out ^ other gives the ciphertext back. */
  method CheckCiphertext(out: seq<byte>, other: seq<byte>, c: seq<byte>) returns (ok: bool)
    requires |c| <= |out| == |other|
    ensures ok <==> XorS(out[..|c|], other[..|c|]) == c
  {
    hide XorB;
    var i := 0;
    while i < |c|
      invariant 0 <= i <= |c| && forall k :: 0 <= k < i ==> XorB(out[k], other[k]) == c[k]
    {
      if XorB(out[i], other[i]) != c[i] {
        assert XorS(out[..|c|], other[..|c|])[i] != c[i];
        return false;
      }
      i := i + 1;
    }
    return true;
  }

  /** Compares two blocks byte by byte. */
  method SameBlock(a: seq<byte>, b: seq<byte>) returns (same: bool)
    requires |a| == |b|
    ensures same <==> a == b
  {
    var i := 0;
    while i < |a|
      invariant 0 <= i <= |a| && a[..i] == b[..i]
    {
      if a[i] != b[i] {
        return false;
      }
      i := i + 1;
    }
    return true;
  }

  /** The last block of a decryption: the message bytes if both checks pass. */
  method FinishDecrypt(s: Scheme, f: Fork, tk: seq<byte>, ta: seq<byte>, ghost cs: seq<byte>, c: seq<byte>, tag: seq<byte>)
    returns (ok: bool, m: seq<byte>)
    requires s.block > 0 && IsFork(f, s.block) && |ta| == |tag| == s.block && 0 < |c| <= s.block && tk == s.last(cs, |c| == s.block)
    ensures |m| == |c| && (ok ==> DecFrom(s, f, ta, cs, c, tag) == Some(m))
    ensures !ok ==> DecFrom(s, f, ta, cs, c, tag) == None
  {
    hide XorS, PadOk, PadBlock;
    var x := f.invert(tk, tag);
    var other := f.otherLeg(tk, x);
    var out := XorS(x, ta);
    m := out[..|c|];
    ok := CheckPadding(out, |c|);
    if ok {
      ok := CheckCiphertext(out, other, c);
    }
  }

  /** What is left of an encryption after out has been written. */
  ghost predicate EncPending(s: Scheme, f: Fork, ta0: seq<byte>, m: seq<byte>, pos: nat, ta: seq<byte>, out: seq<byte>)
    requires s.block > 0 && IsFork(f, s.block) && |ta0| == |ta| == s.block && pos < |m|
  {
    var rest := EncFrom(s, f, ta, out, m[pos..]);
    EncFrom(s, f, ta0, [], m) == (out + rest.0, rest.1)
  }

  lemma EncStart(s: Scheme, f: Fork, ta: seq<byte>, m: seq<byte>)
    requires s.block > 0 && IsFork(f, s.block) && |ta| == s.block && 0 < |m|
    ensures EncPending(s, f, ta, m, 0, ta, [])
  {
    hide EncFrom;
    assert m[0..] == m;
    var r := EncFrom(s, f, ta, [], m);
    assert [] + r.0 == r.0;
  }

  /** Encrypting one more whole block. */
  lemma EncStep(s: Scheme, f: Fork, ta0: seq<byte>, m: seq<byte>, pos: nat, ta: seq<byte>, out: seq<byte>, p: seq<byte>, y: seq<byte>)
    requires s.block > 0 && IsFork(f, s.block) && |ta0| == |ta| == s.block && pos + s.block < |m|
    requires EncPending(s, f, ta0, m, pos, ta, out)
    requires p == m[pos..pos + s.block] && y == FirstOut(s, f, ta, out, p)
    ensures EncPending(s, f, ta0, m, pos + s.block, Carry(s, ta, p, y), out + y)
  {
    hide IsFork, EncFrom, Carry, FirstOut;
    var x := m[pos..];
    assert x[..s.block] == p && x[s.block..] == m[pos + s.block..];
    var rest := EncFrom(s, f, Carry(s, ta, p, y), out + y, m[pos + s.block..]);
    EncUnfold(s, f, ta, out, x, p, y, rest);
    assert out + (y + rest.0) == out + y + rest.0;
  }

  lemma EncLast(s: Scheme, f: Fork, ta: seq<byte>, cs: seq<byte>, m: seq<byte>, x: seq<byte>, tk: seq<byte>)
    requires s.block > 0 && IsFork(f, s.block) && |ta| == s.block && 0 < |m| <= s.block
    requires x == XorS(PadBlock(m, s.block), ta) && tk == s.last(cs, |m| == s.block)
    ensures |f.otherLeg(tk, x)| == s.block
    ensures EncFrom(s, f, ta, cs, m) == (XorS(m, f.otherLeg(tk, x)[..|m|]), f.tagLeg(tk, x))
  {
    hide XorS, PadBlock;
  }

  /** Encrypting the last block. */
  lemma EncEnd(s: Scheme, f: Fork, ta0: seq<byte>, m: seq<byte>, pos: nat, ta: seq<byte>, out: seq<byte>, x: seq<byte>, tk: seq<byte>)
    requires s.block > 0 && IsFork(f, s.block) && |ta0| == |ta| == s.block && pos < |m| <= pos + s.block
    requires EncPending(s, f, ta0, m, pos, ta, out)
    requires x == XorS(PadBlock(m[pos..], s.block), ta) && tk == s.last(out, |m| - pos == s.block)
    ensures |f.otherLeg(tk, x)| == s.block
    ensures EncFrom(s, f, ta0, [], m) == (out + XorS(m[pos..], f.otherLeg(tk, x)[..|m| - pos]), f.tagLeg(tk, x))
  {
    hide XorS, PadBlock, IsFork, EncFrom;
    EncLast(s, f, ta, out, m[pos..], x, tk);
  }

  /** What is left of a decryption after out has been recovered. */
  ghost predicate DecPending(s: Scheme, f: Fork, ta0: seq<byte>, c: seq<byte>, tag: seq<byte>, pos: nat, ta: seq<byte>, out: seq<byte>)
    requires s.block > 0 && IsFork(f, s.block) && |ta0| == |ta| == |tag| == s.block && pos < |c|
  {
    DecFrom(s, f, ta0, [], c, tag) == Prepend(out, DecFrom(s, f, ta, c[..pos], c[pos..], tag))
  }

  lemma DecStart(s: Scheme, f: Fork, ta: seq<byte>, c: seq<byte>, tag: seq<byte>)
    requires s.block > 0 && IsFork(f, s.block) && |ta| == |tag| == s.block && 0 < |c|
    ensures DecPending(s, f, ta, c, tag, 0, ta, [])
  {
    hide DecFrom;
    assert c[..0] == [] && c[0..] == c;
    var r := DecFrom(s, f, ta, [], c, tag);
    assert r.Some? ==> [] + r.value == r.value;
  }

  /** Decrypting one more whole block. */
  lemma DecStep(s: Scheme, f: Fork, ta0: seq<byte>, c: seq<byte>, tag: seq<byte>, pos: nat, ta: seq<byte>, out: seq<byte>, y: seq<byte>, p: seq<byte>)
    requires s.block > 0 && IsFork(f, s.block) && |ta0| == |ta| == |tag| == s.block && pos + s.block < |c|
    requires DecPending(s, f, ta0, c, tag, pos, ta, out)
    requires y == c[pos..pos + s.block] && p == FirstIn(s, f, ta, c[..pos], y)
    ensures DecPending(s, f, ta0, c, tag, pos + s.block, Carry(s, ta, p, y), out + p)
  {
    hide IsFork, DecFrom, Carry, FirstIn;
    var z := c[pos..];
    assert z[..s.block] == y && z[s.block..] == c[pos + s.block..] && c[..pos] + y == c[..pos + s.block];
    var back := DecFrom(s, f, Carry(s, ta, p, y), c[..pos + s.block], c[pos + s.block..], tag);
    DecUnfold(s, f, ta, c[..pos], z, tag, p, y, back);
    if back.Some? {
      assert out + (p + back.value) == out + p + back.value;
    }
  }

  /** The last block finishes a decryption. */
  lemma DecEnd(s: Scheme, f: Fork, ta0: seq<byte>, c: seq<byte>, tag: seq<byte>, pos: nat, ta: seq<byte>, out: seq<byte>, r: Option<seq<byte>>)
    requires s.block > 0 && IsFork(f, s.block) && |ta0| == |ta| == |tag| == s.block && pos < |c|
    requires DecPending(s, f, ta0, c, tag, pos, ta, out) && r == DecFrom(s, f, ta, c[..pos], c[pos..], tag)
    ensures DecFrom(s, f, ta0, [], c, tag) == if r.Some? then Some(out + r.value) else None
  {
    hide DecFrom;
  }

  lemma CarryIs(s: Scheme, ta: seq<byte>, p: seq<byte>, y: seq<byte>)
    requires |ta| == |p| == |y|
    ensures Carry(s, ta, p, y) == if s.sumCiphertext then XorS(XorS(ta, p), y) else XorS(ta, p)
  {
    hide XorS;
  }

  /** A block either way round, written out for the code. */
  lemma FirstOutIs(s: Scheme, f: Fork, ta: seq<byte>, cs: seq<byte>, p: seq<byte>)
    requires IsFork(f, s.block) && |ta| == |p| == s.block
    ensures FirstOut(s, f, ta, cs, p) == f.tagLeg(s.tweak(cs), if Mixed(s, cs) then XorS(ta, p) else p)
  {
    hide IsFork, XorS, Mixed;
  }

  lemma FirstInIs(s: Scheme, f: Fork, ta: seq<byte>, cs: seq<byte>, y: seq<byte>)
    requires IsFork(f, s.block) && |ta| == |y| == s.block
    ensures |f.invert(s.tweak(cs), y)| == s.block
    ensures FirstIn(s, f, ta, cs, y) == if Mixed(s, cs) then XorS(f.invert(s.tweak(cs), y), ta) else f.invert(s.tweak(cs), y)
  {
    hide XorS, Mixed;
  }

  /** The additional data, one whole block further. */
  lemma AdStep(f: Fork, b: nat, tweak: nat -> seq<byte>, last: bool -> seq<byte>, i: nat, ta: seq<byte>, ad: seq<byte>, pos: nat)
    requires b > 0 && IsFork(f, b) && |ta| == b && pos + b < |ad|
    ensures |f.tagLeg(tweak(i), ad[pos..pos + b])| == b
    ensures AdFrom(f, b, tweak, last, i, ta, ad[pos..]) == AdFrom(f, b, tweak, last, i + 1, XorS(ta, f.tagLeg(tweak(i), ad[pos..pos + b])), ad[pos + b..])
  {
    hide XorS, PadBlock;
    var x := ad[pos..];
    assert x[..b] == ad[pos..pos + b] && x[b..] == ad[pos + b..];
  }

  /** Its last block. */
  lemma AdEnd(f: Fork, b: nat, tweak: nat -> seq<byte>, last: bool -> seq<byte>, i: nat, ta: seq<byte>, ad: seq<byte>)
    requires b > 0 && IsFork(f, b) && |ta| == b && 0 < |ad| <= b
    ensures |f.tagLeg(last(|ad| == b), PadBlock(ad, b))| == b
    ensures AdFrom(f, b, tweak, last, i, ta, ad) == XorS(ta, f.tagLeg(last(|ad| == b), PadBlock(ad, b)))
  {
    hide XorS, PadBlock;
  }

  /** Whole blocks before the last one, which is never empty. */
  function WholeBlocks(n: nat, b: nat): (k: nat)
    requires b > 0 && n > 0
    ensures k * b < n <= k * b + b
  {
    BlockCount(n, b);
    if n % b == 0 then n / b - 1 else n / b
  }

  lemma BlockCount(n: nat, b: nat)
    requires b > 0 && n > 0
    ensures n % b == 0 ==> n / b > 0
    ensures n == n / b * b + n % b && 0 <= n % b < b && (n / b - 1) * b == n / b * b - b
  {
  }

  /** The block loops: pos is where block i of n bytes starts, with blocks whole ones before the last. */
  ghost predicate At(i: nat, pos: nat, b: nat, blocks: nat, n: nat) {
    pos == i * b && i <= blocks && blocks * b < n <= blocks * b + b
  }

  lemma AtStart(b: nat, blocks: nat, n: nat)
    requires blocks * b < n <= blocks * b + b
    ensures At(0, 0, b, blocks, n)
  {
  }

  lemma AtBounds(i: nat, pos: nat, b: nat, blocks: nat, n: nat)
    requires At(i, pos, b, blocks, n)
    ensures i <= blocks && pos < n
    ensures i < blocks ==> pos + b < n && At(i + 1, pos + b, b, blocks, n)
    ensures i == blocks ==> n <= pos + b
  {
    assert i * b <= blocks * b;
    if i < blocks {
      assert (i + 1) * b == pos + b;
      assert (i + 1) * b <= blocks * b;
    }
  }

  /** The loop over the additional data and its padded last block. */
  method AbsorbAd(f: Fork, b: nat, tweak: nat -> seq<byte>, last: bool -> seq<byte>, ad: seq<byte>) returns (ta: seq<byte>)
    requires b > 0 && IsFork(f, b) && ad != []
    ensures ta == AdFrom(f, b, tweak, last, 0, Zeros(b), ad)
  {
    hide *;
    ta := Zeros(b);
    var blocks := WholeBlocks(|ad|, b);
    var i, pos := 0, 0;
    AtStart(b, blocks, |ad|);
    AtBounds(0, 0, b, blocks, |ad|);
    assert ad[0..] == ad;
    while i < blocks
      invariant At(i, pos, b, blocks, |ad|) && i <= blocks && pos < |ad| && |ta| == b
      invariant AdFrom(f, b, tweak, last, 0, Zeros(b), ad) == AdFrom(f, b, tweak, last, i, ta, ad[pos..])
      decreases blocks - i
    {
      AtBounds(i, pos, b, blocks, |ad|);
      AdStep(f, b, tweak, last, i, ta, ad, pos);
      var adOut := f.tagLeg(tweak(i), ad[pos..pos + b]);
      ta := XorS(ta, adOut);
      i, pos := i + 1, pos + b;
      AtBounds(i, pos, b, blocks, |ad|);
    }
    AtBounds(i, pos, b, blocks, |ad|);
    AdEnd(f, b, tweak, last, i, ta, ad[pos..]);
    var adIn := FillLast(ad[pos..], b);
    ta := XorS(ta, f.tagLeg(last(|ad| - pos == b), adIn));
  }

  lemma XorSSwap(a: seq<byte>, b: seq<byte>, c: seq<byte>)
    requires |a| == |b| == |c|
    ensures XorS(XorS(a, b), c) == XorS(XorS(a, c), b)
  {
    hide XorB;
    forall i | 0 <= i < |a|
      ensures XorS(XorS(a, b), c)[i] == XorS(XorS(a, c), b)[i]
    {
      XorBSwap(a[i], b[i], c[i]);
    }
  }

  // ---- both computations written out, block by block ----

  /** Each whole block of additional data adds its encryption under the tweak of its own number. */
  ghost predicate AdSum(f: Fork, b: nat, tweak: nat -> seq<byte>, ad: seq<byte>, i: nat, ta: seq<byte>, ta': seq<byte>)
    requires i * b + b <= |ad|
  {
    var y := f.tagLeg(tweak(i), ad[i * b..i * b + b]);
    |y| == |ta| && ta' == XorS(ta, y)
  }

  /** The checksum is the sum over the whole blocks, numbered from 0, and the padded last one. */
  lemma AdIsSum(f: Fork, b: nat, tweak: nat -> seq<byte>, last: bool -> seq<byte>, ad: seq<byte>) returns (ts: seq<seq<byte>>)
    requires b > 0 && IsFork(f, b) && ad != []
    ensures |ts| == WholeBlocks(|ad|, b) + 1 && ts[0] == Zeros(b)
    ensures forall i :: 0 <= i < |ts| - 1 ==> i * b + b <= |ad| && AdSum(f, b, tweak, ad, i, ts[i], ts[i + 1])
    ensures var end := ad[WholeBlocks(|ad|, b) * b..]; var y := f.tagLeg(last(|end| == b), PadBlock(end, b));
      |y| == |ts[|ts| - 1]| == b && AdFrom(f, b, tweak, last, 0, Zeros(b), ad) == XorS(ts[|ts| - 1], y)
  {
    hide *;
    ts := [Zeros(b)];
    var blocks := WholeBlocks(|ad|, b);
    var i: nat, pos: nat := 0, 0;
    AtStart(b, blocks, |ad|);
    AtBounds(0, 0, b, blocks, |ad|);
    assert ad[0..] == ad;
    while i < blocks
      invariant At(i, pos, b, blocks, |ad|) && i <= blocks && pos < |ad| && |ts| == i + 1 && ts[0] == Zeros(b) && |ts[i]| == b
      invariant forall j :: 0 <= j < i ==> j * b + b <= |ad| && AdSum(f, b, tweak, ad, j, ts[j], ts[j + 1])
      invariant AdFrom(f, b, tweak, last, 0, Zeros(b), ad) == AdFrom(f, b, tweak, last, i, ts[i], ad[pos..])
      decreases blocks - i
    {
      AtBounds(i, pos, b, blocks, |ad|);
      AdStep(f, b, tweak, last, i, ts[i], ad, pos);
      var t := XorS(ts[i], f.tagLeg(tweak(i), ad[pos..pos + b]));
      AdSumIntro(f, b, tweak, ad, i, pos, ts[i], blocks);
      ts := ts + [t];
      i, pos := i + 1, pos + b;
      AtBounds(i, pos, b, blocks, |ad|);
    }
    AtBounds(i, pos, b, blocks, |ad|);
    AdEnd(f, b, tweak, last, i, ts[i], ad[pos..]);
    AtIs(i, pos, b, blocks, |ad|);
  }

  lemma AtIs(i: nat, pos: nat, b: nat, blocks: nat, n: nat)
    requires At(i, pos, b, blocks, n)
    ensures pos == i * b
  {
  }

  lemma AdSumIntro(f: Fork, b: nat, tweak: nat -> seq<byte>, ad: seq<byte>, i: nat, pos: nat, ta: seq<byte>, blocks: nat)
    requires At(i, pos, b, blocks, |ad|) && pos + b <= |ad| && |f.tagLeg(tweak(i), ad[pos..pos + b])| == |ta|
    ensures i * b + b <= |ad| && AdSum(f, b, tweak, ad, i, ta, XorS(ta, f.tagLeg(tweak(i), ad[pos..pos + b])))
  {
    hide XorS;
  }

  /** Message block i goes to ciphertext block i, with the checksum before and after it. */
  ghost predicate EncBlock(s: Scheme, f: Fork, m: seq<byte>, c: seq<byte>, i: nat, ta: seq<byte>, ta': seq<byte>)
    requires i * s.block + s.block <= |m| && i * s.block + s.block <= |c|
  {
    var p, y, before := m[i * s.block..i * s.block + s.block], c[i * s.block..i * s.block + s.block], c[..i * s.block];
    && |ta| == s.block
    && y == f.tagLeg(s.tweak(before), if s.mixFirst && i == 0 then XorS(ta, p) else p)
    && ta' == if s.sumCiphertext then XorS(XorS(ta, p), y) else XorS(ta, p)
  }

  /** The last block: its padding enters the checksum, one leg masks it and the other is the tag. */
  ghost predicate EncTail(s: Scheme, f: Fork, m: seq<byte>, c: seq<byte>, n: nat, ta: seq<byte>, tag: seq<byte>)
    requires n <= |m| == |c| <= n + s.block
  {
    var end, tk := m[n..], s.last(c[..n], |m| - n == s.block);
    && |ta| == s.block && |f.otherLeg(tk, XorS(PadBlock(end, s.block), ta))| == s.block
    && c[n..] == XorS(end, f.otherLeg(tk, XorS(PadBlock(end, s.block), ta))[..|end|])
    && tag == f.tagLeg(tk, XorS(PadBlock(end, s.block), ta))
  }

  lemma EncBlockIntro(s: Scheme, f: Fork, m: seq<byte>, c: seq<byte>, i: nat, pos: nat, ta: seq<byte>, p: seq<byte>, y: seq<byte>, blocks: nat)
    requires s.block > 0 && IsFork(f, s.block) && At(i, pos, s.block, blocks, |m|) && |c| == pos && pos + s.block <= |m| && |ta| == s.block
    requires p == m[pos..pos + s.block] && y == FirstOut(s, f, ta, c, p)
    ensures |y| == s.block && i * s.block + s.block <= |m| && i * s.block + s.block <= |c + y|
    ensures EncBlock(s, f, m, c + y, i, ta, Carry(s, ta, p, y))
  {
    hide XorS;
    var d := c + y;
    assert d[pos..pos + s.block] == y && d[..pos] == c;
    AtZero(i, pos, s.block);
  }

  lemma AtZero(i: nat, pos: nat, b: nat)
    requires b > 0 && pos == i * b
    ensures i == 0 <==> pos == 0
  {
  }

  lemma EncBlockKept(s: Scheme, f: Fork, m: seq<byte>, c: seq<byte>, i: nat, ta: seq<byte>, ta': seq<byte>, d: seq<byte>)
    requires i * s.block + s.block <= |m| && i * s.block + s.block <= |c|
    ensures EncBlock(s, f, m, c, i, ta, ta') ==> EncBlock(s, f, m, c + d, i, ta, ta')
  {
    hide XorS;
    var n := i * s.block;
    assert (c + d)[n..n + s.block] == c[n..n + s.block] && (c + d)[..n] == c[..n];
  }

  /** The blocks so far, each under the tweak that the ciphertext before it gives. */
  ghost predicate EncChain(s: Scheme, f: Fork, m: seq<byte>, c: seq<byte>, ts: seq<seq<byte>>) {
    forall i :: 0 <= i < |ts| - 1 ==>
      i * s.block + s.block <= |m| && i * s.block + s.block <= |c| && EncBlock(s, f, m, c, i, ts[i], ts[i + 1])
  }

  lemma EncChainNext(s: Scheme, f: Fork, m: seq<byte>, c: seq<byte>, ts: seq<seq<byte>>, y: seq<byte>, t: seq<byte>)
    requires EncChain(s, f, m, c, ts) && |ts| > 0
    requires var i := |ts| - 1; i * s.block + s.block <= |m| && i * s.block + s.block <= |c + y| && EncBlock(s, f, m, c + y, i, ts[i], t)
    ensures EncChain(s, f, m, c + y, ts + [t])
  {
    hide EncBlock;
    forall i | 0 <= i < |ts| - 1
      ensures EncBlock(s, f, m, c + y, i, ts[i], ts[i + 1])
    {
      EncBlockKept(s, f, m, c, i, ts[i], ts[i + 1], y);
    }
  }

  lemma EncChainKept(s: Scheme, f: Fork, m: seq<byte>, c: seq<byte>, ts: seq<seq<byte>>, d: seq<byte>)
    requires EncChain(s, f, m, c, ts)
    ensures EncChain(s, f, m, c + d, ts)
  {
    hide EncBlock;
    forall i | 0 <= i < |ts| - 1
      ensures EncBlock(s, f, m, c + d, i, ts[i], ts[i + 1])
    {
      EncBlockKept(s, f, m, c, i, ts[i], ts[i + 1], d);
    }
  }

  /** Encryption is the chain over the whole blocks, numbered from 0, and the last block. */
  lemma EncIsChain(s: Scheme, f: Fork, ta: seq<byte>, m: seq<byte>) returns (ts: seq<seq<byte>>, c: seq<byte>, tag: seq<byte>)
    requires s.block > 0 && IsFork(f, s.block) && |ta| == s.block && m != []
    ensures EncFrom(s, f, ta, [], m) == (c, tag) && |c| == |m|
    ensures |ts| == WholeBlocks(|m|, s.block) + 1 && ts[0] == ta && EncChain(s, f, m, c, ts)
    ensures EncTail(s, f, m, c, WholeBlocks(|m|, s.block) * s.block, ts[|ts| - 1], tag)
  {
    hide *;
    var b := s.block;
    ts := [ta];
    var out: seq<byte> := [];
    var blocks := WholeBlocks(|m|, b);
    var i: nat, pos: nat := 0, 0;
    AtStart(b, blocks, |m|);
    AtBounds(0, 0, b, blocks, |m|);
    EncStart(s, f, ta, m);
    EncChainNone(s, f, m, ta);
    while i < blocks
      invariant At(i, pos, b, blocks, |m|) && i <= blocks && pos < |m| && |out| == pos && |ts| == i + 1 && ts[0] == ta && |ts[i]| == b
      invariant EncChain(s, f, m, out, ts) && EncPending(s, f, ta, m, pos, ts[i], out)
      decreases blocks - i
    {
      AtBounds(i, pos, b, blocks, |m|);
      var p := m[pos..pos + b];
      var y := FirstOut(s, f, ts[i], out, p);
      EncBlockIntro(s, f, m, out, i, pos, ts[i], p, y, blocks);
      EncStep(s, f, ta, m, pos, ts[i], out, p, y);
      EncChainNext(s, f, m, out, ts, y, Carry(s, ts[i], p, y));
      ts := ts + [Carry(s, ts[i], p, y)];
      out := out + y;
      i, pos := i + 1, pos + b;
      AtBounds(i, pos, b, blocks, |m|);
    }
    AtBounds(i, pos, b, blocks, |m|);
    AtIs(i, pos, b, blocks, |m|);
    var tk := s.last(out, |m| - pos == b);
    var x := XorS(PadBlock(m[pos..], b), ts[i]);
    EncEnd(s, f, ta, m, pos, ts[i], out, x, tk);
    var d := XorS(m[pos..], f.otherLeg(tk, x)[..|m| - pos]);
    c, tag := out + d, f.tagLeg(tk, x);
    EncChainKept(s, f, m, out, ts, d);
    assert c[..pos] == out && c[pos..] == d;
    EncTailIntro(s, f, m, c, pos, ts[i], tk, x);
  }

  lemma EncChainNone(s: Scheme, f: Fork, m: seq<byte>, ta: seq<byte>)
    ensures EncChain(s, f, m, [], [ta])
  {
  }

  lemma EncTailIntro(s: Scheme, f: Fork, m: seq<byte>, c: seq<byte>, n: nat, ta: seq<byte>, tk: seq<byte>, x: seq<byte>)
    requires n <= |m| == |c| <= n + s.block && |ta| == s.block
    requires tk == s.last(c[..n], |m| - n == s.block) && x == XorS(PadBlock(m[n..], s.block), ta)
    requires |f.otherLeg(tk, x)| == s.block && c[n..] == XorS(m[n..], f.otherLeg(tk, x)[..|m| - n])
    ensures EncTail(s, f, m, c, n, ta, f.tagLeg(tk, x))
  {
    hide XorS, PadBlock;
  }
}
