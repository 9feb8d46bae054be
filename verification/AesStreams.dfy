/** The streaming modes CFB128, OFB and CTR: byte loops that can stop and resume anywhere. */
module AesStreams {
  import opened Arith
  import opened Bytes
  import opened Numerals

  datatype Feedback = CfbEncrypt | CfbDecrypt | Ofb

  const BAD_INPUT_DATA := -0x21
  const AES_DECRYPT := 0
  const AES_ENCRYPT := 1

  // ---- the byte-wise state machine ----

  /** Output, feedback register and offset after the bytes x. */
  datatype Result = Result(out: seq<byte>, iv: seq<byte>, n: nat)

  /** The register before byte n is used. */
  ghost function Fresh(e: BlockFunction, iv: seq<byte>, n: nat): (v: seq<byte>)
    requires IsBlockFunction(e) && |iv| == 16
    ensures |v| == 16
  {
    if n == 0 then e(iv) else iv
  }

  /** The register after the byte x went to y. */
  function Fed(mode: Feedback, v: seq<byte>, n: nat, x: byte, y: byte): (r: seq<byte>)
    requires n < |v|
    ensures |r| == |v|
  {
    match mode
    case CfbEncrypt => v[n := y]
    case CfbDecrypt => v[n := x]
    case Ofb => v
  }

  ghost function Run(e: BlockFunction, mode: Feedback, iv: seq<byte>, n: nat, x: seq<byte>): (r: Result)
    requires IsBlockFunction(e) && |iv| == 16 && n < 16
    ensures |r.out| == |x| && |r.iv| == 16 && r.n == (n + |x|) % 16
    decreases |x|
  {
    if x == [] then Result([], iv, n)
    else
      var v := Fresh(e, iv, n);
      var y := XorB(v[n], x[0]);
      var rest := Run(e, mode, Fed(mode, v, n, x[0], y), (n + 1) % 16, x[1..]);
      Result([y] + rest.out, rest.iv, rest.n)
  }

  /** Splitting the input at any byte changes nothing. */
  lemma {:induction false} RunSplit(e: BlockFunction, mode: Feedback, iv: seq<byte>, n: nat, a: seq<byte>, b: seq<byte>)
    requires IsBlockFunction(e) && |iv| == 16 && n < 16
    ensures var r := Run(e, mode, iv, n, a); var s := Run(e, mode, r.iv, r.n, b);
      Run(e, mode, iv, n, a + b) == Result(r.out + s.out, s.iv, s.n)
    decreases |a|
  {
    hide *;
    if a == [] {
      RunEmpty(e, mode, iv, n);
      assert a + b == b;
      var s := Run(e, mode, iv, n, b);
      assert [] + s.out == s.out;
    } else {
      assert (a + b)[1..] == a[1..] + b && (a + b)[0] == a[0];
      var v := Fresh(e, iv, n);
      var y := XorB(v[n], a[0]);
      var w := Fed(mode, v, n, a[0], y);
      RunSplit(e, mode, w, (n + 1) % 16, a[1..], b);
      RunFirst(e, mode, iv, n, a, v, y, w);
      RunFirst(e, mode, iv, n, a + b, v, y, w);
      var r := Run(e, mode, w, (n + 1) % 16, a[1..]);
      var s := Run(e, mode, r.iv, r.n, b);
      assert [y] + (r.out + s.out) == [y] + r.out + s.out;
    }
  }

  lemma RunEmpty(e: BlockFunction, mode: Feedback, iv: seq<byte>, n: nat)
    requires IsBlockFunction(e) && |iv| == 16 && n < 16
    ensures Run(e, mode, iv, n, []) == Result([], iv, n)
  {
  }

  lemma RunFirst(e: BlockFunction, mode: Feedback, iv: seq<byte>, n: nat, x: seq<byte>, v: seq<byte>, y: byte, w: seq<byte>)
    requires IsBlockFunction(e) && |iv| == 16 && n < 16 && x != []
    requires v == Fresh(e, iv, n) && y == XorB(v[n], x[0]) && w == Fed(mode, v, n, x[0], y)
    ensures var rest := Run(e, mode, w, (n + 1) % 16, x[1..]); Run(e, mode, iv, n, x) == Result([y] + rest.out, rest.iv, rest.n)
  {
    hide XorB, Fed, Fresh;
  }

  /** From the same state, CFB decryption undoes CFB encryption and reaches the same state. */
  lemma {:induction false} CfbInverse(e: BlockFunction, iv: seq<byte>, n: nat, x: seq<byte>)
    requires IsBlockFunction(e) && |iv| == 16 && n < 16
    ensures var r := Run(e, CfbEncrypt, iv, n, x); Run(e, CfbDecrypt, iv, n, r.out) == Result(x, r.iv, r.n)
    decreases |x|
  {
    hide XorB;
    if x != [] {
      var v := Fresh(e, iv, n);
      var y := XorB(v[n], x[0]);
      CfbInverse(e, v[n := y], (n + 1) % 16, x[1..]);
      XorBCommutes(v[n], x[0]);
      XorBTwice(x[0], v[n]);
      XorBCommutes(y, v[n]);
      var r := Run(e, CfbEncrypt, iv, n, x);
      assert r.out[1..] == Run(e, CfbEncrypt, v[n := y], (n + 1) % 16, x[1..]).out;
    }
  }

  /** OFB is its own inverse. */
  lemma {:induction false} OfbInverse(e: BlockFunction, iv: seq<byte>, n: nat, x: seq<byte>)
    requires IsBlockFunction(e) && |iv| == 16 && n < 16
    ensures var r := Run(e, Ofb, iv, n, x); Run(e, Ofb, iv, n, r.out) == Result(x, r.iv, r.n)
    decreases |x|
  {
    hide XorB;
    if x != [] {
      var v := Fresh(e, iv, n);
      var y := XorB(v[n], x[0]);
      OfbInverse(e, v, (n + 1) % 16, x[1..]);
      XorBCommutes(v[n], x[0]);
      XorBTwice(x[0], v[n]);
      XorBCommutes(y, v[n]);
      var r := Run(e, Ofb, iv, n, x);
      assert r.out[1..] == Run(e, Ofb, v, (n + 1) % 16, x[1..]).out;
    }
  }

  // ---- the modes block by block: SP 800-38A, sections 6.3 and 6.4 ----

  /** CFB with 128-bit segments; the last one may be short. */
  ghost function CfbBlocks(e: BlockFunction, iv: seq<byte>, x: seq<byte>): (y: seq<byte>)
    requires IsBlockFunction(e) && |iv| == 16
    ensures |y| == |x|
    decreases |x|
  {
    if |x| < 16 then XorS(e(iv)[..|x|], x)
    else
      var c := XorS(e(iv), x[..16]);
      c + CfbBlocks(e, c, x[16..])
  }

  ghost function OfbBlocks(e: BlockFunction, iv: seq<byte>, x: seq<byte>): (y: seq<byte>)
    requires IsBlockFunction(e) && |iv| == 16
    ensures |y| == |x|
    decreases |x|
  {
    if |x| < 16 then XorS(e(iv)[..|x|], x)
    else XorS(e(iv), x[..16]) + OfbBlocks(e, e(iv), x[16..])
  }

  /** Block j of CFB: the encrypted ciphertext block before it, or register, under the data. */
  lemma {:induction false} CfbBlock(e: BlockFunction, iv: seq<byte>, x: seq<byte>, j: nat)
    requires IsBlockFunction(e) && |iv| == 16 && 16 * j + 16 <= |x|
    ensures var y := CfbBlocks(e, iv, x); var before := if j == 0 then iv else y[16 * j - 16..16 * j];
      |e(before)| == 16 && y[16 * j..16 * j + 16] == XorS(x[16 * j..16 * j + 16], e(before))
    decreases j
  {
    hide XorS;
    var y, c := CfbBlocks(e, iv, x), XorS(e(iv), x[..16]);
    if j == 0 {
      XorSOrder(e(iv), x[..16]);
      assert y[0..16] == c && x[0..16] == x[..16];
    } else {
      CfbBlock(e, c, x[16..], j - 1);
      var n := 16 * (j - 1);
      assert y[..16] == c && y[16..] == CfbBlocks(e, c, x[16..]);
      assert y[16..][n..n + 16] == y[16 * j..16 * j + 16] && x[16..][n..n + 16] == x[16 * j..16 * j + 16];
      if j > 1 {
        assert y[16..][n - 16..n] == y[16 * j - 16..16 * j];
      }
    }
  }

  /** The key stream of OFB: the register encrypted j times. */
  ghost function Encrypted(e: BlockFunction, iv: seq<byte>, j: nat): (v: seq<byte>)
    requires IsBlockFunction(e) && |iv| == 16
    ensures |v| == 16
  {
    if j == 0 then iv else e(Encrypted(e, iv, j - 1))
  }

  lemma {:induction false} EncryptedFirst(e: BlockFunction, iv: seq<byte>, j: nat)
    requires IsBlockFunction(e) && |iv| == 16
    ensures |e(iv)| == 16 && Encrypted(e, e(iv), j) == Encrypted(e, iv, j + 1)
  {
    if j > 0 {
      EncryptedFirst(e, iv, j - 1);
    }
  }

  /** Byte i of OFB. */
  lemma {:induction false} OfbByte(e: BlockFunction, iv: seq<byte>, x: seq<byte>, i: nat)
    requires IsBlockFunction(e) && |iv| == 16 && i < |x|
    ensures OfbBlocks(e, iv, x)[i] == XorB(x[i], Encrypted(e, iv, i / 16 + 1)[i % 16])
    decreases i
  {
    hide XorB;
    EncryptedFirst(e, iv, i / 16);
    if i < 16 {
      XorBCommutes(x[i], e(iv)[i]);
    } else {
      OfbByte(e, e(iv), x[16..], i - 16);
    }
  }

  lemma XorSOrder(a: seq<byte>, b: seq<byte>)
    requires |a| == |b|
    ensures XorS(a, b) == XorS(b, a)
  {
    hide XorB;
    forall i | 0 <= i < |a|
      ensures XorS(a, b)[i] == XorS(b, a)[i]
    {
      XorBCommutes(a[i], b[i]);
    }
  }

  lemma RunOne(e: BlockFunction, mode: Feedback, iv: seq<byte>, n: nat, b: byte)
    requires IsBlockFunction(e) && |iv| == 16 && n < 16
    ensures var v := Fresh(e, iv, n); var y := XorB(v[n], b);
      Run(e, mode, iv, n, [b]) == Result([y], Fed(mode, v, n, b, y), (n + 1) % 16)
  {
    hide XorB, Fed;
    assert [b][1..] == [];
  }

  /** The register after m bytes of a block: cipher bytes so far, then the rest of the key stream. */
  function Mixed(mode: Feedback, k: seq<byte>, y: seq<byte>): (r: seq<byte>)
    requires |y| <= |k| == 16
    ensures |r| == 16
  {
    if mode == Ofb then k else y + k[|y|..]
  }

  lemma MixedStep(mode: Feedback, k: seq<byte>, y: seq<byte>, x: byte, b: byte)
    requires |y| < |k| == 16 && mode != CfbDecrypt
    ensures Mixed(mode, k, y)[|y|] == k[|y|] && Fed(mode, Mixed(mode, k, y), |y|, x, b) == Mixed(mode, k, y + [b])
  {
  }

  lemma KeyStreamSnoc(k: seq<byte>, x: seq<byte>, b: byte)
    requires |x| < |k|
    ensures XorS(k[..|x|], x) + [XorB(k[|x|], b)] == XorS(k[..|x| + 1], x + [b])
  {
    hide XorB;
  }

  /** The first bytes of a block: the key stream is the encrypted register. */
  lemma {:induction false} FirstBytes(e: BlockFunction, mode: Feedback, iv: seq<byte>, x: seq<byte>)
    requires IsBlockFunction(e) && |iv| == 16 && 0 < |x| <= 16 && mode != CfbDecrypt
    ensures var y := XorS(e(iv)[..|x|], x); Run(e, mode, iv, 0, x) == Result(y, Mixed(mode, e(iv), y), |x| % 16)
    decreases |x|
  {
    hide *;
    FreshIs(e, iv, 0);
    var k, m := e(iv), |x| - 1;
    var h, b := x[..m], x[m];
    assert x == h + [b];
    var z := XorS(k[..m], h);
    if m > 0 {
      FirstBytes(e, mode, iv, h);
      RunSplit(e, mode, iv, 0, h, [b]);
      MixedStep(mode, k, z, b, XorB(k[m], b));
      FreshIs(e, Mixed(mode, k, z), m);
      RunOne(e, mode, Mixed(mode, k, z), m, b);
    } else {
      RunOne(e, mode, iv, 0, b);
      assert h == [] && z == [];
      MixedNone(mode, k);
      MixedStep(mode, k, [], b, XorB(k[0], b));
      assert [] + [XorB(k[0], b)] == [XorB(k[0], b)];
    }
    KeyStreamSnoc(k, h, b);
  }

  lemma MixedNone(mode: Feedback, k: seq<byte>)
    requires |k| == 16
    ensures Mixed(mode, k, []) == k
  {
  }

  lemma FreshIs(e: BlockFunction, iv: seq<byte>, n: nat)
    requires IsBlockFunction(e) && |iv| == 16
    ensures Fresh(e, iv, n) == (if n == 0 then e(iv) else iv) && |e(iv)| == 16
  {
  }

  /** The byte loop computes the standard's CFB. */
  lemma {:induction false} RunIsCfb(e: BlockFunction, iv: seq<byte>, x: seq<byte>)
    requires IsBlockFunction(e) && |iv| == 16
    ensures Run(e, CfbEncrypt, iv, 0, x).out == CfbBlocks(e, iv, x)
    decreases |x|
  {
    hide XorB, XorS, Run;
    if x == [] {
      RunEmpty(e, CfbEncrypt, iv, 0);
      XorSNone(e(iv)[..0], x);
    } else if |x| < 16 {
      FirstBytes(e, CfbEncrypt, iv, x);
    } else {
      var c := XorS(e(iv), x[..16]);
      assert x == x[..16] + x[16..] && e(iv)[..16] == e(iv);
      FirstBytes(e, CfbEncrypt, iv, x[..16]);
      assert c + e(iv)[16..] == c;
      RunSplit(e, CfbEncrypt, iv, 0, x[..16], x[16..]);
      RunIsCfb(e, c, x[16..]);
    }
  }

  /** The byte loop computes the standard's OFB. */
  lemma {:induction false} RunIsOfb(e: BlockFunction, iv: seq<byte>, x: seq<byte>)
    requires IsBlockFunction(e) && |iv| == 16
    ensures Run(e, Ofb, iv, 0, x).out == OfbBlocks(e, iv, x)
    decreases |x|
  {
    hide XorB, XorS, Run;
    if x == [] {
      RunEmpty(e, Ofb, iv, 0);
      XorSNone(e(iv)[..0], x);
    } else if |x| < 16 {
      FirstBytes(e, Ofb, iv, x);
    } else {
      assert x == x[..16] + x[16..] && e(iv)[..16] == e(iv);
      FirstBytes(e, Ofb, iv, x[..16]);
      RunSplit(e, Ofb, iv, 0, x[..16], x[16..]);
      RunIsOfb(e, e(iv), x[16..]);
    }
  }

  lemma XorSNone(a: seq<byte>, b: seq<byte>)
    requires a == b == []
    ensures XorS(a, b) == []
  {
  }

  /** mbedtls_aes_crypt_cfb128: encrypt or decrypt, keeping register and offset for the next call. */
  method CryptCfb128(e: BlockFunction, operation: int, ivOff: nat, iv: array<byte>, input: seq<byte>)
    returns (ret: int, ivOff': nat, output: seq<byte>)
    requires IsBlockFunction(e) && iv.Length == 16
    modifies iv
    ensures ret == if (operation != AES_ENCRYPT && operation != AES_DECRYPT) || ivOff > 15 then BAD_INPUT_DATA else 0
    ensures ret == 0 ==>
      Result(output, iv[..], ivOff') == Run(e, if operation == AES_ENCRYPT then CfbEncrypt else CfbDecrypt, old(iv[..]), ivOff, input)
    ensures ret != 0 ==> iv[..] == old(iv[..]) && ivOff' == ivOff && output == []
  {
    if operation != AES_ENCRYPT && operation != AES_DECRYPT {
      return BAD_INPUT_DATA, ivOff, [];
    }
    var encrypt := operation == AES_ENCRYPT;
    if ivOff > 15 {
      return BAD_INPUT_DATA, ivOff, [];
    }
    hide *;
    ghost var mode := if encrypt then CfbEncrypt else CfbDecrypt;
    var n: nat, i: nat := ivOff, 0;
    output := [];
    RunEmpty(e, mode, iv[..], n);
    assert input[..0] == [];
    while i < |input|
      invariant 0 <= i <= |input| && n < 16
      invariant Result(output, iv[..], n) == Run(e, mode, old(iv[..]), ivOff, input[..i])
    {
      ghost var v0 := iv[..];
      FreshIs(e, v0, n);
      RunNext(e, mode, old(iv[..]), ivOff, input, i);
      if n == 0 {
        Store(iv, e(iv[..]));
      }
      FedIs(mode, iv[..], n, input[i], XorB(iv[n], input[i]));
      var c := XorB(iv[n], input[i]);
      output := output + [c];
      iv[n] := if encrypt then c else input[i];
      n := (n + 1) % 16;
      i := i + 1;
    }
    assert input[..i] == input;
    return 0, n, output;
  }

  lemma FedIs(mode: Feedback, v: seq<byte>, n: nat, x: byte, y: byte)
    requires n < |v|
    ensures mode == CfbEncrypt ==> Fed(mode, v, n, x, y) == v[n := y]
    ensures mode == CfbDecrypt ==> Fed(mode, v, n, x, y) == v[n := x]
    ensures mode == Ofb ==> Fed(mode, v, n, x, y) == v
  {
  }

  lemma RunNext(e: BlockFunction, mode: Feedback, iv: seq<byte>, n: nat, x: seq<byte>, i: nat)
    requires IsBlockFunction(e) && |iv| == 16 && n < 16 && i < |x|
    ensures var r := Run(e, mode, iv, n, x[..i]); var v := Fresh(e, r.iv, r.n); var y := XorB(v[r.n], x[i]);
      Run(e, mode, iv, n, x[..i + 1]) == Result(r.out + [y], Fed(mode, v, r.n, x[i], y), (r.n + 1) % 16)
  {
    hide *;
    assert x[..i + 1] == x[..i] + [x[i]];
    RunSplit(e, mode, iv, n, x[..i], [x[i]]);
    var r := Run(e, mode, iv, n, x[..i]);
    RunOne(e, mode, r.iv, r.n, x[i]);
  }

  method Store(a: array<byte>, s: seq<byte>)
    requires a.Length == |s|
    modifies a
    ensures a[..] == s
  {
    var i := 0;
    while i < |s|
      invariant 0 <= i <= |s| && a[..i] == s[..i]
    {
      a[i] := s[i];
      i := i + 1;
    }
  }

  /** mbedtls_aes_crypt_ofb. */
  method CryptOfb(e: BlockFunction, ivOff: nat, iv: array<byte>, input: seq<byte>) returns (ret: int, ivOff': nat, output: seq<byte>)
    requires IsBlockFunction(e) && iv.Length == 16
    modifies iv
    ensures ret == if ivOff > 15 then BAD_INPUT_DATA else 0
    ensures ret == 0 ==> Result(output, iv[..], ivOff') == Run(e, Ofb, old(iv[..]), ivOff, input)
  {
    if ivOff > 15 {
      return BAD_INPUT_DATA, ivOff, [];
    }
    hide *;
    var n: nat, i: nat := ivOff, 0;
    output := [];
    RunEmpty(e, Ofb, iv[..], n);
    assert input[..0] == [];
    while i < |input|
      invariant 0 <= i <= |input| && n < 16
      invariant Result(output, iv[..], n) == Run(e, Ofb, old(iv[..]), ivOff, input[..i])
    {
      FreshIs(e, iv[..], n);
      RunNext(e, Ofb, old(iv[..]), ivOff, input, i);
      if n == 0 {
        Store(iv, e(iv[..]));
      }
      FedIs(Ofb, iv[..], n, input[i], XorB(iv[n], input[i]));
      output := output + [XorB(iv[n], input[i])];
      n := (n + 1) % 16;
      i := i + 1;
    }
    assert input[..i] == input;
    return 0, n, output;
  }

  // ---- counter mode ----

  /** The counter block plus k, modulo 2^128. */
  function CtrAdd(t: seq<byte>, k: nat): (c: seq<byte>)
    ensures |c| == 16
  {
    Digits(NumVal(t, 256) + k, 256, 16)
  }

  /** Key-stream byte i from counter block t on. */
  ghost function KeyAt(e: BlockFunction, t: seq<byte>, i: nat): byte
    requires IsBlockFunction(e)
  {
    e(CtrAdd(t, i / 16))[i % 16]
  }

  ghost function CtrOut(e: BlockFunction, t: seq<byte>, pos: nat, x: seq<byte>): (y: seq<byte>)
    requires IsBlockFunction(e)
    ensures |y| == |x|
  {
    seq(|x|, i requires 0 <= i < |x| => XorB(x[i], KeyAt(e, t, pos + i)))
  }

  /** Counter mode undoes itself from the same position. */
  lemma CtrInverse(e: BlockFunction, t: seq<byte>, pos: nat, x: seq<byte>)
    requires IsBlockFunction(e)
    ensures CtrOut(e, t, pos, CtrOut(e, t, pos, x)) == x
  {
    hide XorB, KeyAt;
    var y := CtrOut(e, t, pos, x);
    forall i | 0 <= i < |x|
      ensures CtrOut(e, t, pos, y)[i] == x[i]
    {
      XorBTwice(x[i], KeyAt(e, t, pos + i));
    }
  }

  /** Only the low digits count. */
  lemma {:induction false} DigitsAbove(m: nat, b: nat, k: nat, q: nat)
    requires b >= 2
    ensures m + q * Pow(b, k) >= 0 && Digits(m + q * Pow(b, k), b, k) == Digits(m, b, k)
  {
    PowPos(b, k);
    MulMonotone(Pow(b, k), 0, q);
    if k > 0 {
      PowPos(b, k - 1);
      DigitsAbove(m / b, b, k - 1, q);
      DigitAbove(m, b, q, Pow(b, k - 1));
    }
  }

  lemma DigitAbove(m: nat, b: nat, q: nat, p: nat)
    requires b >= 2
    ensures (m + q * (b * p)) / b == m / b + q * p && (m + q * (b * p)) % b == m % b
  {
    DivMod(m, b);
    MulAssoc(q, p, b);
    MulCommutes(b, p);
    Distribute(m / b, q * p, b);
    DivModUnique(m + q * (b * p), b, m / b + q * p, m % b);
  }

  /** The counter after one more step. */
  lemma CtrNext(t: seq<byte>, k: nat)
    ensures CtrAdd(CtrAdd(t, k), 1) == CtrAdd(t, k + 1)
  {
    hide Digits, NumVal, Pow;
    var m, p := NumVal(t, 256) + k, Pow(256, 16);
    PowPos(256, 16);
    DivMod(m, p);
    DigitsAbove(m % p, 256, 16, m / p);
    DigitsValue(m % p, 256, 16);
    DigitsAbove(m % p + 1, 256, 16, m / p);
  }

  /** The bytes from j on have wrapped to zero; those below still take the carry. */
  ghost predicate Wrapped(cur: seq<byte>, c: seq<byte>, j: nat) {
    && |cur| == |c| == 16 && j <= 16 && cur[..j] == c[..j]
    && CtrAdd(c, 1) == Digits(NumVal(c[..j], 256) + 1, 256, j) + cur[j..]
  }

  lemma WrappedStart(c: seq<byte>)
    requires |c| == 16
    ensures Wrapped(c, c, 16)
  {
    hide Digits, NumVal;
    assert c[..16] == c && c[16..] == [];
  }

  /** The byte d = ++cur[j - 1]: done if it is not zero, else the carry goes on. */
  lemma WrappedStep(cur: seq<byte>, c: seq<byte>, j: nat, d: byte)
    requires Wrapped(cur, c, j) && j > 0 && d == Inc(cur[j - 1])
    ensures d != 0 ==> cur[j - 1 := d] == CtrAdd(c, 1)
    ensures d == 0 ==> Wrapped(cur[j - 1 := d], c, j - 1)
  {
    hide CtrAdd, NumVal, Digits;
    var h, b := c[..j - 1], c[j - 1];
    assert c[..j] == h + [b] && cur[j - 1] == cur[..j][j - 1] == b;
    NumValSnoc(h, b, 256);
    DigitsLast(NumVal(h, 256) * 256 + b + 1, j);
    var next := cur[j - 1 := d];
    assert next[j - 1..] == [d] + cur[j..];
    assert next[..j - 1] == cur[..j][..j - 1] == h;
    if d != 0 {
      DivModUnique(NumVal(h, 256) * 256 + b + 1, 256, NumVal(h, 256), b + 1);
      DigitsOfValue(h, 256);
      assert next == h + [d] + cur[j..];
    } else {
      DivModUnique(NumVal(h, 256) * 256 + b + 1, 256, NumVal(h, 256) + 1, 0);
      var ds := Digits(NumVal(h, 256) + 1, 256, j - 1);
      assert ds + [d] + cur[j..] == ds + ([d] + cur[j..]);
    }
  }

  lemma DigitsLast(v: nat, j: nat)
    requires j > 0
    ensures Digits(v, 256, j) == Digits(v / 256, 256, j - 1) + [v % 256]
  {
  }

  lemma WrappedAll(cur: seq<byte>, c: seq<byte>)
    requires Wrapped(cur, c, 0)
    ensures cur == CtrAdd(c, 1)
  {
    hide CtrAdd, NumVal;
    assert cur[0..] == cur;
    assert [] + cur == cur;
  }

  /** The counter loop: all sixteen bytes may carry. */
  method IncCounter(c: array<byte>)
    requires c.Length == 16
    modifies c
    ensures c[..] == CtrAdd(old(c[..]), 1)
  {
    hide *;
    ghost var c0 := c[..];
    WrappedStart(c0);
    var i := 16;
    while i > 0
      invariant 0 <= i <= 16 && Wrapped(c[..], c0, i)
    {
      ghost var cur := c[..];
      var d := Inc(c[i - 1]);
      IncZero(d);
      WrappedStep(cur, c0, i, d);
      c[i - 1] := d;
      assert c[..] == cur[i - 1 := d];
      if d != 0 {
        return;
      }
      i := i - 1;
    }
    WrappedAll(c[..], c0);
  }

  lemma IncZero(d: byte)
    ensures 0 <= d < 256
  {
  }

  /** The three things kept between calls: next counter block, current key-stream block, offset. */
  ghost predicate CtrState(e: BlockFunction, t: seq<byte>, pos: nat, counter: seq<byte>, stream: seq<byte>, n: nat) {
    && IsBlockFunction(e) && |counter| == |stream| == 16 && n == pos % 16
    && counter == CtrAdd(t, (pos + 15) / 16)
    && (n > 0 ==> stream == e(CtrAdd(t, pos / 16)))
  }

  lemma CtrStart(e: BlockFunction, t: seq<byte>, stream: seq<byte>)
    requires IsBlockFunction(e) && |t| == |stream| == 16
    ensures CtrState(e, t, 0, t, stream, 0)
  {
    hide NumVal, Digits;
    DigitsOfValue(t, 256);
  }

  /** One byte further, with the stream block renewed at block boundaries. */
  lemma CtrByte(e: BlockFunction, t: seq<byte>, pos: nat, counter: seq<byte>, stream: seq<byte>, n: nat)
    requires CtrState(e, t, pos, counter, stream, n)
    ensures |e(counter)| == 16
    ensures var s := if n == 0 then e(counter) else stream; var c := if n == 0 then CtrAdd(counter, 1) else counter;
      s[n] == KeyAt(e, t, pos) && CtrState(e, t, pos + 1, c, s, (n + 1) % 16)
  {
    hide CtrAdd;
    if n == 0 {
      BlockStart(pos);
      CtrNext(t, pos / 16);
    } else {
      BlockMiddle(pos);
    }
  }

  lemma BlockStart(pos: nat)
    requires pos % 16 == 0
    ensures (pos + 15) / 16 == pos / 16 == (pos + 1) / 16 && (pos + 1 + 15) / 16 == pos / 16 + 1 && (pos + 1) % 16 == 1
  {
  }

  lemma BlockMiddle(pos: nat)
    requires pos % 16 > 0
    ensures (pos + 1 + 15) / 16 == (pos + 15) / 16 && (pos + 1) % 16 == (pos % 16 + 1) % 16
    ensures (pos + 1) % 16 > 0 ==> (pos + 1) / 16 == pos / 16
  {
  }

  /** The key-stream byte at the position, with a new block and counter at block boundaries. */
  method NextKeyByte(e: BlockFunction, n: nat, counter: array<byte>, stream: array<byte>, ghost t: seq<byte>, ghost pos: nat)
    returns (k: byte, n': nat)
    requires IsBlockFunction(e) && counter.Length == stream.Length == 16 && counter != stream && n < 16
    requires CtrState(e, t, pos, counter[..], stream[..], n)
    modifies counter, stream
    ensures n' < 16 && k == KeyAt(e, t, pos) && CtrState(e, t, pos + 1, counter[..], stream[..], n')
  {
    hide *;
    CtrByte(e, t, pos, counter[..], stream[..], n);
    if n == 0 {
      Store(stream, e(counter[..]));
      IncCounter(counter);
    }
    k, n' := stream[n], (n + 1) % 16;
  }

  /** mbedtls_aes_crypt_ctr: any call continues the stream at the position the last one reached. */
  method CryptCtr(e: BlockFunction, ncOff: nat, counter: array<byte>, stream: array<byte>, input: seq<byte>, ghost t: seq<byte>, ghost pos: nat)
    returns (ret: int, ncOff': nat, output: seq<byte>)
    requires IsBlockFunction(e) && counter.Length == stream.Length == 16 && counter != stream
    requires ncOff <= 15 ==> CtrState(e, t, pos, counter[..], stream[..], ncOff)
    modifies counter, stream
    ensures ret == if ncOff > 15 then BAD_INPUT_DATA else 0
    ensures ret == 0 ==> output == CtrOut(e, t, pos, input) && CtrState(e, t, pos + |input|, counter[..], stream[..], ncOff')
  {
    if ncOff > 15 {
      return BAD_INPUT_DATA, ncOff, [];
    }
    hide *;
    var n: nat, i: nat := ncOff, 0;
    output := [];
    CtrOutNone(e, t, pos);
    assert input[..0] == [];
    ghost var p := pos;
    while i < |input|
      invariant 0 <= i <= |input| && n < 16 && p == pos + i
      invariant output == CtrOut(e, t, pos, input[..i])
      invariant CtrState(e, t, p, counter[..], stream[..], n)
    {
      var k, n' := NextKeyByte(e, n, counter, stream, t, p);
      CtrOutNext(e, t, pos, input, i, p, k);
      output := output + [XorB(input[i], k)];
      n := n';
      i := i + 1;
      p := p + 1;
    }
    assert input[..i] == input;
    return 0, n, output;
  }

  /** Any split of the input, from a fresh state, gives the key stream of the whole. */
  method AnyCtrSplit(e: BlockFunction, nonceCounter: seq<byte>, inputs: seq<seq<byte>>) returns (ret: int, output: seq<byte>)
    requires IsBlockFunction(e) && |nonceCounter| == 16
    ensures ret == 0 && output == CtrOut(e, nonceCounter, 0, Concat(inputs))
    ensures forall i :: 0 <= i < |output| ==>
      output[i] == XorB(Concat(inputs)[i], e(Digits(NumVal(nonceCounter, 256) + i / 16, 256, 16))[i % 16])
  {
    hide *;
    var counter, stream := new byte[16], new byte[16];
    Store(counter, nonceCounter);
    CtrStart(e, nonceCounter, stream[..]);
    var n: nat, i: nat := 0, 0;
    ret, output := 0, [];
    ghost var done: seq<byte> := [];
    CtrOutNone(e, nonceCounter, 0);
    ConcatNone();
    assert inputs[..0] == [];
    while i < |inputs|
      invariant 0 <= i <= |inputs| && ret == 0 && done == Concat(inputs[..i])
      invariant output == CtrOut(e, nonceCounter, 0, done)
      invariant CtrState(e, nonceCounter, |done|, counter[..], stream[..], n)
    {
      CtrOffset(e, nonceCounter, |done|, counter[..], stream[..], n);
      var piece;
      CtrOutAppend(e, nonceCounter, done, inputs[i]);
      ConcatSnoc(inputs, i);
      ret, n, piece := CryptCtr(e, n, counter, stream, inputs[i], nonceCounter, |done|);
      output := output + piece;
      done := done + inputs[i];
      i := i + 1;
    }
    assert inputs[..i] == inputs;
    forall i | 0 <= i < |output|
      ensures |e(Digits(NumVal(nonceCounter, 256) + i / 16, 256, 16))| == 16
      ensures output[i] == XorB(done[i], e(Digits(NumVal(nonceCounter, 256) + i / 16, 256, 16))[i % 16])
    {
      CtrOutByte(e, nonceCounter, done, i);
    }
  }

  /** Byte i of counter mode: the counter block of its block, as a number modulo 2^128. */
  lemma CtrOutByte(e: BlockFunction, t: seq<byte>, x: seq<byte>, i: nat)
    requires IsBlockFunction(e) && i < |x|
    ensures |e(Digits(NumVal(t, 256) + i / 16, 256, 16))| == 16
    ensures |CtrOut(e, t, 0, x)| == |x| && CtrOut(e, t, 0, x)[i] == XorB(x[i], e(Digits(NumVal(t, 256) + i / 16, 256, 16))[i % 16])
  {
    hide XorB, Digits, NumVal;
  }

  lemma CtrOffset(e: BlockFunction, t: seq<byte>, pos: nat, counter: seq<byte>, stream: seq<byte>, n: nat)
    requires CtrState(e, t, pos, counter, stream, n)
    ensures n <= 15
  {
  }

  lemma CtrOutAppend(e: BlockFunction, t: seq<byte>, x: seq<byte>, z: seq<byte>)
    requires IsBlockFunction(e)
    ensures CtrOut(e, t, 0, x + z) == CtrOut(e, t, 0, x) + CtrOut(e, t, |x|, z)
  {
    hide XorB, KeyAt;
  }

  lemma CtrOutNone(e: BlockFunction, t: seq<byte>, pos: nat)
    requires IsBlockFunction(e)
    ensures CtrOut(e, t, pos, []) == []
  {
  }

  lemma CtrOutNext(e: BlockFunction, t: seq<byte>, pos: nat, x: seq<byte>, i: nat, p: nat, k: byte)
    requires IsBlockFunction(e) && i < |x| && p == pos + i && k == KeyAt(e, t, p)
    ensures CtrOut(e, t, pos, x[..i + 1]) == CtrOut(e, t, pos, x[..i]) + [XorB(x[i], k)]
  {
    hide *;
    assert x[..i + 1] == x[..i] + [x[i]];
    CtrOutSnoc(e, t, pos, x[..i], x[i]);
  }

  lemma CtrOutSnoc(e: BlockFunction, t: seq<byte>, pos: nat, x: seq<byte>, b: byte)
    requires IsBlockFunction(e)
    ensures CtrOut(e, t, pos, x + [b]) == CtrOut(e, t, pos, x) + [XorB(b, KeyAt(e, t, pos + |x|))]
  {
    hide XorB, KeyAt;
  }
}
