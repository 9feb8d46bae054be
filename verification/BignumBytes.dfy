/** Reading and writing limbs as byte strings, in both byte orders. */
module BignumBytes {
  import opened Arith
  import opened BignumCore
  import opened Limbs
  import opened Numerals

  type octet = x: nat | x < 256

  const BUFFER_TOO_SMALL := -0x8

  /** Bytes of a limb. */
  const LIMB_BYTES: nat := LIMB_BITS / 8

  /** 256^i. */
  function P(i: nat): (r: nat)
    ensures r > 0
  {
    PowPos(256, i);
    Pow(256, i)
  }

  lemma PStep(i: nat)
    ensures P(i + 1) == 256 * P(i) && P(0) == 1
  {
  }

  lemma PAdd(i: nat, j: nat)
    ensures P(i + j) == P(i) * P(j)
  {
    PowAdd(256, i, j);
  }

  lemma PGrows(i: nat, j: nat)
    requires i <= j
    ensures P(i) <= P(j)
  {
    PowMonotone(256, i, j);
  }

  lemma ByteFacts()
    ensures LIMB_BYTES > 0 && LIMB_BITS == 8 * LIMB_BYTES && BASE == P(LIMB_BYTES)
  {
    BaseFacts();
    PowAdd(2, LOG_BITS - 3, 3);
    assert Pow(2, 3) == 8 && Pow(2, 8) == 256;
    DivModUnique(LIMB_BITS, 8, Pow(2, LOG_BITS - 3), 0);
    PowPos(2, LOG_BITS - 3);
    PowPow(2, 8, LIMB_BYTES);
  }

  lemma LimbsAreBytes(j: nat)
    ensures j * LIMB_BYTES >= 0 && Pb(j) == P(j * LIMB_BYTES)
  {
    ByteFacts();
    PowPow(256, LIMB_BYTES, j);
    MulCommutes(j, LIMB_BYTES);
  }

  /** Byte i of a number. */
  function ByteOf(v: nat, i: nat): octet {
    v / P(i) % 256
  }

  /** GET_BYTE. */
  function GetByte(x: seq<limb>, i: nat): octet
    requires LIMB_BYTES > 0 && i / LIMB_BYTES < |x|
  {
    ByteOf(x[i / LIMB_BYTES], i % LIMB_BYTES)
  }

  lemma ByteOfSum(x: nat, hi: nat, k: nat, c: nat)
    requires k < c
    ensures ByteOf(x + P(c) * hi, k) == ByteOf(x, k)
  {
    hide P, Pow;
    PAdd(k, c - k);
    PStep(c - k - 1);
    var p, m := P(k), P(c - k - 1) * hi;
    DivMod(x, p);
    Regroup(p, P(c - k - 1), hi);
    Distribute(x / p, 256 * m, p);
    DivModUnique(x + P(c) * hi, p, x / p + 256 * m, x % p);
    SameByte(x / p, m);
  }

  lemma Regroup(p: int, q: int, h: int)
    ensures p * (256 * q) * h == 256 * (q * h) * p
  {
  }

  lemma SameByte(x: int, m: int)
    ensures (x + 256 * m) % 256 == x % 256
  {
  }

  /** GET_BYTE reads bytes of the whole number. */
  lemma GetByteIs(x: seq<limb>, i: nat)
    requires LIMB_BYTES > 0 && i / LIMB_BYTES < |x|
    ensures GetByte(x, i) == ByteOf(Val(x), i)
  {
    hide *;
    var j, k := i / LIMB_BYTES, i % LIMB_BYTES;
    DivMod(i, LIMB_BYTES);
    ByteFacts();
    LimbsAreBytes(j);
    ValSplit(x, j);
    ValHead(x[j..]);
    ValBound(x[..j]);
    var w := x[j] as int + BASE * Val(x[j..][1..]);
    assert x[j..][0] == x[j];
    MulCommutes(Pb(j), w);
    DivModUnique(Val(x), Pb(j), w, Val(x[..j]));
    PAdd(j * LIMB_BYTES, k);
    ByteAbove(Val(x), Pb(j), w, i, k);
    ByteOfSum(x[j], Val(x[j..][1..]), k, LIMB_BYTES);
    GetByteOf(x, i);
  }

  lemma GetByteOf(x: seq<limb>, i: nat)
    requires LIMB_BYTES > 0 && i / LIMB_BYTES < |x|
    ensures GetByte(x, i) == ByteOf(x[i / LIMB_BYTES], i % LIMB_BYTES)
  {
  }

  lemma ByteAbove(v: nat, p: nat, w: nat, i: nat, k: nat)
    requires p > 0 && v / p == w && P(i) == p * P(k)
    ensures ByteOf(v, i) == ByteOf(w, k)
  {
    hide P;
    DivDiv(v, p, P(k));
  }

  // ---- sizes ----

  /** Zero bytes above n mean a number of n bytes, and conversely. */
  lemma {:induction false} HighBytesZero(v: nat, n: nat, m: nat)
    requires n <= m && v < P(m) && forall i :: n <= i < m ==> ByteOf(v, i) == 0
    ensures v < P(n)
    decreases m
  {
    if n < m {
      var p := P(m - 1);
      PStep(m - 1);
      assert ByteOf(v, m - 1) == 0;
      hide P;
      DivMod(v, p);
      MulCancelLt(v / p, 256, p);
      HighBytesZero(v, n, m - 1);
    }
  }

  lemma NonZeroByte(v: nat, n: nat, i: nat)
    requires n <= i && ByteOf(v, i) != 0
    ensures v >= P(n)
  {
    PGrows(n, i);
    if v < P(i) {
      DivModUnique(v, P(i), 0, v);
    }
  }

  lemma BytesAboveZero(v: nat, n: nat, i: nat)
    requires n <= i && v < P(n)
    ensures ByteOf(v, i) == 0
  {
    PGrows(n, i);
    DivModUnique(v, P(i), 0, v);
  }

  lemma {:induction false} LowAt(v: nat, k: nat, i: nat)
    requires i < k
    ensures Low(v, 256, k)[i] == ByteOf(v, i)
  {
    if i > 0 {
      LowAt(v / 256, k - 1, i - 1);
      DivDiv(v, 256, P(i - 1));
      PStep(i - 1);
    } else {
      PStep(0);
    }
  }

  /** The limbs above the output must be zero: otherwise the number does not fit. */
  method FitsIn(A: array<limb>, n: nat, stored: nat) returns (fits: bool)
    requires LIMB_BYTES > 0 && stored == A.Length * LIMB_BYTES && n <= stored
    ensures fits <==> Val(A[..]) < P(n)
  {
    hide *;
    var i := n;
    while i < stored
      invariant n <= i <= stored && forall t :: n <= t < i ==> ByteOf(Val(A[..]), t) == 0
    {
      WithinLimbs(i, A.Length);
      GetByteIs(A[..], i);
      if GetByte(A[..], i) != 0 {
        NonZeroByte(Val(A[..]), n, i);
        return false;
      }
      i := i + 1;
    }
    ValBound(A[..]);
    LimbsAreBytes(A.Length);
    HighBytesZero(Val(A[..]), n, stored);
    return true;
  }

  lemma WithinLimbs(i: nat, n: nat)
    requires LIMB_BYTES > 0 && i < n * LIMB_BYTES
    ensures i / LIMB_BYTES < n
  {
    DivMod(i, LIMB_BYTES);
    MulCancelLt(i / LIMB_BYTES, n, LIMB_BYTES);
  }

  /** mbedtls_mpi_core_write_le. */
  method WriteLe(A: array<limb>, output: array<octet>) returns (ret: int)
    modifies output
    ensures ret == if Val(A[..]) < P(output.Length) then 0 else BUFFER_TOO_SMALL
    ensures ret == 0 ==> output[..] == Low(Val(A[..]), 256, output.Length)
  {
    hide Val, Pb, P, Pow, ByteOf, GetByte, LIMB_BYTES, Low, Digits;
    ByteFacts();
    var n := output.Length;
    var stored: nat := A.Length * LIMB_BYTES;
    ghost var v := Val(A[..]);
    ValBound(A[..]);
    LimbsAreBytes(A.Length);
    var copied := n;
    if stored < n {
      copied := stored;
      PGrows(stored, n);
    } else {
      var fits := FitsIn(A, n, stored);
      if !fits {
        return BUFFER_TOO_SMALL;
      }
    }
    var i := 0;
    while i < copied
      invariant i <= copied && forall t :: 0 <= t < i ==> output[t] == ByteOf(v, t)
    {
      WithinLimbs(i, A.Length);
      GetByteIs(A[..], i);
      output[i] := GetByte(A[..], i);
      i := i + 1;
    }
    while i < n
      invariant copied <= i <= n && (i == n || copied == stored) && forall t :: 0 <= t < i ==> output[t] == ByteOf(v, t)
    {
      BytesAboveZero(v, stored, i);
      output[i] := 0;
      i := i + 1;
    }
    forall t | 0 <= t < n
      ensures output[t] == Low(v, 256, n)[t]
    {
      LowAt(v, n, t);
    }
    return 0;
  }

  /** Byte q of the big-endian form of n bytes. */
  function BeByte(v: nat, n: nat, q: nat): octet
    requires q < n
  {
    ByteOf(v, n - 1 - q)
  }

  lemma BeByteIs(v: nat, n: nat, q: nat)
    requires q < n
    ensures BeByte(v, n, q) == ByteOf(v, n - 1 - q) == Digits(v, 256, n)[q]
  {
    LowReversed(v, 256, n, q);
    LowAt(v, n, n - 1 - q);
  }

  /** mbedtls_mpi_core_write_be. */
  method WriteBe(X: array<limb>, output: array<octet>) returns (ret: int)
    modifies output
    ensures ret == if Val(X[..]) < P(output.Length) then 0 else BUFFER_TOO_SMALL
    ensures ret == 0 ==> output[..] == Digits(Val(X[..]), 256, output.Length)
  {
    hide Val, Pb, P, Pow, ByteOf, GetByte, LIMB_BYTES, Low, Digits, BeByte;
    ByteFacts();
    var n := output.Length;
    var stored: nat := X.Length * LIMB_BYTES;
    ghost var v := Val(X[..]);
    ValBound(X[..]);
    LimbsAreBytes(X.Length);
    var copied: nat, start: nat := n, 0;
    if stored < n {
      copied, start := stored, n - stored;
      PGrows(stored, n);
      LeadingZeros(output, start, v, stored);
    } else {
      var fits := FitsIn(X, n, stored);
      if !fits {
        return BUFFER_TOO_SMALL;
      }
    }
    var i := 0;
    while i < copied
      invariant i <= copied && start + copied == n && X.Length * LIMB_BYTES == stored && copied <= stored
      invariant forall q :: 0 <= q < start || n - i <= q < n ==> output[q] == BeByte(v, n, q)
    {
      WithinLimbs(i, X.Length);
      GetByteIs(X[..], i);
      BeByteIs(v, n, n - 1 - i);
      output[start + copied - i - 1] := GetByte(X[..], i);
      i := i + 1;
    }
    forall q | 0 <= q < n
      ensures output[q] == Digits(v, 256, n)[q]
    {
      BeByteIs(v, n, q);
    }
    return 0;
  }

  method LeadingZeros(output: array<octet>, start: nat, ghost v: nat, ghost stored: nat)
    requires start + stored == output.Length && v < P(stored)
    modifies output
    ensures forall q :: 0 <= q < start ==> output[q] == BeByte(v, output.Length, q)
  {
    hide *;
    var j := 0;
    while j < start
      invariant 0 <= j <= start && forall q :: 0 <= q < j ==> output[q] == BeByte(v, output.Length, q)
    {
      BytesAboveZero(v, stored, output.Length - 1 - j);
      BeByteIs(v, output.Length, j);
      output[j] := 0;
      j := j + 1;
    }
  }

  // ---- reading ----

  /** A byte string as a number, least significant byte first. */
  function LeVal(s: seq<octet>): nat {
    if s == [] then 0 else LeVal(s[..|s| - 1]) + s[|s| - 1] * P(|s| - 1)
  }

  lemma {:induction false} LeValBound(s: seq<octet>)
    ensures LeVal(s) < P(|s|)
  {
    if s == [] {
      PStep(0);
    } else {
      var n := |s| - 1;
      LeValBound(s[..n]);
      PStep(n);
      MulMonotone(P(n), s[n], 255);
    }
  }

  lemma {:induction false} LeValCons(s: seq<octet>)
    requires s != []
    ensures LeVal(s) == s[0] + 256 * LeVal(s[1..])
  {
    var n := |s| - 1;
    if n == 0 {
      PStep(0);
      assert s[..0] == [] && s[1..] == [];
    } else {
      LeValCons(s[..n]);
      assert s[..n][1..] == s[1..][..n - 1] && s[1..][n - 1] == s[n];
      PStep(n - 1);
      MulAssoc(s[n], 256, P(n - 1));
      MulCommutes(s[n], 256);
      MulAssoc(256, s[n], P(n - 1));
    }
  }

  /** Writing what was read gives the bytes back, least significant first. */
  lemma {:induction false} LeRoundTrip(s: seq<octet>)
    ensures Low(LeVal(s), 256, |s|) == s
  {
    if s != [] {
      LeValCons(s);
      DivModUnique(LeVal(s), 256, LeVal(s[1..]), s[0]);
      LeRoundTrip(s[1..]);
      hide LeVal;
    }
  }

  /** CHARS_TO_LIMBS. */
  function CharsToLimbs(n: nat): nat
    requires LIMB_BYTES > 0
  {
    n / LIMB_BYTES + if n % LIMB_BYTES != 0 then 1 else 0
  }

  lemma CharsFit(n: nat, limbs: nat)
    requires LIMB_BYTES > 0
    ensures CharsToLimbs(n) <= limbs <==> n <= limbs * LIMB_BYTES
  {
    DivMod(n, LIMB_BYTES);
    Distribute(n / LIMB_BYTES, 1, LIMB_BYTES);
    if CharsToLimbs(n) <= limbs {
      MulMonotone(LIMB_BYTES, CharsToLimbs(n), limbs);
    } else {
      MulMonotone(LIMB_BYTES, limbs + 1, CharsToLimbs(n));
      MulMonotone(LIMB_BYTES, limbs, n / LIMB_BYTES);
      Distribute(limbs, 1, LIMB_BYTES);
    }
  }

  /** One byte joins its limb: nothing overlaps. */
  lemma ReadStep(x: seq<limb>, i: nat, d: octet)
    requires LIMB_BYTES > 0 && i / LIMB_BYTES < |x| && Val(x) < P(i)
    ensures var j, k := i / LIMB_BYTES, i % LIMB_BYTES;
      0 <= x[j] + d * P(k) < BASE && Val(x[j := x[j] + d * P(k)]) == Val(x) + d * P(i)
  {
    hide *;
    var j, k := i / LIMB_BYTES, i % LIMB_BYTES;
    ByteFacts();
    DivMod(i, LIMB_BYTES);
    LimbsAreBytes(j);
    PAdd(j * LIMB_BYTES, k);
    ValSplit(x, j);
    ValHead(x[j..]);
    assert x[j..][0] == x[j];
    LimbPart(x[j], Val(x[j..][1..]), Pb(j), Val(x[..j]), P(k), BASE);
    ByteFits(x[j], d, k);
    ValPut(x, j, x[j] + d * P(k));
    MulCommutes(Pb(j), P(k));
    MulAssoc(d, P(k), Pb(j));
  }

  lemma LimbPart(d: nat, hi: nat, p: nat, low: nat, q: nat, b: nat)
    requires p > 0 && low + p * (d + b * hi) < p * q
    ensures d < q
  {
    MulCommutes(p, d + b * hi);
    MulCommutes(p, q);
    MulCancelLt(d + b * hi, q, p);
    MulMonotone(hi, 0, b);
  }

  lemma ByteFits(x: nat, d: octet, k: nat)
    requires x < P(k) && k < LIMB_BYTES && BASE == P(LIMB_BYTES)
    ensures 0 <= x + d * P(k) < BASE
  {
    PStep(k);
    PGrows(k + 1, LIMB_BYTES);
    MulMonotone(P(k), d, 255);
    MulMonotone(P(k), 0, d);
  }

  /** mbedtls_mpi_core_read_le. */
  method ReadLe(X: array<limb>, input: seq<octet>) returns (ret: int)
    modifies X
    ensures LIMB_BYTES > 0 && ret == if |input| <= X.Length * LIMB_BYTES then 0 else BUFFER_TOO_SMALL
    ensures ret == 0 ==> Val(X[..]) == LeVal(input)
  {
    hide Val, Pb, P, Pow, LIMB_BYTES, LeVal, CharsToLimbs;
    ByteFacts();
    CharsFit(|input|, X.Length);
    if X.Length < CharsToLimbs(|input|) {
      return BUFFER_TOO_SMALL;
    }
    ClearAll(X);
    assert input[..0] == [];
    LeNone();
    var i := 0;
    while i < |input|
      invariant 0 <= i <= |input| && Val(X[..]) == LeVal(input[..i])
    {
      WithinLimbs(i, X.Length);
      LeValBound(input[..i]);
      ghost var x := X[..];
      ReadStep(x, i, input[i]);
      LeValSnoc(input[..i], input[i]);
      assert input[..i + 1] == input[..i] + [input[i]];
      var j := i / LIMB_BYTES;
      var t: limb := X[j] + input[i] * P(i % LIMB_BYTES);
      X[j] := t;
      assert X[..] == x[j := t];
      i := i + 1;
    }
    assert input[..i] == input;
    return 0;
  }

  lemma LeNone()
    ensures LeVal([]) == 0
  {
  }

  lemma LeValSnoc(s: seq<octet>, d: octet)
    ensures LeVal(s + [d]) == LeVal(s) + d * P(|s|)
  {
    assert (s + [d])[..|s|] == s;
  }

  method ClearAll(X: array<limb>)
    modifies X
    ensures Val(X[..]) == 0
  {
    hide Val;
    BasePos();
    var i := 0;
    while i < X.Length
      invariant 0 <= i <= X.Length && forall k :: 0 <= k < i ==> X[k] == 0
    {
      X[i] := 0;
      i := i + 1;
    }
    ValZeros(X[..]);
  }

  // ---- big-endian reading: a copy into memory, then byte and limb reversal ----

  /** The limb that a little-endian host reads from c bytes of memory. */
  lemma HostLimb(s: seq<octet>)
    requires |s| == LIMB_BYTES
    ensures LeVal(s) < BASE
  {
    ByteFacts();
    LeValBound(s);
  }

  /** mpi_bigendian_to_host_c: the bytes of a limb in reverse. */
  method BigendianToHost(a: limb) returns (r: limb)
    ensures r == NumVal(Low(a, 256, LIMB_BYTES), 256)
  {
    hide *;
    ByteFacts();
    ghost var ds := Low(a, 256, LIMB_BYTES);
    r := 0;
    BasePos();
    LowBytes(a, LIMB_BYTES);
    NumValNothing(ds);
    PStep(0);
    var i := 0;
    while i < LIMB_BYTES
      invariant 0 <= i <= LIMB_BYTES && r == NumVal(ds[..i], 256) && r < P(i)
    {
      LowAt(a, LIMB_BYTES, i);
      PStep(i);
      PGrows(i + 1, LIMB_BYTES);
      assert ds[..i + 1] == ds[..i] + [ds[i]];
      NumValSnoc(ds[..i], ds[i], 256);
      r := r * 256 + ByteOf(a, i);
      i := i + 1;
    }
    assert ds[..i] == ds;
  }

  lemma NumValNothing(ds: seq<nat>)
    ensures NumVal(ds[..0], 256) == 0
  {
  }

  lemma {:induction false} LowBytes(v: nat, k: nat)
    ensures forall i :: 0 <= i < k ==> Low(v, 256, k)[i] < 256
  {
    forall i | 0 <= i < k
      ensures Low(v, 256, k)[i] < 256
    {
      LowAt(v, k, i);
    }
  }

  /** The bytes of limb j in memory. */
  function Chunk(mem: seq<octet>, j: nat): (s: seq<octet>)
    ensures |s| == LIMB_BYTES
  {
    ChunkBounds(j);
    if j * LIMB_BYTES + LIMB_BYTES <= |mem| then mem[j * LIMB_BYTES..j * LIMB_BYTES + LIMB_BYTES] else seq(LIMB_BYTES, _ => 0)
  }

  lemma ChunkBounds(j: nat)
    ensures 0 <= j * LIMB_BYTES
  {
  }

  lemma ChunkWithin(j: nat, n: nat)
    requires j < n
    ensures 0 <= j * LIMB_BYTES && j * LIMB_BYTES + LIMB_BYTES <= n * LIMB_BYTES
  {
    MulMonotone(LIMB_BYTES, j + 1, n);
    Distribute(j, 1, LIMB_BYTES);
    ChunkBounds(j);
  }

  lemma ChunkOfHead(mem: seq<octet>, head: seq<octet>, n: nat, j: nat)
    requires j < n && n * LIMB_BYTES == |head| <= |mem| && head == mem[..|head|]
    ensures Chunk(head, j) == Chunk(mem, j)
  {
    ChunkWithin(j, n);
  }

  lemma LastChunk(mem: seq<octet>, n: nat)
    requires |mem| == (n + 1) * LIMB_BYTES
    ensures 0 <= n * LIMB_BYTES <= |mem| && mem == mem[..n * LIMB_BYTES] + Chunk(mem, n)
  {
    ChunkWithin(n, n + 1);
    Distribute(n, 1, LIMB_BYTES);
  }

  /** The limbs of memory from the last chunk to the first have the big-endian value. */
  lemma {:induction false} BigEndianLimbs(mem: seq<octet>, x: seq<limb>)
    requires |mem| == |x| * LIMB_BYTES && forall j: nat :: j < |x| ==> x[|x| - 1 - j] == NumVal(Chunk(mem, j), 256)
    ensures Val(x) == NumVal(mem, 256)
    decreases |x|
  {
    hide Val, NumVal, Chunk, LIMB_BYTES;
    if x == [] {
      NothingRead(mem);
      ValEmpty(x);
    } else {
      var n := |x| - 1;
      LastChunk(mem, n);
      var head := mem[..n * LIMB_BYTES];
      forall j: nat | j < n
        ensures x[1..][n - 1 - j] == NumVal(Chunk(head, j), 256)
      {
        ChunkOfHead(mem, head, n, j);
        assert x[1..][n - 1 - j] == x[|x| - 1 - j];
      }
      BigEndianLimbs(head, x[1..]);
      assert x[|x| - 1 - n] == NumVal(Chunk(mem, n), 256);
      BigEndianJoin(mem, head, Chunk(mem, n), x);
    }
  }

  lemma NothingRead(mem: seq<octet>)
    requires |mem| == 0 * LIMB_BYTES
    ensures NumVal(mem, 256) == 0
  {
  }

  lemma BigEndianJoin(mem: seq<octet>, head: seq<octet>, last: seq<octet>, x: seq<limb>)
    requires x != [] && |last| == LIMB_BYTES && mem == head + last && x[0] == NumVal(last, 256) && Val(x[1..]) == NumVal(head, 256)
    ensures Val(x) == NumVal(mem, 256)
  {
    hide *;
    ValHead(x);
    NumValAppend(head, last, 256);
    ByteFacts();
    PIs(LIMB_BYTES);
    MulCommutes(BASE, Val(x[1..]));
  }

  lemma PIs(i: nat)
    ensures P(i) == Pow(256, i)
  {
  }

  /** Limbs l to r are as the host reads them, the others as they must become. */
  ghost predicate Reversing(X: seq<limb>, mem: seq<octet>, l: nat, r: int) {
    && (forall q: nat :: l <= q <= r && q < |X| ==> X[q] == LeVal(Chunk(mem, q)))
    && (forall q: nat :: (q < l || r < q) && q < |X| ==> X[q] == NumVal(Chunk(mem, |X| - 1 - q), 256))
  }

  lemma ReversingStep(X: seq<limb>, mem: seq<octet>, l: nat, r: nat, a: limb, b: limb)
    requires Reversing(X, mem, l, r) && l <= r < |X| && l + r == |X| - 1
    requires a == NumVal(Low(X[r], 256, LIMB_BYTES), 256) && b == NumVal(Low(X[l], 256, LIMB_BYTES), 256)
    ensures Reversing(X[l := a][r := b], mem, l + 1, r - 1)
  {
    hide LeVal, NumVal, Low, Chunk, LIMB_BYTES;
    LeRoundTrip(Chunk(mem, l));
    LeRoundTrip(Chunk(mem, r));
  }

  lemma ReversingDone(X: seq<limb>, mem: seq<octet>, l: nat, r: int)
    requires Reversing(X, mem, l, r) && l > r && |mem| == |X| * LIMB_BYTES
    ensures Val(X) == NumVal(mem, 256)
  {
    hide Val, NumVal, LeVal, Chunk, LIMB_BYTES;
    forall j: nat | j < |X|
      ensures X[|X| - 1 - j] == NumVal(Chunk(mem, j), 256)
    {
      var q: nat := |X| - 1 - j;
      assert q < l || r < q;
    }
    BigEndianLimbs(mem, X);
  }

  /** The bytes of memory seen as limbs of a little-endian host. */
  method LoadHost(X: array<limb>, mem: seq<octet>)
    modifies X
    ensures Reversing(X[..], mem, 0, X.Length - 1)
  {
    hide LeVal, NumVal, Chunk, LIMB_BYTES;
    var j := 0;
    while j < X.Length
      invariant 0 <= j <= X.Length && forall q: nat :: q < j ==> X[q] == LeVal(Chunk(mem, q))
    {
      HostLimb(Chunk(mem, j));
      var t: limb := LeVal(Chunk(mem, j));
      X[j] := t;
      j := j + 1;
    }
  }

  /** mbedtls_mpi_core_bigendian_to_host: bytes within limbs and the limbs themselves are reversed. */
  method ReverseLimbs(X: array<limb>, ghost mem: seq<octet>)
    requires Reversing(X[..], mem, 0, X.Length - 1) && |mem| == X.Length * LIMB_BYTES
    modifies X
    ensures Val(X[..]) == NumVal(mem, 256)
  {
    hide *;
    var left: nat, right: int := 0, X.Length - 1;
    while left <= right
      invariant left + right == X.Length - 1 && -1 <= right < X.Length && Reversing(X[..], mem, left, right)
      decreases right + 1
    {
      ghost var x := X[..];
      var tmp := BigendianToHost(X[left]);
      var other := BigendianToHost(X[right]);
      ReversingStep(x, mem, left, right, other, tmp);
      X[left] := other;
      X[right] := tmp;
      assert X[..] == x[left := other][right := tmp];
      left, right := left + 1, right - 1;
    }
    ReversingDone(X[..], mem, left, right);
  }

  /** mbedtls_mpi_core_read_be. */
  method ReadBe(X: array<limb>, input: seq<octet>) returns (ret: int)
    modifies X
    ensures LIMB_BYTES > 0 && ret == if |input| <= X.Length * LIMB_BYTES then 0 else BUFFER_TOO_SMALL
    ensures ret == 0 ==> Val(X[..]) == NumVal(input, 256)
  {
    hide Val, Pb, P, Pow, LIMB_BYTES, NumVal, CharsToLimbs, Chunk, LeVal;
    ByteFacts();
    CharsFit(|input|, X.Length);
    if X.Length < CharsToLimbs(|input|) {
      return BUFFER_TOO_SMALL;
    }
    var overhead: nat := X.Length * LIMB_BYTES - |input|;
    var mem: seq<octet> := seq(overhead, _ => 0) + input;
    LeadingZeroBytes(overhead, input);
    LoadHost(X, mem);
    ReverseLimbs(X, mem);
    return 0;
  }

  lemma {:induction false} LeadingZeroBytes(k: nat, s: seq<octet>)
    ensures NumVal(seq(k, _ => 0) + s, 256) == NumVal(s, 256)
  {
    var z := seq(k, _ => 0);
    ZeroValue(k);
    NumValAppend(z, s, 256);
  }

  lemma {:induction false} ZeroValue(k: nat)
    ensures NumVal(seq(k, _ => 0), 256) == 0
  {
    if k > 0 {
      ZeroValue(k - 1);
      assert seq(k, _ => 0)[..k - 1] == seq(k - 1, _ => 0);
    }
  }

  /** Reading and then writing as many bytes gives the input back, in either order. */
  method ReadThenWrite(X: array<limb>, input: seq<octet>, output: array<octet>, bigEndian: bool) returns (ret: int)
    requires output.Length == |input|
    modifies X, output
    ensures LIMB_BYTES > 0 && ret == if |input| <= X.Length * LIMB_BYTES then 0 else BUFFER_TOO_SMALL
    ensures ret == 0 ==> output[..] == input
  {
    hide Val, P, LIMB_BYTES, NumVal, LeVal, Low, Digits;
    if bigEndian {
      ret := ReadBe(X, input);
      if ret == 0 {
        NumValBound(input, 256);
        PIs(|input|);
        DigitsOfValue(input, 256);
        ret := WriteBe(X, output);
      }
    } else {
      ret := ReadLe(X, input);
      if ret == 0 {
        LeValBound(input);
        LeRoundTrip(input);
        ret := WriteLe(X, output);
      }
    }
  }
}
