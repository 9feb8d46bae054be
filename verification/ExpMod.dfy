/** Sliding-window modular exponentiation. */
module ExpMod {
  import opened Arith
  import opened Limbs
  import opened BignumCore
  import opened BignumMod
  import opened BignumMpi
  import opened Montgomery

  const BAD_INPUT_DATA := -0x4
  const MAX_BITS := 8192
  const MAX_WINDOW := 6

  function WindowSize(bits: nat): (w: nat)
    ensures 1 <= w <= MAX_WINDOW
  {
    if bits > 671 then 6 else if bits > 239 then 5 else if bits > 79 then 4 else if bits > 23 then 3 else 1
  }

  // ---- powers in Montgomery form ----

  /** A^h * R mod N. */
  function PowRep(av: nat, h: nat, nv: nat, n: nat): (r: nat)
    requires nv > 0
    ensures r < nv
  {
    ToRep(Pow(av, h), nv, n)
  }

  lemma PowRepMul(av: nat, g: nat, h: nat, nv: nat, n: nat)
    requires nv % 2 == 1
    ensures MontProd(PowRep(av, g, nv, n), PowRep(av, h, nv, n), nv, n) == PowRep(av, g + h, nv, n)
  {
    hide MontProd, ToRep;
    MontProdOfReps(Pow(av, g), Pow(av, h), nv, n);
    PowAdd(av, g, h);
  }

  lemma FromRepOfToRep(v: int, nv: nat, n: nat)
    requires nv % 2 == 1
    ensures FromRep(ToRep(v, nv, n), nv, n) == v % nv
  {
    hide Pb, RInv, FromRep;
    CongMod(v, nv);
    CongMul(v % nv, v, Pb(n), Pb(n), nv);
    assert ToRep(v % nv, nv, n) == ToRep(v, nv, n);
    DivMod(v, nv);
    RepRoundTrip(v % nv, nv, n);
  }

  /** The first table entry may come from A mod N. */
  lemma BaseEntry(av: nat, nv: nat, n: nat, rr: nat)
    requires nv % 2 == 1 && rr == Pb(n) * Pb(n) % nv
    ensures MontProd(av % nv, rr, nv, n) == PowRep(av, 1, nv, n)
    ensures MontProd(av, rr, nv, n) == PowRep(av, 1, nv, n)
    ensures MontProd(rr, 1, nv, n) == PowRep(av, 0, nv, n)
  {
    hide Pb, RInv, MontProd, FromRep;
    MontProdByRR(av % nv, rr, nv, n);
    MontProdByRR(av, rr, nv, n);
    CongMod(av, nv);
    CongMul(av % nv, av, Pb(n), Pb(n), nv);
    assert Pow(av, 1) == av * Pow(av, 0) && Pow(av, 0) == 1;
    MontProdByOne(rr, nv, n);
    assert rr == ToRep(Pb(n), nv, n);
    FromRepOfToRep(Pb(n), nv, n);
    assert 1 * Pb(n) == Pb(n);
  }

  // ---- the bits of the exponent ----

  lemma TopEnds(e: seq<limb>)
    ensures Shr(Val(e), |e| * LIMB_BITS) == 0
    ensures Shr(Val(e), 0) == Val(e)
  {
    hide Val;
    PowPow(2, LIMB_BITS, |e|);
    ValBound(e);
    DivModUnique(Val(e), Pb(|e|), 0, Val(e));
  }

  lemma ParityOfShift(x: nat, hi: nat, k: nat, bits: nat)
    requires k < bits
    ensures (x + Pow2(bits) * hi) / Pow2(k) % 2 == x / Pow2(k) % 2
  {
    hide *;
    PowAddTwo(k, bits - k - 1);
    var p, m := Pow2(k), Pow2(bits - k - 1) * hi;
    DivMod(x, p);
    TwiceProduct(p, Pow2(bits - k - 1), hi);
    Distribute(x / p, 2 * m, p);
    DivModUnique(x + Pow2(bits) * hi, p, x / p + 2 * m, x % p);
    EvenPart(x / p, m);
  }

  lemma TwiceProduct(p: int, c: int, h: int)
    ensures 2 * (p * c) * h == (2 * (c * h)) * p
  {
  }

  lemma PowAddTwo(k: nat, m: nat)
    ensures Pow2(k + m + 1) == 2 * (Pow2(k) * Pow2(m))
  {
    PowAdd(2, k, m);
  }

  /** Dropping b limbs and then k bits. */
  lemma TopOfLimbs(e: seq<limb>, b: nat, k: nat)
    requires b < |e|
    ensures Shr(Val(e), b * LIMB_BITS + k) == (e[b] + BASE * Val(e[b..][1..])) / Pow2(k)
  {
    hide Val, Pb, Pow2;
    ValSplit(e, b);
    ValHead(e[b..]);
    ValBound(e[..b]);
    var w := e[b] as int + BASE * Val(e[b..][1..]);
    assert Val(e) == w * Pb(b) + Val(e[..b]) by { MulCommutes(Pb(b), w); }
    DivModUnique(Val(e), Pb(b), w, Val(e[..b]));
    PbIsPow2(b);
    PowTwoAdd(b * LIMB_BITS, k);
    DivDiv(Val(e), Pow2(b * LIMB_BITS), Pow2(k));
  }

  /** Bit k of limb b is bit b * biL + k of the number. */
  lemma BitOfLimb(e: seq<limb>, b: nat, k: nat)
    requires b < |e| && k < LIMB_BITS
    ensures Shr(Val(e), b * LIMB_BITS + k) % 2 == e[b] / Pow2(k) % 2
  {
    hide Val, Pow2, Shr;
    TopOfLimbs(e, b, k);
    ParityOfShift(e[b], Val(e[b..][1..]), k, LIMB_BITS);
  }

  /** The exponent above bit k of limb b. */
  function ReadBits(v: nat, b: nat, k: nat): (p: nat) {
    assert b * LIMB_BITS >= 0;
    Shr(v, b * LIMB_BITS + k)
  }

  lemma ReadEnds(e: seq<limb>)
    ensures ReadBits(Val(e), |e|, 0) == 0 && ReadBits(Val(e), 0, 0) == Val(e)
  {
    hide Val, Shr;
    TopEnds(e);
  }

  lemma ReadLimb(v: nat, b: nat)
    ensures ReadBits(v, b, LIMB_BITS) == ReadBits(v, b + 1, 0)
  {
    hide Shr;
    LimbAbove(b);
  }

  lemma ReadNext(e: seq<limb>, b: nat, k: nat)
    requires b < |e| && k < LIMB_BITS
    ensures ReadBits(Val(e), b, k) == 2 * ReadBits(Val(e), b, k + 1) + e[b] / Pow2(k) % 2
  {
    hide Val, Shr, Pow2;
    BitOfLimb(e, b, k);
    ShrStep(Val(e), b * LIMB_BITS + k);
  }

  // ---- products of powers in limbs ----

  /** The limbs of X hold A^h in Montgomery form. */
  ghost predicate IsRep(X: array<limb>, av: nat, h: nat, N: array<limb>)
    reads X, N
  {
    0 < N.Length <= X.Length && Val(N[..]) > 0 && Val(X[..]) == PowRep(av, h, Val(N[..]), N.Length)
  }

  lemma RepFacts(X: array<limb>, av: nat, h: nat, N: array<limb>)
    requires IsRep(X, av, h, N)
    ensures 0 < N.Length <= X.Length && Val(N[..]) > 0
    ensures Val(X[..]) == PowRep(av, h, Val(N[..]), N.Length) < Val(N[..]) < Pb(N.Length)
  {
    hide Val, Pb, PowRep;
    ValBound(N[..]);
  }

  lemma RepIntro(X: array<limb>, av: nat, h: nat, N: array<limb>)
    requires 0 < N.Length <= X.Length && Val(N[..]) > 0 && Val(X[..]) == PowRep(av, h, Val(N[..]), N.Length)
    ensures IsRep(X, av, h, N)
  {
  }

  /** X = X * Y in Montgomery form; Y may be X. */
  method TimesRep(X: array<limb>, Y: array<limb>, N: array<limb>, mm: limb, T: array<limb>, ghost av: nat, ghost g: nat, ghost h: nat)
    requires Modulus(N, mm) && IsRep(X, av, g, N) && IsRep(Y, av, h, N)
    requires X != N && T != X && T != Y && T != N && T.Length >= 2 * N.Length + 1
    modifies X, T
    ensures IsRep(X, av, g + h, N)
  {
    hide *;
    ModulusFacts(N, mm);
    RepFacts(X, av, g, N);
    RepFacts(Y, av, h, N);
    PowRepMul(av, g, h, Val(N[..]), N.Length);
    MpiMontmul(X, Y, N, mm, T);
    RepIntro(X, av, g + h, N);
  }

  /** Repeated squaring in place. */
  method SquareTimes(X: array<limb>, count: nat, N: array<limb>, mm: limb, T: array<limb>, ghost av: nat, ghost h: nat)
    requires Modulus(N, mm) && IsRep(X, av, h, N)
    requires X != N && T != X && T != N && T.Length >= 2 * N.Length + 1
    modifies X, T
    ensures h * Pow2(count) >= 0 && IsRep(X, av, h * Pow2(count), N)
  {
    hide *;
    PowTwoOne(h);
    for i := 0 to count
      invariant h * Pow2(i) >= 0 && IsRep(X, av, h * Pow2(i), N)
    {
      ghost var g: nat := h * Pow2(i);
      PowTwoTwice(h, i);
      TimesRep(X, X, N, mm, T, av, g, g);
    }
  }

  lemma PowTwoOne(h: nat)
    ensures h * Pow2(0) == h
  {
    assert Pow2(0) == 1;
  }

  lemma PowTwoTwice(h: nat, i: nat)
    ensures h * Pow2(i) >= 0 && h * Pow2(i) + h * Pow2(i) == h * Pow2(i + 1)
  {
    assert Pow2(i + 1) == 2 * Pow2(i);
  }

  // ---- the window table ----

  /** Entry 1 and the entries with the top window bit set hold their powers; the rest stay empty. */
  ghost predicate IsTable(W: array<array?<limb>>, av: nat, N: array<limb>, wsize: nat)
    reads W, W[..], N
  {
    && wsize > 0 && W.Length == Pow2(wsize) && W.Length > 1
    && W[1] != null && IsRep(W[1], av, 1, N)
    && forall k :: Pow2(wsize - 1) <= k < Pow2(wsize) ==> W[k] != null && IsRep(W[k], av, k, N)
  }

  /** A new entry of one limb more than the modulus, with the contents of another. */
  method NewEntry(src: array<limb>, n: nat) returns (w: array<limb>)
    requires n <= src.Length && Val(src[..]) < Pb(n)
    ensures fresh(w) && w.Length == n + 1 && Val(w[..]) == Val(src[..])
  {
    hide *;
    BasePos();
    w := new limb[n + 1](_ => 0);
    for i := 0 to n
      invariant w[..i] == src[..i] && forall k :: i <= k < n + 1 ==> w[k] == 0
    {
      w[i] := src[i];
    }
    ClippedValue(src[..], n);
    assert src[..][..n] == src[..n] && w[..][..n] == w[..n];
    ValTrim(w[..], n);
  }

  lemma WindowBounds(wsize: nat)
    requires wsize > 0
    ensures Pow2(wsize) == 2 * Pow2(wsize - 1) && 1 <= Pow2(wsize - 1)
    ensures if wsize > 1 then Pow2(wsize - 1) >= 2 else Pow2(wsize - 1) == 1
  {
    if wsize > 1 {
      PowMonotone(2, 1, wsize - 1);
    } else {
      assert Pow2(0) == 1;
    }
  }

  /** A new entry that continues the powers: the contents of src times those of w1. */
  method NextEntry(src: array<limb>, w1: array<limb>, N: array<limb>, mm: limb, T: array<limb>, ghost av: nat, ghost g: nat)
    returns (w: array<limb>)
    requires Modulus(N, mm) && IsRep(src, av, g, N) && IsRep(w1, av, 1, N)
    requires T != w1 && T != N && T.Length >= 2 * N.Length + 1
    modifies T
    ensures fresh(w) && IsRep(w, av, g + 1, N)
  {
    hide *;
    RepFacts(src, av, g, N);
    w := NewEntry(src, N.Length);
    RepIntro(w, av, g, N);
    TimesRep(w, w1, N, mm, T, av, g, 1);
  }

  /** The entries above the one with only the top window bit. */
  method FillTable(W: array<array?<limb>>, w1: array<limb>, j: nat, N: array<limb>, mm: limb, T: array<limb>, ghost av: nat)
    requires Modulus(N, mm) && 1 < j < W.Length && IsRep(w1, av, 1, N) && W[1] == w1 && W[j] != null && IsRep(W[j], av, j, N)
    requires forall k :: 0 <= k < W.Length && W[k] != null ==> W[k] != T
    requires T != N && T.Length >= 2 * N.Length + 1
    modifies W, T
    ensures W[1] == w1 && IsRep(w1, av, 1, N)
    ensures forall k :: j <= k < W.Length ==> W[k] != null && IsRep(W[k], av, k, N)
    ensures forall k :: 0 <= k < W.Length && W[k] != null ==> W[k] == old(W[k]) || fresh(W[k])
  {
    hide *;
    var i := j + 1;
    while i < W.Length
      invariant j < i <= W.Length && W[1] == w1 && IsRep(w1, av, 1, N)
      invariant forall k :: 0 <= k < W.Length && W[k] != null ==> W[k] != T && (W[k] == old(W[k]) || fresh(W[k]))
      invariant forall k :: j <= k < i ==> W[k] != null && IsRep(W[k], av, k, N)
    {
      var next := NextEntry(W[i - 1], w1, N, mm, T, av, i - 1);
      W[i] := next;
      i := i + 1;
    }
  }

  method BuildTable(w1: array<limb>, wsize: nat, N: array<limb>, mm: limb, T: array<limb>, ghost av: nat) returns (W: array<array?<limb>>)
    requires Modulus(N, mm) && wsize > 0 && IsRep(w1, av, 1, N)
    requires w1 != N && T != w1 && T != N && T.Length >= 2 * N.Length + 1
    modifies T
    ensures fresh(W) && IsTable(W, av, N, wsize) && W[1] == w1
    ensures forall k :: 0 <= k < W.Length && W[k] != null ==> W[k] == w1 || fresh(W[k])
  {
    hide IsRep, Modulus, Pow2;
    WindowBounds(wsize);
    W := new array?<limb>[Pow2(wsize)](_ => null);
    W[1] := w1;
    if wsize > 1 {
      var j := Pow2(wsize - 1);
      RepFacts(w1, av, 1, N);
      var top := NewEntry(w1, N.Length);
      RepIntro(top, av, 1, N);
      SquareTimes(top, wsize - 1, N, mm, T, av, 1);
      W[j] := top;
      FillTable(W, w1, j, N, mm, T, av);
    }
  }

  /** mpi_select into a new object: reads the whole table and keeps the selected entry. */
  method Select(W: array<array?<limb>>, idx: nat) returns (r: array<limb>)
    requires idx < W.Length && W[idx] != null
    ensures fresh(r) && r[..] == W[idx][..]
  {
    BasePos();
    r := new limb[0];
    for i := 0 to W.Length
      invariant fresh(r) && (i > idx ==> r[..] == W[idx][..])
    {
      if W[i] != null && i == idx {
        var src: array<limb> := W[i];
        r := new limb[src.Length](k requires 0 <= k < src.Length reads src => src[k]);
      }
    }
  }

  // ---- the window state machine ----

  /**
   * The p read so far is h * 2^nbits + w: X holds A^h, and w waits, left-aligned, in wbits.
   * A waiting window always starts with a 1 bit.
   */
  ghost predicate Window(p: nat, h: nat, w: nat, wsize: nat, state: nat, nbits: nat, wbits: nat) {
    && nbits < wsize && state <= 2
    && p == h * Pow2(nbits) + w && w < Pow2(nbits) && wbits == w * Pow2(wsize - nbits)
    && (state == 2 <==> nbits > 0)
    && (nbits > 0 ==> w >= Pow2(nbits - 1))
    && (state == 0 ==> p == 0 && h == 0)
  }

  lemma WindowSkip(p: nat, h: nat, w: nat, wsize: nat, state: nat, nbits: nat, wbits: nat)
    requires Window(p, h, w, wsize, state, nbits, wbits) && state <= 1
    ensures w == 0 && wbits == 0 && p == h
    ensures Window(2 * p, 2 * h, w, wsize, state, nbits, wbits)
  {
    assert Pow2(0) == 1;
  }

  /** Reading one more bit into the window; the bit of wbits it lands on is clear. */
  lemma WindowPush(p: nat, h: nat, w: nat, wsize: nat, state: nat, nbits: nat, wbits: nat, ei: nat)
    requires Window(p, h, w, wsize, state, nbits, wbits) && ei <= 1 && (state <= 1 ==> ei == 1)
    ensures wbits / Pow2(wsize - nbits - 1) % 2 == 0
    ensures 2 * p + ei == h * Pow2(nbits + 1) + (2 * w + ei)
    ensures Pow2(nbits) <= 2 * w + ei < Pow2(nbits + 1)
    ensures wbits + ei * Pow2(wsize - nbits - 1) == (2 * w + ei) * Pow2(wsize - nbits - 1)
  {
    assert Pow2(0) == 1;
    var q := Pow2(wsize - nbits - 1);
    assert Pow2(nbits + 1) == 2 * Pow2(nbits);
    assert Pow2(wsize - nbits) == 2 * q;
    assert wbits == (2 * w) * q;
    DivModUnique(wbits, q, 2 * w, 0);
    if nbits > 0 {
      assert Pow2(nbits) == 2 * Pow2(nbits - 1);
    }
    PushInts(p, h, w, Pow2(nbits), q, ei);
  }

  lemma PushInts(p: int, h: int, w: int, b: int, q: int, ei: int)
    requires p == h * b + w
    ensures 2 * p + ei == h * (2 * b) + (2 * w + ei)
    ensures (2 * w) * q + ei * q == (2 * w + ei) * q
  {
  }

  /** x with bit k or-ed with e. */
  function OrBit(x: nat, k: nat, e: nat): nat {
    if x / Pow2(k) % 2 == 1 then x else x + e * Pow2(k)
  }

  /** Sliding-window loop over the bits of E, most significant limb first. */
  method WindowLoop(X: array<limb>, E: array<limb>, W: array<array?<limb>>, wsize: nat, N: array<limb>, mm: limb, T: array<limb>, ghost av: nat)
    returns (nbits: nat, wbits: nat, ghost h: nat, ghost w: nat)
    requires Modulus(N, mm) && wsize > 0 && IsTable(W, av, N, wsize) && IsRep(X, av, 0, N)
    requires X != N && X != E && T != X && T != N && T != E && T.Length >= 2 * N.Length + 1
    requires forall k :: 0 <= k < W.Length && W[k] != null ==> W[k] != X && W[k] != T
    modifies X, T
    ensures exists state :: Window(Val(E[..]), h, w, wsize, state, nbits, wbits)
    ensures IsRep(X, av, h, N)
  {
    hide *;
    var nblimbs: nat, bufsize: nat, state: nat := E.Length, 0, 0;
    nbits, wbits, h, w := 0, 0, 0, 0;
    ghost var ev := Val(E[..]);
    ghost var p: nat := 0;
    ReadEnds(E[..]);
    WindowStart(wsize);
    while true
      invariant bufsize <= LIMB_BITS && nblimbs <= E.Length && (bufsize > 0 ==> nblimbs < E.Length)
      invariant p == ReadBits(ev, nblimbs, bufsize)
      invariant Window(p, h, w, wsize, state, nbits, wbits) && IsRep(X, av, h, N)
      decreases nblimbs, bufsize
    {
      if bufsize == 0 {
        if nblimbs == 0 {
          break;
        }
        nblimbs := nblimbs - 1;
        bufsize := LIMB_BITS;
        BaseFacts();
        ReadLimb(ev, nblimbs);
      }
      bufsize := bufsize - 1;
      var ei := E[nblimbs] / Pow2(bufsize) % 2;
      ReadNext(E[..], nblimbs, bufsize);
      ghost var p0 := p;
      p := ReadBits(ev, nblimbs, bufsize);
      if ei == 0 && state == 0 {
        WindowSkip(p0, h, w, wsize, state, nbits, wbits);
        WindowZero(p0, h, w, wsize, state, nbits, wbits);
        continue;
      }
      if ei == 0 && state == 1 {
        WindowSkip(p0, h, w, wsize, state, nbits, wbits);
        TimesRep(X, X, N, mm, T, av, h, h);
        h := 2 * h;
        continue;
      }
      WindowState(p0, h, w, wsize, state, nbits, wbits);
      WindowPush(p0, h, w, wsize, state, nbits, wbits, ei);
      state := 2;
      nbits := nbits + 1;
      OrClearBit(wbits, wsize - nbits, ei);
      wbits := OrBit(wbits, wsize - nbits, ei);
      w := 2 * w + ei;
      if nbits == wsize {
        OnePow(w, wbits, wsize);
        ApplyWindow(X, W, wsize, wbits, N, mm, T, av, h);
        state, nbits, wbits, w, h := state - 1, 0, 0, 0, p;
        WindowFlushed(p, wsize);
      } else {
        WindowOpen(p, h, w, wsize, nbits, wbits);
      }
    }
    ReadEnds(E[..]);
  }

  /** A full window: wsize squarings and one product with the selected entry. */
  method ApplyWindow(X: array<limb>, W: array<array?<limb>>, wsize: nat, wbits: nat, N: array<limb>, mm: limb, T: array<limb>,
                     ghost av: nat, ghost h: nat)
    requires Modulus(N, mm) && wsize > 0 && IsTable(W, av, N, wsize) && IsRep(X, av, h, N)
    requires Pow2(wsize - 1) <= wbits < Pow2(wsize)
    requires X != N && T != X && T != N && T.Length >= 2 * N.Length + 1
    requires forall k :: 0 <= k < W.Length && W[k] != null ==> W[k] != X && W[k] != T
    modifies X, T
    ensures h * Pow2(wsize) >= 0 && IsRep(X, av, h * Pow2(wsize) + wbits, N)
  {
    hide *;
    SquareTimes(X, wsize, N, mm, T, av, h);
    TableEntry(W, av, N, wsize, wbits);
    var ww := Select(W, wbits);
    RepFacts(W[wbits], av, wbits, N);
    RepIntro(ww, av, wbits, N);
    TimesRep(X, ww, N, mm, T, av, h * Pow2(wsize), wbits);
  }

  lemma WindowStart(wsize: nat)
    requires wsize > 0
    ensures Window(0, 0, 0, wsize, 0, 0, 0)
  {
    assert Pow2(0) == 1;
  }

  lemma LimbAbove(b: nat)
    ensures b * LIMB_BITS + LIMB_BITS == (b + 1) * LIMB_BITS
  {
  }

  lemma WindowZero(p: nat, h: nat, w: nat, wsize: nat, state: nat, nbits: nat, wbits: nat)
    requires Window(p, h, w, wsize, state, nbits, wbits) && state == 0
    ensures p == 0 && h == 0
  {
  }

  lemma WindowState(p: nat, h: nat, w: nat, wsize: nat, state: nat, nbits: nat, wbits: nat)
    requires Window(p, h, w, wsize, state, nbits, wbits)
    ensures state <= 2 && nbits < wsize
  {
  }

  lemma OrClearBit(x: nat, k: nat, e: nat)
    requires x / Pow2(k) % 2 == 0
    ensures OrBit(x, k, e) == x + e * Pow2(k)
  {
  }

  lemma OnePow(w: nat, wbits: nat, wsize: nat)
    requires wbits == w * Pow2(wsize - wsize)
    ensures wbits == w
  {
    assert Pow2(0) == 1;
  }

  lemma TableEntry(W: array<array?<limb>>, av: nat, N: array<limb>, wsize: nat, k: nat)
    requires wsize > 0 && IsTable(W, av, N, wsize) && Pow2(wsize - 1) <= k < Pow2(wsize)
    ensures W.Length == Pow2(wsize) && W[k] != null && IsRep(W[k], av, k, N)
  {
    hide IsRep, Pow2;
  }

  lemma WindowFlushed(p: nat, wsize: nat)
    requires wsize > 0
    ensures Window(p, p, 0, wsize, 1, 0, 0)
  {
    assert Pow2(0) == 1;
  }

  lemma WindowOpen(p: nat, h: nat, w: nat, wsize: nat, nbits: nat, wbits: nat)
    requires 0 < nbits < wsize && p == h * Pow2(nbits) + w
    requires Pow2(nbits - 1) <= w < Pow2(nbits) && wbits == w * Pow2(wsize - nbits)
    ensures Window(p, h, w, wsize, 2, nbits, wbits)
  {
  }

  // ---- the bits left in an unfinished window ----

  lemma ShiftedBit(w: nat, a: nat, b: nat)
    ensures w * Pow2(a) / Pow2(a + b) == Shr(w, b)
  {
    hide Pow2;
    PowTwoAdd(a, b);
    var q, r := w / Pow2(b), w % Pow2(b);
    DivMod(w, Pow2(b));
    assert w * Pow2(a) == q * (Pow2(a) * Pow2(b)) + r * Pow2(a) by {
      Distribute(q * Pow2(b), r, Pow2(a));
      MulCommutes(Pow2(a), Pow2(b));
      MulAssoc(q, Pow2(b), Pow2(a));
    }
    MulMonotone(Pow2(a), r, Pow2(b) - 1);
    Distribute(Pow2(b), 1, Pow2(a));
    MulCommutes(Pow2(a), Pow2(b));
    DivModUnique(w * Pow2(a), Pow2(a + b), q, r * Pow2(a));
  }

  /** The number read after i of the waiting bits. */
  function Partial(h: nat, w: nat, nbits: nat, i: nat): (r: nat)
    requires i <= nbits
  {
    assert h * Pow2(i) >= 0;
    h * Pow2(i) + Shr(w, nbits - i)
  }

  lemma PartialStep(h: nat, w: nat, nbits: nat, wsize: nat, i: nat)
    requires i < nbits <= wsize
    ensures w * Pow2(wsize - nbits + i + 1) / Pow2(wsize) % 2 == Shr(w, nbits - i - 1) % 2
    ensures Partial(h, w, nbits, i + 1) == 2 * Partial(h, w, nbits, i) + Shr(w, nbits - i - 1) % 2
    ensures 2 * (w * Pow2(wsize - nbits + i)) == w * Pow2(wsize - nbits + i + 1)
  {
    ShiftedBit(w, wsize - nbits + i + 1, nbits - i - 1);
    ShrStep(w, nbits - i - 1);
    assert Pow2(i + 1) == 2 * Pow2(i);
    assert h * Pow2(i + 1) == 2 * (h * Pow2(i));
    assert Pow2(wsize - nbits + i + 1) == 2 * Pow2(wsize - nbits + i);
  }

  lemma PartialEnds(p: nat, h: nat, w: nat, wsize: nat, state: nat, nbits: nat, wbits: nat)
    requires Window(p, h, w, wsize, state, nbits, wbits)
    ensures Partial(h, w, nbits, 0) == h && Partial(h, w, nbits, nbits) == p
  {
    assert Pow2(0) == 1;
    DivModUnique(w, Pow2(nbits), 0, w);
  }

  /** The bits left in an unfinished window, one at a time. */
  method Remaining(X: array<limb>, wbits0: nat, w1: array<limb>, wsize: nat, nbits: nat, N: array<limb>, mm: limb, T: array<limb>,
                   ghost av: nat, ghost p: nat, ghost h: nat, ghost w: nat, ghost state: nat)
    requires Modulus(N, mm) && IsRep(w1, av, 1, N) && IsRep(X, av, h, N)
    requires X != N && X != w1 && T != X && T != N && T != w1 && T.Length >= 2 * N.Length + 1
    requires Window(p, h, w, wsize, state, nbits, wbits0)
    modifies X, T
    ensures IsRep(X, av, p, N)
  {
    hide *;
    WindowState(p, h, w, wsize, state, nbits, wbits0);
    WindowBits(p, h, w, wsize, state, nbits, wbits0);
    PartialEnds(p, h, w, wsize, state, nbits, wbits0);
    var wbits := wbits0;
    for i := 0 to nbits
      invariant wbits == w * Pow2(wsize - nbits + i)
      invariant IsRep(X, av, Partial(h, w, nbits, i), N)
    {
      ghost var g := Partial(h, w, nbits, i);
      PartialStep(h, w, nbits, wsize, i);
      TimesRep(X, X, N, mm, T, av, g, g);
      wbits := 2 * wbits;
      if wbits / Pow2(wsize) % 2 != 0 {
        TimesRep(X, w1, N, mm, T, av, 2 * g, 1);
      }
    }
  }

  lemma WindowBits(p: nat, h: nat, w: nat, wsize: nat, state: nat, nbits: nat, wbits: nat)
    requires Window(p, h, w, wsize, state, nbits, wbits)
    ensures nbits < wsize && wbits == w * Pow2(wsize - nbits)
  {
  }

  // ---- the whole function ----

  lemma {:induction false} PowNat(a: nat, e: nat)
    ensures Pow(a, e) >= 0
  {
    if e > 0 {
      PowNat(a, e - 1);
    }
  }

  /** The correction for a negative base with an odd exponent. */
  lemma NegativeBase(a: nat, e: nat, nv: nat, x: nat)
    requires nv > 0 && e % 2 == 1 && x == Pow(a, e) % nv
    ensures Cong(nv - x, Pow(0 - a as int, e), nv)
    ensures x == 0 <==> Pow(0 - a as int, e) % nv == 0
  {
    hide Pow;
    var y := Pow(a, e);
    PowNegated(a, e);
    CongMod(y, nv);
    CongAdd(0, 0, x, y, nv);
    CongIntro(nv - x, 0 - x, nv, 1);
    CongTrans(nv - x, 0 - x, 0 - y, nv);
    DivMod(y, nv);
    if x == 0 {
      DivModUnique(-y, nv, -(y / nv), 0);
    } else {
      DivModUnique(-y, nv, -(y / nv) - 1, nv - x);
    }
  }

  predicate BadInput(eSign: int, ev: nat, nv: int) {
    nv <= 0 || nv % 2 == 0 || (eSign < 0 && ev > 0) || BitLen(ev) > MAX_BITS || BitLen(nv) > MAX_BITS
  }

  /** The input errors of the call. */
  method RejectsInput(E: Mpi, N: Mpi) returns (bad: bool)
    requires E.Valid() && N.Valid()
    ensures bad <==> BadInput(E.s, E.Magnitude(), N.Value())
  {
    hide Val;
    var zero := new Mpi();
    ParityOfLimbs(N.p[..]);
    if N.p.Length == 0 {
      ValEmpty(N.p[..]);
    }
    var cmp := CmpMpi(N, zero);
    if cmp <= 0 || N.p[0] % 2 == 0 {
      return true;
    }
    cmp := CmpMpi(E, zero);
    if cmp < 0 {
      return true;
    }
    var eBits := CoreBitlen(E.p);
    var nBits := CoreBitlen(N.p);
    return eBits > MAX_BITS || nBits > MAX_BITS;
  }

  /** The helper value kept for later calls: R^2 mod N. */
  ghost predicate IsSquareOfR(RR: Mpi, N: Mpi)
    reads RR, RR.p, N, N.p
  {
    RR.Normal() && RR.p.Length > 0 && N.Value() > 0 && RR.Value() == Pb(N.p.Length) * Pb(N.p.Length) % N.Value()
  }

  function SquareBits(n: nat): (bits: nat) {
    assert n * 2 * LIMB_BITS >= 0;
    n * 2 * LIMB_BITS
  }

  lemma TwiceTheLimbs(n: nat)
    requires n > 0
    ensures LIMB_BITS > 0 && LIMB_BITS < 1 + SquareBits(n) && BitsToLimbs(1 + SquareBits(n)) == 2 * n + 1
    ensures Pow2(SquareBits(n)) == Pb(n) * Pb(n) >= Pb(n)
  {
    hide Pb, Pow2;
    BaseFacts();
    PbIsPow2(2 * n);
    PbAdd(n, n);
    MulMonotone(Pb(n), 1, Pb(n));
    MulMonotone(LIMB_BITS, 2, n * 2);
    DivModUnique(1 + n * 2 * LIMB_BITS, LIMB_BITS, 2 * n, 1);
  }

  lemma OneBit()
    ensures BitLen(1) == 1
  {
  }

  /** lset and shift_l: the number 2^bits. */
  method StartPower(RR: Mpi, bits: nat) returns (ret: int)
    requires RR.Normal() && RR.p.Length == 0 && RR.s == 1 && LIMB_BITS > 0 && LIMB_BITS < 1 + bits
    modifies RR, RR.p
    ensures RR.p == old(RR.p) || fresh(RR.p)
    ensures ret == if BitsToLimbs(1 + bits) > MAX_LIMBS then ALLOC_FAILED else 0
    ensures ret == 0 ==> RR.Normal() && RR.Value() == Pow2(bits) && RR.p.Length == BitsToLimbs(1 + bits)
  {
    hide Val, Pb, Pow2, BitLen, BitsToLimbs, LIMB_BITS;
    BaseFacts();
    ret := RR.Grow(1);
    RR.p[0] := 1;
    ValOne(RR.p[..]);
    OneBit();
    ret := ShiftL(RR, bits);
  }

  lemma SquareDivides(RR: Mpi, N: Mpi)
    requires N.Valid() && N.Value() > 0
    ensures N.p.Length > 0 && N.Value() == N.Magnitude() < Pb(N.p.Length)
  {
    hide Pb;
    ValBound(N.p[..]);
  }

  lemma SquareIntro(RR: Mpi, N: Mpi, v: nat)
    requires RR.Normal() && RR.p.Length > 0 && N.Value() > 0
    requires v == Pb(N.p.Length) * Pb(N.p.Length) && RR.Value() == v % N.Value()
    ensures IsSquareOfR(RR, N)
  {
  }

  lemma NormalFacts(X: Mpi)
    requires X.Valid() && X.Value() > 0
    ensures X.Valid() && X.Magnitude() == X.Value()
  {
  }

  /** R^2 mod N from a shifted 1 and a division. */
  method SquareOfR(RR: Mpi, N: Mpi) returns (ret: int)
    requires RR.Normal() && RR.p.Length == 0 && RR.s == 1 && N.Valid() && N.Value() > 0 && RR != N && RR.p != N.p
    modifies RR, RR.p
    ensures ret == if 2 * N.p.Length + 3 > MAX_LIMBS then ALLOC_FAILED else 0
    ensures ret == 0 ==> IsSquareOfR(RR, N)
    ensures RR.p == old(RR.p) || fresh(RR.p)
  {
    hide Val, Pb, Pow2, BitLen, BitsToLimbs, LIMB_BITS, SquareBits, IsSquareOfR;
    var n := N.p.Length;
    SquareDivides(RR, N);
    TwiceTheLimbs(n);
    ret := StartPower(RR, SquareBits(n));
    if ret != 0 {
      return;
    }
    ghost var v: nat := Pow2(SquareBits(n));
    NormalFacts(RR);
    ret := ModMpi(RR, RR, N);
    if ret == 0 {
      SquareIntro(RR, N, v);
    }
  }

  // ---- the call ----

  /** The dividend of the reduction of A: A itself, or a copy when it is negative. */
  ghost function BaseLimbs(A: Mpi): nat
    reads A, A.p
  {
    if A.s < 0 then Trimmed(A.p[..]) else A.p.Length
  }

  /** Compensates for a negative A. */
  method Absolute(A: Mpi) returns (base: Mpi)
    requires A.Valid()
    ensures base.Valid() && base.s == 1 && base.Magnitude() == A.Magnitude() && base.p.Length == BaseLimbs(A)
    ensures base == A || (fresh(base) && fresh(base.p))
  {
    hide Val, Trimmed;
    base := A;
    if A.s == -1 {
      base := new Mpi();
      base.Copy(A);
      base.s := 1;
      NoLimbs(A.p[..]);
    }
  }

  lemma NoLimbs(a: seq<limb>)
    ensures Trimmed(a) == 0 <==> a == []
  {
  }

  /** A or A mod N, in at least one limb more than N. */
  method ReduceBase(W1: Mpi, base: Mpi, N: Mpi) returns (ret: int)
    requires W1.Normal() && W1.p.Length > N.p.Length && base.Valid() && base.s == 1 && N.Valid() && N.Value() > 0
    requires W1 != base && W1 != N && W1.p != base.p && W1.p != N.p && 2 * (N.p.Length + 1) <= MAX_LIMBS
    modifies W1, W1.p
    ensures ret == if base.Magnitude() >= N.Magnitude() && base.p.Length + 2 > MAX_LIMBS then ALLOC_FAILED else 0
    ensures W1.p == old(W1.p) || fresh(W1.p)
    ensures ret == 0 ==> W1.p.Length > N.p.Length && N.Magnitude() > 0 && W1.Magnitude() == base.Magnitude() % N.Magnitude()
  {
    hide Val, Trimmed;
    ret := 0;
    PositiveSign(N);
    var cmp := CmpMpi(base, N);
    if cmp >= 0 {
      ret := ModMpi(W1, base, N);
      if ret != 0 {
        return;
      }
      PositiveSign(W1);
      ret := W1.Grow(N.p.Length + 1);
    } else {
      W1.Copy(base);
      SmallMod(base.Magnitude(), N.Magnitude());
    }
  }

  lemma PositiveSign(X: Mpi)
    requires X.Valid() && X.Value() >= 0
    ensures X.Magnitude() == X.Value()
  {
    hide Val;
  }

  lemma SmallMod(a: nat, n: nat)
    requires a < n
    ensures a % n == a
  {
  }

  /** The first table entry: A or A mod N, times R^2 R^-1. */
  method FirstEntry(w1: array<limb>, rr: array<limb>, N: array<limb>, mm: limb, T: array<limb>, ghost av: nat)
    requires Modulus(N, mm) && N.Length <= w1.Length && 0 < rr.Length && T.Length >= 2 * N.Length + 1
    requires w1 != N && T != w1 && T != rr && T != N && Val(N[..]) > 0
    requires Val(w1[..]) == av % Val(N[..]) && Val(rr[..]) == Pb(N.Length) * Pb(N.Length) % Val(N[..])
    modifies w1, T
    ensures IsRep(w1, av, 1, N)
  {
    hide *;
    ModulusFacts(N, mm);
    BelowModulus(av, Val(N[..]));
    BelowModulus(Pb(N.Length) * Pb(N.Length), Val(N[..]));
    BaseEntry(av, Val(N[..]), N.Length, Val(rr[..]));
    MpiMontmul(w1, rr, N, mm, T);
    RepIntro(w1, av, 1, N);
  }

  lemma BelowModulus(v: int, nv: nat)
    requires nv > 0
    ensures 0 <= v % nv < nv
  {
  }

  /** X = R mod N, where the powers start. */
  method StartAtOne(X: array<limb>, N: array<limb>, mm: limb, T: array<limb>, ghost av: nat)
    requires Modulus(N, mm) && N.Length <= X.Length && T.Length >= 2 * N.Length + 1
    requires X != N && T != X && T != N && Val(N[..]) > 0 && Val(X[..]) == Pb(N.Length) * Pb(N.Length) % Val(N[..])
    modifies X, T
    ensures IsRep(X, av, 0, N)
  {
    hide *;
    ModulusFacts(N, mm);
    BelowModulus(Pb(N.Length) * Pb(N.Length), Val(N[..]));
    BaseEntry(av, Val(N[..]), N.Length, Val(X[..]));
    MontProdByOne(Val(X[..]), Val(N[..]), N.Length);
    MpiMontred(X, N, mm, T);
    RepIntro(X, av, 0, N);
  }

  /** Table, window loop, remaining bits and the conversion back. */
  method Power(X: array<limb>, E: array<limb>, w1: array<limb>, wsize: nat, N: array<limb>, mm: limb, T: array<limb>, ghost av: nat)
    requires Modulus(N, mm) && wsize > 0 && IsRep(X, av, 0, N) && IsRep(w1, av, 1, N) && T.Length >= 2 * N.Length + 1
    requires X != N && X != E && X != w1 && w1 != N && T != X && T != E && T != w1 && T != N
    modifies X, T
    ensures Val(N[..]) > 0 && Val(X[..]) == Pow(av, Val(E[..])) % Val(N[..])
  {
    hide *;
    ModulusFacts(N, mm);
    var W := BuildTable(w1, wsize, N, mm, T, av);
    ghost var h, w;
    var nbits, wbits;
    nbits, wbits, h, w := WindowLoop(X, E, W, wsize, N, mm, T, av);
    ghost var state :| Window(Val(E[..]), h, w, wsize, state, nbits, wbits);
    Remaining(X, wbits, w1, wsize, nbits, N, mm, T, av, Val(E[..]), h, w, state);
    RepFacts(X, av, Val(E[..]), N);
    MpiMontred(X, N, mm, T);
    FinalResidue(av, Val(E[..]), Val(N[..]), N.Length, Val(X[..]));
  }

  /** When the call runs into the limit on limbs: in its scratch space, in R^2, or in the reduction of A. */
  predicate TooLong(n: nat, square: bool, av: nat, nv: nat, aLimbs: nat) {
    2 * (n + 1) > MAX_LIMBS || (square && 2 * n + 3 > MAX_LIMBS) || (av >= nv && aLimbs + 2 > MAX_LIMBS)
  }

  /** What X holds after a call that succeeds: A^E modulo N, and N itself in one case. */
  ghost predicate IsPower(x: int, sign: int, a: int, ev: nat, nv: int) {
    && nv > 0 && 0 <= x <= nv && Cong(x, Pow(a, ev), nv)
    && (x == nv <==> sign < 0 && ev % 2 == 1 && Pow(a, ev) % nv == 0)
    && (sign > 0 ==> x == Pow(a, ev) % nv)
  }

  /** The last step for a base whose power is x: the correction for a negative one. */
  lemma PowerOfSigned(av: nat, ev: nat, nv: nat, x: nat, sign: int)
    requires nv > 0 && x == Pow(av, ev) % nv && (sign == 1 || sign == -1)
    ensures IsPower(if sign < 0 && ev % 2 == 1 then nv - x else x, sign, Signed(sign < 0, av), ev, nv)
  {
    hide Pow, Cong;
    BelowModulus(Pow(av, ev), nv);
    CongMod(Pow(av, ev), nv);
    if sign < 0 {
      PowNegated(av, ev);
      if ev % 2 == 1 {
        NegativeBase(av, ev, nv, x);
      }
    }
  }

  /** Room in X for one limb more than N, and the base of the powers; X may be A. */
  method Prepare(X: Mpi, A: Mpi, n: nat) returns (ret: int, base: Mpi)
    requires X.Valid() && A.Valid() && Apart(X, A)
    modifies X`p
    ensures ret == if n + 1 > MAX_LIMBS then ALLOC_FAILED else 0
    ensures X.Valid() && (X.p == old(X.p) || fresh(X.p)) && Apart(X, base) && (base == A || (fresh(base) && fresh(base.p)))
    ensures ret == 0 ==> X.p.Length > n && base.Valid() && base.s == 1 && base.Magnitude() == old(A.Magnitude())
    ensures ret == 0 && old(A.Magnitude()) > 0 ==>
      base.p.Length == old(BaseLimbs(A)) || (base.p.Length == n + 1 && old(BaseLimbs(A)) <= n + 1)
  {
    hide Val, Trimmed;
    base := A;
    ghost var a := A.p[..];
    ret := X.Grow(n + 1);
    if ret != 0 {
      return;
    }
    PositiveLength(a);
    if |a| > 0 {
      TrimmedGrown(a, A.p[..]);
    }
    base := Absolute(A);
  }

  lemma PositiveLength(a: seq<limb>)
    ensures a == [] ==> Val(a) == 0
  {
  }

  lemma GoodInput(E: Mpi, N: Mpi)
    requires N.Valid() && !BadInput(E.s, E.Magnitude(), N.Value())
    ensures N.p.Length > 0 && N.p[0] % 2 == 1 && N.Value() > 0 && N.s == 1 && N.Magnitude() == N.Value()
  {
    hide Val, BitLen;
    ParityOfLimbs(N.p[..]);
    PositiveLength(N.p[..]);
  }

  lemma ModulusIntro(N: array<limb>, mm: limb)
    requires N.Length > 0 && N[0] % 2 == 1 && IsMontConstant(mm, N[0])
    ensures Modulus(N, mm)
  {
  }

  lemma SquareFacts(RR: Mpi, N: Mpi)
    requires IsSquareOfR(RR, N) && N.Magnitude() == N.Value()
    ensures RR.Normal() && RR.p.Length > 0 && Val(N.p[..]) == N.Magnitude() > 0
    ensures Val(RR.p[..]) == RR.Magnitude() == Pb(N.p.Length) * Pb(N.p.Length) % N.Magnitude() && RR.s == 1
  {
    hide Val, Pb;
  }

  lemma SameSquare(RR: Mpi, other: Mpi, N: Mpi)
    requires IsSquareOfR(RR, N) && other.s == RR.s && other.p == RR.p
    ensures IsSquareOfR(other, N)
  {
  }

  /** R^2 mod N in an object of its own, from the helper object or into it. */
  method HelperSquare(N: Mpi, precRR: Mpi?) returns (ret: int, RR: Mpi)
    requires N.Valid() && N.Value() > 0 && (precRR != null ==> precRR.Valid() && precRR != N && precRR.p != N.p)
    requires precRR != null && precRR.p.Length > 0 ==> IsSquareOfR(precRR, N)
    modifies precRR
    ensures ret == if (precRR == null || old(precRR.p.Length) == 0) && 2 * N.p.Length + 3 > MAX_LIMBS then ALLOC_FAILED else 0
    ensures ret == 0 ==> fresh(RR) && IsSquareOfR(RR, N) && (fresh(RR.p) || (precRR != null && RR.p == old(precRR.p)))
    ensures ret == 0 && precRR != null ==> IsSquareOfR(precRR, N)
    ensures precRR != null ==> precRR.p == old(precRR.p) || fresh(precRR.p)
  {
    hide IsSquareOfR, Val;
    RR := new Mpi();
    ret := 0;
    if precRR == null || precRR.p.Length == 0 {
      ret := SquareOfR(RR, N);
      if ret != 0 {
        return;
      }
      if precRR != null {
        precRR.s, precRR.p := RR.s, RR.p;
        SameSquare(RR, precRR, N);
      }
    } else {
      RR.s, RR.p := precRR.s, precRR.p;
      SameSquare(precRR, RR, N);
    }
  }

  /** The correction at the end, for a negative base with an odd exponent. */
  method Correct(X: Mpi, E: Mpi, N: Mpi, neg: bool, ghost av: nat)
    requires X.Valid() && X.s == 1 && E.Valid() && N.Valid() && N.s == 1 && X != E && X != N && X.p != N.p && X.p != E.p
    requires N.Magnitude() > 0 && X.Magnitude() == Pow(av, E.Magnitude()) % N.Magnitude()
    modifies X, X.p
    ensures X.Valid() && (X.p == old(X.p) || fresh(X.p))
    ensures IsPower(X.Value(), if neg then -1 else 1, Signed(neg, av), E.Magnitude(), N.Value())
  {
    hide Val, Pow, IsPower, Pb;
    ghost var x, ev := X.Magnitude(), E.Magnitude();
    ParityOfLimbs(E.p[..]);
    PowerOfSigned(av, ev, N.Magnitude(), x, if neg then -1 else 1);
    if neg && E.p.Length != 0 && E.p[0] % 2 == 1 {
      X.s := -1;
      var ret := AddMpi(X, N, X);
    }
  }

  /** The powers of base in the limbs of X. */
  method Raise(X: Mpi, w1: array<limb>, RR: Mpi, E: Mpi, N: Mpi, mm: limb, wsize: nat, T: array<limb>, ghost av: nat)
    requires X.Valid() && E.Valid() && N.Valid() && N.Magnitude() == N.Value() && IsSquareOfR(RR, N) && Modulus(N.p, mm) && wsize > 0
    requires X.p.Length > N.p.Length && IsRep(w1, av, 1, N.p) && T.Length >= 2 * N.p.Length + 1
    requires X != E && X != N && X != RR && X.p != E.p && X.p != N.p && X.p != RR.p && X.p != w1 && w1 != N.p && w1 != RR.p
    requires T != X.p && T != w1 && T != E.p && T != N.p && T != RR.p
    modifies X, X.p, T
    ensures X.Valid() && X.s == 1 && (X.p == old(X.p) || fresh(X.p))
    ensures N.Magnitude() > 0 && X.Magnitude() == Pow(av, E.Magnitude()) % N.Magnitude()
  {
    hide Val, Pb, Pow, Modulus, IsRep, IsMontConstant, IsSquareOfR, Trimmed;
    SquareFacts(RR, N);
    X.Copy(RR);
    StartAtOne(X.p, N.p, mm, T, av);
    Power(X.p, E.p, w1, wsize, N.p, mm, T, av);
  }

  /** From the reduced base to the corrected power. */
  method Compute(X: Mpi, base: Mpi, RR: Mpi, E: Mpi, N: Mpi, mm: limb, wsize: nat, T: array<limb>, neg: bool) returns (ret: int)
    requires X.Valid() && base.Valid() && base.s == 1 && E.Valid() && N.Valid() && N.s == 1 && N.Magnitude() == N.Value()
    requires IsSquareOfR(RR, N) && Modulus(N.p, mm) && wsize > 0 && X.p.Length > N.p.Length && 2 * (N.p.Length + 1) <= MAX_LIMBS
    requires X != E && X != N && X != RR && X.p != E.p && X.p != N.p && X.p != RR.p && Apart(X, base)
    requires T.Length >= 2 * N.p.Length + 1 && T != X.p && T != base.p && T != E.p && T != N.p && T != RR.p
    modifies X, X.p, T
    ensures ret == if old(base.Magnitude()) >= N.Magnitude() && old(base.p.Length) + 2 > MAX_LIMBS then ALLOC_FAILED else 0
    ensures ret == 0 ==> X.Valid() && IsPower(X.Value(), if neg then -1 else 1, Signed(neg, old(base.Magnitude())), E.Magnitude(), N.Value())
  {
    hide Val, Pb, Pow, Modulus, IsRep, IsMontConstant, IsSquareOfR, IsPower, Trimmed;
    ghost var av := base.Magnitude();
    SquareFacts(RR, N);
    var W1 := new Mpi();
    ret := W1.Grow(N.p.Length + 1);
    ret := ReduceBase(W1, base, N);
    if ret != 0 {
      return;
    }
    FirstEntry(W1.p, RR.p, N.p, mm, T, av);
    Raise(X, W1.p, RR, E, N, mm, wsize, T, av);
    Correct(X, E, N, neg, av);
  }

  /** The helper object is apart from the operands. */
  ghost predicate OwnHelper(precRR: Mpi?, X: Mpi, A: Mpi, E: Mpi, N: Mpi)
    reads precRR, X, A, E, N
  {
    precRR != null ==>
      && precRR.Valid() && precRR != X && precRR != A && precRR != E && precRR != N
      && precRR.p != X.p && precRR.p != A.p && precRR.p != E.p && precRR.p != N.p
  }

  /** With scratch space and R^2 mod N. */
  method WithHelper(X: Mpi, base: Mpi, E: Mpi, N: Mpi, precRR: Mpi?, mm: limb, wsize: nat, neg: bool) returns (ret: int)
    requires X.Valid() && base.Valid() && base.s == 1 && E.Valid() && N.Valid() && N.s == 1 && N.Magnitude() == N.Value() > 0
    requires Modulus(N.p, mm) && wsize > 0 && X.p.Length > N.p.Length
    requires X != E && X != N && X.p != E.p && X.p != N.p && Apart(X, base) && OwnHelper(precRR, X, base, E, N)
    requires precRR != null && precRR.p.Length > 0 ==> IsSquareOfR(precRR, N)
    modifies X, X.p, precRR
    ensures ret ==
      if TooLong(N.p.Length, precRR == null || old(precRR.p.Length) == 0, old(base.Magnitude()), N.Magnitude(), old(base.p.Length))
      then ALLOC_FAILED else 0
    ensures ret == 0 ==> X.Valid() && IsPower(X.Value(), if neg then -1 else 1, Signed(neg, old(base.Magnitude())), E.Magnitude(), N.Value())
    ensures ret == 0 && precRR != null ==> IsSquareOfR(precRR, N)
  {
    hide Val, Pb, Pow, Modulus, IsRep, IsMontConstant, IsSquareOfR, IsPower, Trimmed;
    if 2 * (N.p.Length + 1) > MAX_LIMBS {
      return ALLOC_FAILED;
    }
    BasePos();
    var T := new limb[2 * (N.p.Length + 1)](_ => 0);
    var RR;
    ret, RR := HelperSquare(N, precRR);
    if ret != 0 {
      return;
    }
    ret := Compute(X, base, RR, E, N, mm, wsize, T, neg);
  }

  /**
   * mbedtls_mpi_exp_mod: X = A^E mod N. X may be A. The helper object of R^2 mod N may be missing, empty, or
   * filled by an earlier call; afterwards it is filled.
   */
  method ExpMod(X: Mpi, A: Mpi, E: Mpi, N: Mpi, precRR: Mpi?) returns (ret: int)
    requires X.Valid() && A.Valid() && E.Valid() && N.Valid() && X != E && X != N && X.p != E.p && X.p != N.p && Apart(X, A)
    requires OwnHelper(precRR, X, A, E, N)
    requires precRR != null && precRR.p.Length > 0 && N.Value() > 0 ==> IsSquareOfR(precRR, N)
    modifies X, X.p, precRR
    ensures ret ==
      if BadInput(E.s, E.Magnitude(), N.Value()) then BAD_INPUT_DATA
      else if TooLong(N.p.Length, precRR == null || old(precRR.p.Length) == 0, old(A.Magnitude()), N.Magnitude(), old(BaseLimbs(A)))
      then ALLOC_FAILED else 0
    ensures ret == 0 ==> X.Valid() && IsPower(X.Value(), old(A.s), old(A.Value()), E.Magnitude(), N.Value())
    ensures ret == 0 && precRR != null ==> IsSquareOfR(precRR, N)
  {
    hide Val, Pb, Pow, Modulus, IsRep, IsMontConstant, IsSquareOfR, IsPower, BitLen, BadInput, Trimmed;
    var bad := RejectsInput(E, N);
    if bad {
      return BAD_INPUT_DATA;
    }
    GoodInput(E, N);
    var mm := MontmulInit(N.p);
    ModulusIntro(N.p, mm);
    var bits := CoreBitlen(E.p);
    var wsize := WindowSize(bits);
    var n := N.p.Length;
    ghost var av, sign := A.Magnitude(), A.s;
    var base;
    var neg := A.s == -1;
    ret, base := Prepare(X, A, n);
    if ret != 0 {
      return;
    }
    ret := WithHelper(X, base, E, N, precRR, mm, wsize, neg);
  }

  /** (-3)^1 modulo 3 comes out as 3. */
  method ModulusComesBack() returns (ret: int, X: Mpi)
    ensures ret == 0 && X.Valid() && X.Value() == 3
  {
    hide Val, Pb, Pow, IsSquareOfR, BitLen, Cong;
    BaseFacts();
    PbStep(0);
    SmallInputs();
    X := new Mpi();
    var A := FromNumber(3, 1);
    A.s := -1;
    var E := FromNumber(1, 1);
    var N := FromNumber(3, 1);
    ret := ExpMod(X, A, E, N, null);
  }

  lemma SmallInputs()
    ensures BitLen(1) == 1 && BitLen(3) == 2 && Pow(-3, 1) == -3 && -3 % 3 == 0
  {
    assert Pow(-3, 1) == -3 * Pow(-3, 0);
  }

  lemma FinalResidue(av: nat, ev: nat, nv: nat, n: nat, x: nat)
    requires nv % 2 == 1 && x == FromRep(PowRep(av, ev, nv, n), nv, n)
    ensures x == Pow(av, ev) % nv && x < nv && Cong(x, Pow(av, ev), nv)
  {
    hide FromRep, ToRep, Pow;
    FromRepOfToRep(Pow(av, ev), nv, n);
    CongMod(Pow(av, ev), nv);
  }

  lemma ParityOfLimbs(e: seq<limb>)
    ensures Val(e) % 2 == if e == [] then 0 else e[0] % 2
  {
    hide Val;
    if e == [] {
      ValEmpty(e);
    } else {
      ValHead(e);
      BaseFacts();
      EvenBase(e[0], BASE, Val(e[1..]));
    }
  }

  lemma EvenBase(x: nat, base: nat, v: nat)
    requires base % 16 == 0
    ensures (x + base * v) % 2 == x % 2
  {
    MulAssoc(2, base / 2, v);
    EvenPart(x, base / 2 * v);
  }

  lemma EvenPart(x: int, m: int)
    ensures (x + 2 * m) % 2 == x % 2
  {
  }
}
