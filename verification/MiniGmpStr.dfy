/** Radix conversion of limb arrays. */
module MiniGmpStr {
  import opened Arith
  import opened Limbs
  import opened BignumCore
  import opened Numerals
  import opened MiniGmpRecip
  import opened MiniGmpDiv
  import opened MiniGmpMpz

  type uchar = x: nat | x < 256

  /** The number of bits of a digit when the base is a power of two, else 0. */
  function BasePowerOfTwo(b: nat): nat {
    match b
    case 2 => 1
    case 4 => 2
    case 8 => 3
    case 16 => 4
    case 32 => 5
    case 64 => 6
    case 128 => 7
    case 256 => 8
    case _ => 0
  }

  lemma BasePowerOfTwoIs(b: nat)
    requires BasePowerOfTwo(b) > 0
    ensures b == Pow2(BasePowerOfTwo(b)) && BasePowerOfTwo(b) <= 8
    ensures b < 128 ==> BasePowerOfTwo(b) <= 6
  {
    assert Pow(2, 1) == 2 && Pow(2, 2) == 4 && Pow(2, 3) == 8 && Pow(2, 4) == 16;
    assert Pow(2, 5) == 32 && Pow(2, 6) == 64 && Pow(2, 7) == 128 && Pow(2, 8) == 256;
  }

  /** Significant bits of a limb. */
  method LimbSizeInBase2(u: limb) returns (n: nat)
    requires u > 0
    ensures n == BitLen(u) && 1 <= n <= LIMB_BITS
  {
    hide *;
    var shift := GmpClz(u);
    SizeOfNormalised(u, shift);
    n := LIMB_BITS - shift;
  }

  lemma SizeOfNormalised(u: nat, c: nat)
    requires Normalises(u, c)
    ensures c < LIMB_BITS && BitLen(u) == LIMB_BITS - c
  {
    hide Pow2, BitLen;
    var n := LIMB_BITS - c;
    BaseIsPow2();
    PowTwoAdd(n, c);
    PowTwoAdd(n - 1, c);
    PowTwoAdd(1, LIMB_BITS - 1);
    TwoIs();
    MulCancelLt(u, Pow2(n), Pow2(c));
    if u < Pow2(n - 1) {
      MulMonotone(Pow2(c), u + 1, Pow2(n - 1));
      Distribute(u, 1, Pow2(c));
    }
    BitLenUnique(u, n);
  }

  lemma TwoIs()
    ensures Pow2(1) == 2
  {
  }

  // ---- bases that are powers of two: printing ----

  /** A window of a limb sequence, shifted right. */
  function Window(rest: seq<limb>, shift: nat): nat {
    Shr(Val(rest), shift)
  }

  /** The window through its lowest limb. */
  lemma WindowParts(rest: seq<limb>, shift: nat)
    requires rest != [] && shift < LIMB_BITS
    ensures Window(rest, shift) == Shr(rest[0], shift) + Pow2(LIMB_BITS - shift) * Val(rest[1..])
    ensures Shr(rest[0], shift) < Pow2(LIMB_BITS - shift)
  {
    hide Val, Pow2, LowBits, Shl;
    ValHead(rest);
    BaseIsPow2();
    PowTwoAdd(shift, LIMB_BITS - shift);
    ShrParts(rest[0], shift);
    WindowInts(rest[0], Val(rest[1..]), Shr(rest[0], shift), LowBits(rest[0], shift), Pow2(shift), Pow2(LIMB_BITS - shift));
    DivModUnique(Val(rest), Pow2(shift), Shr(rest[0], shift) + Pow2(LIMB_BITS - shift) * Val(rest[1..]), LowBits(rest[0], shift));
    ShrBound(rest[0], shift);
  }

  lemma ShrBound(x: limb, shift: nat)
    requires shift <= LIMB_BITS
    ensures Shr(x, shift) < Pow2(LIMB_BITS - shift)
  {
    hide Pow2;
    BaseIsPow2();
    PowTwoAdd(shift, LIMB_BITS - shift);
    DivMod(x, Pow2(shift));
    MulCommutes(Pow2(shift), Pow2(LIMB_BITS - shift));
    MulCancelLt(x / Pow2(shift), Pow2(LIMB_BITS - shift), Pow2(shift));
  }

  lemma WindowInts(x: int, h: int, xs: int, xl: int, p: int, q: int)
    requires x == xs * p + xl
    ensures x + p * q * h == (xs + q * h) * p + xl
  {
    Distribute(xs, q * h, p);
    MulAssoc(p, q, h);
    MulCommutes(p, q * h);
  }

  /** Adding a multiple of 2^(bits + k) leaves the low bits. */
  lemma LowDigitOfSum(x: int, k: nat, h: int, bits: nat)
    ensures (x + Pow2(bits + k) * h) % Pow2(bits) == x % Pow2(bits)
  {
    hide Pow2;
    PowTwoAdd(bits, k);
    MulAssoc(Pow2(bits), Pow2(k), h);
    MulCommutes(Pow2(bits), Pow2(k) * h);
    CongIntro(x + Pow2(bits + k) * h, x, Pow2(bits), Pow2(k) * h);
  }

  /** Reducing modulo 2^(bits + k) first leaves the low bits. */
  lemma LowDigitOfMod(x: int, k: nat, bits: nat)
    ensures x % Pow2(bits + k) % Pow2(bits) == x % Pow2(bits)
  {
    hide Pow2;
    DivMod(x, Pow2(bits + k));
    MulCommutes(x / Pow2(bits + k), Pow2(bits + k));
    LowDigitOfSum(x % Pow2(bits + k), k, x / Pow2(bits + k), bits);
  }

  lemma ByteIsPow2(bits: nat)
    requires bits <= 8
    ensures 256 == Pow2(bits + (8 - bits))
  {
    assert Pow(2, 8) == 256 by { BasePowerOfTwoIs(256); }
  }

  /** The digit when it lies within one limb, or above the top limb's end. */
  lemma DigitInLimb(rest: seq<limb>, shift: nat, bits: nat)
    requires rest != [] && shift < LIMB_BITS && bits <= 8
    requires shift + bits <= LIMB_BITS || |rest| == 1
    ensures Window(rest, shift) % Pow2(bits) == Shr(rest[0], shift) % 256 % Pow2(bits)
  {
    hide Val, Pow2, Shr, Window;
    WindowParts(rest, shift);
    ByteIsPow2(bits);
    LowDigitOfMod(Shr(rest[0], shift), 8 - bits, bits);
    if |rest| == 1 {
      ValEmpty(rest[1..]);
    } else {
      LowDigitOfSum(Shr(rest[0], shift), LIMB_BITS - shift - bits, Val(rest[1..]), bits);
    }
  }

  /** The digit that takes its high bits from the next limb. */
  function Straddle(x: limb, y: limb, shift: nat, e: nat): nat {
    (Shr(x, shift) % 256 + Shl(y, e)) % 256
  }

  lemma DigitAcrossLimbs(rest: seq<limb>, shift: nat, bits: nat)
    requires |rest| >= 2 && shift < LIMB_BITS && bits <= 8 <= LIMB_BITS && shift + bits >= LIMB_BITS
    ensures Window(rest, shift) % Pow2(bits) == Straddle(rest[0], rest[1], shift, LIMB_BITS - shift) % Pow2(bits)
  {
    hide Val, Pow2, Shr, Window, Shl;
    var e := LIMB_BITS - shift;
    WindowParts(rest, shift);
    ValHead(rest[1..]);
    BaseIsPow2();
    ByteIsPow2(bits);
    var xs: nat, y: nat, h: nat := Shr(rest[0], shift), rest[1], Val(rest[1..][1..]);
    // The window is xs + 2^e * y + 2^L * (2^e * h).
    Distribute(y, BASE * h, Pow2(e));
    MulSwapLeft(Pow2(e), BASE, h);
    LowDigitOfSum(xs + Pow2(e) * y, LIMB_BITS - bits, Pow2(e) * h, bits);
    // Both truncations of the code keep the low bits.
    LowDigitOfMod(xs % 256 + Shl(rest[1], e), 8 - bits, bits);
    LowDigitOfMod(xs, 8 - bits, bits);
    ShlMod(rest[1], e, bits);
    CongAdd(xs % 256, xs, Shl(rest[1], e), Pow2(e) * y, Pow2(bits));
  }

  lemma MulSwapLeft(a: int, b: int, c: int)
    ensures a * (b * c) == b * (a * c)
  {
  }

  lemma ShlMod(y: limb, e: nat, bits: nat)
    requires bits <= LIMB_BITS
    ensures Cong(Shl(y, e), Pow2(e) * y, Pow2(bits))
  {
    hide Pow2;
    BaseIsPow2();
    MulCommutes(Pow2(e), y);
    LowDigitOfMod(y * Pow2(e), LIMB_BITS - bits, bits);
  }

  /** Moving the window up, within a limb and across to the next. */
  lemma WindowNext(rest: seq<limb>, shift: nat, bits: nat)
    ensures Window(rest, shift) / Pow2(bits) == Window(rest, shift + bits)
    ensures rest != [] && shift >= LIMB_BITS ==> Window(rest, shift) == Window(rest[1..], shift - LIMB_BITS)
  {
    hide Val, Pow2;
    PowTwoAdd(shift, bits);
    DivDiv(Val(rest), Pow2(shift), Pow2(bits));
    if rest != [] && shift >= LIMB_BITS {
      BaseIsPow2();
      ValHead(rest);
      MulCommutes(BASE, Val(rest[1..]));
      DivModUnique(Val(rest), BASE, Val(rest[1..]), rest[0]);
      PowTwoAdd(LIMB_BITS, shift - LIMB_BITS);
      DivDiv(Val(rest), BASE, Pow2(shift - LIMB_BITS));
    }
  }

  /** ceil(T / bits). */
  function CeilDiv(t: nat, bits: nat): (s: nat)
    requires bits > 0
    ensures (s - 1) * bits < t <= s * bits
  {
    DivMod(t + bits - 1, bits);
    Distribute((t + bits - 1) / bits, 1, bits);
    (t + bits - 1) / bits
  }

  /** A number of T bits has ceil(T / bits) digits of that many bits. */
  lemma DigitCount(n: nat, bits: nat)
    requires n > 0 && bits > 0
    ensures Pow2(bits) >= 2 && NumLen(n, Pow2(bits)) == CeilDiv(BitLen(n), bits)
  {
    hide Pow2, BitLen, NumLen;
    var t := BitLen(n);
    BitLenBounds(n);
    var s := CeilDiv(t, bits);
    TwoIs();
    Pow2Monotone(1, bits);
    if s == 0 {
      MulCommutes(s, bits);
    }
    PowOfPow2(bits, s);
    PowOfPow2(bits, s - 1);
    Pow2Monotone(t, s * bits);
    Pow2Monotone((s - 1) * bits, t - 1);
    NumLenUnique(n, Pow2(bits), s);
  }

  lemma PowOfPow2(bits: nat, s: nat)
    ensures s * bits >= 0 && Pow(Pow2(bits), s) == Pow2(s * bits)
  {
    PowPow(2, bits, s);
    MulCommutes(bits, s);
  }

  /** The loop's position: printed bits, and the window that is left. */
  ghost predicate PrintInv(u: seq<limb>, bits: nat, sn: nat, j: nat, i: nat, shift: nat, q: nat, out: seq<nat>) {
    && j <= sn && Pow2(bits) >= 2
    && Digits(Val(u), Pow2(bits), sn) == Digits(q, Pow2(bits), j) + out
    && (j > 0 ==> i < |u| && shift < LIMB_BITS && q == Window(u[i..], shift) && i * LIMB_BITS + shift == (sn - j) * bits)
  }

  lemma PrintStart(u: seq<limb>, bits: nat, sn: nat)
    requires u != [] && bits > 0
    ensures PrintInv(u, bits, sn, sn, 0, 0, Val(u), [])
  {
    hide Val, Digits;
    BaseFacts();
    TwoIs();
    Pow2Monotone(1, bits);
    assert u[0..] == u;
    PowTwoZero();
    assert Digits(Val(u), Pow2(bits), sn) + [] == Digits(Val(u), Pow2(bits), sn);
  }

  /** When the top limb is used up there is no digit left. */
  lemma PrintEnds(un: nat, top: nat, t: nat, bits: nat, sn: nat, j: nat, i: nat, shift: nat)
    requires bits > 0 && sn == CeilDiv(t, bits) && t == (un - 1) * LIMB_BITS + top && top <= LIMB_BITS
    requires 0 < j <= sn && i * LIMB_BITS + shift == (sn - j) * bits && i + 1 == un && shift + bits >= LIMB_BITS
    ensures j == 1
  {
    hide *;
    PrintEndsInts(un, top, bits, sn, j, i, shift, LIMB_BITS);
  }

  lemma PrintEndsInts(un: int, top: int, bits: int, sn: int, j: int, i: int, shift: int, l: int)
    requires bits > 0 && (sn - 1) * bits < (un - 1) * l + top && top <= l
    requires 0 < j <= sn && i * l + shift == (sn - j) * bits && i + 1 == un && shift + bits >= l
    ensures j == 1
  {
    Distribute(sn - j, 1, bits);
    Distribute(un, 1, l);
    assert (sn - j + 1) * bits >= un * l;
    MulCancelLt(sn - 1, sn - j + 1, bits);
  }

  /** One round of the loop: the next digit, and the new position. */
  method PrintDigit(up: array<limb>, un: nat, bits: nat, i0: nat, shift0: nat, ghost last: bool)
    returns (digit: uchar, i: nat, shift: nat)
    requires i0 < un <= up.Length && shift0 < LIMB_BITS && 1 <= bits <= 8
    requires i0 + 1 == un && shift0 + bits >= LIMB_BITS ==> last
    ensures digit == Window(up[i0..un], shift0) % Pow2(bits)
    ensures !last ==> i < un && shift < LIMB_BITS && Window(up[i..un], shift) == Window(up[i0..un], shift0) / Pow2(bits)
    ensures !last ==> i * LIMB_BITS + shift == i0 * LIMB_BITS + shift0 + bits
  {
    hide *;
    WideLimbs();
    ghost var rest := up[i0..un];
    assert rest[0] == up[i0] && rest[1..] == up[i0 + 1..un];
    i, shift := i0, shift0;
    ByteBound(Shr(up[i], shift));
    var d: uchar := Shr(up[i], shift) % 256;
    shift := shift + bits;
    WindowNext(rest, shift0, bits);
    WindowNext(rest, shift, 0);
    if shift >= LIMB_BITS && i + 1 < un {
      DigitAcrossLimbs(rest, shift0, bits);
      i := i + 1;
      shift := shift - LIMB_BITS;
      assert rest[1] == up[i];
      StraddleIs(rest[0], up[i], shift0, bits - shift);
      d := (d + Shl(up[i], bits - shift)) % 256;
      Distribute(i0, 1, LIMB_BITS);
    } else {
      DigitInLimb(rest, shift0, bits);
    }
    DigitByte(d, bits);
    digit := d % Pow2(bits);
  }

  lemma WideLimbs()
    ensures LIMB_BITS >= 8
  {
    BaseFacts();
  }

  lemma ByteBound(x: nat)
    ensures x % 256 < 256
  {
  }

  lemma StraddleIs(x: limb, y: limb, shift: nat, e: nat)
    ensures Straddle(x, y, shift, e) == (Shr(x, shift) % 256 + Shl(y, e)) % 256
  {
  }

  lemma DigitByte(d: nat, bits: nat)
    requires d < 256
    ensures Pow2(bits) > 0 && 0 <= d % Pow2(bits) < 256
  {
    DivMod(d, Pow2(bits));
    if d / Pow2(bits) < 0 {
      MulMonotone(Pow2(bits), d / Pow2(bits), -1);
    }
    assert d / Pow2(bits) * Pow2(bits) >= 0;
  }

  /** mpn_get_str_bits: the numeral is written from its end. */
  method GetStrBits(sp: array<uchar>, off: nat, bits: nat, up: array<limb>, un: nat) returns (sn: nat)
    requires 1 <= un <= up.Length && up[un - 1] > 0 && 1 <= bits <= 8
    requires Pow2(bits) >= 2 && off + NumLen(Val(up[..un]), Pow2(bits)) <= sp.Length
    modifies sp
    ensures sn == NumLen(Val(up[..un]), Pow2(bits)) && sp[off..off + sn] == Numeral(Val(up[..un]), Pow2(bits))
    ensures sp[..off] == old(sp[..off])
  {
    hide *;
    ghost var u := up[..un];
    var top := LimbSizeInBase2(up[un - 1]);
    BitsOf(u);
    DigitCount(Val(u), bits);
    sn := CeilDiv((un - 1) * LIMB_BITS + top, bits);
    var i: nat, j, shift: nat := 0, sn, 0;
    ghost var q: nat := Val(u);
    PrintStart(u, bits, sn);
    assert sp[off + sn..off + sn] == [];
    while j > 0
      invariant 0 <= j <= sn && sp[..off] == old(sp[..off]) && up[..un] == u
      invariant PrintInv(u, bits, sn, j, i, shift, q, sp[off + j..off + sn])
    {
      ghost var out: seq<nat> := sp[off + j..off + sn];
      PrintParts(u, bits, sn, j, i, shift, q, out);
      assert u[i..] == up[i..un];
      if i + 1 == un && shift + bits >= LIMB_BITS {
        PrintEnds(un, top, BitLen(Val(u)), bits, sn, j, i, shift);
      }
      ghost var i0, shift0 := i, shift;
      var digit;
      digit, i, shift := PrintDigit(up, un, bits, i, shift, j == 1);
      assert i < un ==> u[i..] == up[i..un];
      PrintStep(u, bits, sn, j, i0, shift0, i, shift, q, out, digit);
      q := q / Pow2(bits);
      j := j - 1;
      sp[off + j] := digit;
      assert sp[off + j..off + sn] == [digit] + out;
    }
    PrintDone(u, bits, sn, i, shift, q, sp[off + 0..off + sn]);
    assert sp[off..off + sn] == sp[off + 0..off + sn];
  }

  lemma BitsOf(u: seq<limb>)
    requires u != [] && u[|u| - 1] > 0
    ensures Val(u) > 0 && BitLen(Val(u)) == (|u| - 1) * LIMB_BITS + BitLen(u[|u| - 1])
  {
    hide Val, BitLen;
    ValZeroIff(u);
    BitLenOfLimbs(u, |u| - 1);
  }

  lemma PrintParts(u: seq<limb>, bits: nat, sn: nat, j: nat, i: nat, shift: nat, q: nat, out: seq<nat>)
    requires PrintInv(u, bits, sn, j, i, shift, q, out) && j > 0
    ensures i < |u| && shift < LIMB_BITS && q == Window(u[i..], shift) && i * LIMB_BITS + shift == (sn - j) * bits
    ensures Pow2(bits) > 0 && q / Pow2(bits) >= 0
  {
    DivMod(q, Pow2(bits));
    if q / Pow2(bits) < 0 {
      MulMonotone(Pow2(bits), q / Pow2(bits), -1);
    }
  }

  lemma PrintStep(u: seq<limb>, bits: nat, sn: nat, j: nat, i: nat, shift: nat, i': nat, shift': nat, q: nat, out: seq<nat>, digit: nat)
    requires PrintInv(u, bits, sn, j, i, shift, q, out) && j > 0 && digit == q % Pow2(bits)
    requires j > 1 ==> i' < |u| && shift' < LIMB_BITS && Window(u[i'..], shift') == q / Pow2(bits)
    requires j > 1 ==> i' * LIMB_BITS + shift' == i * LIMB_BITS + shift + bits
    ensures q / Pow2(bits) >= 0 && PrintInv(u, bits, sn, j - 1, i', shift', q / Pow2(bits), [digit] + out)
  {
    PrintParts(u, bits, sn, j, i, shift, q, out);
    hide Window, Val, Pow2, Digits;
    DigitsPeel(Val(u), Pow2(bits), q, j, out, sn);
    Distribute(sn - j, 1, bits);
  }

  lemma PrintDone(u: seq<limb>, bits: nat, sn: nat, i: nat, shift: nat, q: nat, out: seq<nat>)
    requires PrintInv(u, bits, sn, 0, i, shift, q, out)
    ensures Pow2(bits) >= 2 && out == Digits(Val(u), Pow2(bits), sn)
    ensures sn == NumLen(Val(u), Pow2(bits)) ==> out == Numeral(Val(u), Pow2(bits))
  {
    hide Val, Pow2, NumLen;
    assert [] + out == out;
  }

  // ---- bases that are powers of two: parsing ----

  lemma NumValCons(x: nat, t: seq<nat>, b: nat)
    requires b >= 1
    ensures NumVal([x] + t, b) == x * Pow(b, |t|) + NumVal(t, b)
  {
    hide NumVal, Pow;
    NumValAppend([x], t, b);
    NumValSnoc([], x, b);
    NumValNone(b);
    assert [] + [x] == [x];
  }

  lemma NumValNone(b: nat)
    ensures NumVal([], b) == 0
  {
  }

  /** The limbs hold the digits read so far; shift is the fill of the top limb, 0 when it is full. */
  ghost predicate ParseInv(v: seq<limb>, bits: nat, shift: nat, ds: seq<nat>) {
    && shift < LIMB_BITS && Val(v) == NumVal(ds, Pow2(bits))
    && (shift == 0 ==> |v| * LIMB_BITS == |ds| * bits)
    && (shift > 0 ==> v != [] && (|v| - 1) * LIMB_BITS + shift == |ds| * bits && v[|v| - 1] < Pow2(shift))
  }

  lemma ParseStart(bits: nat)
    ensures ParseInv([], bits, 0, [])
  {
    ValEmpty([]);
    WideLimbs();
  }

  /** A digit opens a new limb. */
  lemma ParseOpen(v: seq<limb>, bits: nat, ds: seq<nat>, d: limb)
    requires ParseInv(v, bits, 0, ds) && d < Pow2(bits) && 0 < bits < LIMB_BITS
    ensures ParseInv(v + [d], bits, bits, [d] + ds)
  {
    hide Val, Pow2, NumVal, Pb;
    ValSnoc(v, d);
    NumValCons(d, ds, Pow2(bits));
    PowOfPow2(bits, |ds|);
    PbIsPow2(|v|);
    Distribute(|ds|, 1, bits);
  }

  /** A digit that fits into the top limb, or fills it exactly. */
  lemma ParseMerge(v: seq<limb>, bits: nat, shift: nat, ds: seq<nat>, d: limb)
    requires ParseInv(v, bits, shift, ds) && d < Pow2(bits) && 0 < shift && shift + bits <= LIMB_BITS
    ensures var n := |v| - 1;
      v[n] + Shl(d, shift) < BASE && ParseInv(v[n := v[n] + Shl(d, shift)], bits, if shift + bits == LIMB_BITS then 0 else shift + bits, [d] + ds)
  {
    hide Val, Pow2, NumVal, Pb, Shl, Shr;
    var n := |v| - 1;
    ShiftParts(d, shift);
    DigitStays(d, bits, shift);
    ValPut(v, n, v[n] + Shl(d, shift));
    NumValCons(d, ds, Pow2(bits));
    PowOfPow2(bits, |ds|);
    PbIsPow2(n);
    PowTwoAdd(n * LIMB_BITS, shift);
    MulAssoc(d, Pow2(shift), Pb(n));
    MulCommutes(Pb(n), Pow2(shift));
    Distribute(|ds|, 1, bits);
    Distribute(n, 1, LIMB_BITS);
    PowTwoAdd(shift, bits);
    MulMonotone(Pow2(shift), d + 1, Pow2(bits));
    Distribute(d, 1, Pow2(shift));
    MulCommutes(Pow2(shift), Pow2(bits));
  }

  lemma DigitStays(d: limb, bits: nat, shift: nat)
    requires d < Pow2(bits) && shift + bits <= LIMB_BITS
    ensures Shr(d, LIMB_BITS - shift) == 0 && Shl(d, shift) == d * Pow2(shift)
  {
    hide Pow2, Shl;
    Pow2Monotone(bits, LIMB_BITS - shift);
    DivModUnique(d, Pow2(LIMB_BITS - shift), 0, d);
    ShiftParts(d, shift);
  }

  /** A digit whose high bits open the next limb. */
  lemma ParseSpill(v: seq<limb>, bits: nat, shift: nat, ds: seq<nat>, d: limb)
    requires ParseInv(v, bits, shift, ds) && d < Pow2(bits) && bits < LIMB_BITS && shift + bits > LIMB_BITS
    ensures var n := |v| - 1; var hi := Shr(d, LIMB_BITS - shift);
      v[n] + Shl(d, shift) < BASE && hi < BASE
      && ParseInv(v[n := v[n] + Shl(d, shift)] + [hi], bits, shift + bits - LIMB_BITS, [d] + ds)
  {
    hide *;
    ParseShape(v, bits, shift, ds);
    var n, lo, hi := |v| - 1, Shl(d, shift), Shr(d, LIMB_BITS - shift);
    ShiftParts(d, shift);
    BaseShr(d, LIMB_BITS - shift);
    SpillValue(v, n, lo, hi, d, Pow2(shift));
    SpillWeight(n, shift, |ds|, bits);
    SpillBound(d, bits, shift);
    SpillIntro(v[n := v[n] + lo] + [hi], v, n, bits, shift, ds, d);
  }

  lemma SpillIntro(w: seq<limb>, v: seq<limb>, n: nat, bits: nat, shift: nat, ds: seq<nat>, d: limb)
    requires |w| == n + 2 && |v| == n + 1 && 0 < shift < LIMB_BITS && bits < LIMB_BITS && shift + bits > LIMB_BITS
    requires n * LIMB_BITS + shift == |ds| * bits && w[n + 1] < Pow2(shift + bits - LIMB_BITS)
    requires Val(v) == NumVal(ds, Pow2(bits)) && Val(w) == Val(v) + d * Pow(Pow2(bits), |ds|)
    ensures ParseInv(w, bits, shift + bits - LIMB_BITS, [d] + ds)
  {
    hide Val, Pow2, Pow, NumVal;
    NumValCons(d, ds, Pow2(bits));
    Distribute(|ds|, 1, bits);
    Distribute(n, 1, LIMB_BITS);
  }

  lemma SpillValue(v: seq<limb>, n: nat, lo: limb, hi: limb, d: limb, s: nat)
    requires |v| == n + 1 && d * s == hi * BASE + lo && v[n] + lo < BASE
    ensures Val(v[n := v[n] + lo] + [hi]) == Val(v) + d * (s * Pb(n))
  {
    hide *;
    ValPut(v, n, v[n] + lo);
    ValSnoc(v[n := v[n] + lo], hi);
    PbStep(n);
    SpillInts(d, s, Pb(n), hi, lo, BASE);
  }

  lemma SpillWeight(n: nat, shift: nat, count: nat, bits: nat)
    requires n * LIMB_BITS + shift == count * bits
    ensures Pow2(shift) * Pb(n) == Pow(Pow2(bits), count)
  {
    hide *;
    PowOfPow2(bits, count);
    PbIsPow2(n);
    NonNegativeBits(n);
    PowTwoAdd(n * LIMB_BITS, shift);
    MulCommutes(Pb(n), Pow2(shift));
  }

  lemma NonNegativeBits(n: nat)
    ensures n * LIMB_BITS >= 0
  {
  }

  lemma SpillInts(d: int, s: int, p: int, h: int, l: int, b: int)
    requires d * s == h * b + l
    ensures d * (s * p) == l * p + h * (b * p)
  {
    MulAssoc(d, s, p);
    Distribute(h * b, l, p);
    MulAssoc(h, b, p);
  }

  lemma SpillBound(d: limb, bits: nat, shift: nat)
    requires d < Pow2(bits) && shift <= LIMB_BITS <= shift + bits
    ensures Shr(d, LIMB_BITS - shift) < Pow2(shift + bits - LIMB_BITS)
  {
    hide Pow2;
    var k: nat, m: nat := LIMB_BITS - shift, shift + bits - LIMB_BITS;
    PowTwoAdd(m, k);
    DivMod(d, Pow2(k));
    MulCancelLt(d / Pow2(k), Pow2(m), Pow2(k));
  }

  /** Limbs needed for the digits still to come. */
  lemma ParseRoom(rn: nat, t: nat, sn: nat, bits: nat, alloc: nat)
    requires t < sn && rn * LIMB_BITS < (t + 1) * bits && LIMB_BITS > 0 && alloc == CeilDiv(sn * bits, LIMB_BITS)
    ensures rn < alloc
  {
    hide CeilDiv;
    MulMonotone(bits, t + 1, sn);
    MulCancelLt(rn, alloc, LIMB_BITS);
  }

  /** One digit into the limbs. */
  method ParseDigit(rp: array<limb>, rn0: nat, bits: nat, shift0: nat, d: uchar, ghost ds: seq<nat>) returns (rn: nat, shift: nat)
    requires rn0 <= rp.Length && 0 < bits < LIMB_BITS && d < Pow2(bits) && ParseInv(rp[..rn0], bits, shift0, ds)
    requires forall m: nat :: m * LIMB_BITS < (|ds| + 1) * bits ==> m < rp.Length
    modifies rp
    ensures rn <= rp.Length && ParseInv(rp[..rn], bits, shift, [d] + ds)
  {
    hide Val, Pow2, NumVal, Pb, Shl, Shr, ParseInv;
    ghost var v := rp[..rn0];
    ParseShape(v, bits, shift0, ds);
    ByteIsLimb(d);
    var x: limb := d;
    rn, shift := rn0, shift0;
    Distribute(|ds|, 1, bits);
    if shift == 0 {
      ParseOpen(v, bits, ds, x);
      rp[rn] := x;
      rn := rn + 1;
      shift := shift + bits;
      assert rp[..rn] == v + [x];
    } else {
      if shift + bits <= LIMB_BITS {
        ParseMerge(v, bits, shift, ds, x);
      } else {
        Distribute(rn - 1, 1, LIMB_BITS);
        ParseSpill(v, bits, shift, ds, x);
      }
      rp[rn - 1] := rp[rn - 1] + Shl(x, shift);
      ghost var v' := rp[..rn];
      assert v' == v[rn - 1 := v[rn - 1] + Shl(x, shift)];
      shift := shift + bits;
      if shift >= LIMB_BITS {
        shift := shift - LIMB_BITS;
        if shift > 0 {
          rp[rn] := Shr(x, bits - shift);
          rn := rn + 1;
          assert rp[..rn] == v' + [Shr(x, bits - shift)];
        }
      }
    }
  }

  lemma ByteIsLimb(d: uchar)
    ensures d < BASE
  {
    BaseFacts();
  }

  lemma ParseShape(v: seq<limb>, bits: nat, shift: nat, ds: seq<nat>)
    requires ParseInv(v, bits, shift, ds)
    ensures shift < LIMB_BITS
    ensures shift == 0 ==> |v| * LIMB_BITS == |ds| * bits
    ensures shift > 0 ==> v != [] && (|v| - 1) * LIMB_BITS + shift == |ds| * bits && v[|v| - 1] < Pow2(shift)
    ensures Val(v) == NumVal(ds, Pow2(bits))
  {
  }

  /** mpn_set_str_bits: the digits are read from the end. */
  method SetStrBits(rp: array<limb>, sp: array<uchar>, sn: nat, bits: nat) returns (rn: nat)
    requires sn <= sp.Length && 0 < bits < LIMB_BITS && forall k :: 0 <= k < sn ==> sp[k] < Pow2(bits)
    requires rp.Length >= CeilDiv(sn * bits, LIMB_BITS)
    modifies rp
    ensures rn <= CeilDiv(sn * bits, LIMB_BITS) && rn <= rp.Length
    ensures Val(rp[..rn]) == NumVal(sp[..sn], Pow2(bits)) && (rn > 0 ==> rp[rn - 1] != 0)
  {
    hide *;
    WideLimbs();
    var j, shift: nat := sn, 0;
    rn := 0;
    ParseStart(bits);
    assert sp[sn..sn] == [] && rp[..0] == [];
    while j > 0
      invariant 0 <= j <= sn && rn <= rp.Length && ParseInv(rp[..rn], bits, shift, sp[j..sn])
    {
      ghost var ds: seq<nat> := sp[j..sn];
      j := j - 1;
      forall m: nat | m * LIMB_BITS < (|ds| + 1) * bits
        ensures m < rp.Length
      {
        ParseRoom(m, |ds|, sn, bits, CeilDiv(sn * bits, LIMB_BITS));
      }
      rn, shift := ParseDigit(rp, rn, bits, shift, sp[j], ds);
      assert sp[j..sn] == [sp[j]] + ds;
    }
    ParseShape(rp[..rn], bits, shift, sp[0..sn]);
    LimbCount(rn, shift, sn, bits, CeilDiv(sn * bits, LIMB_BITS));
    assert sp[0..sn] == sp[..sn];
    rn := NormalizedSize(rp, rn);
  }

  lemma LimbCount(rn: nat, shift: nat, sn: nat, bits: nat, alloc: nat)
    requires LIMB_BITS > 0 && alloc == CeilDiv(sn * bits, LIMB_BITS)
    requires shift == 0 ==> rn * LIMB_BITS == sn * bits
    requires shift > 0 ==> (rn - 1) * LIMB_BITS + shift == sn * bits
    ensures rn <= alloc
  {
    hide CeilDiv;
    Distribute(rn, 1, LIMB_BITS);
    MulCancelLt(rn - 1, alloc, LIMB_BITS);
  }

  // ---- other bases ----

  /** The largest power of the base that fits a limb. */
  datatype BaseInfo = BaseInfo(exp: nat, bb: limb)

  ghost predicate IsBaseInfo(info: BaseInfo, b: nat) {
    info.exp >= 1 && info.bb == Pow(b, info.exp) && BASE <= info.bb * b
  }

  /** mpn_get_base_info. */
  method GetBaseInfo(b: limb) returns (info: BaseInfo)
    requires b >= 2
    ensures IsBaseInfo(info, b)
  {
    hide Pow, Wrap;
    BasePos();
    var m := (BASE - 1) / b;
    PowerStart(b);
    var exp, p: limb := 1, b;
    while p <= m
      invariant exp >= 1 && p == Pow(b, exp) && p >= 1
      decreases BASE - p
    {
      PowerFits(p, b, m);
      PowerStep(b, exp);
      p := Wrap(p * b);
      exp := exp + 1;
    }
    NoMorePower(p, b, m);
    info := BaseInfo(exp, p);
  }

  lemma PowerStart(b: nat)
    ensures Pow(b, 1) == b
  {
    assert Pow(b, 1) == b * Pow(b, 0);
  }

  lemma PowerStep(b: nat, exp: nat)
    ensures Pow(b, exp + 1) == Pow(b, exp) * b
  {
  }

  lemma PowerFits(p: limb, b: limb, m: nat)
    requires 1 <= p <= m && b >= 2 && m == (BASE - 1) / b
    ensures Wrap(p * b) == p * b && p < p * b
  {
    DivMod(BASE - 1, b);
    MulMonotone(b, p, m);
    MulMonotone(p, 2, b);
    WrapIs(p * b, 0, p * b);
  }

  lemma NoMorePower(p: limb, b: limb, m: int)
    requires p > m && b >= 2 && m == (BASE - 1) / b
    ensures BASE <= p * b
  {
    DivMod(BASE - 1, b);
    MulMonotone(b, m + 1, p);
    Distribute(m, 1, b);
  }

  /** One more low digit. */
  lemma LowNext(n: nat, b: nat, k: nat)
    requires b >= 2
    ensures Pow(b, k) > 0 && n / Pow(b, k) >= 0
    ensures Low(n, b, k + 1) == Low(n, b, k) + [n / Pow(b, k) % b]
    ensures Pow(b, k + 1) > 0 && n / Pow(b, k) / b == n / Pow(b, k + 1)
  {
    LowAppend(n, b, k, 1);
    NonNegativeQuotient(n, Pow(b, k));
    assert Low(n / Pow(b, k), b, 1) == [n / Pow(b, k) % b];
    PowAdd(b, k, 1);
    assert Pow(b, 1) == b * Pow(b, 0);
    DivDiv(n, Pow(b, k), b);
  }

  lemma NonNegativeQuotient(n: nat, p: int)
    requires p > 0
    ensures n / p >= 0
  {
    DivMod(n, p);
    if n / p < 0 {
      MulMonotone(p, n / p, -1);
    }
  }

  /** A positive quotient needs a large enough number. */
  lemma QuotientPositive(n: nat, p: int)
    requires p > 0
    ensures n / p > 0 <==> n >= p
  {
    NonNegativeQuotient(n, p);
    DivMod(n, p);
    if n / p > 0 {
      MulMonotone(p, 1, n / p);
    }
  }

  /** A limb divided by the base, through the normalised base. */
  method DivideByBase(w: limb, binv: DivInverse, b: limb) returns (q: limb, digit: limb)
    requires InverseFor(binv, [b])
    ensures b > 0 && q == w / b && digit == w % b
  {
    hide *;
    OneLimbDivisor(binv, b);
    ShiftParts(w, binv.shift);
    HighPartBelow(b, Pow2(binv.shift), Shr(w, LIMB_BITS - binv.shift));
    var h, l := ShiftedOutLimb(w, binv.shift), Shl(w, binv.shift);
    var r;
    q, r := UdivQrnndPreinv(h, l, binv.d1, binv.di);
    ShrIs(r, binv.shift);
    Unscale(w, b, q, r, Pow2(binv.shift));
    digit := Shr(r, binv.shift);
    DivModUnique(w, b, q, digit);
  }

  function ShiftedOutLimb(w: limb, shift: nat): (r: limb)
    requires shift <= LIMB_BITS
    ensures r == Shr(w, LIMB_BITS - shift)
  {
    BaseShr(w, LIMB_BITS - shift);
    Shr(w, LIMB_BITS - shift)
  }

  lemma HighPartBelow(b: nat, p: nat, h: nat)
    requires b >= 1 && h < p
    ensures h < b * p
  {
    MulMonotone(p, 1, b);
  }

  /** mpn_limb_get_str: the digits of w, least significant first. */
  method LimbGetStr(sp: array<uchar>, pos: nat, w0: limb, binv: DivInverse, b: limb) returns (i: nat)
    requires 2 <= b < 256 && InverseFor(binv, [b])
    requires w0 > 0 ==> pos + NumLen(w0, b) <= sp.Length
    requires pos <= sp.Length
    modifies sp
    ensures pos + i <= sp.Length && sp[pos..pos + i] == Low(w0, b, i) && sp[..pos] == old(sp[..pos])
    ensures w0 < Pow(b, i) && (i > 0 ==> Pow(b, i - 1) <= w0) && (w0 == 0 ==> i == 0)
  {
    hide *;
    var w := w0;
    i := 0;
    LowNone(w0, b);
    assert sp[pos..pos] == [];
    while w > 0
      invariant pos + i <= sp.Length && sp[pos..pos + i] == Low(w0, b, i) && sp[..pos] == old(sp[..pos])
      invariant Pow(b, i) > 0 && w == w0 / Pow(b, i)
      invariant i > 0 ==> Pow(b, i - 1) <= w0
      invariant w0 == 0 ==> i == 0
      decreases w
    {
      QuotientPositive(w0, Pow(b, i));
      NumLenAbove(w0, b, i);
      LowNext(w0, b, i);
      ghost var w1 := w;
      var digit;
      w, digit := DivideByBase(w, binv, b);
      SmallerQuotient(w1, b);
      ghost var out := sp[pos..pos + i];
      sp[pos + i] := digit;
      assert sp[pos..pos + (i + 1)] == out + [digit];
      i := i + 1;
    }
    QuotientPositive(w0, Pow(b, i));
  }

  lemma SmallerQuotient(w: nat, b: nat)
    requires w > 0 && b >= 2
    ensures w / b < w && w % b < b
  {
    DivShrinks(w, b);
  }

  lemma LowNone(n: nat, b: nat)
    requires b >= 2
    ensures Low(n, b, 0) == [] && Pow(b, 0) == 1 && n / Pow(b, 0) == n
  {
  }

  /** Zero digits in front of a number do not change its low digits. */
  lemma LowPadded(w: nat, b: nat, done: nat, exp: nat)
    requires b >= 2 && w < Pow(b, done) && done <= exp
    ensures Low(w, b, exp) == Low(w, b, done) + seq(exp - done, i => 0)
  {
    hide Pow;
    LowAppend(w, b, done, exp - done);
    DivModUnique(w, Pow(b, done), 0, w);
    LowOfZero(b, exp - done);
  }

  lemma FewDigits(w: nat, b: nat, i: nat, exp: nat)
    requires b >= 2 && w < Pow(b, exp) && i > 0 && Pow(b, i - 1) <= w
    ensures i <= exp
  {
    if i > exp {
      PowMonotone(b, exp, i - 1);
    }
  }

  lemma NumLenAtMost(w: nat, b: nat, exp: nat)
    requires b >= 2 && w < Pow(b, exp) && w > 0
    ensures NumLen(w, b) <= exp
  {
    NumLenBounds(w, b);
    FewDigits(w, b, NumLen(w, b), exp);
  }

  /** A group of exactly exp digits: those of w, then zeros. */
  method GroupDigits(sp: array<uchar>, pos: nat, w: limb, exp: nat, binv: DivInverse, b: limb)
    requires 2 <= b < 256 && InverseFor(binv, [b]) && w < Pow(b, exp) && pos + exp <= sp.Length
    modifies sp
    ensures sp[pos..pos + exp] == Low(w, b, exp) && sp[..pos] == old(sp[..pos])
  {
    hide *;
    if w > 0 {
      NumLenAtMost(w, b, exp);
    }
    var done := LimbGetStr(sp, pos, w, binv, b);
    if done > 0 {
      FewDigits(w, b, done, exp);
    }
    LowPadded(w, b, done, exp);
    ghost var out := sp[pos..pos + done];
    var k := done;
    while k < exp
      invariant done <= k <= exp && sp[..pos] == old(sp[..pos])
      invariant sp[pos..pos + k] == out + seq(k - done, i => 0)
    {
      ghost var z := sp[pos..pos + k];
      sp[pos + k] := 0;
      assert sp[pos..pos + (k + 1)] == z + [0];
      assert seq(k + 1 - done, i => 0) == seq(k - done, i => 0) + [0];
      k := k + 1;
    }
  }

  /** Digits printed so far, least significant first, and the quotient that is left. */
  ghost predicate PeelInv(n: nat, b: nat, sn: nat, q: nat, out: seq<nat>) {
    && b >= 2 && Pow(b, sn) > 0
    && out == Low(n, b, sn) && q == n / Pow(b, sn)
  }

  lemma PeelStart(n: nat, b: nat)
    requires b >= 2
    ensures PeelInv(n, b, 0, n, [])
  {
    LowNone(n, b);
  }

  lemma PeelGroup(n: nat, b: nat, sn: nat, q: nat, out: seq<nat>, exp: nat, group: seq<nat>)
    requires PeelInv(n, b, sn, q, out) && b >= 2 && Pow(b, exp) > 0 && q % Pow(b, exp) >= 0
    requires group == Low(q % Pow(b, exp), b, exp)
    ensures q / Pow(b, exp) >= 0 && PeelInv(n, b, sn + exp, q / Pow(b, exp), out + group)
  {
    hide Pow, Low;
    LowAppend(n, b, sn, exp);
    LowOfRemainder(q, b, exp);
    PowAdd(b, sn, exp);
    PowPos(b, sn + exp);
    DivDiv(n, Pow(b, sn), Pow(b, exp));
    NonNegativeQuotient(q, Pow(b, exp));
  }

  /** Room for k more digits while something is left above them. */
  lemma PeelRoom(n: nat, b: nat, sn: nat, q: nat, out: seq<nat>, k: nat)
    requires PeelInv(n, b, sn, q, out) && q >= Pow(b, k)
    ensures sn + k < NumLen(n, b)
  {
    hide Pow, Low, NumLen;
    PowPos(b, k);
    DivMod(n, Pow(b, sn));
    PowAdd(b, sn, k);
    MulMonotone(Pow(b, sn), Pow(b, k), q);
    MulCommutes(Pow(b, k), Pow(b, sn));
    NumLenAbove(n, b, sn + k);
  }

  /** The last limb's digits complete the numeral. */
  lemma PeelLast(n: nat, b: nat, sn: nat, q: nat, out: seq<nat>, i: nat)
    requires PeelInv(n, b, sn, q, out) && q > 0 && q < Pow(b, i) && i > 0 && Pow(b, i - 1) <= q
    ensures sn + i == NumLen(n, b) && out + Low(q, b, i) == Low(n, b, sn + i)
  {
    hide Pow, Low, NumLen;
    LowAppend(n, b, sn, i);
    DivMod(n, Pow(b, sn));
    PowAdd(b, sn, i);
    PowAdd(b, sn, i - 1);
    MulMonotone(Pow(b, sn), q + 1, Pow(b, i));
    Distribute(q, 1, Pow(b, sn));
    MulMonotone(Pow(b, sn), Pow(b, i - 1), q);
    MulCommutes(Pow(b, i), Pow(b, sn));
    MulCommutes(Pow(b, i - 1), Pow(b, sn));
    assert sn + (i - 1) == sn + i - 1;
    NumLenUnique(n, b, sn + i);
  }

  /** Dividing by less than B shortens a number by at most one limb. */
  lemma QuotientLimbs(v: seq<limb>, q: seq<limb>, d: limb, r: limb)
    requires |v| == |q| >= 2 && v[|v| - 1] > 0 && Val(v) == Val(q) * d + r && r < d
    ensures q[|q| - 1] == 0 ==> q[|q| - 2] > 0
    ensures Val(q) > 0
  {
    hide Val, Pb;
    var n := |v| - 1;
    TopLimbOf(v);
    TopLimbOf(q);
    TopLimbOf(q[..n]);
    assert q[..n][..n - 1] == q[..n - 1];
    MulMonotone(Pb(n), 1, v[n]);
    PbStep(n - 1);
    ValBound(q[..n - 1]);
    QuotientLarge(Val(v), Val(q), d, r, Pb(n - 1), BASE);
  }

  lemma QuotientLarge(v: int, q: int, d: int, r: int, p: int, b: int)
    requires v == q * d + r && 0 <= r < d < b && v >= b * p && p > 0
    ensures q >= p
  {
    if q < p {
      MulMonotone(d, q, p - 1);
      Distribute(p, 1, d);
      MulMonotone(p, d, b - 1);
      Distribute(b, 1, p);
      MulCommutes(p, d);
    }
  }

  /** mpn_get_str_other: groups of digits from the low end, then reversed; up is used up. */
  method GetStrOther(sp: array<uchar>, off: nat, b: limb, info: BaseInfo, up: array<limb>, un0: nat) returns (sn: nat)
    requires 1 <= un0 <= up.Length && up[un0 - 1] > 0 && 2 <= b < 256 && IsBaseInfo(info, b)
    requires off + NumLen(Val(up[..un0]), b) <= sp.Length
    modifies sp, up
    ensures sn == NumLen(Val(old(up[..un0])), b) && sp[off..off + sn] == Numeral(Val(old(up[..un0])), b)
    ensures sp[..off] == old(sp[..off])
  {
    hide *;
    ghost var n: nat := Val(up[..un0]);
    BaseInfoParts(info, b);
    var un := un0;
    var binv := DivQr1Invert(b);
    sn := 0;
    PeelStart(n, b);
    assert sp[off..off + 0] == [];
    if un > 1 {
      var bbinv := DivQr1Invert(info.bb);
      while un > 1
        invariant 1 <= un <= un0 && up[un - 1] > 0 && sp[..off] == old(sp[..off]) && off + sn <= sp.Length
        invariant PeelInv(n, b, sn, Val(up[..un]), sp[off..off + sn])
        decreases Val(up[..un])
      {
        un, sn := PrintGroup(sp, off, sn, b, info, up, un, binv, bbinv, n);
      }
    }
    sn := PrintLast(sp, off, sn, b, up[0], binv, n, up[..un]);
  }

  /** The digits of the last limb, and the reversal. */
  method PrintLast(sp: array<uchar>, off: nat, sn0: nat, b: limb, w: limb, binv: DivInverse, ghost n: nat, ghost v: seq<limb>)
    returns (sn: nat)
    requires 2 <= b < 256 && InverseFor(binv, [b]) && w > 0 && v == [w]
    requires off + NumLen(n, b) <= sp.Length && off + sn0 <= sp.Length
    requires PeelInv(n, b, sn0, Val(v), sp[off..off + sn0])
    modifies sp
    ensures sn == NumLen(n, b) && sp[off..off + sn] == Numeral(n, b)
    ensures sp[..off] == old(sp[..off])
  {
    hide *;
    ghost var out: seq<nat> := sp[off..off + sn0];
    SingleLimb(w);
    LimbRoom(n, b, sn0, w, out);
    var done := LimbGetStr(sp, off + sn0, w, binv, b);
    LastDigits(w, b, done);
    PeelLast(n, b, sn0, w, out, done);
    PeelIs(n, b, sn0, w, out);
    assert sp[off..off + sn0] == sp[..off + sn0][off..] == out;
    assert sp[..off] == sp[..off + sn0][..off];
    assert sp[off..off + (sn0 + done)] == out + sp[off + sn0..off + sn0 + done];
    sn := sn0 + done;
    ghost var low := sp[off..off + sn];
    Reverse(sp, off, sn);
    ReversedLow(n, b, sn, low, sp[off..off + sn]);
  }

  lemma PeelIs(n: nat, b: nat, sn: nat, q: nat, out: seq<nat>)
    requires PeelInv(n, b, sn, q, out)
    ensures b >= 2 && out == Low(n, b, sn)
  {
  }

  lemma BaseInfoParts(info: BaseInfo, b: nat)
    requires IsBaseInfo(info, b)
    ensures info.exp >= 1 && info.bb == Pow(b, info.exp) && (b > 0 ==> info.bb > 0)
  {
    BasePos();
  }

  lemma LastDigits(w: nat, b: nat, i: nat)
    requires w > 0 && w < Pow(b, i)
    ensures i > 0
  {
  }

  lemma LimbRoom(n: nat, b: nat, sn: nat, w: limb, out: seq<nat>)
    requires PeelInv(n, b, sn, w, out) && w > 0 && b >= 2
    ensures sn + NumLen(w, b) <= NumLen(n, b)
  {
    hide PeelInv, Pow, NumLen;
    NumLenBounds(w, b);
    PeelRoom(n, b, sn, w, out, NumLen(w, b) - 1);
  }

  /** The digits of one division by the big base. */
  method PrintGroup(sp: array<uchar>, off: nat, sn0: nat, b: limb, info: BaseInfo, up: array<limb>, un0: nat,
                    binv: DivInverse, bbinv: DivInverse, ghost n: nat) returns (un: nat, sn: nat)
    requires 2 <= un0 <= up.Length && up[un0 - 1] > 0 && 2 <= b < 256 && IsBaseInfo(info, b)
    requires InverseFor(binv, [b]) && InverseFor(bbinv, [info.bb])
    requires off + NumLen(n, b) <= sp.Length && off + sn0 <= sp.Length
    requires PeelInv(n, b, sn0, Val(up[..un0]), sp[off..off + sn0])
    modifies sp, up
    ensures 1 <= un < un0 + 1 && up[un - 1] > 0 && sp[..off] == old(sp[..off]) && off + sn <= sp.Length
    ensures PeelInv(n, b, sn, Val(up[..un]), sp[off..off + sn])
    ensures Val(up[..un]) < Val(old(up[..un0]))
  {
    hide *;
    BaseInfoParts(info, b);
    ghost var v, q, out: seq<nat> := up[..un0], Val(up[..un0]), sp[off..off + sn0];
    un := un0;
    ghost var qs;
    var w;
    w, qs := DivQr1Preinv(up, up, un, bbinv, info.bb);
    ghost var v' := up[..un0];
    assert v[un0 - 1] > 0;
    QuotientLimbs(v, v', info.bb, w);
    DivModUnique(q, info.bb, Val(v'), w);
    BigQuotient(q, info.bb, Val(v'), w);
    ShrinkingQuotient(q, info.bb, Val(v'), w, b, info.exp);
    if up[un - 1] == 0 {
      assert v'[un0 - 1] == 0 && v'[un0 - 2] == up[un - 2];
      ValTrim(v', un0 - 1);
      assert v'[..un0 - 1] == up[..un0 - 1];
      un := un - 1;
    }
    PeelRoom(n, b, sn0, q, out, info.exp);
    GroupDigits(sp, off + sn0, w, info.exp, binv, b);
    assert sp[off..off + sn0] == sp[..off + sn0][off..] == out;
    sn := sn0 + info.exp;
    assert sp[off..off + sn] == out + sp[off + sn0..off + sn0 + info.exp];
    assert sp[..off] == sp[..off + sn0][..off];
    PeelGroup(n, b, sn0, q, out, info.exp, sp[off + sn0..off + sn0 + info.exp]);
  }

  lemma BigQuotient(q: nat, d: nat, h: nat, r: nat)
    requires q == h * d + r && h > 0 && d > 0
    ensures q >= d
  {
    MulMonotone(d, 1, h);
  }

  lemma ShrinkingQuotient(q: nat, d: nat, h: nat, r: nat, b: nat, exp: nat)
    requires q == h * d + r && h > 0 && b >= 2 && d == Pow(b, exp) && exp >= 1
    ensures h < q
  {
    PowMonotone(b, 1, exp);
    assert Pow(b, 1) == b * Pow(b, 0);
    MulMonotone(h, 2, d);
    MulCommutes(h, d);
  }

  /** Element k once the first and last i elements have been swapped end for end. */
  function EndSwap(s: seq<uchar>, i: nat, k: nat): uchar
    requires k < |s|
  {
    if k < i || k >= |s| - i then s[|s| - 1 - k] else s[k]
  }

  ghost predicate SwappedEnds(cur: seq<uchar>, s: seq<uchar>, i: nat) {
    && |cur| == |s|
    && forall k: nat :: k < |s| ==> cur[k] == EndSwap(s, i, k)
  }

  lemma SwapNext(cur: seq<uchar>, s: seq<uchar>, i: nat)
    requires SwappedEnds(cur, s, i) && 2 * i + 1 < |s|
    ensures SwappedEnds(cur[i := cur[|s| - i - 1]][|s| - i - 1 := cur[i]], s, i + 1)
  {
    var j := |s| - i - 1;
    var next := cur[i := cur[j]][j := cur[i]];
    assert cur[i] == EndSwap(s, i, i) && cur[j] == EndSwap(s, i, j);
    forall k: nat | k < |s|
      ensures next[k] == EndSwap(s, i + 1, k)
    {
      assert cur[k] == EndSwap(s, i, k);
    }
  }

  /** Reverses a stretch of the buffer by swapping from both ends. */
  method Reverse(sp: array<uchar>, off: nat, sn: nat)
    requires off + sn <= sp.Length
    modifies sp
    ensures SwappedEnds(sp[off..off + sn], old(sp[off..off + sn]), sn)
    ensures sp[..off] == old(sp[..off])
  {
    hide SwappedEnds;
    ghost var s := sp[off..off + sn];
    SwapStart(s);
    var i := 0;
    while 2 * i + 1 < sn
      invariant 0 <= 2 * i <= sn + 1 && SwappedEnds(sp[off..off + sn], s, i) && sp[..off] == old(sp[..off])
    {
      ghost var cur := sp[off..off + sn];
      SwapNext(cur, s, i);
      var t := sp[off + i];
      sp[off + i] := sp[off + sn - i - 1];
      sp[off + sn - i - 1] := t;
      assert sp[off..off + sn] == cur[i := cur[sn - i - 1]][sn - i - 1 := cur[i]];
      i := i + 1;
    }
    SwapDone(sp[off..off + sn], s, i);
  }

  lemma SwapStart(s: seq<uchar>)
    ensures SwappedEnds(s, s, 0)
  {
  }

  /** Once the ends meet, everything is reversed; a middle element stays. */
  lemma SwapDone(cur: seq<uchar>, s: seq<uchar>, i: nat)
    requires SwappedEnds(cur, s, i) && 2 * i + 1 >= |s|
    ensures SwappedEnds(cur, s, |s|)
  {
    forall k: nat | k < |s|
      ensures cur[k] == EndSwap(s, |s|, k)
    {
      assert cur[k] == EndSwap(s, i, k);
    }
  }

  lemma ReversedLow(n: nat, b: nat, sn: nat, low: seq<uchar>, high: seq<uchar>)
    requires b >= 2 && low == Low(n, b, sn) && sn == NumLen(n, b) && SwappedEnds(high, low, sn)
    ensures high == Numeral(n, b)
  {
    hide Low, Digits, NumLen;
    forall k: nat | k < sn
      ensures high[k] == Digits(n, b, sn)[k]
    {
      assert high[k] == EndSwap(low, sn, k);
      LowReversed(n, b, sn, k);
    }
  }

  /** mpn_mul_1 in place. */
  method Mul1(rp: array<limb>, n: nat, vl: limb) returns (cl: limb)
    requires n <= rp.Length
    modifies rp
    ensures Val(rp[..n]) + cl * Pb(n) == Val(old(rp[..n])) * vl && rp[n..] == old(rp[n..])
  {
    hide *;
    BasePos();
    ghost var r0 := rp[..n];
    ScaleStart(r0, vl);
    cl := 0;
    var i := 0;
    assert r0[..0] == [] && rp[..0] == [];
    while i < n
      invariant i <= n && rp[i..n] == r0[i..] && rp[n..] == old(rp[n..])
      invariant ScaleInv(rp[..i], r0[..i], vl, cl, 0)
    {
      ghost var w := rp[..i];
      assert rp[i] == rp[i..n][0] == r0[i];
      var lo, hi := MulLimb(rp[i], vl, cl);
      ScaleStep(w, r0[..i], vl, cl, 0, r0[i], lo, hi);
      rp[i] := lo;
      assert rp[..i + 1] == w + [lo] && r0[..i + 1] == r0[..i] + [r0[i]];
      assert rp[i + 1..n] == r0[i + 1..];
      cl, i := hi, i + 1;
    }
    assert r0[..n] == r0;
    ScaleDone(rp[..n], r0, vl, cl, 0);
  }

  /** r is the low part of u * v + w, and c what is carried. */
  ghost predicate ScaleInv(r: seq<limb>, u: seq<limb>, v: limb, c: limb, w: nat) {
    |r| == |u| && Val(r) + c * Pb(|r|) == Val(u) * v + w
  }

  lemma ScaleStart(u: seq<limb>, v: limb)
    ensures BASE > 0 && ScaleInv([], [], v, 0, 0)
  {
    BasePos();
    ValEmpty([]);
  }

  lemma ScaleDone(r: seq<limb>, u: seq<limb>, v: limb, c: limb, w: nat)
    requires ScaleInv(r, u, v, c, w)
    ensures Val(r) + c * Pb(|r|) == Val(u) * v + w
  {
  }

  lemma ScaleStep(r: seq<limb>, u: seq<limb>, v: limb, c: limb, w: nat, x: limb, lo: limb, hi: limb)
    requires ScaleInv(r, u, v, c, w) && hi * BASE + lo == x * v + c
    ensures ScaleInv(r + [lo], u + [x], v, hi, w)
  {
    hide Val, Pb;
    ValSnoc(r, lo);
    ValSnoc(u, x);
    PbStep(|r|);
    ScaleInts(Val(r), c, Pb(|r|), Val(u), v, w, hi, lo, x, BASE);
  }

  lemma ScaleInts(vr: int, c: int, p: int, vu: int, v: int, w: int, hi: int, lo: int, x: int, b: int)
    requires vr + c * p == vu * v + w && hi * b + lo == x * v + c
    ensures vr + lo * p + hi * (b * p) == (vu + x * p) * v + w
  {
    assert (hi * b + lo) * p == (x * v + c) * p;
  }

  /** One limb of the product. */
  method MulLimb(ul: limb, vl: limb, cl: limb) returns (lo: limb, hi: limb)
    ensures hi * BASE + lo == ul * vl + cl
  {
    hide Wrap, Pair;
    BaseFacts();
    var hpl, lpl := UmulPpmm(ul, vl);
    PairIs(hpl, lpl);
    SquareBound(ul, vl, BASE);
    WrapAdd(lpl, cl);
    lo := Wrap(lpl + cl);
    ghost var carry := if lo < cl then 1 else 0;
    HighProductBound(hpl, lo, carry, ul * vl + cl, BASE);
    hi := (if lo < cl then 1 else 0) + hpl;
  }

  /** mpn_add_1 in place. */
  method Add1(rp: array<limb>, n: nat, w: limb) returns (c: limb)
    requires 1 <= n <= rp.Length
    modifies rp
    ensures Val(rp[..n]) + c * Pb(n) == Val(old(rp[..n])) + w && rp[n..] == old(rp[n..]) && c <= 1
  {
    hide *;
    BaseFacts();
    ghost var r0 := rp[..n];
    AddStart(w);
    c := w;
    var i := 0;
    assert r0[..0] == [] && rp[..0] == [];
    while i < n
      invariant i <= n && rp[i..n] == r0[i..] && rp[n..] == old(rp[n..]) && (i > 0 ==> c <= 1)
      invariant ScaleInv(rp[..i], r0[..i], 1, c, w)
    {
      ghost var v := rp[..i];
      assert rp[i] == rp[i..n][0] == r0[i];
      WrapAdd(rp[i], c);
      var r := Wrap(rp[i] + c);
      var c': limb := if r < c then 1 else 0;
      ScaleStep(v, r0[..i], 1, c, w, r0[i], r, c');
      rp[i] := r;
      assert rp[..i + 1] == v + [r] && r0[..i + 1] == r0[..i] + [r0[i]];
      assert rp[i + 1..n] == r0[i + 1..];
      c, i := c', i + 1;
    }
    assert r0[..n] == r0;
    ScaleDone(rp[..n], r0, 1, c, w);
  }

  lemma AddStart(w: limb)
    ensures BASE > 1 && ScaleInv([], [], 1, w, w)
  {
    BaseFacts();
    ValEmpty([]);
    PbStep(0);
  }

  /** The value of k digits, which fits a limb. */
  method ReadGroup(sp: array<uchar>, j: nat, k: nat, b: limb) returns (w: limb)
    requires b >= 2 && 1 <= k && j + k <= sp.Length && Pow(b, k) < BASE
    requires forall i :: j <= i < j + k ==> sp[i] < b
    ensures w == NumVal(sp[j..j + k], b) && w < Pow(b, k)
  {
    hide *;
    ByteIsLimb(sp[j]);
    w := sp[j];
    var i := 1;
    SingleDigit(sp[j], b);
    assert sp[j..j + 1] == [sp[j]];
    while i < k
      invariant 1 <= i <= k && w == NumVal(sp[j..j + i], b)
    {
      ghost var ds: seq<nat> := sp[j..j + i];
      assert sp[j..j + (i + 1)] == ds + [sp[j + i]];
      NumValSnoc(ds, sp[j + i], b);
      NumValBound(sp[j..j + (i + 1)], b);
      PowMonotone(b, i + 1, k);
      WrapSmall(w * b + sp[j + i]);
      w := Wrap(w * b + sp[j + i]);
      i := i + 1;
    }
    NumValBound(sp[j..j + k], b);
  }

  lemma WrapSmall(x: int)
    requires 0 <= x < BASE
    ensures Wrap(x) == x
  {
    WrapIs(x, 0, x);
  }

  lemma SingleDigit(x: nat, b: nat)
    ensures NumVal([x], b) == x
  {
    NumValSnoc([], x, b);
    NumValNone(b);
    assert [] + [x] == [x];
  }

  /** One group of digits appended: rp = rp * bb + w. */
  method AppendGroup(rp: array<limb>, rn0: nat, bb: limb, w: limb) returns (rn: nat)
    requires 1 <= rn0 < rp.Length && 2 <= bb && w < bb && (rn0 > 1 ==> rp[rn0 - 1] > 0)
    modifies rp
    ensures rn0 <= rn <= rn0 + 1 && Val(rp[..rn]) == Val(old(rp[..rn0])) * bb + w
    ensures rn > 1 ==> rp[rn - 1] > 0
  {
    hide *;
    BasePos();
    ghost var v := rp[..rn0];
    assert v[rn0 - 1] == rp[rn0 - 1];
    var cy := Mul1(rp, rn0, bb);
    var c := Add1(rp, rn0, w);
    ghost var r := rp[..rn0];
    CarrySum(v, r, bb, w, cy, c);
    cy := cy + c;
    rn := rn0;
    if cy > 0 {
      rp[rn] := cy;
      rn := rn + 1;
      assert rp[..rn] == r + [cy];
      ValSnoc(r, cy);
    } else {
      TopStays(v, r, bb, w);
      assert r[rn0 - 1] == rp[rn0 - 1];
    }
  }

  lemma CarrySum(v: seq<limb>, r: seq<limb>, bb: limb, w: limb, cy: limb, c: limb)
    requires |v| == |r| && w < bb && Val(r) + c * Pb(|r|) == Val(v) * bb + w - cy * Pb(|r|)
    ensures cy + c < BASE && Val(r) + (cy + c) * Pb(|r|) == Val(v) * bb + w
  {
    hide Val, Pb;
    ValBound(v);
    CarrySumInts(Val(v), Val(r), bb, w, cy, c, Pb(|r|));
  }

  lemma CarrySumInts(v: int, r: int, bb: int, w: int, cy: int, c: int, p: int)
    requires 0 <= v < p && r >= 0 && 0 <= w < bb && r + c * p == v * bb + w - cy * p
    ensures r + (cy + c) * p == v * bb + w && cy + c < bb
  {
    Distribute(cy, c, p);
    MulMonotone(bb, v + 1, p);
    Distribute(v, 1, bb);
    MulCommutes(bb, p);
    MulCancelLt(cy + c, bb, p);
  }

  /** Without a carry the top limb stays nonzero. */
  lemma TopStays(v: seq<limb>, r: seq<limb>, bb: limb, w: limb)
    requires |v| == |r| >= 1 && (|v| > 1 ==> v[|v| - 1] > 0) && bb >= 2 && Val(r) == Val(v) * bb + w
    ensures |r| > 1 ==> r[|r| - 1] > 0
  {
    hide Val, Pb;
    if |r| > 1 {
      var n := |r| - 1;
      TopLimbOf(v);
      TopLimbOf(r);
      ValBound(r[..n]);
      MulMonotone(Pb(n), 1, v[n]);
      MulMonotone(Val(v), 1, bb);
    }
  }

  /** The first group takes the digits that do not fill whole groups. */
  lemma GroupCount(sn: nat, exp: nat) returns (k: nat, groups: nat)
    requires sn > 0 && exp > 0
    ensures k == 1 + (sn - 1) % exp && 1 <= k <= exp && k <= sn && sn - k == groups * exp
    ensures groups + 1 == CeilDiv(sn, exp)
  {
    k := 1 + (sn - 1) % exp;
    DivMod(sn - 1, exp);
    NonNegativeQuotient(sn - 1, exp);
    groups := (sn - 1) / exp;
    assert sn + exp - 1 == (groups + 1) * exp + (sn - 1) % exp by { Distribute(groups, 1, exp); }
    DivModUnique(sn + exp - 1, exp, groups + 1, (sn - 1) % exp);
  }

  /** mpn_set_str_other: a short first group, then groups of exp digits. */
  method SetStrOther(rp: array<limb>, sp: array<uchar>, sn: nat, b: limb, info: BaseInfo) returns (rn: nat)
    requires 1 <= sn <= sp.Length && b >= 2 && IsBaseInfo(info, b) && forall k :: 0 <= k < sn ==> sp[k] < b
    requires info.exp > 0 && rp.Length >= CeilDiv(sn, info.exp)
    modifies rp
    ensures 1 <= rn <= CeilDiv(sn, info.exp) && rn <= rp.Length && Val(rp[..rn]) == NumVal(sp[..sn], b)
    ensures rn > 1 ==> rp[rn - 1] > 0
  {
    hide *;
    BaseInfoParts(info, b);
    ghost var k0, groups := GroupCount(sn, info.exp);
    var k := 1 + (sn - 1) % info.exp;
    PowMonotone(b, k, info.exp);
    var w := ReadGroup(sp, 0, k, b);
    rp[0] := w;
    rn := 1;
    var j := k;
    assert rp[..1] == [w] && sp[0..0 + k] == sp[..j];
    SingleLimb(w);
    BigBase(info, b);
    ghost var left: nat := groups;
    while j < sn
      invariant 1 <= j <= sn && sn - j == left * info.exp && 1 <= rn <= CeilDiv(sn, info.exp) - left
      invariant rn <= rp.Length && Val(rp[..rn]) == NumVal(sp[..j], b) && (rn > 1 ==> rp[rn - 1] > 0)
      decreases sn - j
    {
      OneGroup(left, info.exp, sn - j);
      w := ReadGroup(sp, j, info.exp, b);
      NumValAppend(sp[..j], sp[j..j + info.exp], b);
      assert sp[..j + info.exp] == sp[..j] + sp[j..j + info.exp];
      rn := AppendGroup(rp, rn, info.bb, w);
      j := j + info.exp;
      left := left - 1;
    }
    NoGroup(left, info.exp);
  }

  lemma BigBase(info: BaseInfo, b: nat)
    requires IsBaseInfo(info, b) && b >= 2
    ensures info.bb >= 2
  {
    PowMonotone(b, 1, info.exp);
    PowerStart(b);
  }

  lemma OneGroup(left: nat, exp: nat, x: nat)
    requires x == left * exp && x > 0
    ensures left >= 1 && x >= exp && x - exp == (left - 1) * exp
  {
    MulMonotone(exp, 1, left);
    Distribute(left, 1, exp);
  }

  lemma NoGroup(left: nat, exp: nat)
    ensures left * exp >= 0
  {
  }
}
