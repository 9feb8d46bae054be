/** Numbers as text: mpz_sizeinbase, mpz_get_str and mpz_set_str. */
module MiniGmpText {
  import opened Arith
  import opened Limbs
  import opened BignumCore
  import opened Numerals
  import opened MiniGmpDiv
  import opened MiniGmpMpz
  import opened MiniGmpStr
  import opened Wrappers

  // ---- characters ----

  const ZERO: uchar := 48
  const MINUS: uchar := 45
  const UPPER_A: uchar := 65
  const LOWER_A: uchar := 97

  /** The digit characters: capitals before small letters, or small letters only. */
  function DigitChar(capitals: bool, d: nat): uchar
    requires d < (if capitals then 62 else 36)
  {
    if d < 10 then ZERO + d
    else if !capitals then LOWER_A + (d - 10)
    else if d < 36 then UPPER_A + (d - 10)
    else LOWER_A + (d - 36)
  }

  /** The value a character has as a digit; b stands for no digit. */
  function DigitOf(c: uchar, b: nat): nat {
    if ZERO <= c <= ZERO + 9 then c - ZERO
    else if LOWER_A <= c <= LOWER_A + 25 then c - LOWER_A + if b > 36 then 36 else 10
    else if UPPER_A <= c <= UPPER_A + 25 then c - UPPER_A + 10
    else b
  }

  predicate IsSpace(c: uchar) {
    c == 32 || 9 <= c <= 13
  }

  /** The base that is printed in and its digit characters; None for an unsupported base. */
  function PrintBase(base: int): (r: Option<(nat, bool)>)
    ensures r.Some? ==> 2 <= r.value.0 <= 62 && (r.value.0 > 36 ==> r.value.1)
  {
    if base > 1 then (if base <= 36 then Some((base, false)) else if base > 62 then None else Some((base, true)))
    else if base >= -1 then Some((10, true))
    else if base < -36 then None
    else Some((-base, true))
  }

  // ---- what is printed and what is read ----

  /** The characters of a digit sequence. */
  function Chars(ds: seq<nat>, capitals: bool): (s: seq<uchar>)
    requires forall i :: 0 <= i < |ds| ==> ds[i] < if capitals then 62 else 36
    ensures |s| == |ds|
  {
    if ds == [] then [] else Chars(ds[..|ds| - 1], capitals) + [DigitChar(capitals, ds[|ds| - 1])]
  }

  /** The text of z: a minus sign if needed and the numeral of its magnitude. */
  function Print(z: int, b: nat, capitals: bool): seq<uchar>
    requires 2 <= b <= if capitals then 62 else 36
  {
    (if z < 0 then [MINUS] else []) + Chars(Numeral(Abs(z), b), capitals)
  }

  /** The character at i, 0 at the end of the string. */
  function At(s: seq<uchar>, i: nat): uchar {
    if i < |s| then s[i] else 0
  }

  function SkipSpaces(s: seq<uchar>, i: nat): (j: nat)
    requires i <= |s|
    ensures i <= j <= |s|
    decreases |s| - i
  {
    if i < |s| && IsSpace(s[i]) then SkipSpaces(s, i + 1) else i
  }

  /** The base and the start of the digits; base 0 asks for a prefix. */
  function ReadBase(s: seq<uchar>, i: nat, base: nat): (r: (nat, nat))
    requires i <= |s|
    ensures i <= r.1 <= |s|
    ensures base == 0 || 2 <= base <= 62 ==> 2 <= r.0 <= 62
  {
    if base != 0 then (base, i)
    else if At(s, i) != ZERO then (10, i)
    else if At(s, i + 1) == 120 || At(s, i + 1) == 88 then (16, i + 2)
    else if At(s, i + 1) == 98 || At(s, i + 1) == 66 then (2, i + 2)
    else (8, i)
  }

  /** The digits of a text, spaces left out. */
  function ReadDigits(s: seq<uchar>, b: nat): (r: Option<seq<nat>>)
    ensures r.Some? ==> |r.value| <= |s| && forall i :: 0 <= i < |r.value| ==> r.value[i] < b
  {
    if s == [] then Some([])
    else
      var c := s[|s| - 1];
      match ReadDigits(s[..|s| - 1], b)
      case None => None
      case Some(ds) => if IsSpace(c) then Some(ds) else if DigitOf(c, b) >= b then None else Some(ds + [DigitOf(c, b)])
  }

  /** The number a text denotes in a base, or None. */
  function Parse(s: seq<uchar>, base: nat): Option<int>
  {
    var i := SkipSpaces(s, 0);
    var neg := At(s, i) == MINUS;
    var (b, j) := ReadBase(s, if neg then i + 1 else i, base);
    match ReadDigits(s[j..], b)
    case None => None
    case Some(ds) => if ds == [] then None else Some(if neg then 0 - NumVal(ds, b) else NumVal(ds, b))
  }

  // ---- the two definitions in other words ----

  /** The digit characters are those of the code's two strings. */
  lemma SmallDigits(d: nat)
    requires d < 36
    ensures DigitChar(false, d) == "0123456789abcdefghijklmnopqrstuvwxyz"[d] as int
  {
  }

  lemma AllDigits(d: nat)
    requires d < 62
    ensures d < 36 ==> DigitChar(true, d) == "0123456789ABCDEFGHIJKLMNOPQRSTUVWXYZ"[d] as int
    ensures d >= 36 ==> DigitChar(true, d) == "abcdefghijklmnopqrstuvwxyz"[d - 36] as int
  {
  }

  /** Bases 2 to 36 print small letters, 37 to 62 and -36 to -2 capitals first, -1 to 1 decimal; the others are refused. */
  lemma PrintBaseIs(base: int)
    ensures PrintBase(base).Some? <==> -36 <= base <= 62
    ensures 2 <= base <= 36 ==> PrintBase(base) == Some((base, false))
    ensures 37 <= base <= 62 ==> PrintBase(base) == Some((base, true))
    ensures -36 <= base <= -2 ==> PrintBase(base) == Some((-base, true))
    ensures -1 <= base <= 1 ==> PrintBase(base) == Some((10, true))
  {
  }

  // ---- printing then reading ----

  lemma DigitRoundTrip(d: nat, b: nat, capitals: bool)
    requires d < b <= if capitals then 62 else 36
    ensures DigitOf(DigitChar(capitals, d), b) == d && !IsSpace(DigitChar(capitals, d)) && DigitChar(capitals, d) != MINUS
  {
  }

  lemma {:induction false} CharsRoundTrip(ds: seq<nat>, b: nat, capitals: bool)
    requires b <= (if capitals then 62 else 36) && forall i :: 0 <= i < |ds| ==> ds[i] < b
    ensures ReadDigits(Chars(ds, capitals), b) == Some(ds)
  {
    if ds != [] {
      var n := |ds| - 1;
      CharsRoundTrip(ds[..n], b, capitals);
      DigitRoundTrip(ds[n], b, capitals);
      var s := Chars(ds, capitals);
      assert s[..n] == Chars(ds[..n], capitals) && s[n] == DigitChar(capitals, ds[n]);
      assert ds == ds[..n] + [ds[n]];
    }
  }

  lemma {:induction false} CharAt(ds: seq<nat>, capitals: bool, i: nat)
    requires i < |ds| && forall k :: 0 <= k < |ds| ==> ds[k] < if capitals then 62 else 36
    ensures Chars(ds, capitals)[i] == DigitChar(capitals, ds[i])
  {
    if i < |ds| - 1 {
      CharAt(ds[..|ds| - 1], capitals, i);
    }
  }

  /** mpz_set_str of mpz_get_str is the identity, for every number and base. */
  lemma RoundTrip(z: int, b: nat, capitals: bool)
    requires 2 <= b <= if capitals then 62 else 36
    ensures Parse(Print(z, b, capitals), b) == Some(z)
  {
    hide Numeral, NumVal, ReadDigits, Chars, DigitChar, DigitOf, NumLen;
    var ds := Numeral(Abs(z), b);
    NumeralShape(Abs(z), b);
    var cs := Chars(ds, capitals);
    var s := Print(z, b, capitals);
    CharAt(ds, capitals, 0);
    DigitRoundTrip(ds[0], b, capitals);
    if z < 0 {
      assert s == [MINUS] + cs && s[1..] == cs;
    } else {
      assert s == cs && s[0..] == cs;
    }
    assert SkipSpaces(s, 0) == 0;
    CharsRoundTrip(ds, b, capitals);
    NumeralValue(Abs(z), b);
  }

  /** A prefix and the base that it announces. */
  predicate Announces(prefix: string, b: nat) {
    ((prefix == "0x" || prefix == "0X") && b == 16) || ((prefix == "0b" || prefix == "0B") && b == 2) || (prefix == "0" && b == 8)
  }

  function Codes(t: string): (s: seq<uchar>)
    requires forall i :: 0 <= i < |t| ==> t[i] as int < 256
    ensures |s| == |t| && forall i :: 0 <= i < |t| ==> s[i] == t[i] as int
  {
    seq(|t|, i requires 0 <= i < |t| => t[i] as int)
  }

  lemma PrefixCodes(prefix: string, b: nat)
    requires Announces(prefix, b)
    ensures forall i :: 0 <= i < |prefix| ==> prefix[i] as int < 256
    ensures b == 16 ==> Codes(prefix) == [48, 120] || Codes(prefix) == [48, 88]
    ensures b == 2 ==> Codes(prefix) == [48, 98] || Codes(prefix) == [48, 66]
    ensures b == 8 ==> Codes(prefix) == [48]
    ensures b == 16 || b == 2 || b == 8
  {
  }

  /** Base 0: the sign, a prefix and digits of the base that it announces give the number. */
  lemma PrefixedText(negative: bool, prefix: string, ds: seq<nat>, b: nat, capitals: bool)
    requires Announces(prefix, b) && ds != [] && forall i :: 0 <= i < |ds| ==> ds[i] < b
    ensures forall i :: 0 <= i < |prefix| ==> prefix[i] as int < 256
    ensures Parse((if negative then [MINUS] else []) + (Codes(prefix) + Chars(ds, capitals)), 0) == Some(Signed(negative, NumVal(ds, b)))
  {
    PrefixCodes(prefix, b);
    hide NumVal, ReadDigits, Chars, DigitChar, DigitOf, Codes, Announces, Parse, ReadBase, SkipSpaces;
    var p, cs := Codes(prefix), Chars(ds, capitals);
    CharsRoundTrip(ds, b, capitals);
    if b == 8 {
      CharAt(ds, capitals, 0);
      SmallDigit(capitals, ds[0]);
      LeadingZero(ds, capitals, b);
      assert (p + cs)[0..] == [ZERO] + cs;
      ParseSigned(negative, p + cs, 0, b, [0] + ds);
    } else {
      assert (p + cs)[2..] == cs;
      ParseSigned(negative, p + cs, 2, b, ds);
    }
  }

  /** A text without leading spaces: the base and the digits after its prefix decide. */
  lemma ParseSigned(negative: bool, t: seq<uchar>, n: nat, b: nat, ds: seq<nat>)
    requires n < |t| && t[0] != MINUS && !IsSpace(t[0]) && ReadBase(t, 0, 0) == (b, n) && ReadDigits(t[n..], b) == Some(ds) && ds != []
    ensures Parse((if negative then [MINUS] else []) + t, 0) == Some(Signed(negative, NumVal(ds, b)))
  {
    hide NumVal, ReadDigits;
    var s := (if negative then [MINUS] else []) + t;
    assert s[0] == if negative then MINUS else t[0];
    assert SkipSpaces(s, 0) == 0;
    if negative {
      assert At(s, 1) == At(t, 0) && At(s, 2) == At(t, 1);
      assert s[1 + n..] == t[n..];
    } else {
      assert s == t;
    }
  }

  lemma SmallDigit(capitals: bool, d: nat)
    requires d < 10
    ensures DigitChar(capitals, d) == ZERO + d
  {
  }

  /** A digit 0 in front changes nothing. */
  lemma LeadingZero(ds: seq<nat>, capitals: bool, b: nat)
    requires 2 <= b <= 36 && ds != [] && forall i :: 0 <= i < |ds| ==> ds[i] < b
    ensures ReadDigits([ZERO] + Chars(ds, capitals), b) == Some([0] + ds) && NumVal([0] + ds, b) == NumVal(ds, b)
  {
    hide ReadDigits, NumVal, DigitOf;
    ZeroInFront(ds, capitals);
    CharsRoundTrip([0] + ds, b, capitals);
    ZeroValueInFront(ds, b);
  }

  lemma {:induction false} ZeroInFront(ds: seq<nat>, capitals: bool)
    requires forall i :: 0 <= i < |ds| ==> ds[i] < 36
    ensures Chars([0] + ds, capitals) == [ZERO] + Chars(ds, capitals)
  {
    hide DigitChar;
    SmallDigit(capitals, 0);
    if ds == [] {
      assert [0] + ds == [0] && [0][..0] == [];
    } else {
      var n := |ds| - 1;
      ZeroInFront(ds[..n], capitals);
      assert ([0] + ds)[..n + 1] == [0] + ds[..n] && ([0] + ds)[n + 1] == ds[n];
    }
  }

  lemma {:induction false} ZeroValueInFront(ds: seq<nat>, b: nat)
    ensures NumVal([0] + ds, b) == NumVal(ds, b)
  {
    if ds == [] {
      assert [0] + ds == [0] && [0][..0] == [];
    } else {
      var n := |ds| - 1;
      ZeroValueInFront(ds[..n], b);
      assert ([0] + ds)[..n + 1] == [0] + ds[..n] && ([0] + ds)[n + 1] == ds[n];
    }
  }

  /** Base 0 without a prefix: a number that does not start with the digit 0 is decimal. */
  lemma PlainText(negative: bool, ds: seq<nat>, capitals: bool)
    requires ds != [] && ds[0] != 0 && forall i :: 0 <= i < |ds| ==> ds[i] < 10
    ensures Parse((if negative then [MINUS] else []) + Chars(ds, capitals), 0) == Some(Signed(negative, NumVal(ds, 10)))
  {
    hide NumVal, ReadDigits, Chars, DigitChar, DigitOf;
    var cs := Chars(ds, capitals);
    CharsRoundTrip(ds, 10, capitals);
    CharAt(ds, capitals, 0);
    SmallDigit(capitals, ds[0]);
    assert cs[0..] == cs;
    ParseSigned(negative, cs, 0, 10, ds);
  }

  /** A text is read if and only if all its characters are spaces or digits of the base. */
  lemma {:induction false} ReadIffDigits(s: seq<uchar>, b: nat)
    ensures ReadDigits(s, b).Some? <==> forall i :: 0 <= i < |s| ==> IsSpace(s[i]) || DigitOf(s[i], b) < b
  {
    hide IsSpace, DigitOf;
    if s != [] {
      var t := s[..|s| - 1];
      ReadIffDigits(t, b);
      assert forall i :: 0 <= i < |t| ==> t[i] == s[i];
    }
  }

  lemma NumeralShape(n: nat, b: nat)
    requires b >= 2
    ensures |Numeral(n, b)| >= 1 && forall i :: 0 <= i < |Numeral(n, b)| ==> Numeral(n, b)[i] < b
  {
    hide Digits, NumLen;
  }

  /** A text with a bad prefix is bad. */
  lemma {:induction false} ReadFails(s: seq<uchar>, b: nat, i: nat)
    requires i <= |s| && ReadDigits(s[..i], b) == None
    ensures ReadDigits(s, b) == None
  {
    if i < |s| {
      assert s[..|s| - 1][..i] == s[..i];
      ReadFails(s[..|s| - 1], b, i);
    } else {
      assert s[..i] == s;
    }
  }

  // ---- mpz_sizeinbase ----

  /** Digits of the quotient by the base: one fewer. */
  lemma NumLenStep(v: nat, b: nat)
    requires b >= 2
    ensures v / b >= 0
    ensures v / b > 0 ==> NumLen(v, b) == 1 + NumLen(v / b, b)
    ensures v / b == 0 ==> NumLen(v, b) == 1
  {
    NonNegativeQuotient(v, b);
    DivMod(v, b);
    if v / b > 0 {
      BigQuotient(v, b, v / b, v % b);
    } else {
      MulCommutes(v / b, b);
    }
  }

  /** The digits counted by dividing until nothing is left. */
  method CountDigits(tp: array<limb>, un0: nat, b: limb) returns (ndigits: nat)
    requires 1 <= un0 <= tp.Length && tp[un0 - 1] > 0 && b >= 2
    modifies tp
    ensures ndigits == NumLen(Val(old(tp[..un0])), b)
  {
    hide *;
    var bi := DivQr1Invert(b);
    var un := un0;
    ndigits := 0;
    ghost var total := NumLen(Val(tp[..un]), b);
    while un > 0
      invariant 0 <= un <= un0 && (un > 0 ==> tp[un - 1] > 0)
      invariant ndigits + (if un > 0 then NumLen(Val(tp[..un]), b) else 0) == total
      decreases Val(tp[..un]), un
    {
      ghost var v := tp[..un];
      ndigits := ndigits + 1;
      assert v[un - 1] == tp[un - 1];
      ghost var qs;
      var rem;
      rem, qs := DivQr1Preinv(tp, tp, un, bi, b);
      ghost var q := tp[..un];
      PositiveVal(v);
      DivModUnique(Val(v), b, Val(q), rem);
      NumLenStep(Val(v), b);
      DivShrinks(Val(v), b);
      if un >= 2 {
        QuotientLimbs(v, q, b, rem);
        assert q[un - 1] == tp[un - 1] && q[un - 2] == tp[un - 2];
        if tp[un - 1] == 0 {
          ValTrim(q, un - 1);
          assert q[..un - 1] == tp[..un - 1];
        }
      } else {
        assert q == [tp[0]];
        SingleLimb(tp[0]);
        if tp[un - 1] == 0 {
          ValTrim(q, 0);
          assert q[..0] == tp[..0];
        }
      }
      if tp[un - 1] == 0 {
        un := un - 1;
      }
    }
  }

  lemma PositiveVal(v: seq<limb>)
    requires v != [] && v[|v| - 1] > 0
    ensures Val(v) > 0
  {
    hide Val;
    ValZeroIff(v);
  }

  lemma SmallPowers()
    ensures Pow2(1) == 2 && Pow2(2) == 4 && Pow2(3) == 8 && Pow2(4) == 16 && Pow2(5) == 32
  {
    assert Pow(2, 1) == 2 && Pow(2, 2) == 4 && Pow(2, 3) == 8 && Pow(2, 4) == 16;
  }

  /** A copy of the magnitude. */
  method CopyLimbs(u: Mpz) returns (tp: array<limb>)
    requires u.Valid()
    ensures fresh(tp) && tp.Length == Abs(u.size) && tp[..Abs(u.size)] == u.Magnitude()
  {
    var un := Abs(u.size);
    tp := new limb[un];
    var i := 0;
    while i < un
      invariant i <= un && tp[..i] == u.d[..i]
    {
      tp[i] := u.d[i];
      i := i + 1;
    }
  }

  /** mpz_sizeinbase: the exact number of digits of the magnitude. */
  method SizeInBase(u: Mpz, base: nat) returns (n: nat)
    requires u.Valid() && 2 <= base <= 62
    ensures n == NumLen(Val(u.Magnitude()), base) && n >= 1
  {
    hide Val, Pb, NumLen, BitLen, Pow2, CeilDiv;
    ghost var w := u.Magnitude();
    var un := Abs(u.size);
    if un == 0 {
      ValEmpty(w);
      ZeroLength(base);
      return 1;
    }
    var top := LimbSizeInBase2(u.d[un - 1]);
    assert w[un - 1] == u.d[un - 1];
    BitsOf(w);
    var bits := (un - 1) * LIMB_BITS + top;
    SmallPowers();
    var k := BasePowerOfTwo(base);
    if 1 <= k <= 5 {
      BasePowerOfTwoIs(base);
      DigitCount(Val(w), k);
      n := CeilDiv(bits, k);
      return;
    }
    var tp := CopyLimbs(u);
    assert tp[un - 1] == tp[..un][un - 1];
    WideBase(base);
    n := CountDigits(tp, un, base);
  }

  lemma WideBase(b: nat)
    requires b < 256
    ensures b < BASE
  {
    BaseFacts();
  }

  lemma ZeroLength(b: nat)
    requires b >= 2
    ensures NumLen(0, b) == 1
  {
  }

  // ---- mpz_get_str ----

  /** Replaces digits by their characters. */
  method ToChars(sp: array<uchar>, from: nat, to: nat, capitals: bool)
    requires from <= to <= sp.Length && forall k :: from <= k < to ==> sp[k] < if capitals then 62 else 36
    modifies sp
    ensures forall k :: 0 <= k < to - from ==> old(sp[from..to])[k] < if capitals then 62 else 36
    ensures sp[from..to] == Chars(old(sp[from..to]), capitals) && sp[..from] == old(sp[..from])
  {
    hide DigitChar, Chars;
    ghost var ds := sp[from..to];
    assert forall k :: 0 <= k < to - from ==> ds[k] < if capitals then 62 else 36;
    var i := from;
    NoChars(capitals);
    assert ds[..0] == [];
    while i < to
      invariant from <= i <= to && sp[i..to] == ds[i - from..] && sp[..from] == old(sp[..from])
      invariant sp[from..i] == Chars(ds[..i - from], capitals)
    {
      ghost var cs := sp[from..i];
      assert sp[i] == sp[i..to][0] == ds[i - from];
      sp[i] := DigitChar(capitals, sp[i]);
      assert sp[from..i + 1] == cs + [sp[i]];
      CharsSnoc(ds, i - from, capitals);
      assert sp[i + 1..to] == ds[i + 1 - from..];
      i := i + 1;
    }
    assert ds[..to - from] == ds;
  }

  lemma NoChars(capitals: bool)
    ensures Chars([], capitals) == []
  {
  }

  lemma CharsSnoc(ds: seq<nat>, i: nat, capitals: bool)
    requires i < |ds| && forall k :: 0 <= k < |ds| ==> ds[k] < if capitals then 62 else 36
    ensures Chars(ds[..i + 1], capitals) == Chars(ds[..i], capitals) + [DigitChar(capitals, ds[i])]
  {
    hide DigitChar;
    assert ds[..i + 1][..i] == ds[..i];
  }

  /** The numeral of a nonzero magnitude, by the path for its base. */
  method WriteNumeral(sp: array<uchar>, off: nat, b: nat, u: Mpz) returns (sn: nat)
    requires u.Valid() && u.size != 0 && 2 <= b <= 62 && off + NumLen(Val(u.Magnitude()), b) <= sp.Length
    modifies sp
    ensures sn == NumLen(Val(old(u.Magnitude())), b) && sp[off..off + sn] == Numeral(Val(old(u.Magnitude())), b)
    ensures sp[..off] == old(sp[..off])
  {
    hide Val, NumLen, Numeral, Pow2, IsBaseInfo;
    var un, bits := Abs(u.size), BasePowerOfTwo(b);
    if bits > 0 {
      BasePowerOfTwoIs(b);
      sn := GetStrBits(sp, off, bits, u.d, un);
    } else {
      WideBase(b);
      var info := GetBaseInfo(b);
      var tp := CopyLimbs(u);
      assert tp[un - 1] == tp[..un][un - 1];
      sn := GetStrOther(sp, off, b, info, tp, un);
    }
  }

  /** mpz_get_str: the buffer has two characters more than mpz_sizeinbase, for the sign and the end. */
  method GetStr(base: int, u: Mpz) returns (r: Option<seq<uchar>>)
    requires u.Valid()
    ensures r == match PrintBase(base)
                 case None => None
                 case Some(p) => Some(Print(u.Value(), p.0, p.1))
  {
    hide Val, NumLen, Numeral, Chars, DigitChar, PrintBase;
    match PrintBase(base)
    case None => return None;
    case Some(p) =>
      var b, capitals := p.0, p.1;
      ghost var m := Val(u.Magnitude());
      MagnitudePositive(u);
      var sn := SizeInBase(u, b);
      sn := 1 + sn;
      var sp := new uchar[1 + sn];
      if u.size == 0 {
        sp[0] := ZERO;
        sp[1] := 0;
        PrintZero(b, capitals);
        ZeroValue(u);
        assert sp[..1] == [ZERO];
        return Some(sp[..1]);
      }
      var i := 0;
      if u.size < 0 {
        sp[0] := MINUS;
        i := 1;
      }
      ghost var sign := sp[..i];
      var k := WriteNumeral(sp, i, b, u);
      NumeralShape(m, b);
      sn := i + k;
      assert forall j :: i <= j < sn ==> sp[j] == sp[i..sn][j - i];
      ghost var ds := sp[i..sn];
      assert sp[..i] == sign;
      ToChars(sp, i, sn, capitals);
      ghost var cs := sp[i..sn];
      sp[sn] := 0;
      assert sp[..sn] == sign + cs;
      PrintIs(u, m, sign, ds, cs, b, capitals);
      return Some(sp[..sn]);
  }

  lemma PrintIs(u: Mpz, m: nat, sign: seq<uchar>, ds: seq<nat>, cs: seq<uchar>, b: nat, capitals: bool)
    requires 2 <= b <= (if capitals then 62 else 36) && u.Valid() && m == Val(u.Magnitude()) && m > 0
    requires sign == (if u.size < 0 then [MINUS] else []) && ds == Numeral(m, b)
    requires forall i :: 0 <= i < |ds| ==> ds[i] < b
    requires cs == Chars(ds, capitals)
    ensures sign + cs == Print(u.Value(), b, capitals)
  {
    hide Val, Numeral, Chars;
  }

  lemma PrintZero(b: nat, capitals: bool)
    requires 2 <= b <= if capitals then 62 else 36
    ensures Print(0, b, capitals) == [ZERO]
  {
    assert Numeral(0, b) == [0];
    assert Chars([0], capitals) == [ZERO];
  }

  // ---- mpz_set_str ----

  /** Reads the digits of a text into dp, or finds that it is no numeral. */
  method CollectDigits(s: seq<uchar>, start: nat, b: nat) returns (ok: bool, dp: array<uchar>, dn: nat)
    requires start <= |s| && 2 <= b <= 62
    ensures fresh(dp) && dn <= dp.Length
    ensures ReadDigits(s[start..], b) == if ok then Some(dp[..dn]) else None
  {
    hide DigitOf, IsSpace, ReadDigits;
    ghost var t := s[start..];
    dp := new uchar[|s| - start];
    dn := 0;
    var i := start;
    ReadNone(b);
    assert t[..0] == [] && dp[..0] == [];
    while i < |s|
      invariant start <= i <= |s| && dn <= i - start && ReadDigits(t[..i - start], b) == Some(dp[..dn])
    {
      var c := s[i];
      ReadStep(t, i - start, b, dp[..dn]);
      if !IsSpace(c) {
        var digit := DigitOf(c, b);
        if digit >= b {
          ReadFails(t, b, i - start + 1);
          return false, dp, dn;
        }
        ghost var ds := dp[..dn];
        dp[dn] := digit;
        dn := dn + 1;
        assert dp[..dn] == ds + [digit];
      }
      i := i + 1;
    }
    assert t[..|s| - start] == t;
    ok := true;
  }

  lemma ReadNone(b: nat)
    ensures ReadDigits([], b) == Some([])
  {
  }

  lemma ReadStep(t: seq<uchar>, i: nat, b: nat, ds: seq<nat>)
    requires i < |t| && ReadDigits(t[..i], b) == Some(ds)
    ensures ReadDigits(t[..i + 1], b)
         == if IsSpace(t[i]) then Some(ds) else if DigitOf(t[i], b) >= b then None else Some(ds + [DigitOf(t[i], b)])
  {
    hide IsSpace, DigitOf;
    assert t[..i + 1][..i] == t[..i];
  }

  /** Sets the sign of a normalised magnitude. */
  method SetSize(r: Mpz, rn: nat, neg: bool)
    requires rn <= r.d.Length && (rn > 0 ==> r.d[rn - 1] != 0)
    modifies r`size
    ensures r.Valid() && r.Value() == (if neg then 0 - Val(r.d[..rn]) else Val(r.d[..rn]))
  {
    hide Val;
    r.size := if neg then 0 - rn else rn;
    assert r.Magnitude() == r.d[..rn];
    if rn == 0 {
      ValEmpty(r.d[..0]);
    }
  }

  /** The number with the given digits, for a base that is not a power of two. */
  method ReadOther(r: Mpz, dp: array<uchar>, dn: nat, b: limb, neg: bool)
    requires r.Valid() && 1 <= dn <= dp.Length && 2 <= b && forall k :: 0 <= k < dn ==> dp[k] < b
    modifies r, r.d
    ensures r.Valid() && r.Value() == (if neg then 0 - NumVal(dp[..dn], b) else NumVal(dp[..dn], b))
    ensures r.d == old(r.d) || fresh(r.d)
  {
    hide Val, Pb, NumVal, Pow2, CeilDiv, IsBaseInfo;
    var info := GetBaseInfo(b);
    BaseInfoParts(info, b);
    var alloc := CeilDiv(dn, info.exp);
    r.Realloc(alloc);
    var rn := SetStrOther(r.d, dp, dn, b, info);
    if r.d[rn - 1] == 0 {
      ghost var v := r.d[..rn];
      ValTrim(v, rn - 1);
      assert v[..rn - 1] == r.d[..rn - 1];
      rn := rn - 1;
    }
    SetSize(r, rn, neg);
  }

  /** The number with the given digits, by the path for its base. */
  method ReadMagnitude(r: Mpz, dp: array<uchar>, dn: nat, b: nat, neg: bool)
    requires r.Valid() && 1 <= dn <= dp.Length && 2 <= b <= 62 && forall k :: 0 <= k < dn ==> dp[k] < b
    modifies r, r.d
    ensures r.Valid() && r.Value() == (if neg then 0 - NumVal(dp[..dn], b) else NumVal(dp[..dn], b))
    ensures r.d == old(r.d) || fresh(r.d)
  {
    hide Val, Pb, NumVal, Pow2, CeilDiv, IsBaseInfo, BasePowerOfTwo;
    var bits := BasePowerOfTwo(b);
    if bits > 0 {
      WideLimbs();
      BasePowerOfTwoIs(b);
      var alloc := CeilDiv(dn * bits, LIMB_BITS);
      r.Realloc(alloc);
      var rn := SetStrBits(r.d, dp, dn, bits);
      SetSize(r, rn, neg);
    } else {
      WideBase(b);
      ReadOther(r, dp, dn, b, neg);
    }
  }

  /** mpz_set_str: 0 and the number, or -1 and zero. */
  method SetStr(r: Mpz, s: seq<uchar>, base: nat) returns (ret: int)
    requires r.Valid() && (base == 0 || 2 <= base <= 62) && forall i :: 0 <= i < |s| ==> s[i] != 0
    modifies r, r.d
    ensures r.Valid() && (r.d == old(r.d) || fresh(r.d))
    ensures Parse(s, base).Some? ==> ret == 0 && r.Value() == Parse(s, base).value
    ensures Parse(s, base).None? ==> ret == -1 && r.Value() == 0
  {
    hide Val, NumVal, ReadDigits, IsSpace, DigitOf;
    var i := 0;
    while i < |s| && IsSpace(s[i])
      invariant i <= |s| && SkipSpaces(s, 0) == SkipSpaces(s, i)
    {
      i := i + 1;
    }
    var neg := At(s, i) == MINUS;
    if neg {
      i := i + 1;
    }
    var (b, j) := ReadBase(s, i, base);
    ReadNone(b);
    if At(s, j) == 0 {
      assert s[j..] == [];
      r.size := 0;
      ZeroValue(r);
      return -1;
    }
    var ok, dp, dn := CollectDigits(s, j, b);
    if !ok || dn == 0 {
      r.size := 0;
      ZeroValue(r);
      return -1;
    }
    assert forall k :: 0 <= k < dn ==> dp[..dn][k] < b;
    ReadMagnitude(r, dp, dn, b, neg);
    return 0;
  }
}
