/** Numerals in a fixed base. */
module Numerals {
  import opened Arith

  /** The value of a numeral, most significant digit first. */
  function NumVal(ds: seq<nat>, b: nat): nat {
    if ds == [] then 0 else NumVal(ds[..|ds| - 1], b) * b + ds[|ds| - 1]
  }

  /** The k lowest digits of n, most significant first. */
  function Digits(n: nat, b: nat, k: nat): (ds: seq<nat>)
    requires b >= 2
    ensures |ds| == k && forall i :: 0 <= i < k ==> ds[i] < b
  {
    if k == 0 then [] else Digits(n / b, b, k - 1) + [n % b]
  }

  /** The k lowest digits of n, least significant first. */
  function Low(n: nat, b: nat, k: nat): (ds: seq<nat>)
    requires b >= 2
    ensures |ds| == k
  {
    if k == 0 then [] else [n % b] + Low(n / b, b, k - 1)
  }

  lemma DivShrinks(n: nat, b: nat)
    requires b >= 2 && n > 0
    ensures 0 <= n / b < n
  {
    DivMod(n, b);
    if n / b >= n {
      MulMonotone(n / b, 2, b);
    }
  }

  /** The number of digits of n, at least one. */
  function NumLen(n: nat, b: nat): (k: nat)
    requires b >= 2
    ensures k >= 1
  {
    if n < b then 1 else (DivShrinks(n, b); 1 + NumLen(n / b, b))
  }

  /** The numeral of n: no leading zeros, and "0" for zero. */
  function Numeral(n: nat, b: nat): seq<nat>
    requires b >= 2
  {
    Digits(n, b, NumLen(n, b))
  }

  lemma {:induction false} NumLenBounds(n: nat, b: nat)
    requires b >= 2
    ensures n < Pow(b, NumLen(n, b))
    ensures n > 0 ==> Pow(b, NumLen(n, b) - 1) <= n
  {
    if n < b {
      assert Pow(b, 1) == b * Pow(b, 0);
    } else {
      DivShrinks(n, b);
      NumLenBounds(n / b, b);
      DivMod(n, b);
      var k := NumLen(n / b, b);
      if n / b == 0 {
        MulCommutes(b, n / b);
      }
      MulMonotone(b, n / b + 1, Pow(b, k));
      Distribute(n / b, 1, b);
      MulMonotone(b, Pow(b, k - 1), n / b);
    }
  }

  lemma NumLenUnique(n: nat, b: nat, k: nat)
    requires b >= 2 && k >= 1 && n < Pow(b, k) && (n > 0 ==> Pow(b, k - 1) <= n) && (n == 0 ==> k == 1)
    ensures NumLen(n, b) == k
  {
    NumLenBounds(n, b);
    if NumLen(n, b) < k {
      PowMonotone(b, NumLen(n, b), k - 1);
    } else if NumLen(n, b) > k {
      PowMonotone(b, k, NumLen(n, b) - 1);
    }
  }

  /** A number of at least b^k has more than k digits. */
  lemma NumLenAbove(n: nat, b: nat, k: nat)
    requires b >= 2 && n >= Pow(b, k)
    ensures NumLen(n, b) > k
  {
    NumLenBounds(n, b);
    if NumLen(n, b) <= k {
      PowMonotone(b, NumLen(n, b), k);
    }
  }

  /** Reading back the digits of a number that fits. */
  lemma {:induction false} DigitsValue(n: nat, b: nat, k: nat)
    requires b >= 2 && n < Pow(b, k)
    ensures NumVal(Digits(n, b, k), b) == n
  {
    hide *;
    if k == 0 {
      NoDigits(n, b);
    } else {
      var q, d := LastDigit(n, b, k);
      DigitsValue(q, b, k - 1);
      NumValSnoc(Digits(q, b, k - 1), d, b);
    }
  }

  lemma NoDigits(n: nat, b: nat)
    requires b >= 2 && n < Pow(b, 0)
    ensures n == 0 && NumVal(Digits(n, b, 0), b) == 0
  {
  }

  /** Quotient and last digit of a number of k digits. */
  lemma LastDigit(n: nat, b: nat, k: nat) returns (q: nat, d: nat)
    requires b >= 2 && k > 0 && n < Pow(b, k)
    ensures n == q * b + d && q < Pow(b, k - 1) && Digits(n, b, k) == Digits(q, b, k - 1) + [d]
  {
    hide Pow;
    QuotientBelow(n, b, k);
    DivMod(n, b);
    q, d := n / b, n % b;
  }

  lemma QuotientBelow(n: nat, b: nat, k: nat)
    requires b >= 2 && k > 0 && n < Pow(b, k)
    ensures n / b < Pow(b, k - 1)
  {
    DivMod(n, b);
    MulCommutes(b, Pow(b, k - 1));
    MulCancelLt(n / b, Pow(b, k - 1), b);
  }

  lemma NumeralValue(n: nat, b: nat)
    requires b >= 2
    ensures NumVal(Numeral(n, b), b) == n
  {
    NumLenBounds(n, b);
    DigitsValue(n, b, NumLen(n, b));
  }

  lemma NumValSnoc(ds: seq<nat>, x: nat, b: nat)
    ensures NumVal(ds + [x], b) == NumVal(ds, b) * b + x
  {
    assert (ds + [x])[..|ds|] == ds;
  }

  /** A numeral in two parts. */
  lemma {:induction false} NumValAppend(s: seq<nat>, t: seq<nat>, b: nat)
    requires b >= 1
    ensures NumVal(s + t, b) == NumVal(s, b) * Pow(b, |t|) + NumVal(t, b)
  {
    if t == [] {
      assert s + t == s;
    } else {
      var t', x := t[..|t| - 1], t[|t| - 1];
      NumValAppend(s, t', b);
      assert s + t == (s + t') + [x] && t == t' + [x];
      NumValSnoc(s + t', x, b);
      NumValSnoc(t', x, b);
      PushDigit(NumVal(s, b), Pow(b, |t'|), NumVal(t', b), b);
    }
  }

  lemma PushDigit(v: int, p: int, w: int, b: int)
    ensures (v * p + w) * b == v * (b * p) + w * b
  {
  }

  lemma {:induction false} NumValBound(ds: seq<nat>, b: nat)
    requires b >= 1 && forall i :: 0 <= i < |ds| ==> ds[i] < b
    ensures NumVal(ds, b) < Pow(b, |ds|)
  {
    if ds != [] {
      var n := |ds| - 1;
      NumValBound(ds[..n], b);
      MulMonotone(b, NumVal(ds[..n], b) + 1, Pow(b, n));
      Distribute(NumVal(ds[..n], b), 1, b);
      MulCommutes(b, Pow(b, n));
    }
  }

  /** The digits of a numeral's value are the numeral. */
  lemma {:induction false} DigitsOfValue(ds: seq<nat>, b: nat)
    requires b >= 2 && forall i :: 0 <= i < |ds| ==> ds[i] < b
    ensures Digits(NumVal(ds, b), b, |ds|) == ds
  {
    if ds != [] {
      var n := |ds| - 1;
      DigitsOfValue(ds[..n], b);
      DivModUnique(NumVal(ds, b), b, NumVal(ds[..n], b), ds[n]);
    }
  }

  // ---- digits in the order they are produced ----

  /** Taking one digit off a partly printed number. */
  lemma DigitsPeel(n: nat, b: nat, q: nat, j: nat, out: seq<nat>, k: nat)
    requires b >= 2 && j >= 1 && Digits(n, b, k) == Digits(q, b, j) + out
    ensures Digits(n, b, k) == Digits(q / b, b, j - 1) + ([q % b] + out)
  {
    assert Digits(q, b, j) + out == Digits(q / b, b, j - 1) + ([q % b] + out);
  }

  /** Low digits in two batches. */
  lemma {:induction false} LowAppend(n: nat, b: nat, k: nat, m: nat)
    requires b >= 2
    ensures Pow(b, k) > 0 && Low(n, b, k + m) == Low(n, b, k) + Low(n / Pow(b, k), b, m)
  {
    PowPos(b, k);
    if k > 0 {
      PowPos(b, k - 1);
      LowAppend(n / b, b, k - 1, m);
      DivDiv(n, b, Pow(b, k - 1));
      assert (k - 1) + m == k + m - 1;
    }
  }

  /** Only the low digits matter. */
  lemma {:induction false} LowOfRemainder(n: nat, b: nat, k: nat)
    requires b >= 2
    ensures Pow(b, k) > 0 && Low(n % Pow(b, k), b, k) == Low(n, b, k)
  {
    PowPos(b, k);
    if k > 0 {
      PowPos(b, k - 1);
      LowOfRemainder(n / b, b, k - 1);
      RemainderParts(n, b, Pow(b, k - 1));
    }
  }

  lemma RemainderParts(n: nat, b: nat, p: nat)
    requires b > 0 && p > 0
    ensures b * p > 0 && n % (b * p) % b == n % b && n % (b * p) / b == n / b % p
  {
    DivMod(n, b);
    DivMod(n / b, p);
    var q, r, d := n / b / p, n / b % p, n % b;
    assert n == q * (b * p) + (r * b + d) by {
      Distribute(q * p, r, b);
      MulAssoc(q, p, b);
      MulCommutes(p, b);
    }
    MulMonotone(b, r + 1, p);
    Distribute(r, 1, b);
    MulCommutes(p, b);
    DivModUnique(n, b * p, q, r * b + d);
    DivModUnique(r * b + d, b, r, d);
  }

  /** The low digits of zero. */
  lemma {:induction false} LowOfZero(b: nat, k: nat)
    requires b >= 2
    ensures Low(0, b, k) == seq(k, i => 0)
  {
    if k > 0 {
      LowOfZero(b, k - 1);
      DivModUnique(0, b, 0, 0);
      assert [0] + seq(k - 1, i => 0) == seq(k, i => 0);
    }
  }

  /** The two orders are each other's reverse. */
  lemma {:induction false} LowReversed(n: nat, b: nat, k: nat, i: nat)
    requires b >= 2 && i < k
    ensures Digits(n, b, k)[i] == Low(n, b, k)[k - 1 - i]
  {
    DivMod(n, b);
    var q: nat, d: nat := n / b, n % b;
    var ds, ls := Digits(q, b, k - 1), Low(q, b, k - 1);
    assert Digits(n, b, k) == ds + [d] && Low(n, b, k) == [d] + ls;
    hide Digits, Low;
    if i < k - 1 {
      LowReversed(q, b, k - 1, i);
    }
  }
}
