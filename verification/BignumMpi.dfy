/** Signed integers of the bignum module: sign, limbs, and arithmetic in place. */
module BignumMpi {
  import opened Arith
  import opened BignumCore
  import opened Limbs

  const MAX_LIMBS := 10000
  const ALLOC_FAILED := -0x10
  const NEGATIVE_VALUE := -0xA

  /** The limbs that copying keeps: up to the highest that is not zero, but at least one. */
  function Trimmed(a: seq<limb>): nat {
    if |a| > 1 && a[|a| - 1] == 0 then Trimmed(a[..|a| - 1]) else |a|
  }

  /** Zero limbs on top do not count. */
  lemma {:induction false} TrimmedGrown(a: seq<limb>, b: seq<limb>)
    requires 0 < |a| <= |b| && b[..|a|] == a && forall k :: |a| <= k < |b| ==> b[k] == 0
    ensures Trimmed(b) == Trimmed(a)
    decreases |b|
  {
    if |b| > |a| {
      var c := b[..|b| - 1];
      assert c[..|a|] == a;
      TrimmedGrown(a, c);
    } else {
      assert b == a;
    }
  }

  class Mpi {
    var s: int
    var p: array<limb>

    ghost predicate Valid()
      reads this
    {
      (s == 1 || s == -1) && p.Length <= MAX_LIMBS
    }

    ghost function Magnitude(): nat
      reads this, p
    {
      Val(p[..])
    }

    ghost function Value(): int
      reads this, p
    {
      Signed(s < 0, Magnitude())
    }

    /** Zero has one representation of its sign. */
    ghost predicate Normal()
      reads this, p
    {
      Valid() && (Magnitude() == 0 ==> s == 1)
    }

    /** mbedtls_mpi_init: no limbs. */
    constructor ()
      ensures Normal() && Value() == 0 && fresh(p) && p.Length == 0 && s == 1
    {
      s := 1;
      p := new limb[0];
      new;
      ValEmpty(p[..]);
    }

    /** Room for n limbs; new limbs are zero. */
    method Grow(n: nat) returns (ret: int)
      requires Valid()
      modifies this`p
      ensures ret == if n > MAX_LIMBS then ALLOC_FAILED else 0
      ensures Valid() && (p == old(p) || fresh(p)) && (p != old(p) ==> p.Length == n > old(p.Length))
      ensures ret == 0 ==> n <= p.Length
      ensures old(p.Length) <= p.Length && p[..old(p.Length)] == old(p[..])
      ensures forall k :: old(p.Length) <= k < p.Length ==> p[k] == 0
      ensures Magnitude() == old(Magnitude())
    {
      hide Val;
      if n > MAX_LIMBS {
        return ALLOC_FAILED;
      }
      ret := 0;
      assert p[..p.Length] == p[..];
      if p.Length < n {
        BasePos();
        var q := new limb[n](_ => 0);
        var i := 0;
        while i < p.Length
          modifies q
          invariant i <= p.Length && q[..i] == p[..i] && forall k :: i <= k < n ==> q[k] == 0
        {
          q[i] := p[i];
          i := i + 1;
        }
        assert q[..p.Length] == p[..];
        ValTrim(q[..], p.Length);
        assert q[..][..p.Length] == q[..p.Length];
        p := q;
      }
    }

    /** The limbs up to the highest that is not zero. */
    method Used() returns (n: nat)
      ensures n <= p.Length && (n > 0 ==> p[n - 1] != 0) && Val(p[..n]) == Magnitude()
      ensures forall k :: n <= k < p.Length ==> p[k] == 0
    {
      hide Val;
      n := p.Length;
      while n > 0 && p[n - 1] == 0
        invariant n <= p.Length && forall k :: n <= k < p.Length ==> p[k] == 0
      {
        n := n - 1;
      }
      ValTrim(p[..], n);
      assert p[..][..n] == p[..n];
    }

    method Clear(from: nat)
      requires from <= p.Length
      modifies p
      ensures p[..from] == old(p[..from]) && forall k :: from <= k < p.Length ==> p[k] == 0
    {
      BasePos();
      var i := from;
      while i < p.Length
        invariant from <= i <= p.Length && p[..from] == old(p[..from]) && forall k :: from <= k < i ==> p[k] == 0
      {
        p[i] := 0;
        i := i + 1;
      }
    }

    /** mbedtls_mpi_copy: the object never shrinks. */
    method Copy(y: Mpi)
      requires Valid() && y.Valid() && (y != this ==> y.p != p)
      modifies this, p
      ensures Valid() && Value() == old(y.Value()) && Magnitude() == old(y.Magnitude())
      ensures p == old(p) || fresh(p)
      ensures y == this || y.p.Length == 0 || p.Length == if old(p.Length) < Trimmed(old(y.p[..])) then Trimmed(old(y.p[..])) else old(p.Length)
      ensures old(p.Length) <= p.Length && (y == this || y.p.Length == 0 ==> p == old(p))
      ensures (y.p.Length > 0 ==> s == old(y.s)) && (old(Normal()) && old(y.Normal()) ==> Normal())
      ensures y.p == old(y.p) || y == this
      ensures y.s == old(y.s) && y.p[..] == old(y.p[..])
    {
      hide Val;
      if y == this {
        return;
      }
      ghost var y0 := y.p[..];
      if y.p.Length == 0 {
        ValEmpty(y0);
        if p.Length != 0 {
          s := 1;
          Clear(0);
        }
        ValZeros(p[..]);
        return;
      }
      var n := y.UsedButOne();
      s := y.s;
      if p.Length < n {
        var ret := Grow(n);
      } else {
        Clear(n);
      }
      var i := 0;
      while i < n
        modifies p
        invariant i <= n <= p.Length && p[..i] == y0[..i] && y.p[..] == y0 && forall k :: n <= k < p.Length ==> p[k] == 0
      {
        p[i] := y.p[i];
        i := i + 1;
      }
      SameLimbs(p[..], y0, n);
    }

    /** Like Used, but at least one limb. */
    method UsedButOne() returns (n: nat)
      requires p.Length > 0
      ensures 0 < n <= p.Length && n == Trimmed(p[..]) && forall k :: n <= k < p.Length ==> p[k] == 0
    {
      n := p.Length;
      assert p[..n] == p[..];
      while n > 1 && p[n - 1] == 0
        invariant 0 < n <= p.Length && Trimmed(p[..n]) == Trimmed(p[..]) && forall k :: n <= k < p.Length ==> p[k] == 0
      {
        n := n - 1;
        assert p[..n + 1][..n] == p[..n];
      }
    }
  }

  /** Equal low limbs and zeros above. */
  lemma SameLimbs(a: seq<limb>, b: seq<limb>, n: nat)
    requires n <= |a| && n <= |b| && a[..n] == b[..n]
    requires (forall k :: n <= k < |a| ==> a[k] == 0) && (forall k :: n <= k < |b| ==> b[k] == 0)
    ensures Val(a) == Val(b)
  {
    ValTrim(a, n);
    ValTrim(b, n);
  }

  /** Different objects do not share limbs. */
  ghost predicate Apart(x: Mpi, y: Mpi)
    reads x, y
  {
    x != y ==> x.p != y.p
  }

  // ---- comparison ----

  function Cmp(a: int, b: int): int {
    if a < b then -1 else if a > b then 1 else 0
  }

  /** The highest differing limb decides. */
  lemma DifferenceDecides(a: seq<limb>, b: seq<limb>, i: nat)
    requires |a| == |b| && i < |a| && a[i + 1..] == b[i + 1..] && a[i] > b[i]
    ensures Val(a) > Val(b)
  {
    hide *;
    ValSplit(a, i + 1);
    ValSplit(b, i + 1);
    ValStep(a, i);
    ValStep(b, i);
    ValBound(b[..i]);
    PbPositive(i);
    MulMonotone(Pb(i), b[i] + 1, a[i]);
    Distribute(b[i], 1, Pb(i));
  }

  /** More used limbs mean a larger number. */
  lemma LongerIsLarger(a: seq<limb>, b: seq<limb>)
    requires |a| > |b| && a[|a| - 1] != 0
    ensures Val(a) > Val(b)
  {
    hide *;
    ValBound(b);
    LargestLimb(a);
    PowersGrow(|b|, |a| - 1);
  }

  lemma LargestLimb(a: seq<limb>)
    requires a != [] && a[|a| - 1] != 0
    ensures Val(a) >= Pb(|a| - 1)
  {
    hide *;
    var n := |a| - 1;
    ValStep(a, n);
    assert a[..n + 1] == a;
    PbPositive(n);
    MulMonotone(Pb(n), 1, a[n]);
  }

  lemma PowersGrow(i: nat, j: nat)
    requires i <= j
    ensures Pb(i) <= Pb(j)
  {
    hide *;
    PbAdd(i, j - i);
    PbPositive(i);
    PbPositive(j - i);
    MulMonotone(Pb(i), 1, Pb(j - i));
  }

  /** mbedtls_mpi_cmp_abs. */
  method CmpAbs(X: Mpi, Y: Mpi) returns (r: int)
    ensures r == Cmp(X.Magnitude(), Y.Magnitude())
  {
    hide Val;
    var i := X.Used();
    var j := Y.Used();
    ghost var x, y := X.p[..i], Y.p[..j];
    if i == 0 && j == 0 {
      ValEmpty(x);
      ValEmpty(y);
      return 0;
    }
    if i > j {
      LongerIsLarger(x, y);
      return 1;
    }
    if j > i {
      LongerIsLarger(y, x);
      return -1;
    }
    r := CompareLimbs(X.p, Y.p, i);
  }

  method CompareLimbs(p: array<limb>, q: array<limb>, n: nat) returns (r: int)
    requires n <= p.Length && n <= q.Length
    ensures r == Cmp(Val(p[..n]), Val(q[..n]))
  {
    hide Val;
    ghost var x, y := p[..n], q[..n];
    var i := n;
    while i > 0
      invariant i <= n && x[i..] == y[i..]
    {
      if p[i - 1] > q[i - 1] {
        DifferenceDecides(x, y, i - 1);
        return 1;
      }
      if p[i - 1] < q[i - 1] {
        DifferenceDecides(y, x, i - 1);
        return -1;
      }
      assert x[i - 1..] == [x[i - 1]] + x[i..] && y[i - 1..] == [y[i - 1]] + y[i..];
      i := i - 1;
    }
    assert x[0..] == x && y[0..] == y;
    return 0;
  }

  /** mbedtls_mpi_cmp_mpi. */
  method CmpMpi(X: Mpi, Y: Mpi) returns (r: int)
    requires X.Valid() && Y.Valid()
    ensures r == Cmp(X.Value(), Y.Value())
  {
    hide Val;
    var i := X.Used();
    var j := Y.Used();
    ghost var x, y := X.p[..i], Y.p[..j];
    if i == 0 && j == 0 {
      ValEmpty(x);
      ValEmpty(y);
      return 0;
    }
    if i > j {
      LongerIsLarger(x, y);
      return X.s;
    }
    if j > i {
      LongerIsLarger(y, x);
      return 0 - Y.s;
    }
    LargestLimb(x);
    LargestLimb(y);
    PbPositive(i - 1);
    if X.s > 0 && Y.s < 0 {
      return 1;
    }
    if Y.s > 0 && X.s < 0 {
      return -1;
    }
    r := CompareLimbs(X.p, Y.p, i);
    r := if r > 0 then X.s else if r < 0 then 0 - X.s else 0;
  }

  // ---- addition and subtraction ----

  /** Low limbs and limbs above them. */
  lemma SplitChange(a: seq<limb>, b: seq<limb>, n: nat)
    requires |a| == |b| && n <= |a| && a[n..] == b[n..]
    ensures Val(a) - Val(b) == Val(a[..n]) - Val(b[..n])
  {
    hide *;
    ValSplit(a, n);
    ValSplit(b, n);
  }

  /** One step of the carry: total is kept. */
  lemma CarryStep(x: seq<limb>, j: nat, c: limb, t: limb, c': limb, total: int)
    requires j < |x| && Val(x) + c * Pb(j) == total && t + c' * BASE == x[j] + c
    ensures Val(x[j := t]) + c' * Pb(j + 1) == total
  {
    hide *;
    ValPut(x, j, t);
    PbStep(j);
    CarryInts(x[j], t, c, c', Pb(j), BASE);
  }

  lemma CarryInts(d: int, t: int, c: int, c': int, p: int, b: int)
    requires t + c' * b == d + c
    ensures (t - d) * p + c' * (b * p) == c * p
  {
    MulAssoc(c', b, p);
    Distribute(t - d, c' * b, p);
  }

  method CarryDigit(d: limb, c: limb) returns (t: limb, c': limb)
    requires c <= 1
    ensures c' <= c && t + c' * BASE == d + c
    ensures d == 0 ==> c' == 0
  {
    BaseFacts();
    WrapAdd(d, c);
    t := Wrap(d + c);
    c' := if t < c then 1 else 0;
  }

  /** The carry of an addition runs upwards and may add one limb. */
  method PropagateCarry(X: Mpi, c0: limb, j0: nat, ghost total: int) returns (ret: int)
    requires X.Valid() && c0 <= 1 && j0 <= X.p.Length && X.Magnitude() + c0 * Pb(j0) == total
    modifies X`p, X.p
    ensures X.Valid() && (X.p == old(X.p) || fresh(X.p))
    ensures ret == 0 || ret == ALLOC_FAILED
    ensures ret == 0 ==> X.Magnitude() == total
    ensures ret == ALLOC_FAILED ==> total >= Pb(MAX_LIMBS)
  {
    hide Val, Pb;
    var c: limb, j: nat := c0, j0;
    while c != 0
      invariant X.Valid() && (X.p == old(X.p) || fresh(X.p)) && c <= 1 && j <= X.p.Length
      invariant X.Magnitude() + c * Pb(j) == total
      decreases c, X.p.Length - j
    {
      if j >= X.p.Length {
        ret := X.Grow(j + 1);
        if ret != 0 {
          CarryOverflows(X.p.Length, X.Magnitude(), c);
          return;
        }
      }
      ghost var x := X.p[..];
      var t, c' := CarryDigit(X.p[j], c);
      MagnitudeIs(X);
      CarryStep(x, j, c, t, c', total);
      X.p[j] := t;
      assert X.p[..] == x[j := t];
      MagnitudeIs(X);
      c, j := c', j + 1;
    }
    ret := 0;
  }

  lemma MagnitudeIs(x: Mpi)
    ensures x.Magnitude() == Val(x.p[..])
  {
  }

  lemma CarryOverflows(n: nat, v: nat, c: limb)
    requires n == MAX_LIMBS && c == 1
    ensures v + c * Pb(n) >= Pb(MAX_LIMBS)
  {
    PbPositive(n);
  }

  /** mbedtls_mpi_add_abs: X = |A| + |B|, where X may be A, B or both. */
  method AddAbs(X: Mpi, A0: Mpi, B0: Mpi) returns (ret: int)
    requires X.Valid() && A0.Valid() && B0.Valid() && Apart(X, A0) && Apart(X, B0)
    modifies X, X.p
    ensures X.Valid() && (X.p == old(X.p) || fresh(X.p))
    ensures ret == 0 || ret == ALLOC_FAILED
    ensures ret == 0 ==> X.s == 1 && X.Magnitude() == old(A0.Magnitude()) + old(B0.Magnitude())
    ensures ret == ALLOC_FAILED ==> old(A0.Magnitude()) + old(B0.Magnitude()) >= Pb(MAX_LIMBS)
  {
    hide Val, Pb;
    ghost var total := A0.Magnitude() + B0.Magnitude();
    var A, B := A0, B0;
    if X == B {
      A, B := X, A0;
    }
    ghost var b := B.Magnitude();
    if X != A {
      X.Copy(A);
    }
    X.s := 1;
    var j := B.Used();
    ret := X.Grow(j);
    ghost var x := X.p[..];
    assert x[..j] == X.p[..j] && x[j..] == X.p[j..];
    var c := CoreAdd(X.p, X.p, B.p, j);
    assert X.p[..][..j] == X.p[..j] && X.p[..][j..] == X.p[j..];
    SplitChange(X.p[..], x, j);
    ret := PropagateCarry(X, c, j, total);
  }

  /** A number whose high limbs are those of a. */
  lemma HighFrom(x: seq<limb>, a: seq<limb>, n: nat)
    requires n <= |a| <= |x| && x[n..|a|] == a[n..] && forall k :: |a| <= k < |x| ==> x[k] == 0
    ensures Val(x) - Val(x[..n]) == Val(a) - Val(a[..n])
  {
    hide *;
    var y := x[..|a|];
    ValTrim(x, |a|);
    assert y[n..] == a[n..] && y[..n] == x[..n];
    SplitChange(y, a, n);
  }

  lemma BorrowStep(x: seq<limb>, n: nat, top: limb)
    requires n < |x| && x[n] == 0 && top == BASE - 1
    ensures Val(x[n := top]) - Pb(n + 1) == Val(x) - Pb(n)
  {
    hide *;
    ValPut(x, n, top);
    PbStep(n);
    Distribute(BASE, 1, Pb(n));
  }

  lemma BorrowEnds(x: seq<limb>, n: nat, t: limb)
    requires n < |x| && x[n] != 0 && t == x[n] - 1
    ensures Val(x[n := t]) == Val(x) - Pb(n)
  {
    hide *;
    ValPut(x, n, t);
  }

  /** The borrow runs up to the first limb that is not zero; without one the result is negative. */
  method PropagateBorrow(X: Mpi, n0: nat, ghost diff: int) returns (ret: int)
    requires X.Valid() && n0 <= X.p.Length && X.Magnitude() - Pb(n0) == diff
    modifies X.p
    ensures ret == if diff < 0 then NEGATIVE_VALUE else 0
    ensures ret == 0 ==> X.Magnitude() == diff
  {
    hide Val, Pb;
    BaseFacts();
    var n := n0;
    while n < X.p.Length && X.p[n] == 0
      invariant n0 <= n <= X.p.Length && X.Magnitude() - Pb(n) == diff
    {
      ghost var x := X.p[..];
      var top: limb := BASE - 1;
      X.p[n] := top;
      assert X.p[..] == x[n := top];
      BorrowStep(x, n, top);
      n := n + 1;
    }
    ghost var x := X.p[..];
    if n == X.p.Length {
      ValBound(x);
      return NEGATIVE_VALUE;
    }
    var t: limb := X.p[n] - 1;
    BorrowEnds(x, n, t);
    X.p[n] := t;
    assert X.p[..] == x[n := t];
    return 0;
  }

  lemma HighKept(x: seq<limb>, x': seq<limb>, a: seq<limb>, n: nat)
    requires n <= |a| <= |x| == |x'| && x'[n..] == x[n..] && x[n..|a|] == a[n..]
    ensures x'[n..|a|] == a[n..]
    ensures forall k :: n <= k < |x| ==> x'[k] == x[k]
  {
    assert x'[n..|a|] == x'[n..][..|a| - n] && x[n..|a|] == x[n..][..|a| - n];
    forall k | n <= k < |x|
      ensures x'[k] == x[k]
    {
      assert x'[k] == x'[n..][k - n] && x[k] == x[n..][k - n];
    }
  }

  /** mbedtls_mpi_sub_abs: X = |A| - |B| unless that is negative; X may be A, B or both. */
  method SubAbs(X: Mpi, A: Mpi, B: Mpi) returns (ret: int)
    requires X.Valid() && A.Valid() && B.Valid() && Apart(X, A) && Apart(X, B)
    modifies X, X.p
    ensures X.Valid() && (X.p == old(X.p) || fresh(X.p))
    ensures ret == if old(A.Magnitude()) < old(B.Magnitude()) then NEGATIVE_VALUE else 0
    ensures ret == 0 ==> X.s == 1 && X.Magnitude() == old(A.Magnitude()) - old(B.Magnitude())
  {
    hide Val, Pb;
    ghost var a0, b0, av, bv := A.p[..], B.p[..], A.Magnitude(), B.Magnitude();
    var n: nat := B.Used();
    ghost var b := B.p[..n];
    if n > A.p.Length {
      LongerIsLarger(b, a0);
      return NEGATIVE_VALUE;
    }
    var aLen := A.p.Length;
    ret := X.Grow(aLen);
    assert A.p[..aLen] == a0 && B.p[..n] == b;
    TakeHigh(X, A, n, aLen, a0);
    assert A.p[..n] == a0[..n] && B.p[..n] == b;
    ghost var x := X.p[..];
    assert x[n..] == X.p[n..];
    assert A.p[0..0 + n] == a0[..n];
    var carry := CoreSub(X.p, A.p, 0, B.p, n);
    assert X.p[..][..n] == X.p[..n] && X.p[..][n..] == X.p[n..];
    HighKept(x, X.p[..], a0, n);
    HighFrom(X.p[..], a0, n);
    if carry != 0 {
      ret := PropagateBorrow(X, n, av as int - bv);
      if ret != 0 {
        return;
      }
    }
    X.s := 1;
  }

  /** The high limbs of A, with zeros above. */
  method TakeHigh(X: Mpi, A: Mpi, n: nat, aLen: nat, ghost a0: seq<limb>)
    requires X.Valid() && Apart(X, A) && n <= aLen <= X.p.Length && aLen <= A.p.Length && |a0| == aLen && A.p[..aLen] == a0
    modifies X.p
    ensures X.p[..n] == old(X.p[..n]) && X.p[n..aLen] == a0[n..] && forall k :: aLen <= k < X.p.Length ==> X.p[k] == 0
    ensures A.p[..n] == a0[..n] || X == A
  {
    ghost var x0 := X.p[..];
    assert forall k :: 0 <= k < aLen ==> A.p[k] == A.p[..aLen][k];
    var i := n;
    while i < aLen
      invariant n <= i <= aLen
      invariant forall k :: 0 <= k < n ==> X.p[k] == x0[k]
      invariant forall k :: n <= k < i ==> X.p[k] == a0[k]
      invariant forall k :: 0 <= k < aLen ==> A.p[k] == a0[k]
    {
      X.p[i] := A.p[i];
      i := i + 1;
    }
    assert X.p[..n] == x0[..n] && X.p[n..aLen] == a0[n..] && A.p[..n] == a0[..n];
    ghost var x1 := X.p[..aLen];
    X.Clear(aLen);
    assert X.p[..n] == x1[..n] && X.p[n..aLen] == x1[n..];
  }

  /** add_sub_mpi: X = A + B * flip, for flip 1 or -1; X may be A, B or both. */
  method AddSub(X: Mpi, A: Mpi, B: Mpi, flip: int) returns (ret: int)
    requires X.Valid() && A.Valid() && B.Valid() && Apart(X, A) && Apart(X, B) && (flip == 1 || flip == -1)
    modifies X, X.p
    ensures X.Valid() && (X.p == old(X.p) || fresh(X.p))
    ensures ret == 0 || ret == ALLOC_FAILED
    ensures ret == 0 ==> X.Value() == old(A.Value()) + flip * old(B.Value())
    ensures ret == 0 && old(A.Normal()) && old(B.Normal()) ==> X.Normal()
    ensures ret == ALLOC_FAILED ==> old(A.s) * old(B.s) * flip > 0 && old(A.Magnitude()) + old(B.Magnitude()) >= Pb(MAX_LIMBS)
  {
    hide Val, Pb;
    var s := A.s;
    if A.s * B.s * flip < 0 {
      var cmp := CmpAbs(A, B);
      if cmp >= 0 {
        ret := SubAbs(X, A, B);
        X.s := if cmp == 0 then 1 else s;
      } else {
        ret := SubAbs(X, B, A);
        X.s := 0 - s;
      }
    } else {
      ret := AddAbs(X, A, B);
      if ret != 0 {
        return;
      }
      X.s := s;
    }
  }

  /** mbedtls_mpi_add_mpi. */
  method AddMpi(X: Mpi, A: Mpi, B: Mpi) returns (ret: int)
    requires X.Valid() && A.Valid() && B.Valid() && Apart(X, A) && Apart(X, B)
    modifies X, X.p
    ensures X.Valid() && (X.p == old(X.p) || fresh(X.p)) && (ret == 0 || ret == ALLOC_FAILED)
    ensures ret == 0 ==> X.Value() == old(A.Value()) + old(B.Value())
    ensures ret == 0 && old(A.Normal()) && old(B.Normal()) ==> X.Normal()
    ensures ret == ALLOC_FAILED ==> old(A.s) * old(B.s) > 0 && old(A.Magnitude()) + old(B.Magnitude()) >= Pb(MAX_LIMBS)
  {
    ret := AddSub(X, A, B, 1);
  }

  // ---- multiplication ----

  /** Row k of the schoolbook product: the window takes it without a carry out. */
  lemma MulRow(x: seq<limb>, x': seq<limb>, k: nat, i: nat, va: nat, vb: nat, b: limb, c: limb)
    requires |x'| == |x| && k + i + 1 <= |x| && x'[..k] == x[..k] && x'[k + i + 1..] == x[k + i + 1..]
    requires (forall t :: k + i <= t < |x| ==> x[t] == 0) && Val(x) == va * vb && va < Pb(i) && vb < Pb(k)
    requires Val(x'[k..k + i + 1]) + c * Pb(i + 1) == Val(x[k..k + i + 1]) + va * b
    ensures c == 0 && Val(x') == va * (vb + b * Pb(k))
    ensures forall t :: k + i + 1 <= t < |x'| ==> x'[t] == 0
  {
    hide *;
    var w, w' := x[k..k + i + 1], x'[k..k + i + 1];
    assert forall t :: k + (i + 1) <= t < |x| ==> x[t] == 0;
    WindowOver(x, k, i + 1);
    ZerosAbove(x, x', k + i + 1);
    WindowOver(x', k, i + 1);
    WindowBelow(Val(x[..k]), Val(w), va, vb, Pb(k), Pb(i));
    PbStep(i);
    RowFits(Val(w), Val(w'), va, b, c, Pb(i));
    RowSum(Val(x[..k]), Val(w), Val(w'), va, vb, b, Pb(k));
  }

  lemma ZerosAbove(x: seq<limb>, x': seq<limb>, m: nat)
    requires m <= |x| == |x'| && x'[m..] == x[m..] && forall t :: m <= t < |x| ==> x[t] == 0
    ensures forall t :: m <= t < |x'| ==> x'[t] == 0
  {
    forall t | m <= t < |x'|
      ensures x'[t] == 0
    {
      assert x'[t] == x'[m..][t - m] == x[m..][t - m];
    }
  }

  lemma WindowOver(x: seq<limb>, k: nat, m: nat)
    requires k + m <= |x| && forall t :: k + m <= t < |x| ==> x[t] == 0
    ensures Val(x) == Val(x[..k]) + Pb(k) * Val(x[k..k + m])
  {
    hide *;
    ValTrim(x, k + m);
    var y := x[..k + m];
    ValSplit(y, k);
    assert y[..k] == x[..k] && y[k..] == x[k..k + m];
  }

  lemma WindowBelow(low: nat, w: nat, va: nat, vb: nat, pk: nat, pi: nat)
    requires low + pk * w == va * vb && va < pi && vb < pk
    ensures w < pi
  {
    MulMonotone(vb, va, pi);
    MulMonotone(pi, vb, pk);
    if w >= pi {
      MulMonotone(pk, pi, w);
      BelowProduct(va, vb, pi, pk);
    }
  }

  lemma BelowProduct(a: nat, b: nat, p: nat, q: nat)
    requires a < p && b < q
    ensures a * b < p * q
  {
    MulMonotone(b, a, p);
    MulMonotone(p, b + 1, q);
    Distribute(b, 1, p);
  }

  lemma RowFits(w: nat, w': nat, va: nat, b: limb, c: limb, p: nat)
    requires w < p && va < p && w' + c * (BASE * p) == w + va * b
    ensures c == 0
  {
    BasePos();
    MulMonotone(b, va, p - 1);
    MulMonotone(p - 1, b, BASE - 1);
    Distribute(BASE, 1, p - 1);
    Distribute(p, 1, BASE);
    MulCommutes(BASE, p);
    if c >= 1 {
      MulMonotone(BASE * p, 1, c);
    }
  }

  lemma RowSum(low: int, w: int, w': int, va: int, vb: int, b: int, p: int)
    requires low + p * w == va * vb && w' == w + va * b
    ensures low + p * w' == va * (vb + b * p)
  {
    Distribute(w, va * b, p);
    Distribute(vb, b * p, va);
    MulAssoc(va, b, p);
    MulCommutes(p, va * b);
  }

  /** A row changes nothing but the digits of the product. */
  method AddRow(X: Mpi, k: nat, A: Mpi, i: nat, b: limb, ghost va: nat, ghost vb: nat)
    requires A.p != X.p && i <= A.p.Length && k + i + 1 <= X.p.Length && va == Val(A.p[..i]) && vb < Pb(k)
    requires X.Magnitude() == va * vb && forall t :: k + i <= t < X.p.Length ==> X.p[t] == 0
    modifies X.p
    ensures X.Magnitude() == va * (vb + b * Pb(k)) && forall t :: k + i + 1 <= t < X.p.Length ==> X.p[t] == 0
  {
    hide Val, Pb;
    ghost var x := X.p[..];
    assert x[..k] == X.p[..k] && x[k + i + 1..] == X.p[k + i + 1..] && x[k..k + i + 1] == X.p[k..k + (i + 1)];
    ValBound(A.p[..i]);
    var c := CoreMla(X.p, k, i + 1, A.p, i, b);
    ghost var x' := X.p[..];
    assert x'[..k] == X.p[..k] && x'[k + i + 1..] == X.p[k + (i + 1)..] && x'[k..k + i + 1] == X.p[k..k + (i + 1)];
    assert A.p[..i] == A.p[..if i + 1 < i then i + 1 else i];
    MulRow(x, x', k, i, va, vb, b, c);
  }

  /** mbedtls_mpi_mul_mpi: X = A * B; X may be A, B or both. */
  method MulMpi(X: Mpi, A0: Mpi, B0: Mpi) returns (ret: int)
    requires X.Valid() && A0.Valid() && B0.Valid() && Apart(X, A0) && Apart(X, B0)
    modifies X, X.p
    ensures X.Valid() && (X.p == old(X.p) || fresh(X.p))
    ensures ret == 0 || ret == ALLOC_FAILED
    ensures ret == 0 ==> X.Value() == old(A0.Value()) * old(B0.Value()) && X.Normal()
    ensures ret == ALLOC_FAILED ==> old(A0.Magnitude()) * old(B0.Magnitude()) >= Pb(MAX_LIMBS - 1)
  {
    hide Val, Pb, Signed;
    var A, B := A0, B0;
    if X == A0 {
      A := new Mpi();
      A.Copy(A0);
    }
    if X == B0 {
      B := new Mpi();
      B.Copy(B0);
    }
    ret := MulApart(X, A, B);
  }

  method MulApart(X: Mpi, A: Mpi, B: Mpi) returns (ret: int)
    requires X.Valid() && A.Valid() && B.Valid() && X != A && X != B && X.p != A.p && X.p != B.p
    modifies X, X.p
    ensures X.Valid() && (X.p == old(X.p) || fresh(X.p))
    ensures ret == 0 || ret == ALLOC_FAILED
    ensures ret == 0 ==> X.Value() == old(A.Value()) * old(B.Value()) && X.Normal()
    ensures ret == ALLOC_FAILED ==> old(A.Magnitude()) * old(B.Magnitude()) >= Pb(MAX_LIMBS - 1)
  {
    hide Val, Pb, Signed;
    var i := A.Used();
    var j := B.Used();
    ghost var va, vb := A.Magnitude(), B.Magnitude();
    ret := X.Grow(i + j);
    if ret != 0 {
      ProductTooLong(A.p[..i], B.p[..j]);
      return;
    }
    ret := X.Grow(1);
    X.Clear(0);
    Rows(X, A, i, B, j);
    ValPositive(A.p[..i]);
    ValPositive(B.p[..j]);
    SignedProduct(A.s, va, B.s, vb, X.Magnitude());
    if i == 0 || j == 0 {
      X.s := 1;
    } else {
      X.s := A.s * B.s;
    }
  }

  lemma ProductTooLong(a: seq<limb>, b: seq<limb>)
    requires |a| <= MAX_LIMBS && |b| <= MAX_LIMBS < |a| + |b| && a[|a| - 1] != 0 && b[|b| - 1] != 0
    ensures Val(a) * Val(b) >= Pb(MAX_LIMBS - 1)
  {
    hide Val, Pb;
    LargestLimb(a);
    LargestLimb(b);
    var i, j := |a| - 1, |b| - 1;
    PbPositive(i);
    PbPositive(j);
    MulMonotone(Pb(j), Pb(i), Val(a));
    MulMonotone(Val(a), Pb(j), Val(b));
    PbAdd(i, j);
    PowersGrow(MAX_LIMBS - 1, i + j);
  }

  lemma ValPositive(a: seq<limb>)
    requires a != [] ==> a[|a| - 1] != 0
    ensures Val(a) == 0 <==> a == []
  {
    hide *;
    if a == [] {
      ValEmpty(a);
    } else {
      LargestLimb(a);
      PbPositive(|a| - 1);
    }
  }

  lemma SignedProduct(s: int, a: nat, t: int, b: nat, m: nat)
    requires (s == 1 || s == -1) && (t == 1 || t == -1) && m == a * b
    ensures s * t == 1 || s * t == -1
    ensures Signed(s * t < 0, m) == Signed(s < 0, a) * Signed(t < 0, b)
    ensures m == 0 <==> a == 0 || b == 0
    ensures m == 0 ==> Signed(false, m) == Signed(s < 0, a) * Signed(t < 0, b)
  {
  }

  /** All rows. */
  method Rows(X: Mpi, A: Mpi, i: nat, B: Mpi, j: nat)
    requires X.p != A.p && X.p != B.p && i <= A.p.Length && j <= B.p.Length && i + j <= X.p.Length
    requires forall t :: 0 <= t < X.p.Length ==> X.p[t] == 0
    modifies X.p
    ensures X.Magnitude() == Val(A.p[..i]) * Val(B.p[..j])
  {
    hide Val, Pb;
    ValZeros(X.p[..]);
    ValEmpty(B.p[..0]);
    var k := 0;
    ghost var va := Val(A.p[..i]);
    while k < j
      invariant k <= j && X.Magnitude() == va * Val(B.p[..k]) && forall t :: k + i <= t < X.p.Length ==> X.p[t] == 0
      invariant A.p[..i] == old(A.p[..i]) && B.p[..j] == old(B.p[..j])
    {
      ghost var vb := Val(B.p[..k]);
      ValBound(B.p[..k]);
      assert B.p[..k + 1][..k] == B.p[..k];
      ValStep(B.p[..k + 1], k);
      assert B.p[..k + 1][..k + 1] == B.p[..k + 1];
      AddRow(X, k, A, i, B.p[k], va, vb);
      k := k + 1;
    }
  }

  // ---- shifts ----

  /** A limb joins the shifted limbs above it. */
  lemma ShiftDown(d: limb, high: nat, q: nat, r: nat, p: nat, m: nat)
    requires p > 0 && m > 0 && p * m == BASE && high == q * p + r && r < p
    ensures d / p + r * m < BASE
    ensures d + BASE * high == (d / p + r * m + BASE * q) * p + d % p && d % p < p
  {
    DivMod(d, p);
    ShiftDownInts(d, d / p, d % p, high, q, r, p, m, BASE);
    MulCancelLt(d / p, m, p);
    MulMonotone(m, r, p - 1);
    Distribute(p, 1, m);
  }

  lemma ShiftDownInts(d: int, h: int, l: int, high: int, q: int, r: int, p: int, m: int, b: int)
    requires d == h * p + l && high == q * p + r && p * m == b
    ensures d + b * high == (h + r * m + b * q) * p + l
    ensures d < b ==> h * p + l < m * p
  {
    assert b * r == r * m * p by {
      MulCommutes(p, m);
      MulCommutes(b, r);
      MulAssoc(r, m, p);
    }
    assert b * high == b * q * p + b * r by {
      Distribute(q * p, r, b);
      MulAssoc(b, q, p);
    }
    Distribute(h + r * m, b * q, p);
    Distribute(h, r * m, p);
    MulCommutes(m, p);
  }

  /** One limb of the right shift: t takes its high bits and r0, r1 keeps the low ones, moved up. */
  method DigitDown(d: limb, r0: nat, v1: nat, ghost high: nat, ghost q: nat, ghost r: nat) returns (t: limb, r1: nat)
    requires 0 < v1 < LIMB_BITS && high == q * Pow2(v1) + r && r < Pow2(v1) && r0 == r * Pow2(LIMB_BITS - v1)
    ensures Pow2(v1) > 0 && r1 == d % Pow2(v1) * Pow2(LIMB_BITS - v1)
    ensures d + BASE * high == (t + BASE * q) * Pow2(v1) + d % Pow2(v1)
  {
    hide *;
    Halving(v1);
    var p, m := Pow2(v1), Pow2(LIMB_BITS - v1);
    ShiftDown(d, high, q, r, p, m);
    LowBits(d, v1);
    r1 := d % p * m;
    t := d / p + r0;
  }

  /** The bit loop of the right shift, from the top limb down; r0 holds what the last limb dropped. */
  method ShiftBits(X: array<limb>, limbs: nat, v1: nat)
    requires limbs <= X.Length && 0 < v1 < LIMB_BITS
    modifies X
    ensures Val(X[..limbs]) == Val(old(X[..limbs])) / Pow2(v1) && X[limbs..] == old(X[limbs..])
  {
    hide *;
    BasePos();
    Halving(v1);
    ghost var x, p, m := X[..limbs], Pow2(v1), Pow2(LIMB_BITS - v1);
    var r0 := 0;
    ghost var r := 0;
    var i := limbs;
    ValEmpty(x[limbs..]);
    ValEmpty(X[limbs..limbs]);
    while i > 0
      invariant i <= limbs && X[..i] == x[..i] && X[limbs..] == old(X[limbs..])
      invariant 0 <= r < p && r0 == r * m && Val(x[i..]) == Val(X[i..limbs]) * p + r
    {
      ghost var rest := X[i..limbs];
      assert X[i - 1] == X[..i][i - 1] == x[i - 1];
      var t, r1 := DigitDown(X[i - 1], r0, v1, Val(x[i..]), Val(rest), r);
      r := x[i - 1] % p;
      X[i - 1] := t;
      assert X[i - 1..limbs] == [t] + rest && x[i - 1..][1..] == x[i..] && X[..i - 1] == x[..i - 1];
      ValHead(x[i - 1..]);
      ValHead([t] + rest);
      assert ([t] + rest)[1..] == rest;
      r0 := r1;
      i := i - 1;
    }
    assert x[0..] == x && X[0..limbs] == X[..limbs];
    DivModUnique(Val(x), p, Val(X[..limbs]), r);
  }

  lemma Halving(v1: nat)
    requires v1 <= LIMB_BITS
    ensures Pow2(v1) * Pow2(LIMB_BITS - v1) == BASE && Pow2(v1) > 0 && Pow2(LIMB_BITS - v1) > 0
  {
    PowTwoAdd(v1, LIMB_BITS - v1);
    BaseIsPow2();
  }

  lemma LowBits(x: limb, v1: nat)
    requires v1 <= LIMB_BITS
    ensures Pow2(v1) > 0 && x % Pow2(v1) * Pow2(LIMB_BITS - v1) >= 0
  {
  }

  /** mbedtls_mpi_core_shift_r: the number divided by 2^count. */
  method CoreShiftR(X: array<limb>, limbs: nat, count: nat)
    requires limbs <= X.Length
    modifies X
    ensures Val(X[..limbs]) == Val(old(X[..limbs])) / Pow2(count) && X[limbs..] == old(X[limbs..])
  {
    hide *;
    LimbBitsPositive();
    var v0, v1 := count / LIMB_BITS, count % LIMB_BITS;
    ghost var x := X[..limbs];
    CountSplits(count, v0, v1);
    if v0 > limbs || (v0 == limbs && v1 > 0) {
      ClearLimbs(X, 0, limbs);
      ShiftedOutAll(x, count, v0);
      ValZeros(X[..limbs]);
      return;
    }
    if v0 > 0 {
      MoveDown(X, limbs, v0);
    }
    DropLimbs(x, X[..limbs], v0);
    if v1 > 0 {
      ShiftBits(X, limbs, v1);
    }
    ShiftTwice(Val(x), v0, v1, count);
  }

  lemma LimbBitsPositive()
    ensures LIMB_BITS > 0
  {
    BaseFacts();
  }

  lemma CountSplits(count: nat, v0: nat, v1: nat)
    requires LIMB_BITS > 0 && v0 == count / LIMB_BITS && v1 == count % LIMB_BITS
    ensures v1 < LIMB_BITS && v0 * LIMB_BITS >= 0 && count == v0 * LIMB_BITS + v1 && Pow2(count) == Pb(v0) * Pow2(v1)
  {
    DivMod(count, LIMB_BITS);
    PowTwoAdd(v0 * LIMB_BITS, v1);
    PbIsPow2(v0);
  }

  lemma ShiftedOutAll(x: seq<limb>, count: nat, v0: nat)
    requires |x| <= v0 && LIMB_BITS > 0 && v0 == count / LIMB_BITS
    ensures Val(x) / Pow2(count) == 0
  {
    hide Val, Pb;
    CountSplits(count, v0, count % LIMB_BITS);
    ValBound(x);
    PowersGrow(|x|, v0);
    MulMonotone(Pb(v0), 1, Pow2(count % LIMB_BITS));
    DivModUnique(Val(x), Pow2(count), 0, Val(x));
  }

  lemma ShiftTwice(v: nat, v0: nat, v1: nat, count: nat)
    requires Pow2(count) == Pb(v0) * Pow2(v1)
    ensures v / Pow2(count) == v / Pb(v0) / Pow2(v1)
    ensures v1 == 0 ==> v / Pow2(count) == v / Pb(v0)
  {
    DivDiv(v, Pb(v0), Pow2(v1));
  }

  method ClearLimbs(X: array<limb>, from: nat, limbs: nat)
    requires from <= limbs <= X.Length
    modifies X
    ensures X[..from] == old(X[..from]) && X[limbs..] == old(X[limbs..]) && forall k :: from <= k < limbs ==> X[k] == 0
  {
    BasePos();
    var i := from;
    while i < limbs
      invariant from <= i <= limbs && X[..from] == old(X[..from]) && X[limbs..] == old(X[limbs..])
      invariant forall k :: from <= k < i ==> X[k] == 0
    {
      X[i] := 0;
      i := i + 1;
    }
  }

  lemma KeptAbove(a: seq<limb>, b: seq<limb>, i: nat, x: seq<limb>, t: limb)
    requires i < |a| == |x| && b == a[i := t] && a[i..] == x[i..]
    ensures b[..i] == a[..i] && b[i + 1..] == x[i + 1..]
  {
    assert b[i + 1..] == a[i..][1..];
  }

  /** The limb loop of the right shift. */
  method MoveDown(X: array<limb>, limbs: nat, v0: nat)
    requires v0 <= limbs <= X.Length
    modifies X
    ensures X[..limbs - v0] == old(X[v0..limbs]) && X[limbs..] == old(X[limbs..]) && forall k :: limbs - v0 <= k < limbs ==> X[k] == 0
  {
    ghost var x := X[..];
    var i := 0;
    while i < limbs - v0
      invariant 0 <= i <= limbs - v0 && X[..i] == x[v0..v0 + i] && X[i..] == x[i..]
    {
      ghost var cur := X[..];
      assert X[i + v0] == X[i..][v0] == x[i + v0];
      X[i] := X[i + v0];
      assert X[..] == cur[i := x[i + v0]];
      KeptAbove(cur, X[..], i, x, x[i + v0]);
      assert X[..i + 1] == X[..i] + [x[i + v0]];
      i := i + 1;
    }
    assert X[limbs..] == X[i..][limbs - i..] == x[limbs..];
    ClearLimbs(X, i, limbs);
  }

  lemma DropLimbs(x: seq<limb>, y: seq<limb>, v0: nat)
    requires v0 <= |x| == |y| && (v0 == 0 ==> y == x)
    requires v0 > 0 ==> y[..|x| - v0] == x[v0..] && forall k :: |x| - v0 <= k < |x| ==> y[k] == 0
    ensures Val(y) == Val(x) / Pb(v0)
  {
    hide Val, Pb;
    ValSplit(x, v0);
    ValBound(x[..v0]);
    if v0 == 0 {
      PbStep(0);
      ValEmpty(x[..0]);
      assert x[0..] == x;
    } else {
      ValTrim(y, |x| - v0);
    }
    MulCommutes(Pb(v0), Val(x[v0..]));
    DivModUnique(Val(x), Pb(v0), Val(x[v0..]), Val(x[..v0]));
  }

  /** One limb of the left shift: t takes its low bits and r0, r1 keeps the high ones. */
  method DigitUp(d: limb, r0: nat, v1: nat) returns (t: limb, r1: nat)
    requires 0 < v1 < LIMB_BITS && r0 < Pow2(v1)
    ensures r1 < Pow2(v1) && t + r1 * BASE == d * Pow2(v1) + r0
  {
    hide *;
    Halving(v1);
    ghost var p, m := Pow2(v1), Pow2(LIMB_BITS - v1);
    ShiftUp(d, r0, p, m);
    r1 := d / Pow2(LIMB_BITS - v1);
    t := d % Pow2(LIMB_BITS - v1) * Pow2(v1) + r0;
  }

  lemma ShiftUp(d: limb, r0: nat, p: nat, m: nat)
    requires p > 0 && m > 0 && p * m == BASE && r0 < p
    ensures d / m < p && 0 <= d % m * p + r0 < BASE
    ensures d % m * p + r0 + d / m * BASE == d * p + r0
  {
    DivMod(d, m);
    MulCancelLt(d / m, p, m);
    MulMonotone(p, d % m, m - 1);
    Distribute(m, 1, p);
    MulCommutes(p, m);
    MulAssoc(d / m, m, p);
    Distribute(d / m * m, d % m, p);
  }

  /** The bit loop of the left shift, from limb v0 up: nothing leaves the top limb. */
  method ShiftBitsUp(X: array<limb>, v0: nat, v1: nat)
    requires v0 <= X.Length && 0 < v1 < LIMB_BITS && (forall k :: 0 <= k < v0 ==> X[k] == 0)
    requires Val(X[..]) * Pow2(v1) < Pb(X.Length)
    modifies X
    ensures Val(X[..]) == Val(old(X[..])) * Pow2(v1)
  {
    hide *;
    ghost var y, p := X[..], Pow2(v1);
    var n := X.Length;
    var i: nat, r0: nat := v0, 0;
    Halving(v1);
    ValZeros(y[..v0]);
    assert X[..v0] == y[..v0];
    NothingYet(p, Pb(v0));
    while i < n
      invariant v0 <= i <= n && X[i..] == y[i..] && r0 < p
      invariant Val(X[..i]) + r0 * Pb(i) == Val(y[..i]) * p
    {
      ghost var low := X[..i];
      assert X[i] == X[i..][0] == y[i];
      var t, r1 := DigitUp(X[i], r0, v1);
      ghost var cur := X[..];
      X[i] := t;
      assert X[..] == cur[i := t];
      KeptAbove(cur, X[..], i, y, t);
      assert X[..i + 1] == low + [t];
      ValSnoc(low, t);
      ValStep(y, i);
      UpInts(Val(low), r0, Val(y[..i]), y[i], t, r1, p, Pb(i), BASE);
      PbStep(i);
      r0 := r1;
      i := i + 1;
    }
    assert X[..n] == X[..] && y[..n] == y;
    PbPositive(n);
    NoTopCarry(Val(X[..]), r0, Pb(n), Val(y) * p);
  }

  lemma NothingYet(p: int, q: int)
    ensures 0 + 0 * q == 0 * p
  {
  }

  lemma NoTopCarry(v: nat, r: nat, p: nat, total: int)
    requires v + r * p == total < p
    ensures v == total
  {
    if r >= 1 {
      MulMonotone(p, 1, r);
    }
  }

  lemma UpInts(low: int, r0: int, v: int, d: int, t: int, r1: int, p: int, w: int, b: int)
    requires low + r0 * w == v * p && t + r1 * b == d * p + r0
    ensures low + t * w + r1 * (b * w) == (v + d * w) * p
  {
    MulAssoc(r1, b, w);
    Distribute(t, r1 * b, w);
    Distribute(d * p, r0, w);
    Distribute(v, d * w, p);
    MulAssoc(d, p, w);
    MulAssoc(d, w, p);
    MulCommutes(p, w);
  }

  /** The limb loop of the left shift. */
  method MoveUp(X: array<limb>, v0: nat)
    requires v0 <= X.Length
    modifies X
    ensures (forall k :: 0 <= k < v0 ==> X[k] == 0) && X[v0..] == old(X[..X.Length - v0])
  {
    MoveLimbs(X, v0);
    ClearLimbs(X, 0, v0);
  }

  method MoveLimbs(X: array<limb>, v0: nat)
    requires v0 <= X.Length
    modifies X
    ensures X[v0..] == old(X[..X.Length - v0])
  {
    hide *;
    ghost var x := X[..];
    var i := X.Length;
    MovedUpStart(x, v0);
    while i > v0
      invariant v0 <= i <= X.Length && MovedUp(X[..], x, v0, i)
    {
      i := i - 1;
      ghost var cur := X[..];
      var t := X[i - v0];
      MovedUpNext(cur, x, v0, i, t);
      X[i] := t;
      assert X[..] == cur[i := t];
    }
    MovedUpEnds(X[..], x, v0);
    assert X[v0..] == X[..][v0..];
  }

  /** From limb i on the limbs have moved; below they are as before. */
  ghost predicate MovedUp(cur: seq<limb>, x: seq<limb>, v0: nat, i: nat) {
    v0 <= i <= |cur| == |x| && cur[i..] == x[i - v0..|x| - v0] && cur[..i] == x[..i]
  }

  lemma MovedUpStart(x: seq<limb>, v0: nat)
    requires v0 <= |x|
    ensures MovedUp(x, x, v0, |x|)
  {
  }

  lemma MovedUpEnds(cur: seq<limb>, x: seq<limb>, v0: nat)
    requires MovedUp(cur, x, v0, v0)
    ensures v0 <= |cur| == |x| && cur[v0..] == x[..|x| - v0]
  {
  }

  lemma MovedUpNext(cur: seq<limb>, x: seq<limb>, v0: nat, i: nat, t: limb)
    requires MovedUp(cur, x, v0, i + 1) && i >= v0 && t == cur[i - v0]
    ensures MovedUp(cur[i := t], x, v0, i)
  {
    assert t == cur[..i + 1][i - v0] == x[i - v0];
    KeptBelow(cur, cur[i := t], i, x, t);
    assert cur[i := t][i..] == [t] + cur[i + 1..];
    assert x[i - v0..|x| - v0] == [t] + x[i + 1 - v0..|x| - v0];
  }

  lemma KeptBelow(a: seq<limb>, b: seq<limb>, i: nat, x: seq<limb>, t: limb)
    requires i < |a| == |x| && b == a[i := t] && a[..i + 1] == x[..i + 1]
    ensures b[i + 1..] == a[i + 1..] && b[..i] == x[..i]
  {
    assert b[..i] == a[..i + 1][..i];
  }

  /** Limbs for a number of bits. */
  function BitsToLimbs(bits: nat): nat
    requires LIMB_BITS > 0
  {
    bits / LIMB_BITS + if bits % LIMB_BITS != 0 then 1 else 0
  }

  lemma BitsFit(bits: nat, n: nat)
    requires LIMB_BITS > 0 && n >= BitsToLimbs(bits)
    ensures bits <= n * LIMB_BITS
  {
    DivMod(bits, LIMB_BITS);
    MulMonotone(LIMB_BITS, BitsToLimbs(bits), n);
    Distribute(bits / LIMB_BITS, 1, LIMB_BITS);
  }

  lemma RoomNeeded(bits: nat, n: nat)
    requires LIMB_BITS > 0 && n * LIMB_BITS < bits
    ensures n < BitsToLimbs(bits)
  {
    hide LIMB_BITS;
    if n >= BitsToLimbs(bits) {
      BitsFit(bits, n);
    }
  }

  /** With room for the result, the shifted number and its factors stay below the top. */
  lemma ShiftFits(v: nat, count: nat, v0: nat, v1: nat, n: nat)
    requires LIMB_BITS > 0 && v0 == count / LIMB_BITS && v1 == count % LIMB_BITS && BitLen(v) + count <= n * LIMB_BITS
    ensures v * Pow2(count) < Pb(n) && Pow2(count) == Pb(v0) * Pow2(v1) && v0 <= n && v < Pb(n - v0)
  {
    hide BitLen, Pow2, Pb;
    CountSplits(count, v0, v1);
    BitLenBounds(v);
    var room := n * LIMB_BITS - count;
    PowTwoAdd(count, room);
    PbIsPow2(n);
    Pow2Monotone(BitLen(v), room);
    Halve(count);
    MulMonotone(Pow2(count), v + 1, Pow2(room));
    Distribute(v, 1, Pow2(count));
    MulCommutes(Pow2(count), Pow2(room));
    WholeLimbsFit(v0, n, v1, LIMB_BITS);
    RoomBelow(v, n, v0, room);
  }

  lemma Halve(k: nat)
    ensures Pow2(k) > 0
  {
  }

  lemma WholeLimbsFit(v0: nat, n: nat, v1: nat, w: nat)
    requires w > 0 && v0 * w + v1 <= n * w
    ensures v0 <= n && (n - v0) * w == n * w - v0 * w
  {
    if v0 > n {
      MulMonotone(w, n + 1, v0);
      Distribute(n, 1, w);
    }
    Distribute(n, v0, w);
  }

  lemma RoomBelow(v: nat, n: nat, v0: nat, room: nat)
    requires v0 <= n && v < Pow2(room) && room <= (n - v0) * LIMB_BITS
    ensures v < Pb(n - v0)
  {
    hide Pow2;
    PbIsPow2(n - v0);
    Pow2Monotone(room, (n - v0) * LIMB_BITS);
  }

  lemma RaiseLimbs(x: seq<limb>, y: seq<limb>, v0: nat)
    requires v0 <= |x| == |y| && y[v0..] == x[..|x| - v0] && (forall k :: 0 <= k < v0 ==> y[k] == 0) && Val(x) < Pb(|x| - v0)
    ensures Val(y) == Val(x) * Pb(v0)
  {
    hide *;
    var m := |x| - v0;
    ValSplit(x, m);
    PbPositive(m);
    NoTopCarry(Val(x[..m]), Val(x[m..]), Pb(m), Val(x));
    MulCommutes(Pb(m), Val(x[m..]));
    ValSplit(y, v0);
    ValZeros(y[..v0]);
    MulCommutes(Pb(v0), Val(x[..m]));
  }

  /** mbedtls_mpi_shift_l: the number times 2^count. */
  method ShiftL(X: Mpi, count: nat) returns (ret: int)
    requires X.Valid()
    modifies X`p, X.p
    ensures X.Valid() && (X.p == old(X.p) || fresh(X.p))
    ensures ret == 0 ==> X.Magnitude() == old(X.Magnitude()) * Pow2(count)
    ensures ret == 0 ==> X.p.Length == if old(X.p.Length) * LIMB_BITS < BitLen(old(X.Magnitude())) + count
      then BitsToLimbs(BitLen(old(X.Magnitude())) + count) else old(X.p.Length)
    ensures ret == if old(X.p.Length) * LIMB_BITS < BitLen(old(X.Magnitude())) + count
      && BitsToLimbs(BitLen(old(X.Magnitude())) + count) > MAX_LIMBS then ALLOC_FAILED else 0
  {
    hide Val, Pb, BitLen, Pow2, BitsToLimbs, LIMB_BITS;
    LimbBitsPositive();
    var v0, v1 := count / LIMB_BITS, count % LIMB_BITS;
    var bits := CoreBitlen(X.p);
    var i := bits + count;
    ret := 0;
    if X.p.Length * LIMB_BITS < i {
      ret := X.Grow(BitsToLimbs(i));
      if ret != 0 {
        return;
      }
      BitsFit(i, X.p.Length);
      RoomNeeded(i, old(X.p.Length));
    }
    ghost var x := X.p[..];
    ShiftFits(Val(x), count, v0, v1, X.p.Length);
    if v0 > 0 {
      MoveUp(X.p, v0);
      RaiseLimbs(x, X.p[..], v0);
    }
    MulAssoc(Val(x), Pb(v0), Pow2(v1));
    PbZero();
    if v1 > 0 {
      ShiftBitsUp(X.p, v0, v1);
    }
    OnlyLimbs(v1);
  }

  lemma PbZero()
    ensures Pb(0) == 1
  {
    PbStep(0);
  }

  lemma OnlyLimbs(v1: nat)
    ensures v1 == 0 ==> Pow2(v1) == 1
  {
  }
}
