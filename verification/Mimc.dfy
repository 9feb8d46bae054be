/** MiMC over a prime field. */
module Mimc {
  import opened Arith
  import opened Fermat

  /** The modulus of mimc128_init. */
  const PRIME: nat := 0x80000000_00000000_00000000_001b8001

  datatype Instance = Instance(prime: nat, constants: seq<nat>)

  /** One round: the cube, the key and the round constant. */
  function Round(p: nat, k: nat, c: nat, x: int): (y: nat)
    requires p > 0
    ensures y < p
  {
    (Pow(x, 3) + k + c) % p
  }

  function Rounds(p: nat, k: nat, cs: seq<nat>, x: nat): (y: nat)
    requires p > 0 && x < p
    ensures y < p
  {
    if cs == [] then x else Round(p, k, cs[|cs| - 1], Rounds(p, k, cs[..|cs| - 1], x))
  }

  function AddKey(p: nat, x: nat, k: nat): (y: nat)
    requires p > 0
    ensures y < p
  {
    (x + k) % p
  }

  function SubKey(p: nat, x: nat, k: nat): (y: nat)
    requires p > 0
    ensures y < p
  {
    (x - k) % p
  }

  /** The cipher: key whitening around the rounds. */
  function Encrypt(inst: Instance, k: nat, m: nat): (c: nat)
    requires inst.prime > 0
    ensures c < inst.prime
  {
    AddKey(inst.prime, Rounds(inst.prime, k, inst.constants, AddKey(inst.prime, m, k)), k)
  }

  /** mimc128_enc. */
  method Enc(inst: Instance, key: nat, message: nat) returns (ciphertext: nat)
    requires inst.prime > 0
    ensures ciphertext == Encrypt(inst, key, message)
  {
    hide Rounds, Round;
    ciphertext := (message + key) % inst.prime;
    var i := 0;
    assert inst.constants[..0] == [];
    RoundsNone(inst.prime, key, ciphertext);
    ghost var start := ciphertext;
    while i < |inst.constants|
      invariant 0 <= i <= |inst.constants| && ciphertext < inst.prime
      invariant ciphertext == Rounds(inst.prime, key, inst.constants[..i], start)
    {
      ghost var x: nat := ciphertext;
      var tmp := ciphertext;
      RoundByCode(inst.prime, key, inst.constants[i], x);
      RoundsNext(inst.prime, key, inst.constants, i, start);
      ciphertext := ciphertext * ciphertext % inst.prime;
      ciphertext := ciphertext * tmp % inst.prime;
      ciphertext := (ciphertext + key) % inst.prime;
      ciphertext := (ciphertext + inst.constants[i]) % inst.prime;
      i := i + 1;
    }
    assert inst.constants[..i] == inst.constants;
    ciphertext := (ciphertext + key) % inst.prime;
  }

  lemma RoundsNone(p: nat, k: nat, x: nat)
    requires p > 0 && x < p
    ensures Rounds(p, k, [], x) == x
  {
  }

  lemma RoundsNext(p: nat, k: nat, cs: seq<nat>, i: nat, x: nat)
    requires p > 0 && x < p && i < |cs|
    ensures Rounds(p, k, cs[..i + 1], x) == Round(p, k, cs[i], Rounds(p, k, cs[..i], x))
  {
    hide Round;
    assert cs[..i + 1][..i] == cs[..i];
  }

  /** The reductions between the steps of a round do not change it. */
  lemma RoundByCode(p: nat, k: nat, c: nat, x: nat)
    requires p > 0
    ensures x * x % p >= 0 && x * x % p * x % p >= 0 && (x * x % p * x % p + k) % p >= 0
    ensures ((x * x % p * x % p + k) % p + c) % p == Round(p, k, c, x)
  {
    var s := x * x % p;
    var t := s * x % p;
    DivMod(x * x, p);
    DivMod(s * x, p);
    DivMod(t + k, p);
    CongMod(x * x, p);
    CongMul(s, x * x, x, x, p);
    CongMod(s * x, p);
    CongTrans(t, s * x, x * x * x, p);
    CubeIs(x);
    CongAdd(t, Pow(x, 3), k, k, p);
    CongMod(t + k, p);
    CongTrans((t + k) % p, t + k, Pow(x, 3) + k, p);
    CongAdd((t + k) % p, Pow(x, 3) + k, c, c, p);
  }

  lemma CubeIs(x: int)
    ensures Pow(x, 3) == x * x * x
  {
    assert Pow(x, 3) == x * Pow(x, 2) && Pow(x, 2) == x * Pow(x, 1) && Pow(x, 1) == x * Pow(x, 0);
    MulAssoc(x, x, x);
  }

  /** A round written out. */
  lemma RoundIs(p: nat, k: nat, c: nat, x: nat)
    requires p > 0
    ensures Round(p, k, c, x) == (x * x * x + k + c) % p
  {
    CubeIs(x);
    hide Pow;
  }

  /** All states of the cipher: the key is added first and last, and every round takes its own constant in order. */
  lemma EncryptIsChain(inst: Instance, k: nat, m: nat) returns (xs: seq<nat>)
    requires inst.prime > 0
    ensures |xs| == |inst.constants| + 1 && xs[0] == (m + k) % inst.prime
    ensures forall i :: 0 <= i < |xs| - 1 ==> xs[i + 1] == (xs[i] * xs[i] * xs[i] + k + inst.constants[i]) % inst.prime
    ensures Encrypt(inst, k, m) == (xs[|xs| - 1] + k) % inst.prime
  {
    hide Round, Rounds, Pow;
    var p, cs := inst.prime, inst.constants;
    var x0 := AddKey(p, m, k);
    xs := [x0];
    RoundsNone(p, k, x0);
    assert cs[..0] == [];
    while |xs| <= |cs|
      invariant 1 <= |xs| <= |cs| + 1 && xs[0] == x0 && xs[|xs| - 1] == Rounds(p, k, cs[..|xs| - 1], x0)
      invariant forall i :: 0 <= i < |xs| - 1 ==> xs[i + 1] == (xs[i] * xs[i] * xs[i] + k + cs[i]) % p
      decreases |cs| - |xs|
    {
      var i := |xs| - 1;
      RoundsNext(p, k, cs, i, x0);
      RoundIs(p, k, cs[i], xs[i]);
      xs := xs + [Round(p, k, cs[i], xs[i])];
    }
    assert cs[..|cs|] == cs;
  }

  // ---- the inverse ----

  /** The exponent that undoes cubing. */
  function RootExponent(p: nat): nat
    requires p > 0
  {
    (2 * p - 1) / 3
  }

  /** The cube root modulo p. */
  function Root(p: nat, y: int): (x: nat)
    requires p > 0
    ensures x < p
  {
    Pow(y, RootExponent(p)) % p
  }

  /** x^(2p - 1) = x. */
  lemma PowerReturns(p: nat, x: nat)
    requires IsPrime(p) && p % 3 == 2 && x < p
    ensures Cong(Pow(x, 3 * RootExponent(p)), x, p)
  {
    assert 3 * RootExponent(p) == 2 * p - 1;
    FermatsTheorem(p, x);
    PowAdd(x, p, p - 1);
    CongMul(Pow(x, p), x, Pow(x, p - 1), Pow(x, p - 1), p);
    assert Pow(x, p) == x * Pow(x, p - 1);
    CongTrans(Pow(x, 2 * p - 1), Pow(x, p), x, p);
  }

  lemma CubeRootOfCube(p: nat, x: nat)
    requires IsPrime(p) && p % 3 == 2 && x < p
    ensures Root(p, Pow(x, 3) % p) == x
  {
    var d := RootExponent(p);
    CongMod(Pow(x, 3), p);
    CongPow(Pow(x, 3) % p, Pow(x, 3), d, p);
    PowPow(x, 3, d);
    PowerReturns(p, x);
    CongTrans(Pow(Pow(x, 3) % p, d), Pow(x, 3 * d), x, p);
    CongSmall(x, Pow(Pow(x, 3) % p, d), p);
  }

  lemma CubeOfCubeRoot(p: nat, y: nat)
    requires IsPrime(p) && p % 3 == 2 && y < p
    ensures Pow(Root(p, y), 3) % p == y
  {
    var d := RootExponent(p);
    CongMod(Pow(y, d), p);
    CongPow(Root(p, y), Pow(y, d), 3, p);
    PowPow(y, d, 3);
    PowerReturns(p, y);
    MulCommutes(d, 3);
    CongTrans(Pow(Root(p, y), 3), Pow(y, 3 * d), y, p);
    CongSmall(y, Pow(Root(p, y), 3), p);
  }

  function RoundBack(p: nat, k: nat, c: nat, y: int): (x: nat)
    requires p > 0
    ensures x < p
  {
    Root(p, (y - k - c) % p)
  }

  function RoundsBack(p: nat, k: nat, cs: seq<nat>, y: nat): (x: nat)
    requires p > 0 && y < p
    ensures x < p
  {
    if cs == [] then y else RoundsBack(p, k, cs[..|cs| - 1], RoundBack(p, k, cs[|cs| - 1], y))
  }

  function Decrypt(inst: Instance, k: nat, c: nat): (m: nat)
    requires inst.prime > 0
    ensures m < inst.prime
  {
    SubKey(inst.prime, RoundsBack(inst.prime, k, inst.constants, SubKey(inst.prime, c, k)), k)
  }

  lemma AddThenSubtract(x: int, k: int, p: nat)
    requires 0 <= x < p
    ensures ((x + k) % p - k) % p == x && ((x - k) % p + k) % p == x
  {
    CongMod(x + k, p);
    CongAdd((x + k) % p, x + k, k, k, p);
    CongSmall(x, (x + k) % p - k, p);
    CongMod(x - k, p);
    CongAdd((x - k) % p, x - k, k, k, p);
    CongSmall(x, (x - k) % p + k, p);
  }

  lemma RoundThenBack(p: nat, k: nat, c: nat, x: nat)
    requires IsPrime(p) && p % 3 == 2 && x < p
    ensures RoundBack(p, k, c, Round(p, k, c, x)) == x
  {
    hide Root, Pow, IsPrime;
    CubeRootOfCube(p, x);
    DivMod(Pow(x, 3), p);
    CongMod(Pow(x, 3), p);
    CongAdd(Pow(x, 3) % p, Pow(x, 3), k + c, k + c, p);
    AddThenSubtract(Pow(x, 3) % p, k + c, p);
  }

  lemma BackThenRound(p: nat, k: nat, c: nat, x: nat)
    requires IsPrime(p) && p % 3 == 2 && x < p
    ensures Round(p, k, c, RoundBack(p, k, c, x)) == x
  {
    hide Root, Pow, IsPrime;
    var y := (x - k - c) % p;
    DivMod(x - k - c, p);
    CubeOfCubeRoot(p, y);
    CongMod(Pow(Root(p, y), 3), p);
    CongAdd(Pow(Root(p, y), 3) % p, Pow(Root(p, y), 3), k + c, k + c, p);
    AddThenSubtract(x, k + c, p);
  }

  lemma {:induction false} RoundsInverse(p: nat, k: nat, cs: seq<nat>, x: nat)
    requires IsPrime(p) && p % 3 == 2 && x < p
    ensures RoundsBack(p, k, cs, Rounds(p, k, cs, x)) == x
  {
    hide Round, RoundBack;
    if cs != [] {
      var n := |cs| - 1;
      RoundThenBack(p, k, cs[n], Rounds(p, k, cs[..n], x));
      RoundsInverse(p, k, cs[..n], x);
    }
  }

  lemma {:induction false} RoundsOfBack(p: nat, k: nat, cs: seq<nat>, y: nat)
    requires IsPrime(p) && p % 3 == 2 && y < p
    ensures Rounds(p, k, cs, RoundsBack(p, k, cs, y)) == y
  {
    hide Round, RoundBack;
    if cs != [] {
      var n := |cs| - 1;
      BackThenRound(p, k, cs[n], y);
      RoundsOfBack(p, k, cs[..n], RoundBack(p, k, cs[n], y));
    }
  }

  lemma KeyInverse(p: nat, x: nat, k: nat)
    requires 0 <= x < p
    ensures SubKey(p, AddKey(p, x, k), k) == x && AddKey(p, SubKey(p, x, k), k) == x
  {
    AddThenSubtract(x, k, p);
  }

  lemma DecryptInverts(inst: Instance, k: nat, x: nat)
    requires IsPrime(inst.prime) && inst.prime % 3 == 2 && x < inst.prime
    ensures Decrypt(inst, k, Encrypt(inst, k, x)) == x
  {
    hide Rounds, RoundsBack, IsPrime, AddKey, SubKey;
    var p, cs := inst.prime, inst.constants;
    var m := AddKey(p, x, k);
    KeyInverse(p, Rounds(p, k, cs, m), k);
    RoundsInverse(p, k, cs, m);
    KeyInverse(p, x, k);
  }

  lemma EncryptInverts(inst: Instance, k: nat, x: nat)
    requires IsPrime(inst.prime) && inst.prime % 3 == 2 && x < inst.prime
    ensures Encrypt(inst, k, Decrypt(inst, k, x)) == x
  {
    hide Rounds, RoundsBack, IsPrime, AddKey, SubKey;
    var p, cs := inst.prime, inst.constants;
    var c := SubKey(p, x, k);
    KeyInverse(p, RoundsBack(p, k, cs, c), k);
    RoundsOfBack(p, k, cs, c);
    KeyInverse(p, x, k);
  }

  /** For a prime p = 2 mod 3 the cipher is a permutation of [0, p) under every key and all constants. */
  lemma Permutation(inst: Instance, k: nat, x: nat)
    requires IsPrime(inst.prime) && inst.prime % 3 == 2 && x < inst.prime
    ensures Decrypt(inst, k, Encrypt(inst, k, x)) == x && Encrypt(inst, k, Decrypt(inst, k, x)) == x
  {
    hide Encrypt, Decrypt, IsPrime;
    DecryptInverts(inst, k, x);
    EncryptInverts(inst, k, x);
  }

  /** Distinct messages have distinct ciphertexts. */
  lemma Injective(inst: Instance, k: nat, x: nat, y: nat)
    requires IsPrime(inst.prime) && inst.prime % 3 == 2 && x < inst.prime && y < inst.prime
    requires Encrypt(inst, k, x) == Encrypt(inst, k, y)
    ensures x == y
  {
    hide Encrypt, Decrypt;
    Permutation(inst, k, x);
    Permutation(inst, k, y);
  }

  /** The modulus is 2^127 + 2^20 + 2^19 + 2^17 + 2^16 + 2^15 + 1, which is 2 modulo 3. */
  lemma CodeModulus()
    ensures PRIME % 3 == 2
    ensures PRIME == Pow(2, 127) + Pow(2, 20) + Pow(2, 19) + Pow(2, 17) + Pow(2, 16) + Pow(2, 15) + 1
  {
    SmallPowers();
    PowAdd(2, 15, 1);
    PowAdd(2, 16, 1);
    PowAdd(2, 17, 2);
    PowAdd(2, 19, 1);
    PowAdd(2, 20, 12);
    PowAdd(2, 32, 31);
    PowAdd(2, 32, 32);
    PowAdd(2, 63, 64);
    PowAdd(2, 31, 1);
    hide Pow;
  }

  lemma SmallPowers()
    ensures Pow(2, 1) == 2 && Pow(2, 2) == 4 && Pow(2, 12) == 4096 && Pow(2, 15) == 32768
  {
    assert Pow(2, 3) == 8 && Pow(2, 6) == 64 && Pow(2, 9) == 512;
  }
}
