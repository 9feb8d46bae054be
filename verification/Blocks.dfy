/** Block ciphers as functions on byte strings. */
module Blocks {
  import opened Bits

  /** A block cipher under a fixed key, as a function on byte strings. */
  type Cipher = seq<bv8> -> seq<bv8>

  /** The function takes blocks to blocks. */
  ghost predicate IsCipher(f: Cipher) {
    forall x: seq<bv8> :: |x| == 16 ==> |f(x)| == 16
  }

  /** dec undoes enc on blocks. */
  ghost predicate Undoes(dec: Cipher, enc: Cipher) {
    forall x: seq<bv8> :: |x| == 16 ==> dec(enc(x)) == x
  }

  lemma XorBytesTwice(a: seq<bv8>, t: seq<bv8>)
    requires |a| == |t|
    ensures XorBytes(XorBytes(a, t), t) == a
  {
    forall i | 0 <= i < |a|
      ensures XorBytes(XorBytes(a, t), t)[i] == a[i]
    {
      XorByteTwice(a[i], t[i]);
    }
  }

  lemma XorByteTwice(a: bv8, b: bv8)
    ensures (a ^ b) ^ b == a
  {
  }
}
