# Big-number arithmetic and authenticated encryption, verified

A Dafny model of the arithmetic and cipher-mode code of the IoT benchmark and of proofs that it computes what it is for:
the limb arithmetic of the bundled mbedtls and mini-gmp libraries, the table and Karatsuba multiplications behind GHASH
and POLYVAL, MiMC over a prime field, and the modes XTS, CFB, OFB, CTR, GCM, CCM, Jolteon, Espeon and POBC-SIV.
`dafny verify dfyconfig.toml` checks everything.

## How it is built

Loops over limbs, bytes and blocks are methods over arrays and class fields, as in the C code, each proved against a short
specification; what the specification promises is proved as lemmas beside it. Where a mode's specification is recursive or
shared with the code, further lemmas give its bytes, counters and tweaks by value: byte i of a ciphertext, block j of a data
unit, the number in a tweakey.

- `Limbs` fixes a limb base B = b*b whose width is a symbolic power of two of at least 8 bits, so 32-bit and 64-bit limbs
  and the half-limb code are covered at once, and the number `Val` that a limb sequence denotes. `Arith`, `Divisibility`,
  `Numerals`, `Fermat` and `Gf2` hold the mathematics.
- mbedtls: `BignumCore`, `Montgomery`, `BignumMpi`, `BignumDiv`, `BignumMod`, `BignumGcd`, `ExpMod`, `BignumBytes`.
- mini-gmp: `MiniGmpRecip`, `MiniGmpDiv`, `MiniGmpGcdExt`, `MiniGmpRoot`, `MiniGmpMpz`, `MiniGmpLogic`, `MiniGmpStr`,
  `MiniGmpText`.
- Field multiplication: `Ghash`; `Words32`, `Karatsuba`, `Polyval`; `PolyvalGhash` ties the two hash functions to each other.
  `Bits` relates bytes to bit strings.
- Ciphers and modes: `Mimc`, `Xts`, `AesStreams`, `Gcm`, `Ccm`, `ForkAead` with `Jolteon` and `Espeon`, `PobcSiv`.

Block ciphers are arbitrary functions from blocks to blocks; XTS decryption needs a second function that undoes the first.
A forkcipher is an arbitrary pair of legs of which the tag leg has an inverse under every tweakey. That a MiMC modulus is
prime is a hypothesis of the lemmas that need it.

## Where code and comments part

The model follows the code.

- `BignumGcd.Gcd`: with B = 0 the code returns A, also when A is negative; the contract gives the exact condition and
  `GcdOfNegativeAndZero` an input.
- `ExpMod.ExpMod`: for a negative A and odd E the code subtracts the residue from N without asking whether it is zero, so
  it returns N itself exactly when E is odd and N divides A^E; `ModulusComesBack` is an input.
- `Montgomery.MpiMontmul`: the comments ask for a second factor with no more limbs than N, and the exponentiation passes
  factors with more; the product is proved for any number of limbs.
- `Jolteon.AdLastCounter` and `Espeon.AdLastCounter`: the conditional operator binds weaker than the sum before it, so the
  last counter of the additional data takes one of two values instead of the four that the tweak description has room
  for. `AdLastCountersMerge` says which cases share a value, `PaddingHasItsTweak` when padded and whole data do, and
  `PaddingWithoutMessage` what that does to the tag.
- `Jolteon.MessageCounters`, `Jolteon.AdCounters` and `Espeon.AdCounters`: within the permitted lengths the counters of
  whole blocks are distinct, and the one place at which a block shares the counter of the last one is stated with lengths
  that reach it.
- `MiniGmpGcdExt.GcdExt`: the comment bounds the chosen cofactor by its own argument, the code bounds it by the other one.
  The contract has the true bound with its one exception, and the comment's bound where the other argument is not the
  larger one; `CommentBound` shows with (1, 5) and (4, 5) that else it may hold or not.
- `Espeon.AdTweakIsFirst` and `Espeon.AdTweakIsLater384`: in the 384-bit variant tweaks of additional data can meet tweaks
  of a message, and the exact conditions are stated; in the 256-bit variant they never do.

## Model

| member | source | states |
|---|---|---|
| BignumCore.MulAddDouble | IoT-benchmark/mbedtls/library/bn_mul.h:1016-1022 | The multiply-accumulate step with a double-width product loses nothing: low and high limb together are s*b + c + d. |
| BignumCore.MulAddHalf | IoT-benchmark/mbedtls/library/bn_mul.h:1029-1048 | The same exact sum from half-limb products only, for every symbolic limb base that is a square. |
| BignumCore.CoreAdd | IoT-benchmark/mbedtls/library/bignum_core.c:361-378 | Over any number of limbs, with X equal to A or Y allowed: sum and carry out are exactly the sum of the two numbers; limbs above are kept. |
| BignumCore.CoreSub | IoT-benchmark/mbedtls/library/bignum_core.c:403-419 | Difference and borrow out are exact, again with X equal to either operand; limbs above are kept. |
| BignumCore.CoreMla | IoT-benchmark/mbedtls/library/bignum_core.c:421-459 | d += s*b through the blocks of eight, the single steps and the carry run into the excess limbs: window and carry out are exact, nothing outside the window changes. |
| BignumCore.CoreBitlen | IoT-benchmark/mbedtls/library/bignum_core.c:51-65 | The bit length of the number the limbs denote, leading zero limbs included. |
| Montgomery.MontmulInit | IoT-benchmark/mbedtls/library/bignum_core.c:464-474 | The Newton iteration ends with the inverse of -N modulo the limb base, for every limb width of at least eight bits and every odd N. |
| Montgomery.NewtonSquares | IoT-benchmark/mbedtls/library/bignum_core.c:464-474 | Why it does: one step turns an inverse modulo m into an inverse modulo m squared. |
| Montgomery.AccumulatorBound | IoT-benchmark/mbedtls/library/bignum_core.c:476-527 | After every round the sliding window stays below B + N, so T needs 2n+1 limbs and no carry is lost. |
| Montgomery.FinalSubtraction | IoT-benchmark/mbedtls/library/bignum_core.c:494-527 | With t < 2N a carry without a borrow cannot occur, and choosing by comparing the two gives t mod N. |
| Montgomery.CoreMontmul | IoT-benchmark/mbedtls/library/bignum_core.c:476-527 | The result is the number X < N with X*R = A*B (mod N), for every limb count, odd N, any A, any B up to N in whatever number of limbs, and X being A, B or N. |
| Montgomery.MontProdUnique | IoT-benchmark/mbedtls/library/bignum_core.c:476-527 | There is only one such number: any x below N with x*R = a*b + k*N is the Montgomery product. |
| Montgomery.RepRoundTrip | IoT-benchmark/mbedtls/library/bignum_mod_raw.c:130-163 | To Montgomery form and back, and back and forth, is the identity on [0, N). |
| Montgomery.MontProdOfReps | IoT-benchmark/mbedtls/library/bignum_mod_raw.c:130-163 | The Montgomery product of two representations represents the product. |
| Montgomery.ToMontRep | IoT-benchmark/mbedtls/library/bignum_mod_raw.c:130-145 | The in-place conversion yields the representation v*R mod N of the old contents. |
| Montgomery.FromMontRep | IoT-benchmark/mbedtls/library/bignum_mod_raw.c:147-163 | The in-place conversion back, by the one-limb factor 1, yields the represented residue. |
| Montgomery.MpiMontmul | IoT-benchmark/mbedtls/library/bignum.c:1500-1523 | The same product over the limbs of two objects, of which the second may have more limbs than N, as the exponentiation calls it; limbs above N that are zero stay zero. |
| Montgomery.MpiMontred | IoT-benchmark/mbedtls/library/bignum.c:1525-1540 | Montgomery reduction of an object, as a product with the one-limb number 1. |
| ExpMod.WindowPush | IoT-benchmark/mbedtls/library/bignum.c:1739-1752 | Reading a bit into the window lands on a clear bit and keeps the window value at least half full: a window starts with a 1 bit, so every table lookup hits a filled entry. |
| ExpMod.BuildTable | IoT-benchmark/mbedtls/library/bignum.c:1680-1703 | The limbs of the upper half of the table hold the powers A^(2^(w-1)) to A^(2^w - 1) in Montgomery form, each entry in storage of its own, for every window size. |
| ExpMod.WindowLoop | IoT-benchmark/mbedtls/library/bignum.c:1705-1768 | The state machine over the exponent bits, on the limbs of X and of the selected entries: what is in X and what waits in the window together are the exponent. |
| ExpMod.ExpMod | IoT-benchmark/mbedtls/library/bignum.c:1574-1806 | On objects, X being A allowed: for odd N > 0 and E >= 0 the result is A^E mod N when A >= 0; for a negative A it is congruent, and equal to N (not reduced) exactly when E is odd and N divides A^E. The bad-input error and the limb-limit error occur exactly when stated, and the helper object is left filled with R^2 mod N. |
| ExpMod.SquareOfR | IoT-benchmark/mbedtls/library/bignum.c:1641-1651 | R^2 mod N from a shifted 1 and a reduction in place, failing exactly from 4999 limbs on. |
| ExpMod.ModulusComesBack | IoT-benchmark/mbedtls/library/bignum.c:1788-1792 | The input for which the result is not reduced: (-3)^1 modulo 3 gives 3. |
| BignumDiv.IntDivHalf | IoT-benchmark/mbedtls/library/bignum.c:1168-1258 | The two-limb by one-limb division from half-limb steps is floor division with its remainder, or all ones in both when the quotient does not fit. |
| BignumDiv.TestKeepsQuotient | IoT-benchmark/mbedtls/library/bignum.c:1326-1348 | The three-limb test never rejects the true quotient digit. |
| BignumDiv.TestBoundsQuotient | IoT-benchmark/mbedtls/library/bignum.c:1326-1348 | A digit that passes is at most one too large, although the divisor is normalised to a top limb of only a quarter of the base. |
| BignumDiv.TrialDigit | IoT-benchmark/mbedtls/library/bignum.c:1326-1348 | The trial digit after the test loop is the true digit or one more. |
| BignumDiv.DivStep | IoT-benchmark/mbedtls/library/bignum.c:1324-1361 | One digit: multiply, subtract and at most one add-back keep quotient so far times divisor plus remainder equal to the dividend. |
| BignumDiv.DivAbs | IoT-benchmark/mbedtls/library/bignum.c:1281-1372 | The whole loop on magnitudes, normalisation and leading digit included: a = q*b + r with r < b. |
| BignumMod.DivMpi | IoT-benchmark/mbedtls/library/bignum.c:1263-1386 | On objects, either output missing, the remainder allowed to be an operand: quotient rounded towards zero and remainder; division by zero and the limb limit are the errors, exactly. |
| BignumMod.QuotientUnique | IoT-benchmark/mbedtls/library/bignum.c:1263-1386 | There is only one such pair: a = q*b + r with abs(r) < abs(b) and r carrying the sign of a. |
| BignumMod.ModMpi | IoT-benchmark/mbedtls/library/bignum.c:1410-1431 | A mod B in [0, B) for B > 0, in place too; the three error cases exactly. |
| BignumGcd.GcdBody | IoT-benchmark/mbedtls/library/bignum.c:1877-1901 | One pass of the binary loop keeps the gcd of two odd numbers. |
| BignumGcd.Gcd | IoT-benchmark/mbedtls/library/bignum.c:1811-1920 | The result is the gcd up to sign for all signed A and B, and the non-negative gcd if and only if not (B = 0 and A < 0), where the code returns A itself; the result may be an operand. |
| BignumGcd.GcdOfNegativeAndZero | IoT-benchmark/mbedtls/library/bignum.c:1829-1837 | The input for which it is negative: gcd(-4, 0) gives -4. |
| BignumGcd.InverseLoop | IoT-benchmark/mbedtls/library/bignum.c:2057-2105 | The two-row loop ends with V1*TA + V2*TB = 1 for coprime TA < TB, with even rows always made halvable; no sum reaches the limb limit if TB is three limbs below it. |
| BignumGcd.BitsLeft | IoT-benchmark/mbedtls/library/bignum.c:2057-2105 | Why: every pass takes a bit from one of the two values, and the coefficients grow by half of TB a pass. |
| BignumGcd.InvMod | IoT-benchmark/mbedtls/library/bignum.c:2029-2122 | For N > 1 an inverse in [0, N) exactly when A and N are coprime, with A*X = 1 (mod N), X being A or N allowed; N <= 1 is the bad-input error, a common factor the not-acceptable error. The limb-limit error occurs exactly when the reduction of A runs into it, for N three limbs below the limit. |
| BignumMpi.Mpi.Grow | IoT-benchmark/mbedtls/library/bignum.c:99-124 | More limbs, all zero, and the same number; the only failure is the limb limit. |
| BignumMpi.Mpi.Copy | IoT-benchmark/mbedtls/library/bignum.c:198-239 | The value is copied, the target never shrinks, the source is untouched; copying to itself and from an empty number included. |
| BignumMpi.CmpAbs | IoT-benchmark/mbedtls/library/bignum.c:783-810 | Three-way comparison of magnitudes with any number of leading zero limbs. |
| BignumMpi.CmpMpi | IoT-benchmark/mbedtls/library/bignum.c:815-845 | Three-way comparison of signed values, both zeros equal. |
| BignumMpi.AddAbs | IoT-benchmark/mbedtls/library/bignum.c:867-918 | abs(X) = abs(A) + abs(B) in place, X being A, B or both; it fails only if the sum needs more limbs than the limit. |
| BignumMpi.SubAbs | IoT-benchmark/mbedtls/library/bignum.c:923-973 | abs(A) - abs(B) in place under the same aliasing, and the negative-value error exactly when abs(A) < abs(B), with the borrow run past the subtracted limbs. |
| BignumMpi.AddSub | IoT-benchmark/mbedtls/library/bignum.c:978-1015 | X = A + B*flip for all signs and aliasings; zero keeps its positive sign. |
| BignumMpi.MulMpi | IoT-benchmark/mbedtls/library/bignum.c:1072-1125 | X = A*B in place for all signs and aliasings, zero positive; it fails only if the product needs at least the limit of limbs. |
| BignumMpi.MulRow | IoT-benchmark/mbedtls/library/bignum.c:1102-1109 | Row k of the schoolbook product has no carry out of its window of i+1 limbs. |
| BignumMpi.ShiftL | IoT-benchmark/mbedtls/library/bignum.c:721-767 | The magnitude times 2^count, in place, for any count; it fails exactly if the result needs more limbs than the object has and than the limit allows. |
| BignumMpi.CoreShiftR | IoT-benchmark/mbedtls/library/bignum_core.c:319-359 | The number divided by 2^count, in place, for any count, limbs above kept. |
| BignumBytes.ReadBe | IoT-benchmark/mbedtls/library/bignum_core.c:211-239 | The limbs denote the bytes read most significant first, through the copy into memory and the reversal of bytes and limbs; too many bytes is the error. |
| BignumBytes.ReadLe | IoT-benchmark/mbedtls/library/bignum_core.c:187-209 | The limbs denote the bytes read least significant first; too many bytes is the error. |
| BignumBytes.WriteBe | IoT-benchmark/mbedtls/library/bignum_core.c:278-317 | The big-endian digits of the number, leading zeros included, or the error exactly when it does not fit. |
| BignumBytes.WriteLe | IoT-benchmark/mbedtls/library/bignum_core.c:241-276 | The little-endian digits, or the error exactly when the number does not fit. |
| BignumBytes.ReadThenWrite | IoT-benchmark/mbedtls/library/bignum_core.c:187-317 | Reading bytes and writing as many gives the same bytes, in both orders and for every length that fits. |
| MiniGmpRecip.UmulPpmm | IoT-benchmark/mimc-gmp/mini-gmp.c:132-170 | The double-limb product from half-limb products with its one carry. |
| MiniGmpRecip.UdivQrnndPreinv | IoT-benchmark/mimc-gmp/mini-gmp.c:172-188 | The 2/1 step with a precomputed inverse gives the exact quotient and remainder. |
| MiniGmpRecip.Step32 | IoT-benchmark/mimc-gmp/mini-gmp.c:191-216 | The candidate remainder of the 3/2 step lies in a window one double limb wide whose threshold tells its sign, so the two corrections suffice. |
| MiniGmpRecip.UdivQr3by2 | IoT-benchmark/mimc-gmp/mini-gmp.c:191-216 | The 3/2 step gives the exact quotient and remainder of a three-limb number by a normalised two-limb one. |
| MiniGmpRecip.MpnInvert3by2 | IoT-benchmark/mimc-gmp/mini-gmp.c:771-876 | The inverse for every normalised high limb and every low limb, and for low limb 0 also the 2/1 inverse. |
| MiniGmpRecip.InverseClosedForm | IoT-benchmark/mimc-gmp/mini-gmp.c:766-770 | What the inverse is: floor((B^3 - 1) / D) - B. |
| MiniGmpRecip.NoExactCube | IoT-benchmark/mimc-gmp/mini-gmp.c:849-873 | A normalised divisor with a nonzero low limb does not divide B^3, which makes the strict comparison of the last correction right. |
| MiniGmpDiv.SubMul1 | IoT-benchmark/mimc-gmp/mini-gmp.c:582-605 | Multiply and subtract: window and borrow are exact. |
| MiniGmpDiv.LShift | IoT-benchmark/mimc-gmp/mini-gmp.c:645-672 | The shifted limbs and what leaves the top are exact, in place or not. |
| MiniGmpDiv.RShift | IoT-benchmark/mimc-gmp/mini-gmp.c:675-699 | The in-place right shift is floor division by the power of two. |
| MiniGmpDiv.DivQrInvert | IoT-benchmark/mimc-gmp/mini-gmp.c:920-948 | The stored normalised limbs, shift and inverse belong to the divisor, for one, two and more limbs. |
| MiniGmpDiv.DivQr1Preinv | IoT-benchmark/mimc-gmp/mini-gmp.c:953-984 | Exact division by one limb, the quotient allowed to overwrite the dividend or to have no area. |
| MiniGmpDiv.DivQr2Preinv | IoT-benchmark/mimc-gmp/mini-gmp.c:987-1028 | Exact division by two limbs, with or without an area for the quotient. |
| MiniGmpDiv.EqualTopLimb | IoT-benchmark/mimc-gmp/mini-gmp.c:1060-1065 | When the top limbs agree the quotient limb is B - 1 and the remainder in range. |
| MiniGmpDiv.AddBackResult | IoT-benchmark/mimc-gmp/mini-gmp.c:1066-1083 | After a borrow one divisor added back makes quotient limb and remainder exact. |
| MiniGmpDiv.DivQrPi1 | IoT-benchmark/mimc-gmp/mini-gmp.c:1031-1091 | The quotient loop for more than two limbs: dividend = quotient * divisor + remainder, remainder below the divisor. |
| MiniGmpDiv.MpnDivQr | IoT-benchmark/mimc-gmp/mini-gmp.c:1128-1146 | The same for every divisor with a nonzero top limb and every dividend at least as long, shifts in and out included, with the quotient stored or its area missing. |
| MiniGmpGcdExt.PhaseStep | IoT-benchmark/mimc-gmp/mini-gmp.c:2853-2886 | A subtract-and-shift step keeps both rows and the determinant 2^power, deferring the factors of two. |
| MiniGmpGcdExt.HalveCofactors | IoT-benchmark/mimc-gmp/mini-gmp.c:2892-2913 | The halving loop removes every deferred factor of two from the cofactors. |
| MiniGmpGcdExt.GcdExt | IoT-benchmark/mimc-gmp/mini-gmp.c:2760-2940 | On objects, either cofactor missing, outputs allowed to be operands: g is the gcd and s*u + t*v = g for all signed u and v. For nonzero u and v the cofactor of the argument whose odd part has more limbs, or of u, is at most half the other argument over g, strictly unless that argument is 2g, and below half its own argument over g if the other is not larger. |
| MiniGmpGcdExt.StrictBound | IoT-benchmark/mimc-gmp/mini-gmp.c:2916-2922 | Why: for any cofactors with the bound it is strict exactly if abs(v) is not 2g, and it is the bound of the comment whenever abs(v) is at most abs(u). |
| MiniGmpGcdExt.OneCofactor | IoT-benchmark/mimc-gmp/mini-gmp.c:2916-2927 | There is only one pair of cofactors with the bound of GcdExt, so the contract determines both; where the bound is reached the sign of u decides. |
| MiniGmpGcdExt.CommentBound | IoT-benchmark/mimc-gmp/mini-gmp.c:2916-2922 | For abs(u) < abs(v) the bound of the comment may hold or not: it fails for (1, 5) with s = 1 and holds for (4, 5) with s = -1. |
| MiniGmpRoot.MeanInequality | IoT-benchmark/mimc-gmp/mini-gmp.c:3159-3218 | The weighted mean inequality behind the Newton step, for all bases and exponents. |
| MiniGmpRoot.NewtonNotBelow | IoT-benchmark/mimc-gmp/mini-gmp.c:3184-3206 | The iterate never drops below the floor root. |
| MiniGmpRoot.NewtonFalls | IoT-benchmark/mimc-gmp/mini-gmp.c:3184-3206 | Above the root it falls strictly, so the loop ends. |
| MiniGmpRoot.RootRem | IoT-benchmark/mimc-gmp/mini-gmp.c:3161-3218 | On objects, either output missing and both allowed to be y: x^z <= y < (x+1)^z and r = y - x^z, mirrored for negative y with odd z; the two error cases exactly. |
| MiniGmpMpz.Mpz.Realloc | IoT-benchmark/mimc-gmp/mini-gmp.c:1442-1456 | Room for n limbs without changing the number. |
| MiniGmpLogic.TstBit | IoT-benchmark/mimc-gmp/mini-gmp.c:3630-3660 | The bit of infinite two's complement at any index, from sign and magnitude. |
| MiniGmpLogic.MpzAnd | IoT-benchmark/mimc-gmp/mini-gmp.c:3765-3834 | Every bit of the result is the conjunction of the operands' bits, for all signs and sizes and with the result overlapping an operand. |
| MiniGmpLogic.MpzIor | IoT-benchmark/mimc-gmp/mini-gmp.c:3837-3907 | The same for disjunction. |
| MiniGmpLogic.MpzXor | IoT-benchmark/mimc-gmp/mini-gmp.c:3910-3976 | The same for exclusive or. |
| MiniGmpLogic.SizeSuffices | IoT-benchmark/mimc-gmp/mini-gmp.c:3786-3797 | The number of result limbs chosen from the signs covers every bit that can differ from the result's sign. |
| MiniGmpStr.GetStrBits | IoT-benchmark/mimc-gmp/mini-gmp.c:1201-1227 | The digits of a power-of-two base, including those across limbs, fill exactly the numeral's length. |
| MiniGmpStr.GetStrOther | IoT-benchmark/mimc-gmp/mini-gmp.c:1253-1294 | The digits of any other base by groups of the largest power that fits a limb, reversed in place, fill exactly the numeral's length. |
| MiniGmpStr.SetStrBits | IoT-benchmark/mimc-gmp/mini-gmp.c:1317-1345 | The limbs denote the numeral and no more are written than its bits need. |
| MiniGmpStr.SetStrOther | IoT-benchmark/mimc-gmp/mini-gmp.c:1350-1385 | The limbs denote the numeral and no more are written than its groups. |
| MiniGmpText.SizeInBase | IoT-benchmark/mimc-gmp/mini-gmp.c:4145-4195 | The exact number of digits, in every base. |
| MiniGmpText.GetStr | IoT-benchmark/mimc-gmp/mini-gmp.c:4198-4263 | The text of the number in every supported base, or nothing for an unsupported one; no write leaves the buffer sized before. |
| MiniGmpText.SetStr | IoT-benchmark/mimc-gmp/mini-gmp.c:4266-4368 | Sign, spaces, base prefixes and digits are parsed as specified; anything else gives -1 and zero. |
| MiniGmpText.RoundTrip | IoT-benchmark/mimc-gmp/mini-gmp.c:4144-4368 | Parsing the text of a number gives the number back, for every integer, base 2 to 62 and digit case. |
| MiniGmpText.SmallDigits | IoT-benchmark/mimc-gmp/mini-gmp.c:4206-4209 | Up to base 36 the digits printed are the characters of the first constant string. |
| MiniGmpText.AllDigits | IoT-benchmark/mimc-gmp/mini-gmp.c:4205-4212 | Else they are those of the other one, capitals before small letters. |
| MiniGmpText.PrintBaseIs | IoT-benchmark/mimc-gmp/mini-gmp.c:4205-4220 | Which bases are printed, with which digits: exactly -36 to 62, of which -1, 0 and 1 are decimal. |
| MiniGmpText.PrefixedText | IoT-benchmark/mimc-gmp/mini-gmp.c:4280-4302 | Base 0: a sign, one of the prefixes 0x, 0X, 0b, 0B and 0, and digits of base 16, 2 or 8 in either case are read as that number. |
| MiniGmpText.PlainText | IoT-benchmark/mimc-gmp/mini-gmp.c:4280-4302 | Base 0 without a prefix: digits that do not start with 0 are decimal. |
| MiniGmpText.ReadIffDigits | IoT-benchmark/mimc-gmp/mini-gmp.c:4312-4335 | Digits are read if and only if every character is a space or a digit of the base. |
| Ghash.DotIsHorner | IoT-benchmark/aes/ghash.c:87-127 | The bitwise product of section 6.3 of NIST SP 800-38D equals Horner's scheme from the last bit. |
| Ghash.Last4IsMix | IoT-benchmark/aes/ghash.c:75-85 | Each constant of the reduction table is the combination of shifted reduction polynomials that its nibble selects. |
| Ghash.Times4IsTable | IoT-benchmark/aes/ghash.c:87-127 | Four multiplications by x are a shift by four and one table entry. |
| Ghash.GhashContext.FillTables | IoT-benchmark/aes/ghash.c:26-68 | The two tables hold the product of the hash key with every nibble. |
| Ghash.GhashContext.GcmMult | IoT-benchmark/aes/ghash.c:87-127 | The nibble loop over words is the product of section 6.3, output overlapping input included. |
| Ghash.GhashContext.ProcessBlock | IoT-benchmark/aes/ghash.c:129-136 | Every call extends the hashed sequence by its block. |
| Ghash.GhashContext.Finalize | IoT-benchmark/aes/ghash.c:138-141 | After any run of calls the output is GHASH of section 6.4 over the blocks fed. |
| Ghash.TimesIs | IoT-benchmark/aes/ghash.c:87-127 | Multiplication by x, bit by bit: a shift, and the bit that falls out returns at places 0, 1, 2 and 7. |
| Ghash.GHashIsSum | IoT-benchmark/aes/ghash.c:129-136 | GHASH in the closed form of section 6.4: X1*H^n + X2*H^(n-1) + ... + Xn*H. |
| Bits.FlatBits | IoT-benchmark/aes/ghash.c:18-24 | The bit string of a byte string has the most significant bit of the first byte first. |
| Words32.BmulIsProduct | IoT-benchmark/aes/polyval.c:68-89 | Masked integer multiplications give the carry-less product modulo x^32. |
| Words32.Rev32IsRev | IoT-benchmark/aes/polyval.c:55-61 | The three swaps and the rotations reverse the 32 bits. |
| Karatsuba.CombineIsDiagonals | IoT-benchmark/aes/polyval.c:104-163 | Nine products and their sums are the seven sums of word products of equal weight. |
| Karatsuba.RevDiagonal | IoT-benchmark/aes/polyval.c:104-163 | Reversed operands, reversed result, shifted by one: the high halves of the same sums. |
| Karatsuba.ProductWord | IoT-benchmark/aes/polyval.c:104-163 | The eight words of the 256-bit carry-less product. |
| Polyval.DotUnique | IoT-benchmark/aes/polyval.c:94-175 | Multiplication and division by x^128 modulo the polynomial of section 3 of RFC 8452 has one answer. |
| Polyval.DotIsDot | IoT-benchmark/aes/polyval.c:94-175 | The bit-by-bit reference function computes it. |
| Polyval.FoldStep | IoT-benchmark/aes/polyval.c:165-169 | Folding in the lowest word cancels it and divides by x^32. |
| Polyval.MulWords | IoT-benchmark/aes/polyval.c:94-175 | The eighteen-product multiplication with its fold loop is the dot operation of RFC 8452, in place. |
| Polyval.ModulusIs | IoT-benchmark/aes/polyval.c:165-169 | The modulus has the coefficients of x^0, x^121, x^126, x^127 and x^128 and no others. |
| Polyval.BlockBitsAre | IoT-benchmark/aes/polyval.c:15-21 | Bit j of byte i of a block, from the least significant, is the coefficient of x^(8i+j). |
| Polyval.PolyvalContext.ProcessBlock | IoT-benchmark/aes/polyval.c:177-189 | Every call extends the hashed sequence by its block, bytes and bits least significant first. |
| Polyval.PolyvalContext.Finalize | IoT-benchmark/aes/polyval.c:191-197 | After any run of calls the output bytes hold POLYVAL over the blocks fed, least significant bits first. |
| PolyvalGhash.DotIsGhashDot | IoT-benchmark/aes/polyval.c:94-175 | With coefficients reversed, dot(a, b) is the GHASH product of a and x*b: the two fields and their reductions agree. |
| PolyvalGhash.PolyvalIsGhash | IoT-benchmark/aes/polyval.c:177-197 | POLYVAL of blocks under a key is GHASH of the reversed blocks under x times the reversed key, reversed: Appendix A of RFC 8452. |
| PolyvalGhash.BytesReversed | IoT-benchmark/aes/polyval.c:15-43 | Reversing coefficients is reversing the bytes of a block between the two byte orders. |
| Fermat.FermatsTheorem | IoT-benchmark/mimc-gmp/mimc128_gmp.c:94-110 | x^p = x modulo a prime p, which the inverse of cubing rests on. |
| Mimc.Enc | IoT-benchmark/mimc-gmp/mimc128_gmp.c:94-110 | The loop of cubing rounds with its two key additions computes the cipher. |
| Mimc.EncryptIsChain | IoT-benchmark/mimc-gmp/mimc128_gmp.c:94-110 | All states written out: m + k first, each next the cube plus k plus its own constant, the ciphertext the last one plus k. |
| Mimc.CubeRootOfCube | IoT-benchmark/mimc-gmp/mimc128_gmp.c:98-105 | For a prime p = 2 (mod 3) the exponent (2p-1)/3 undoes cubing. |
| Mimc.Permutation | IoT-benchmark/mimc-gmp/mimc128_gmp.c:94-110 | For such a prime the cipher is a permutation of [0, p) under every key and all round constants, with the inverse rounds as its inverse. |
| Mimc.Injective | IoT-benchmark/mimc-gmp/mimc128_gmp.c:94-110 | Distinct messages have distinct ciphertexts. |
| Mimc.CodeModulus | IoT-benchmark/mimc-gmp/mimc128_gmp.c:80-82 | The code's modulus is 2^127 + 2^20 + 2^19 + 2^17 + 2^16 + 2^15 + 1, which is 2 (mod 3). |
| Xts.MulXBleIsTimesX | IoT-benchmark/mbedtls/library/aes.c:1058-1071 | The word-wise tweak update multiplies by x in the field of IEEE Std 1619-2007. |
| Xts.TimesXIs | IoT-benchmark/mbedtls/library/aes.c:1066-1067 | Multiplication by x, bit by bit: a shift, and the top bit returns at places 0, 1, 2 and 7. |
| Xts.TweakBitsAre | IoT-benchmark/mbedtls/library/aes.c:1063-1070 | Bit j of byte i of a tweak, from the least significant, is the coefficient of x^(8i+j). |
| Xts.MulXBleBit | IoT-benchmark/mbedtls/library/aes.c:1058-1071 | The update on bytes: every bit moves up by one place, and the one leaving byte 15 folds 0x87 into byte 0. |
| Xts.EncryptedBlock | IoT-benchmark/mbedtls/library/aes.c:1107-1137 | Block j of the ciphertext is e(P + T) + T under the tweak multiplied by x j times, unless left-over bytes steal from it. |
| Xts.StolenEnd | IoT-benchmark/mbedtls/library/aes.c:1139-1173 | With left-over bytes: the last two ciphertext parts of section 5.3.2 of IEEE Std 1619-2007, block for block. |
| Xts.RoundTrip | IoT-benchmark/mbedtls/library/aes.c:1076-1176 | Decryption inverts encryption for every length from one block, the stolen block and its swapped tweaks included, for every cipher with an inverse. |
| Xts.CryptXts | IoT-benchmark/mbedtls/library/aes.c:1076-1176 | The in-place tweak loop with ciphertext stealing on disjoint buffers equals the standard's encryption or decryption; the length and mode errors exactly, leaving the output alone. |
| AesStreams.RunSplit | IoT-benchmark/mbedtls/library/aes.c:1183-1321 | CFB128 and OFB: splitting the input at any byte, from any offset, changes nothing. |
| AesStreams.CfbInverse | IoT-benchmark/mbedtls/library/aes.c:1183-1243 | From the same register and offset CFB128 decryption undoes encryption and reaches the same state. |
| AesStreams.RunIsCfb | IoT-benchmark/mbedtls/library/aes.c:1183-1243 | From offset 0 the byte loop is the block-wise CFB of section 6.3 of NIST SP 800-38A with a short last block. |
| AesStreams.CfbBlock | IoT-benchmark/mbedtls/library/aes.c:1221-1236 | Every ciphertext block is its data block under the encryption of the ciphertext block before it, or of the register. |
| AesStreams.RunIsOfb | IoT-benchmark/mbedtls/library/aes.c:1289-1321 | From offset 0 the byte loop is the block-wise OFB of section 6.4. |
| AesStreams.OfbByte | IoT-benchmark/mbedtls/library/aes.c:1304-1315 | Byte i is its data byte under byte i mod 16 of the register encrypted i/16 + 1 times. |
| AesStreams.CryptCfb128 | IoT-benchmark/mbedtls/library/aes.c:1183-1243 | The call runs the byte machine and leaves register and offset for the next call; a mode other than the two and an offset above 15 are the error, which changes nothing. |
| AesStreams.CryptOfb | IoT-benchmark/mbedtls/library/aes.c:1289-1321 | The same for OFB. |
| AesStreams.IncCounter | IoT-benchmark/mbedtls/library/aes.c:1352-1354 | The byte-wise carry that stops early adds one to the 128-bit counter, modulo 2^128. |
| AesStreams.CryptCtr | IoT-benchmark/mbedtls/library/aes.c:1328-1367 | Any call continues the key stream at the position the calls before it reached: block and offset within it are those of the whole stream. |
| AesStreams.AnyCtrSplit | IoT-benchmark/mbedtls/library/aes.c:1328-1367 | From a fresh state any split of the input into calls gives the key stream of the whole: byte i under the encrypted counter plus i/16, modulo 2^128. |
| AesStreams.CtrInverse | IoT-benchmark/mbedtls/library/aes.c:1328-1367 | Counter mode undoes itself from the same position. |
| Gcm.GcmIncr | IoT-benchmark/aes/aes_gcm.c:30-36 | The early-exit byte carry is the increment of the last 32 bits modulo 2^32. |
| Gcm.PairedCtr | IoT-benchmark/aes/aes_gcm.c:70-96 | Two counters stepping by two, two blocks at a time, with the remainder, are sequential GCTR of section 6.5 of NIST SP 800-38D, for every length. |
| Gcm.GctrTwice | IoT-benchmark/aes/aes_gcm.c:70-96 | Applying the key stream twice gives the data back. |
| Gcm.CiphertextByte | IoT-benchmark/aes/aes_gcm.c:60-96 | Byte i of the ciphertext is m[i] + e(nonce, 2 + i/16)[i mod 16] with the counter in four bytes, also where it wraps. |
| Gcm.TagUnmasked | IoT-benchmark/aes/aes_gcm.c:55-68 | The tag without e(nonce, 1) is GHASH, under the encrypted zero block, of the hash input. |
| Gcm.HashInputBytes | IoT-benchmark/aes/aes_gcm.c:98-131 | The hash input: additional data, then ciphertext, each with zeros up to a block, then both bit lengths in eight bytes. |
| Gcm.FourBytesValue | IoT-benchmark/aes/aes_gcm.c:19-25 | Four counter or length bytes denote the number, the most significant first. |
| Gcm.AesGcm128Encrypt | IoT-benchmark/aes/aes_gcm.c:40-152 | Ciphertext and tag are those of GCM-AE, section 7.1, for 96-bit nonces and every length, with the counters 2 + i/16 and 1 written out; bytes past the ciphertext are kept. |
| Ccm.Context.IncrementCounter | IoT-benchmark/mbedtls/library/ccm.c:430-435 | The q-byte counter moves from block j to block j + 1. |
| Ccm.Context.Starts | IoT-benchmark/mbedtls/library/ccm.c:203-238 | Nonce lengths 7 to 13 set up counter block 1, and on a clear context the first block's prefix; after the lengths the call completes the first block, or reports a payload length that does not fit q bytes. Other nonce lengths are the error. |
| Ccm.Context.SetLengths | IoT-benchmark/mbedtls/library/ccm.c:240-265 | Legal lengths are remembered before the start, and after it move to the additional-data phase with the first block encrypted; a payload length that does not fit q bytes, and an empty tag outside CCM*, are the error. |
| Ccm.Context.UpdateAd | IoT-benchmark/mbedtls/library/ccm.c:267-338 | Any piece of additional data extends the MAC state as if it had come at once; more than announced is the error. |
| Ccm.Context.Update | IoT-benchmark/mbedtls/library/ccm.c:340-446 | Any piece of payload is encrypted or decrypted at its position and absorbed, from any offset within a block; too much input or too small an output is the error. Without a tag the key stream goes on without a length limit. |
| Ccm.Context.Finish | IoT-benchmark/mbedtls/library/ccm.c:448-483 | With everything in, the tag of the standard, which is the masked MAC, and a clear context; with data missing, the error. |
| Ccm.FinalIsCbcMac | IoT-benchmark/mbedtls/library/ccm.c:267-446 | The running state is CBC-MAC of the padded data. |
| Ccm.StateIsMac | IoT-benchmark/mbedtls/library/ccm.c:141-446 | With all data in, the state is the MAC of section 6.1 of NIST SP 800-38C with the formatting of Appendix A. |
| Ccm.MacIsChain | IoT-benchmark/mbedtls/library/ccm.c:168-200 | Any chain of states from zero, each the encryption of the one before plus a block of the formatted data, ends in the MAC; flags, lengths and padding are written out. |
| Ccm.TagIsMasked | IoT-benchmark/mbedtls/library/ccm.c:469-479 | The tag is the MAC under the encrypted block [q-1, nonce, zeros], and taking that off gives the MAC back. |
| Ccm.CtrBlockBytes | IoT-benchmark/mbedtls/library/ccm.c:215-229 | Every byte of counter block j: q - 1, the nonce, and the number j in the last q bytes. |
| Ccm.CryptByte | IoT-benchmark/mbedtls/library/ccm.c:108-133 | Byte i of the ciphertext is the payload byte under byte i mod 16 of the encrypted counter block 1 + i/16. |
| Ccm.CounterFits | IoT-benchmark/mbedtls/library/ccm.c:430-435 | Every counter a message with a tag uses fits its q bytes and is not the 0 kept for the tag. |
| Ccm.CounterReturns | IoT-benchmark/mbedtls/library/ccm.c:430-435 | Without a tag the length is free, and the counter comes back to 0 exactly at the multiples of 256^q. |
| Ccm.KeyStreamRepeats | IoT-benchmark/mbedtls/library/ccm.c:430-435 | So the key stream repeats after 256^q blocks. |
| Ccm.Context.AuthCrypt | IoT-benchmark/mbedtls/library/ccm.c:488-514 | One-shot ciphertext and tag for valid requests, CCM* without a tag included, and the error exactly for the others. |
| Ccm.Context.AuthDecrypt | IoT-benchmark/mbedtls/library/ccm.c:559-582 | The plaintext exactly when the tag is right or, in CCM*, empty; a wiped output and the authentication error otherwise. |
| Ccm.AnySplit | IoT-benchmark/mbedtls/library/ccm.c:203-483 | Any split of additional data and payload into calls, after the start and the lengths in either order, gives the one-shot ciphertext and tag, every call returning 0. |
| Ccm.RoundTrip | IoT-benchmark/mbedtls/library/ccm.c:488-582 | Decryption of an encrypted message returns 0 and recovers it, on the same context, with or without a tag. |
| ForkAead.WholeBlock | IoT-benchmark/eevee-forkskinny/espeon.c:157-191 | A whole block either way: decrypting gives the message block exactly when encrypting it gives the ciphertext block, with the checksum mixed in or not. |
| ForkAead.LastBlock | IoT-benchmark/eevee-forkskinny/jolteon_core.c:150-171 | The last block, padded or whole: padding check and ciphertext check pass with message m exactly when encryption of m gives this tag and ciphertext. |
| ForkAead.DecIffEnc | IoT-benchmark/eevee-forkskinny/jolteon_core.c:63-339 | From any checksum and any ciphertext before it, decryption returns m exactly when encryption of m gives the ciphertext and tag, for every forkcipher whose tag leg is invertible. |
| ForkAead.AbsorbAd | IoT-benchmark/eevee-forkskinny/jolteon_core.c:3-61 | The loop over the additional data and its padded last block computes the checksum. |
| ForkAead.AdIsSum | IoT-benchmark/eevee-forkskinny/jolteon_core.c:13-60 | Block by block: the checksum is the sum of every whole block's encryption under the tweak of its own number, from 0, and of the padded last block's under the last tweak. |
| ForkAead.EncIsChain | IoT-benchmark/eevee-forkskinny/jolteon_core.c:105-170 | Block by block: each ciphertext block under the tweak of the ciphertext before it, the checksum between them, and tag and last bytes from the padded last block with the checksum added. |
| ForkAead.PadBlockBytes | IoT-benchmark/eevee-forkskinny/jolteon_core.c:155-160 | The padded block: the bytes, then 0x80, then zeros. |
| ForkAead.FinishDecrypt | IoT-benchmark/eevee-forkskinny/jolteon_core.c:282-339 | The checks after the last block accept exactly the valid ones. |
| Jolteon.DecryptsIffEncrypts | IoT-benchmark/eevee-forkskinny/jolteon_core.c:63-339 | Decryption accepts with m exactly when encryption of m is accepted with this ciphertext and tag, for all lengths within the limits. |
| Jolteon.MessageCounters | IoT-benchmark/eevee-forkskinny/jolteon_core.c:105-165 | In a message within the limit no two whole blocks share a counter, and one has the counter of the last block exactly in a message of the permitted maximum, at block 32766. |
| Jolteon.LongestMessage | IoT-benchmark/eevee-forkskinny/jolteon_core.c:105-165 | That message is accepted in both instances, and its block 32766 does share the last block's counter. |
| Jolteon.AdCounters | IoT-benchmark/eevee-forkskinny/jolteon_core.c:14-45 | Within the limit no two whole blocks of additional data share a counter; one has the counter of the last block exactly at block 32764, or 32766 for padded data before a message. |
| Jolteon.LongData | IoT-benchmark/eevee-forkskinny/jolteon_core.c:14-45 | Accepted lengths of additional data at which it does. |
| Jolteon.AdLastCountersMerge | IoT-benchmark/eevee-forkskinny/jolteon_core.c:45-45 | Two last counters agree exactly when in both cases there is no message or the data is whole, or in neither. |
| Jolteon.PaddingHasItsTweak | IoT-benchmark/eevee-forkskinny/jolteon_core.c:38-46 | Padded data has a tweak other than whole data exactly if there is a message. |
| Jolteon.PaddingWithoutMessage | IoT-benchmark/eevee-forkskinny/jolteon_core.c:3-103 | Without a message, incomplete data and the same data with its padding written out are both accepted and get the same tag, for every length within the limit. |
| Jolteon.OneByteAndItsPadding | IoT-benchmark/eevee-forkskinny/jolteon_core.c:3-103 | The shortest instance: one byte of data under FORKSKINNY-64-192. |
| ForkAead.AdFromCompleted | IoT-benchmark/eevee-forkskinny/jolteon_core.c:3-61 | Under a last tweak that does not tell whole from padded, data and its completed form have one checksum, from any block and checksum on. |
| Jolteon.AdCountersApart | IoT-benchmark/eevee-forkskinny/jolteon_core.c:14-165 | Counter bytes of additional data never are those of a message block. |
| Jolteon.Enc | IoT-benchmark/eevee-forkskinny/jolteon_core.c:63-186 | Returns 1 exactly for unsupported lengths, else 0 with the ciphertext and tag of the mode. |
| Jolteon.Dec | IoT-benchmark/eevee-forkskinny/jolteon_core.c:188-339 | Returns 0 with the message or 1, exactly as the mode's decryption accepts or rejects. |
| Jolteon.AdTweakIs | IoT-benchmark/eevee-forkskinny/jolteon_core.c:14-17 | Block i of additional data is driven by key, nonce and the number (i + 4) mod 2^15, high byte first. |
| Jolteon.AdLastTweakIs | IoT-benchmark/eevee-forkskinny/jolteon_core.c:44-45 | The last one by 0 or 2. |
| Jolteon.MessageTweakIs | IoT-benchmark/eevee-forkskinny/jolteon_core.c:114-117 | Message block i by 2^15 + (i + 2) mod 2^15. |
| Jolteon.LastTweakIs | IoT-benchmark/eevee-forkskinny/jolteon_core.c:162-164 | The last one by 2^15, or 2^15 + 1 if it is padded. |
| Jolteon.AdTweakeys | IoT-benchmark/eevee-forkskinny/jolteon_core.c:13-47 | Two whole blocks of accepted additional data have different tweakeys; one has that of the last block exactly at the stated place. |
| Jolteon.MessageTweakeys | IoT-benchmark/eevee-forkskinny/jolteon_core.c:113-168 | So do two whole message blocks; one has that of the last block exactly in the longest message, at block 32766. |
| Jolteon.AdTweakeysApart | IoT-benchmark/eevee-forkskinny/jolteon_core.c:13-168 | No tweakey of additional data ever is one of a message. |
| Espeon.ChainIs | IoT-benchmark/eevee-forkskinny/espeon.c:179-187 | The bytes overwritten in the tweakey after a block are the tweak that the ciphertext so far determines, in both variants. |
| Espeon.AdCounters | IoT-benchmark/eevee-forkskinny/espeon.c:53-90 | Within the limit no two whole blocks of additional data share a counter; one has the counter of the last block exactly at block 65532, or 8 for padded data before a message. |
| Espeon.SharedCounters | IoT-benchmark/eevee-forkskinny/espeon.c:53-90 | Accepted lengths at which it does, 145 bytes among them. |
| Espeon.AdTweakIsFirst | IoT-benchmark/eevee-forkskinny/espeon.c:44-153 | The tweakey of a block of additional data is that of the first message block exactly in the 384-bit variant, under one nonce, where the counter is 4. |
| Espeon.AdTweakIsLater384 | IoT-benchmark/eevee-forkskinny/espeon.c:44-212 | In the 384-bit variant it is that of a later message block, or of the last one, exactly if the ciphertext before it spells out counter and nonce and the nonce ends in the mark of that block. |
| Espeon.AdTweakeysApart | IoT-benchmark/eevee-forkskinny/espeon.c:411-588 | In the 256-bit variant no tweakey of additional data, whole or last, ever is one of a message. |
| Espeon.AdLastCountersMerge | IoT-benchmark/eevee-forkskinny/espeon.c:87-88 | Two last counters agree exactly when in both cases there is no message or the data is whole, or in neither. |
| Espeon.PaddingHasItsTweak | IoT-benchmark/eevee-forkskinny/espeon.c:81-90 | Padded data has a tweak other than whole data exactly if there is a message, in both variants. |
| Espeon.PaddingWithoutMessage | IoT-benchmark/eevee-forkskinny/espeon.c:34-134 | Without a message, incomplete data and the same data with its padding written out are both accepted and get the same tag, in both variants. |
| Espeon.OneByteAndItsPadding | IoT-benchmark/eevee-forkskinny/espeon.c:34-134 | The shortest instance: one byte of data. |
| Espeon.DecryptsIffEncrypts | IoT-benchmark/eevee-forkskinny/espeon.c:106-741 | Decryption accepts with m exactly when encryption of m is accepted with this ciphertext and tag, for both variants and all lengths. |
| Espeon.Enc | IoT-benchmark/eevee-forkskinny/espeon.c:106-232 | Returns 1 exactly for unsupported lengths, else 0 with the ciphertext and tag, tweaks chained in place. |
| Espeon.Dec | IoT-benchmark/eevee-forkskinny/espeon.c:234-382 | Returns 0 with the message or 1, exactly as the mode's decryption accepts or rejects. |
| Espeon.AdTweakIs | IoT-benchmark/eevee-forkskinny/espeon.c:48-57 | Block i of additional data is driven by nonce, key and the number (i + 4) mod 2^16, byte for byte in both variants. |
| Espeon.AdLastTweakIs | IoT-benchmark/eevee-forkskinny/espeon.c:87-88 | The last one by 0 or 12. |
| Espeon.AdTweakeys | IoT-benchmark/eevee-forkskinny/espeon.c:53-90 | Two whole blocks of accepted additional data have different tweakeys; one has that of the last block exactly at the stated place. |
| Espeon.FirstTweakIs | IoT-benchmark/eevee-forkskinny/espeon.c:530-533 | The first message block is driven by the nonce and a constant, byte for byte in both variants. |
| Espeon.LaterTweakIs | IoT-benchmark/eevee-forkskinny/espeon.c:179-187 | Every further one by the ciphertext block before it, in the 384-bit variant also the one before that or the nonce, and the mark 1. |
| Espeon.LastTweakIs | IoT-benchmark/eevee-forkskinny/espeon.c:205-206 | The last one by the same with the mark 2, or 3 if it is padded. |
| PobcSiv.PobcMac | IoT-benchmark/aes-pobc/aes_pobc_siv.c:22-77 | The block loops over additional data and message, nonces chained through their inputs, compute the vector of the mode. |
| PobcSiv.IvIsRun | IoT-benchmark/aes-pobc/aes_pobc_siv.c:35-74 | Any run of inputs and sums over the padded additional data and then the padded message ends in the vector: nonces start at 1 followed by zeros, each next is the last input incremented, and the sum is encrypted with its first byte cleared. |
| PobcSiv.ShortIv | IoT-benchmark/aes-pobc/aes_pobc_siv.c:35-74 | The vector written out for less than a block of each. |
| PobcSiv.StartNonceIs | IoT-benchmark/aes-pobc/aes_pobc_siv.c:35-36 | The bytes of the first nonce. |
| PobcSiv.PaddedInjective | IoT-benchmark/aes-pobc/aes_pobc_siv.c:37-60 | The padding can be undone: different data never have the same padded blocks. |
| PobcSiv.AbsorbedAdds | IoT-benchmark/aes-pobc/aes_pobc_siv.c:37-60 | The blocks only add into the accumulator: what was in it before is added to the result. |
| PobcSiv.IvSymmetric | IoT-benchmark/aes-pobc/aes_pobc_siv.c:22-77 | Both passes start from one nonce, so additional data and message can change places without changing the vector. |
| PobcSiv.IvOfEqualData | IoT-benchmark/aes-pobc/aes_pobc_siv.c:22-77 | If additional data and message are equal they cancel: the vector is that of the zero block, whatever they are. |
| PobcSiv.Enc | IoT-benchmark/aes-pobc/aes_pobc_siv.c:79-107 | The vector, and counter mode from it, for every length. |
| PobcSiv.CiphertextByte | IoT-benchmark/aes-pobc/aes_pobc_siv.c:95-104 | Byte i of the ciphertext is m[i] + e(iv + i/16)[i mod 16], the sum in the last four bytes of the vector. |
| Gcm.FourBytesNumber | IoT-benchmark/aes-pobc/aes_pobc_siv.c:95-104 | The number in those four bytes. |
| PobcSiv.Dec | IoT-benchmark/aes-pobc/aes_pobc_siv.c:109-143 | 0 with the message exactly when the recomputed vector agrees, else -1 with the output wiped. |
| PobcSiv.DecryptsIffEncrypts | IoT-benchmark/aes-pobc/aes_pobc_siv.c:79-143 | Decryption accepts with m exactly when encryption of m gives this ciphertext and vector. |

## Left out

- ExpMod.ExpMod: the selected table entry is copied into new storage each time, instead of one object that grows; table entries are limb arrays without a sign.
- BignumDiv.DivStep: the dividend, divisor and temporaries of the division loop are numbers and the quotient an array of limbs; BignumMod.DivMpi puts the operands, outputs and the limb limit around it.
- BignumGcd.Gcd: its loop runs on numbers between operands and output that are objects, as that of InvMod does.
- BignumGcd.InvMod: whether a sum inside its loop runs into the limb limit is stated only for a modulus three limbs below it; for a larger one the error is allowed, not characterised.
- MiniGmpGcdExt.GcdExt: its loops run on numbers between operands and outputs that are objects, as those of MiniGmpRoot.RootRem do.
- Montgomery.CoreMontmul: masked selection and the table lookup of ExpMod.Select are read as plain selection; constant running time is not modelled.
- MiniGmpMpz.Mpz.Realloc: memory is allocated without failure; the limit on limb counts of mini-gmp is not modelled.
- MiniGmpLogic.MpzAnd: disjoint bits merged by `|` in shifts, here and elsewhere, are added.
- MiniGmpText.GetStr: the result is a character sequence instead of a buffer; digit characters are computed, not looked up in the constant strings.
- MiniGmpText.SetStr: one byte per character, without a locale.
- Xts.CryptXts: overlapping input and output are excluded.
- AesStreams.CryptCtr: buffers of input and output are separate; CFB8 and CBC are left out as easier.
- Gcm.AesGcm128Encrypt: encryption only, as the source has no decryption; lengths are not bounded by their 64-bit counters.
- Ccm.Context.Update: mode values outside the four are not specified, and lengths do not wrap at the size of `size_t`.
- Jolteon.Enc: the tweakey is rebuilt per block from key, nonce and counter instead of two bytes being overwritten; key and nonce lengths are those of the caller.
- Espeon.Enc: the two copies of the code share one model with a variant parameter.
- Mimc.Permutation: primality of the modulus is a hypothesis; for the code's constant it is not proved.
- The AES, ARIA and ForkSkinny primitives, key schedules and fixsliced circuits: abstracted.
- PPMAC, HTMAC and POBC on top of the parts above, and the plain PMAC and CBC modes.
- Inline assembly, hardware AES, clearing of memory, cipher back-end failures.
- Random numbers, primality tests, Jacobi symbols, floating point and stream input and output.
- The multi-party computation code, board setup and benchmark programs.
