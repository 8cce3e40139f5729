# Verified model of the multi-precision, key exchange, cipher, encoding and parsing code

This project states, in Dafny, what the hardest C and C++ routines of the repository compute, and proves it.
Loops, carries, buffers and in-place updates are kept as the source has them. Each method is proved against a
mathematical meaning or a small specification function, and lemmas then prove about those functions what the
routines are for. `dafny verify dfyconfig.toml` checks everything.

| area | modules | source |
|---|---|---|
| integers on 32-bit limbs | `Arith`, `Divisors`, `Limbs`, `Bignum`, `Bits`, `Shift`, `AddSub`, `Multiply`, `Divide`, `Modulo`, `Montgomery`, `ExpMod`, `BinaryGcd`, `InvMod`, `Binary`, `Radix`, `RadixText` | bignum.c |
| Diffie-Hellman with blinding | `Draws`, `BlindPairs`, `Dhm`, `DhmParams` | dhm.c |
| CBC, CFB and CTR, whole and streamed | `BlockCipher`, `Modes`, `StreamModes`, `StreamLoops`, `Padding`, `CbcStream`, `Cipher` | aes.c, cipher.c |
| CCM | `CcmSpec`, `Ccm` | ccm.c |
| JSON tokens | `JsmnSpec`, `Jsmn`, `JsmnRuns`, `JsmnTree`, `JsmnText` | jsmn.c |
| Base64 | `Base64`, `Base64Text` | base64.c |
| DER signatures | `Der` | asn1write.c, asn1parse.c, ecdsa.c |
| modem responses | `Esp8266` | esp8266.cpp |

How the model reads:

- An mpi is a class `Mpi` with the sign `s` and the limbs `p`, least significant first. `Nat` is the number that
  limbs stand for, `Val()` the signed one. `mpi_grow` replaces the buffer of an mpi, so `p` is a `seq` field that
  the methods reassign. All aliasings of the *objects* X, A, B, ... that the source permits are permitted, and the
  contracts say what happens in the ones it gets wrong.
- The block cipher is any permutation of 16-byte blocks with its inverse (`BlockCipher.Perm`, `Inverse`).
- Random sources are tapes of bytes of any content; drawing past the end is the error of the source.
- The serial line is the string still to come; a timeout is its end.
- What memory holds behind the buffer of the DER writer is a parameter: the source reads one byte of it when s is 0.
- Return codes are datatypes, and contracts give both directions: which inputs are refused and which are not.
- The specification functions follow the code. What they compute is stated a second time without them: modes block by
  block, formats octet by octet, alphabets as literal strings, JSON and Base64 by the characters of the text
  (the lemmas named `...Definition`, and the modules `Base64Text`, `RadixText` and `JsmnText`).

Where the code falls short of what its callers may expect, the code is kept and the exact condition is proved:

- Adding a number to itself in place loses carries (`AddSub.DoubledExact`).
- Dividing with the quotient stored over an operand gives wrong signs (`Divide.AliasedDivision`).
- Reducing by a divisor above 2^16 loses bits unless the divisor divides 2^32 (`Modulo.ModIntExact`).
- Reducing a number modulo a positive B into B itself never ends (`Modulo.SelfReduceTurns`), nor does inverting
  modulo 1 (`InvMod.ModulusOneTurns`).
- Exponentiation of a negative base is right only for odd exponents, and for moduli that share too little with the
  base to divide the power (`ExpMod.ExpNegative`).
- gcd(A, 0) comes out as 0 (`BinaryGcd.GcdResultExact`).
- The size asked for by the text export is one too small for some negative numbers in hexadecimal (`Radix.EstimateExact`).
- A blinding regeneration that fails can leave a pair that does not match, after which secrets are wrong: which
  draws do that is exact (`BlindPairs.MatchedAgain`, `BlindPairs.SecretExact`), and after a source of zero bytes the
  next secret is 0 (`Dhm.SecretAfterZeroDraws`).
- Reading new parameters into a used context keeps the cached R^2 of the old prime (`DhmParams.ReadParams`,
  `DhmParams.StaleCache`).
- Zero padding drops zero bytes at the end of a message (`CbcStream.ZeroPadStreamExact`).
- Some blocks without the mark pass the check of one-and-zeros padding (`Padding.OneAndZerosExact`).
- CCM accepts 0xFF00 bytes of associated data and encodes that one length otherwise than the standard
  (`CcmSpec.AssociatedExact`, `CcmSpec.AtLimit`).
- Two of the modem responses can be missed by the matcher, because it restarts at the beginning after a mismatch
  (`Esp8266.RestartExact`, `Esp8266.TableFallbacks`, `Esp8266.SwitchComplete`, `Esp8266.MissedAnswer`).
- A modem line as long as the receive buffer has its NUL written one past the end (`Esp8266.ReadSwitch`,
  `Esp8266.FullLineOverruns`).

## Model

| member | source | states |
|---|---|---|
| `AddSub.AddAbs` | polarssl/library/bignum.c:855-902 | X = abs(A) + abs(B) for every aliasing except X, A and B all the same, whose exact outcome it gives |
| `AddSub.DoubledExact` | polarssl/library/bignum.c:878-898 | X + X in place (all three operands the same object) is 2X if and only if no limb has its top bit set |
| `AddSub.DoubledCounterexample` | polarssl/library/bignum.c:878-898 | doubling 2^31 in place gives 0 |
| `AddSub.SubHlp` | polarssl/library/bignum.c:907-923 | the limb subtraction is exact and its borrow stops inside the buffer whenever the subtrahend is not larger |
| `AddSub.SubAbs` | polarssl/library/bignum.c:928-966 | X = abs(A) - abs(B) under every aliasing; refused, X untouched, exactly when abs(A) < abs(B) |
| `AddSub.AddMpi` | polarssl/library/bignum.c:971-997 | X = A + B on integers of any sign, under every aliasing but X, A, B all the same |
| `AddSub.SubMpi` | polarssl/library/bignum.c:1002-1028 | X = A - B on integers of any sign, under every aliasing |
| `AddSub.AddInt` | polarssl/library/bignum.c:1033-1044 | X = A + b for a machine integer |
| `AddSub.SubInt` | polarssl/library/bignum.c:1049-1060 | X = A - b for a machine integer |
| `Multiply.MulHlp` | polarssl/library/bignum.c:1073-1132 | the multiply-accumulate loop adds b * s at limb offset off; the final carry stays inside the buffer |
| `Multiply.MulMpi` | polarssl/library/bignum.c:1137-1169 | X = A * B on integers, under every aliasing; accumulating B's limbs from the top never carries out of the product |
| `Multiply.MulInt` | polarssl/library/bignum.c:1174-1185 | X = A * b, the machine integer being taken as unsigned |
| `Bignum.HighLimb` | polarssl/library/bignum.c:776-787 | the scan past leading zero limbs stops at the number of limbs the value needs |
| `Bignum.Mpi.Grow` | polarssl/library/bignum.c:104-131 | enlarging keeps the value and pads with zero limbs; it never shrinks |
| `Bignum.Mpi.Copy` | polarssl/library/bignum.c:174-203 | the copy has the value and the sign of Y and keeps the larger buffer |
| `Bignum.Mpi.Lset` | polarssl/library/bignum.c:284-297 | the value becomes the machine integer z and all higher limbs are cleared |
| `Bits.Msb` | polarssl/library/bignum.c:356-369 | the number of bits of the value |
| `Bits.Lsb` | polarssl/library/bignum.c:341-351 | the exponent of the largest power of two that divides a nonzero value |
| `Bits.CmpAbs` | polarssl/library/bignum.c:776-801 | the sign of abs(X) - abs(Y), whatever leading zero limbs the buffers have |
| `Bits.CmpMpi` | polarssl/library/bignum.c:806-834 | the sign of X - Y |
| `Bits.CmpInt` | polarssl/library/bignum.c:839-850 | the sign of X - z |
| `Shift.ShiftL` | polarssl/library/bignum.c:683-728 | the value times 2^count, the buffer growing when needed |
| `Shift.ShiftR` | polarssl/library/bignum.c:733-771 | the value divided by 2^count, rounded down, also when everything is shifted away |
| `Divide.TruncatedDivision` | polarssl/library/bignum.c:1187-1190 | A = QB + R with abs(R) < abs(B) and R zero or of A's sign holds of one pair only, the one the division returns |
| `Divide.EstimateDigit` | polarssl/library/bignum.c:1246-1263 | the quotient estimate from two limbs over one, in the double-width branch |
| `Divide.EstimateNotBelow` | polarssl/library/bignum.c:1246-1263 | the estimate is never below a digit that passes the three-limb test |
| `Divide.DigitPasses` | polarssl/library/bignum.c:1307-1322 | the true digit passes the test of the correction loop |
| `Divide.AtMostOneTooLarge` | polarssl/library/bignum.c:1307-1322 | what passes the test is at most one too large, although normalization only gives a top limb of at least 2^30 |
| `Divide.CorrectDigit` | polarssl/library/bignum.c:1307-1322 | the correction loop stops at or above every digit that passes the test, never below |
| `Divide.DigitBounds` | polarssl/library/bignum.c:1307-1322 | the same two bounds on the limbs of the running remainder and the divisor |
| `Divide.SubtractDigit` | polarssl/library/bignum.c:1324-1340 | one subtraction and at most one add-back leave the true digit and the true remainder |
| `Divide.LongDivision` | polarssl/library/bignum.c:1218-1341 | the whole loop leaves quotient and shifted remainder of the magnitudes |
| `Divide.DivMpi` | polarssl/library/bignum.c:1190-1359 | truncated division for all signs, in every aliasing of Q, R, A and B; refused exactly for B = 0; which signs come out when Q is an operand |
| `Divide.AliasedDivision` | polarssl/library/bignum.c:1338-1353 | storing the quotient over an operand gives the truncated quotient, and the remainder beside it, if and only if the signs read too late do not matter, in terms of the operands |
| `Modulo.ModMpi` | polarssl/library/bignum.c:1380-1398 | R = A mod B in [0, B); refused exactly for B <= 0; R may be any object but a positive B |
| `Modulo.SelfReduceTurns` | polarssl/library/bignum.c:1389-1393 | with R and B the same object the guard of the second loop holds after any number of turns |
| `Modulo.ModLoopExact` | polarssl/library/bignum.c:1432-1443 | the half-limb loop computes Nat(p) mod b for every b up to 2^16 and every divisor of 2^32 |
| `Modulo.ModLoopLoses` | polarssl/library/bignum.c:1432-1443 | for any other divisor 2^32 itself is reduced wrongly |
| `Modulo.ModIntExact` | polarssl/library/bignum.c:1403-1455 | the loop is exact on every number if and only if b <= 2^16 or b divides 2^32 |
| `Modulo.ModInt` | polarssl/library/bignum.c:1403-1455 | A mod b in [0, b) for those divisors, for negative A too; the loop's result with the sign fix for all others |
| `Montgomery.SeedInverse` | polarssl/library/bignum.c:1465-1466 | the seed is an inverse of an odd limb modulo 16 |
| `Montgomery.NewtonDoubles` | polarssl/library/bignum.c:1468-1469 | each Newton step squares the modulus up to which the inverse is right |
| `Montgomery.MontgInit` | polarssl/library/bignum.c:1460-1472 | mm * N[0] = -1 modulo 2^32 for every odd N |
| `Montgomery.RowDivisible` | polarssl/library/bignum.c:1494-1498 | the quotient digit makes the lowest limb of the running sum zero |
| `Montgomery.RunningBound` | polarssl/library/bignum.c:1477-1510 | the running sum stays below B + N, so it stays within the n + 2 limbs in use |
| `Montgomery.FinalSubtract` | polarssl/library/bignum.c:1505-1509 | one subtraction of N at most; the decoy subtraction in the other branch ends its borrow inside T |
| `Montgomery.MontMul` | polarssl/library/bignum.c:1477-1510 | A becomes A*B*R^-1 mod N, below N, for every A < R and B <= N |
| `Montgomery.MontRed` | polarssl/library/bignum.c:1515-1524 | A becomes A*R^-1 mod N |
| `ExpMod.RepMul` | polarssl/library/bignum.c:1477-1510 | the product of two Montgomery forms is the Montgomery form of the product |
| `ExpMod.BuildTable` | polarssl/library/bignum.c:1608-1631 | W[i] holds the Montgomery form of A^i for 2^(w-1) <= i < 2^w |
| `ExpMod.AppendBit` | polarssl/library/bignum.c:1670-1676 | appending a bit to the open window keeps the relation between bits read, power reached and pending bits |
| `ExpMod.ProcessBit` | polarssl/library/bignum.c:1655-1694 | one exponent bit keeps that relation in all branches: leading zero, between windows, inside, window full |
| `ExpMod.ScanExponent` | polarssl/library/bignum.c:1633-1695 | after all limbs X holds A^e with E = e * 2^nbits + pending |
| `ExpMod.Leftover` | polarssl/library/bignum.c:1697-1708 | the pending bits complete the power to A^E |
| `ExpMod.ExpModMpi` | polarssl/library/bignum.c:1529-1732 | X = A^E mod N in [0, N) for every A >= 0, E >= 0 and odd N > 0, with or without a filled cache, and the result described by `ExpMod.ExpNegative` for A < 0; refused exactly for E < 0 and for negative or even N |
| `ExpMod.ExpNegative` | polarssl/library/bignum.c:1715-1719 | for a negative base the result is A^E mod N if and only if E is odd and something is left of N when what it shares with A is divided out E times |
| `ExpMod.ExpNegativeCommon` | polarssl/library/bignum.c:1715-1719 | so for odd E it is right for every base coprime to N > 1, and for square-free N exactly when N does not divide A |
| `Divisors.PowerDivisible` | polarssl/library/bignum.c:1715-1719 | n divides a^e if and only if nothing is left of n after dividing out, e times, what it shares with a |
| `ExpMod.ExpNegativeCounterexample` | polarssl/library/bignum.c:1715-1719 | (-2)^2 mod 7 comes out as 3 |
| `BinaryGcd.GcdTurn` | polarssl/library/bignum.c:1759-1774 | one turn of the loop keeps the gcd and lowers TA + TB |
| `Divisors.GcdScale` | polarssl/library/bignum.c:1748-1755 | common factors, so the common twos removed first, come out of the gcd |
| `Divisors.GcdIsGcd` | polarssl/library/bignum.c:1734-1737 | the reference function divides both numbers and is divided by every common divisor |
| `Divisors.GcdUnique` | polarssl/library/bignum.c:1734-1737 | only one number does that |
| `BinaryGcd.GcdMpi` | polarssl/library/bignum.c:1737-1784 | G = gcd(abs(A), abs(B)) for every A and every B != 0; 0 when B = 0 |
| `BinaryGcd.GcdResultExact` | polarssl/library/bignum.c:1737-1784 | that is a greatest common divisor if and only if B != 0 or A = 0 |
| `InvMod.FixUpIsEven` | polarssl/library/bignum.c:1849-1853 | adding TB to U1 and subtracting TA from U2 makes both even when one is odd, and keeps TU = U1*TA + U2*TB |
| `InvMod.HalvedBezout` | polarssl/library/bignum.c:1855-1856 | halving the row keeps it, also for negative coefficients |
| `InvMod.HalveStep` | polarssl/library/bignum.c:1847-1856 | one inner turn halves T and keeps its row |
| `InvMod.InvTurn` | polarssl/library/bignum.c:1843-1886 | one outer turn keeps both rows, TV > 0 and coprimality, and lowers TU + TV |
| `InvMod.InvModMpi` | polarssl/library/bignum.c:1813-1903 | X in [0, N) with A*X = 1 mod N, for every N but 1; refused exactly for N <= 0 and when gcd(A, N) != 1 |
| `InvMod.ModulusOneTurns` | polarssl/library/bignum.c:1825-1858 | for N = 1 the refusal does not apply, and the guard of the first inner loop holds after any number of turns |
| `InvMod.InverseUnique` | polarssl/library/bignum.c:1810-1813 | no other number in [0, N) is an inverse |
| `InvMod.InverseNeedsCoprime` | polarssl/library/bignum.c:1825-1831 | a number with an inverse is coprime to N, so the refusal is right |
| `Binary.Size` | polarssl/library/bignum.c:374-377 | the bytes of the value: it fits in that many and in no fewer |
| `Binary.ReadBinary` | polarssl/library/bignum.c:640-658 | the big-endian number of the bytes, leading zeros skipped |
| `Binary.WriteBinary` | polarssl/library/bignum.c:663-678 | big-endian bytes padded on the left, nothing else in the buffer touched; refused exactly when too short |
| `Binary.BytesOfNat` | polarssl/library/bignum.c:640-678 | import of an export gives the number back |
| `Binary.BytesInjective` | polarssl/library/bignum.c:640-678 | export of an import of the same length gives the bytes back |
| `Binary.BytesAppend` | polarssl/library/bignum.c:640-678 | in the number of bytes those in front weigh 256 to the number of those behind |
| `Radix.GetDigit` | polarssl/library/bignum.c:382-394 | accepts exactly the digits below the radix, in both letter cases |
| `Radix.ReadString` | polarssl/library/bignum.c:399-463 | X becomes the number the text stands for, in every radix 2 to 16 and on both code paths; refused exactly for other radices and other texts |
| `Radix.DivideBy` | polarssl/library/bignum.c:1364-1375 | division by a one-limb number, in place and without a remainder, as the digit extraction uses it |
| `Radix.WriteHlp` | polarssl/library/bignum.c:468-490 | recursive digit extraction writes the digits of X, high-order first |
| `Radix.WriteString` | polarssl/library/bignum.c:495-561 | writes sign and digits (byte pairs in hexadecimal) and a NUL, and touches nothing behind them; refused exactly when slen is below the estimate, the buffer being the first slen characters of a larger memory |
| `Radix.TextMeans` | polarssl/library/bignum.c:399-561 | what is written is readable and stands for the number written: reading it gives the same value |
| `RadixText.TextDefinition` | polarssl/library/bignum.c:468-561 | the text written: the sign, and for every place the character of its digit; no needless digit, or pair of them in hexadecimal |
| `RadixText.DigitDefinition` | polarssl/library/bignum.c:382-394 | the characters that read as a digit are its place in 0-9A-F and in 0-9a-f |
| `RadixText.NumberDefinition` | polarssl/library/bignum.c:399-463 | reading, a digit weighs the radix to the number of digits behind it |
| `Radix.RoundTrip` | polarssl/library/bignum.c:399-561 | writing and then reading gives the same value, for every radix 2 to 16 and either sign, whenever the size check passes, also when the text then runs past the buffer |
| `Radix.EstimateExact` | polarssl/library/bignum.c:505-513 | the estimated size is enough if and only if the number is not one of a described family of negative hexadecimal ones |
| `Radix.EstimateTooSmall` | polarssl/library/bignum.c:505-513 | -1 in hexadecimal needs 4 characters and 3 are asked for |
| `Dhm.FillRandom` | polarssl/library/bignum.c:1793-1808 | the number of the next bytes of the source; X as it was, and nothing drawn, when the size is refused or the bytes are not there |
| `Dhm.ShrinkBelow` | polarssl/library/dhm.c:254-255 | halving stops at the first value below P |
| `Draws.PickExact` | polarssl/library/dhm.c:250-260 | with random bytes enough, a number is found if and only if one of the first eleven draws, halved below P, is in range |
| `Draws.PickedFirst` | polarssl/library/dhm.c:250-260 | and it is the first such draw, halved below P |
| `Draws.DrawAtIs` | polarssl/library/dhm.c:250-260 | the i-th draw is the i-th piece of the tape |
| `Draws.ShrunkIs` | polarssl/library/dhm.c:254-255 | halving stops at the first value below P |
| `Draws.PickedNothing` | polarssl/library/dhm.c:250-260 | with too few bytes left the number before stays, and is found if it is in range itself |
| `Dhm.CheckRange` | polarssl/library/dhm.c:98-117 | accepts exactly 2 <= param <= P - 2 |
| `BlindPairs.Unblind` | polarssl/library/dhm.c:364-382 | ((GY*Vi)^X * Vf) mod P = GY^X mod P for every matched pair |
| `BlindPairs.BlindingSquared` | polarssl/library/dhm.c:303-314 | squaring both halves modulo P keeps the pair matched |
| `BlindPairs.BlindingInverse` | polarssl/library/dhm.c:335-337 | (Vi^-1)^X mod P is the match of Vi |
| `BlindPairs.BlindingNeedsInverse` | polarssl/library/dhm.c:335-337 | only a Vi coprime to P has a match |
| `BlindPairs.MatchedAgain` | polarssl/library/dhm.c:284-341 | from a matched pair, for every tape and P, the next pair matches if and only if no regeneration fails, or one fails with a last draw d of d^X = 1 modulo P, or for an even P with a draw v of v^(X-1) = 1; every success is among these |
| `BlindPairs.SquaredAgain` | polarssl/library/dhm.c:303-314 | squaring an unmatched pair mends it if and only if the square of what it is off by is 1 |
| `BlindPairs.RunOfSquarings` | polarssl/library/dhm.c:303-314 | n calls that reuse the pair raise both halves to the power 2^n modulo P |
| `BlindPairs.SecretExact` | polarssl/library/dhm.c:364-382 | for GY coprime to P the secret is GY^X mod P if and only if the pair matches |
| `BlindPairs.ZeroDraws` | polarssl/library/dhm.c:319-333 | zero bytes from the random source leave Vi = 0, which does not match |
| `BlindPairs.EmptyDraws` | polarssl/library/dhm.c:319-333 | a source that gives nothing leaves Vi = 1, which does |
| `BlindPairs.SharedSecret` | polarssl/library/dhm.c:346-394 | (g^y)^x = (g^x)^y modulo P on the reduced values the peers hold |
| `Dhm.Context.PickBlinder` | polarssl/library/dhm.c:322-333 | the first draw above 1 after halving below P; refused exactly when the first eleven are not, whatever the twelfth gives |
| `Dhm.Context.UpdateBlinding` | polarssl/library/dhm.c:284-341 | what is in Vi and Vf after first use, squaring, regeneration and each of its three failures, from any pair and tape; from a matched pair the exact condition of a matched one afterwards, met by every success; the exact condition of success |
| `Dhm.Context.MakeKey` | polarssl/library/dhm.c:244-266 | X is the first draw in [2, P - 2] and GX = G^X mod P; refused exactly when P is 0 or even, no draw fits, or GX is out of range |
| `Dhm.Context.MakePublic` | polarssl/library/dhm.c:234-276 | the same, GX exported in olen bytes; the exact condition of success |
| `Dhm.Context.ReadPublic` | polarssl/library/dhm.c:217-229 | GY is the number of the bytes; refused exactly for an empty or too long input |
| `Dhm.Context.CalcSecret` | polarssl/library/dhm.c:346-394 | from whatever pair earlier calls have left, K, its bytes and the pair afterwards; K = GY^X mod P under a matched pair, and for GY coprime to P under no other; the exact condition of success with and without a random source |
| `Dhm.SecretAfterZeroDraws` | polarssl/library/dhm.c:346-394 | a regeneration from zero bytes is refused, and the next call succeeds with K = 0, which is not GY^X mod P |
| `DhmParams.FieldRoundTrip` | polarssl/library/dhm.c:66-87 | a length-prefixed number inside any message is read back whole if and only if it is shorter than 65536 bytes |
| `DhmParams.MpiSurvives` | polarssl/include/polarssl/bignum.h:70 | under the limit on the number of limbs that is every number |
| `DhmParams.ParamsRoundTrip` | polarssl/library/dhm.c:127-212 | what the server writes is read as the same P, G and public value, and no byte more |
| `DhmParams.MessageDefinition` | polarssl/library/dhm.c:149-205 | prime, generator and public value in this order, each behind two length bytes, high one first |
| `DhmParams.ParamsDefinition` | polarssl/library/dhm.c:127-144 | a message is read as three numbers if and only if it is of that form and the third is in range |
| `DhmParams.MakeParams` | polarssl/library/dhm.c:149-212 | key as above, output P, G and GX each with its length, len set; the exact condition of success |
| `DhmParams.ReadBignum` | polarssl/library/dhm.c:66-87 | reads exactly the vector at the cursor; where the cursor stands after a refusal |
| `DhmParams.ReadParams` | polarssl/library/dhm.c:127-144 | accepts exactly three vectors with 2 <= GY <= P - 2 and leaves their numbers in the context; the R^2 cache still fits if and only if it was empty or the new prime has the same R^2 |
| `DhmParams.StaleCache` | polarssl/library/dhm.c:127-144 | the R^2 of 7 and of 11 differ, so one cache does not serve both |
| `DhmParams.Exchange` | polarssl/library/dhm.c:127-394 | a whole exchange, both contexts blinded by their own random source: whenever no step fails both sides export the same bytes |
| `Modes.CbcSplit` | polarssl/library/aes.c:820-879 | CBC over a then b, from where a left it, is CBC over a + b |
| `Modes.CbcDefinition` | polarssl/library/aes.c:845-876 | an output is what the mode computes if and only if every block meets the ciphertext block before it (section 6.2 of NIST SP 800-38A) |
| `Modes.CbcRoundTrip` | polarssl/library/aes.c:820-879 | decryption undoes encryption and ends with the same chaining value |
| `Modes.AesCryptCbc` | polarssl/library/aes.c:820-879 | in place or between buffers, block j of the output is E(s_j xor the ciphertext block before it or the iv), and D(s_j) xor that when decrypting; iv is left as the last ciphertext block; refused exactly for a length that is not whole blocks |
| `StreamLoops.IncrementCounter` | polarssl/library/aes.c:982-985 | the carry loop adds one to the big-endian counter, wrapping at the end |
| `StreamLoops.AesCryptCfb128` | polarssl/library/aes.c:886-927 | the byte loop, in place or not and from any offset, is the CFB state machine over the input |
| `StreamLoops.AesCryptCtr` | polarssl/library/aes.c:967-996 | the byte loop is the CTR state machine over the input |
| `StreamModes.RunSplit` | polarssl/library/aes.c:886-996 | running over a and then b from where a left it is running over a + b |
| `StreamModes.RunPiecesIsRun` | polarssl/library/cipher.c:389-419 | however a message is cut, state and output are those of the whole |
| `StreamModes.RunRoundTrip` | polarssl/library/aes.c:886-996 | decryption from the same state undoes encryption and ends in the same state |
| `StreamModes.PiecesRoundTrip` | polarssl/library/cipher.c:389-419 | any cutting of what any cutting of a message encrypts to decrypts to the message |
| `StreamModes.CfbDefinition` | polarssl/library/aes.c:886-927 | every byte of block j is masked by the cipher of the ciphertext block before it or of the iv (section 6.3 of NIST SP 800-38A) |
| `StreamModes.CtrDefinition` | polarssl/library/aes.c:967-996 | every byte of block j is masked by the cipher of the j-th counter block (section 6.5 of NIST SP 800-38A) |
| `StreamModes.CounterValue` | polarssl/library/aes.c:982-985 | the j-th counter block is iv + j modulo 2^128 |
| `StreamModes.ValueFront` | polarssl/library/aes.c:982-985 | in the number of a block the first byte weighs most |
| `StreamModes.CountersDistinct` | polarssl/library/aes.c:982-985 | no counter block comes back before all 2^128 have been used |
| `Padding.PaddingRoundTrip` | polarssl/library/cipher.c:444-556 | PKCS7, one-and-zeros and zeros-and-length padding of any data, the empty one included, is accepted and gives the data length back |
| `Padding.PaddingDefinition` | polarssl/library/cipher.c:444-570 | a block is padded behind d bytes if and only if the following bytes are the numbers of the scheme: all n, 128 and zeros, zeros and n, or zeros |
| `Padding.ZeroPaddingExact` | polarssl/library/cipher.c:563-590 | zero padding gives the length back if and only if the data does not end in a zero byte |
| `Padding.AddPadding` | polarssl/library/cipher.c:444-570 | writes the padding after the data and nothing else |
| `Padding.GetPkcsPadding` | polarssl/library/cipher.c:454-477 | accepts exactly the PKCS7 paddings and gives the data length |
| `Padding.GetZerosAndLenPadding` | polarssl/library/cipher.c:534-556 | accepts exactly zeros followed by the count |
| `Padding.GetOneAndZerosPadding` | polarssl/library/cipher.c:495-516 | the length before the last nonzero byte; accepted exactly when that byte is even, some byte is 0x80 or more and the other bits are clear elsewhere |
| `Padding.OneAndZerosExact` | polarssl/library/cipher.c:495-516 | a block is accepted exactly when it is a padding, unless its last nonzero byte is not the mark, is even, has each of its bits 1 to 6 clear in some other byte, and some byte of the block is 0x80 or more |
| `Padding.ResidueExact` | polarssl/library/cipher.c:495-516 | the running mask vanishes if and only if the bytes are like that |
| `Padding.LooksPaddedBeforeZeros` | polarssl/library/cipher.c:495-516 | with a zero at the end that only takes an even last nonzero byte and some byte of 0x80 or more |
| `Padding.OddMarkRefused` | polarssl/library/cipher.c:495-516 | an odd last nonzero byte is always refused |
| `Padding.OneAndZerosLoose` | polarssl/library/cipher.c:495-516 | 82 00 is no padding and is accepted |
| `Padding.GetZerosPadding` | polarssl/library/cipher.c:572-590 | the length up to the last nonzero byte |
| `CbcStream.HoldsBack` | polarssl/library/cipher.c:310-387 | decryption holds back the last 1 to 16 bytes, encryption less than a block, and no byte is lost |
| `CbcStream.FeedTwice` | polarssl/library/cipher.c:310-387 | two calls give what one call with the concatenation gives |
| `CbcStream.FeedAllIsFeed` | polarssl/library/cipher.c:310-387 | any number of calls gives what one call gives |
| `CbcStream.EncryptStream` | polarssl/library/cipher.c:267-688 | any split, then finishing, gives CBC of the padded message (section 6.2 of NIST SP 800-38A) |
| `CbcStream.CiphertextDefinition` | polarssl/library/cipher.c:267-688 | that is the CBC of the message with those numbers behind it, block by block, and nothing else is |
| `CbcStream.DecryptStream` | polarssl/library/cipher.c:267-688 | any split of the ciphertext leaves exactly the padded last block waiting and everything before it out |
| `CbcStream.StreamRoundTrip` | polarssl/library/cipher.c:267-688 | decrypting any split of the ciphertext is accepted and returns the message, for every message and every padding scheme but zeros |
| `CbcStream.ZeroPadStreamExact` | polarssl/library/cipher.c:267-688 | with zero padding the message comes back if and only if it fills its last block or ends in a nonzero byte |
| `CbcStream.NoPaddingStream` | polarssl/library/cipher.c:267-688 | without padding, messages of whole blocks come back |
| `Cipher.Context.UpdateCbc` | polarssl/library/cipher.c:311-387 | the caching branch, in its three stages, is the specification's Feed on state and output |
| `Cipher.Context.UpdateStream` | polarssl/library/cipher.c:389-419 | the CFB and CTR branches are the state machine over the input |
| `Cipher.Context.Update` | polarssl/library/cipher.c:267-437 | both, and the exact condition of the refusal for the same buffer in and out |
| `Cipher.Context.Finish` | polarssl/library/cipher.c:611-688 | the last padded block out, or the last block decrypted and its padding checked; the exact error cases |
| `Cipher.Context.Restart` | polarssl/library/cipher.c:211-248 | a new iv and an empty cache |
| `Cipher.Context.Crypt` | polarssl/library/cipher.c:797-820 | one call is iv, reset, update and finish, between buffers or, for whole blocks, in place; refused exactly for a partial block in place |
| `Cipher.CryptRoundTrip` | polarssl/library/cipher.c:797-820 | decrypting in one call what was encrypted in one call returns the message, for every message and every padding scheme but zeros |
| `CcmSpec.BigEndianInjective` | polarssl/library/ccm.c:175-179 | the length field determines the length |
| `CcmSpec.AcceptsExactly` | polarssl/library/ccm.c:146-163 | the accepted lengths are those of section A.1 of NIST SP 800-38C with at most 0xFF00 bytes of associated data |
| `CcmSpec.AssociatedExact` | polarssl/library/ccm.c:190-218 | the associated data is encoded as section A.2.2 says if and only if it is shorter than 0xFF00 bytes, and always takes as many blocks |
| `CcmSpec.AtLimit` | polarssl/library/ccm.c:153-198 | at 0xFF00 bytes FF 00 is written where the standard writes FF FE 00 00 FF 00 |
| `CcmSpec.FormattedExact` | polarssl/library/ccm.c:168-218 | the authenticated blocks are the first block, length octets, data and payload of section A.2, in numbers, if and only if the associated data is shorter than 0xFF00 bytes |
| `CcmSpec.FirstBlockStandard` | polarssl/library/ccm.c:168-179 | a block is the first one if and only if its flags are 64 (with data) + 8 (t - 2) / 2 + (q - 1), then come the nonce and q bytes of value n (section A.2.1) |
| `CcmSpec.CounterBlockStandard` | polarssl/library/ccm.c:221-232 | a block is counter block i if and only if its flags are q - 1, then come the nonce and q bytes of value i (section A.3) |
| `CcmSpec.FormattedIs` | polarssl/library/ccm.c:168-239 | what ccm.c authenticates for every accepted length: that first block, two length octets, and both parts filled up with zeros |
| `CcmSpec.TagDefinition` | polarssl/library/ccm.c:278-285 | the tag is the first t bytes of y_n xor E(counter block 0), where y_0 = 0 and y_j+1 = E(y_j xor b_j) over those blocks |
| `CcmSpec.MacExists` | polarssl/library/ccm.c:103-108 | there are such y_j for all whole blocks |
| `CcmSpec.MaskedDefinition` | polarssl/library/ccm.c:241-276 | byte r of block j is masked by byte r of E(counter block j + 1) |
| `CcmSpec.CounterBlocksDistinct` | polarssl/library/ccm.c:125-288 | under the length check the counter blocks of a message differ from each other and from the block that masks the tag |
| `CcmSpec.FirstBlockIsNoCounter` | polarssl/library/ccm.c:125-288 | no counter block equals the first block of the MAC |
| `CcmSpec.FormatPrefixFree` | polarssl/library/ccm.c:168-218 | the authenticated blocks of one (nonce, data, tag length, message) never begin those of another (section A.2 of NIST SP 800-38C) |
| `CcmSpec.MaskTwice` | polarssl/library/ccm.c:230-276 | masking twice gives the message |
| `Ccm.MakeFirstBlock` | polarssl/library/ccm.c:146-179 | builds the block of `CcmSpec.FirstBlockStandard`; refuses exactly the lengths that do not fit q bytes |
| `Ccm.MacAssociated` | polarssl/library/ccm.c:190-218 | the MAC over the length-prefixed, zero-filled associated data |
| `Ccm.MacPhases` | polarssl/library/ccm.c:125-288 | the three phases together are one CBC-MAC over the formatted blocks |
| `Ccm.CryptLoop` | polarssl/library/ccm.c:241-276 | the loop authenticates the plaintext side and masks every piece with its own counter block, in place or not |
| `Ccm.AuthCrypt` | polarssl/library/ccm.c:125-288 | ciphertext of `CcmSpec.MaskedDefinition` and tag of `CcmSpec.TagDefinition` (section 6 of NIST SP 800-38C, with the encoding of `CcmSpec.AssociatedExact`); refused, with nothing touched, exactly for the lengths `CcmSpec.AcceptsExactly` excludes |
| `Ccm.EncryptAndTag` | polarssl/library/ccm.c:293-301 | the encrypting direction |
| `Ccm.SameTag` | polarssl/library/ccm.c:324-326 | the comparison without an early exit is equality |
| `Ccm.AuthDecrypt` | polarssl/library/ccm.c:306-335 | accepts exactly the right tag, and zeroes the output otherwise |
| `Ccm.RoundTrip` | polarssl/library/ccm.c:293-335 | encrypting in place and decrypting in place accepts and restores the buffer, whatever the inputs |
| `Base64.Encode` | polarssl/library/base64.c:80-138 | writes the text of `Base64Text.EncodedDefinition` and a NUL; the exact size refusal |
| `Base64.CheckText` | polarssl/library/base64.c:150-186 | the first pass computes the scan: valid or not, characters and pads |
| `Base64.AcceptsExactly` | polarssl/library/base64.c:150-186 | which texts are accepted, in terms of alphabet, pads and line breaks, both directions |
| `Base64.Decode` | polarssl/library/base64.c:143-220 | refuses the texts of `Base64Text.AcceptedText`'s complement and sizes too small; otherwise the bytes of `Base64Text.DecodedDefinition` |
| `Base64.RunEncoded` | polarssl/library/base64.c:200-215 | the second pass undoes the encoder |
| `Base64.RoundTrip` | polarssl/library/base64.c:80-220 | decoding the encoded message with LF or CRLF breaks put in anywhere is accepted and gives the message |
| `Base64.SecondPassFits` | polarssl/library/base64.c:188-217 | for every accepted text the second pass writes no more than the first pass asked for |
| `Base64Text.EncodedDefinition` | polarssl/library/base64.c:80-138 | character k is the alphabet of table 1 of RFC 1521 at the k-th six bits of the message, and a pad behind the last bits |
| `Base64Text.DecodedDefinition` | polarssl/library/base64.c:188-217 | byte 3g + i is byte i of the number that four characters' places in the alphabet make, a pad counting 0, on every accepted text; and how many bytes there are |
| `Base64Text.AcceptedText` | polarssl/library/base64.c:150-186 | a text is accepted if and only if it has only known characters, CR only before LF, spaces only at line ends, at most two pads and nothing of the alphabet behind one |
| `Base64Text.AcceptedValues` | polarssl/library/base64.c:150-186 | then its visible characters have values and were counted |
| `Base64Text.NeededExact` | polarssl/library/base64.c:179-186 | for whole groups the size asked for is exactly what is written |
| `Der.WriteTag` | polarssl/library/asn1write.c:77-85 | one byte before the cursor; refused exactly when there is no room |
| `Der.WriteLen` | polarssl/library/asn1write.c:44-75 | the length octets before the cursor in the short, one-byte or two-byte form; refused exactly when they do not fit |
| `Der.WriteMpi` | polarssl/library/asn1write.c:103-137 | the whole INTEGER of a number of either sign or zero before the cursor, never below start; refused exactly when it does not fit |
| `Der.ContentMinimal` | polarssl/library/asn1write.c:113-125 | the content of a positive number does not look negative and has no needless zero in front |
| `Der.ContentValue` | polarssl/library/asn1write.c:109-125 | the content bytes are the magnitude |
| `Der.SignatureToAsn1` | polarssl/library/ecdsa.c:341-360 | 30, a length, 02, a length, r, 02, a length, s and nothing more, distinguished for positive numbers; refused, with nothing copied, exactly when it is longer than the working buffer |
| `Der.SignatureDefinition` | polarssl/library/ecdsa.c:341-360 | the octets of a signature, with the shortest lengths (section 10.1 of ITU-T X.690) and the least contents |
| `Der.SignatureFits` | polarssl/library/ecdsa.c:330-336 | which holds every signature of numbers below 2^521 |
| `Der.GetLen` | polarssl/library/asn1parse.c:58-113 | reads the length octets of one to four bytes and never accepts content beyond the end |
| `Der.GetTag` | polarssl/library/asn1parse.c:115-128 | the same behind a tag byte |
| `Der.GetMpi` | polarssl/library/asn1parse.c:174-189 | the number of the content bytes; the cursor stands behind them |
| `Der.ReadInside` | polarssl/library/asn1parse.c:58-128 | no accepted header reaches past the end |
| `Der.ReadWritten` | polarssl/library/asn1parse.c:58-128 | a written element is read back whole, whatever follows it (sections 8.1.3 and 10.1 of ITU-T X.690) |
| `Der.ReadSignatureInto` | polarssl/library/ecdsa.c:406-436 | accepts a text if and only if it denotes two numbers in that layout with lengths of up to four octets, and leaves the first in R and the second in S |
| `Der.ReadDenoted` | polarssl/library/ecdsa.c:406-436 | every such text is read as those numbers, to its end |
| `Der.DenotedRead` | polarssl/library/ecdsa.c:406-436 | and what is read is such a text |
| `Der.SignatureRoundTrip` | polarssl/library/ecdsa.c:341-436 | reading a written signature gives the same two magnitudes and consumes every byte |
| `Jsmn.Parser.AllocToken` | jsmn/jsmn.c:8-21 | the next token, reset, or nothing when the array is full |
| `Jsmn.Parser.ParsePrimitive` | jsmn/jsmn.c:37-81 | a primitive up to its delimiter: token, cursor, and what a refusal leaves behind |
| `Jsmn.Parser.ParseString` | jsmn/jsmn.c:86-148 | a string with its escapes: the same |
| `Jsmn.Parser.CloseBracket` | jsmn/jsmn.c:184-229 | closes the nearest open container if it is of its kind, as `JsmnText.ClosingStep` says by the brackets, or refuses; finds the one around it |
| `Jsmn.Parser.Parse` | jsmn/jsmn.c:153-300 | on every text, array and earlier state the parser does what the specification run does, with tokens or without; `JsmnText.Verdict` says what that is for every text |
| `JsmnTree.TreeParses` | jsmn/jsmn.c:153-300 | every printed tree, with white space anywhere, yields exactly its preorder tokens with their types, spans and sizes |
| `JsmnText.Verdict` | jsmn/jsmn.c:153-300 | from the text alone: Inval at a bracket that closes nothing or the other kind, at a bad escape and at a bad character, Part at an end inside a string or with brackets open, NoMem with too little room, the count otherwise |
| `JsmnText.EveryText` | jsmn/jsmn.c:153-300 | every text is of one of these kinds, so that is the answer to every text |
| `JsmnText.ClosingStep` | jsmn/jsmn.c:184-229 | a closing bracket takes the innermost open one away if they pair, and is refused otherwise |
| `JsmnText.AcceptedHeads` | jsmn/jsmn.c:153-300 | on success the tokens are those of the items of the text, in order, with their kinds and starts |
| `JsmnText.SpansPlaced` | jsmn/jsmn.c:153-300 | on success every span has its brackets, its quotes around a valid string, or a whole bare item up to its delimiter |
| `JsmnRuns.NestingRun` | jsmn/jsmn.c:153-300 | every reachable state has its spans nested or apart and starting in order |
| `JsmnRuns.SuccessIsForest` | jsmn/jsmn.c:153-300 | after any success all spans are closed, inside the text, in order of their starts and pairwise nested or apart |
| `JsmnRuns.SettledRun` | jsmn/jsmn.c:153-300 | in every reachable state without a superior token no container is open |
| `JsmnRuns.CommaReadsNothing` | jsmn/jsmn.c:244-257 | so a comma there changes nothing but the position, whatever the token before the array looks like |
| `JsmnRuns.Resume` | jsmn/jsmn.c:153-300 | after NOMEM, going on with more room ends like a single run with that room |
| `JsmnRuns.RetryIsOneRun` | jsmn/jsmn.c:153-300 | the same over any number of retries |
| `JsmnRuns.RunMonotone` | jsmn/jsmn.c:153-300 | a run that has enough tokens is the same run with more |
| `JsmnRuns.DryRunAgrees` | jsmn/jsmn.c:153-300 | the count without tokens is the count of every successful run with them |
| `JsmnRuns.DryRunSuffices` | jsmn/jsmn.c:153-300 | and is a budget that never runs out |
| `JsmnRuns.DryRunFromFresh` | jsmn/jsmn.c:153-310 | both, for a fresh parser |
| `Esp8266.IndexSound` | esp8266/esp8266.cpp:171-189 | what the matcher has matched has just been read, for every string |
| `Esp8266.Complete` | esp8266/esp8266.cpp:171-189 | without fallbacks a string is found if and only if it occurs |
| `Esp8266.FirstUnique` | esp8266/esp8266.cpp:171-189 | a first character that does not come again is enough for that |
| `Esp8266.RestartExact` | esp8266/esp8266.cpp:171-189 | restarting at zero finds every occurrence in every stream if and only if the string has no fallbacks |
| `Esp8266.TableFallbacks` | esp8266/esp8266.cpp:33-47 | of the table's strings exactly the first two have fallbacks |
| `Esp8266.ReadUntil` | esp8266/esp8266.cpp:73-94 | what is consumed and when the answer is yes |
| `Esp8266.ReadUntilExact` | esp8266/esp8266.cpp:73-94 | for a string without fallbacks the answer is given at its first occurrence, or there is none |
| `Esp8266.ReadSwitch` | esp8266/esp8266.cpp:149-207 | which answer is reported, what is consumed, the current line in the buffer, and that the NUL behind it is inside the array if and only if the line is shorter than the array |
| `Esp8266.KeptDefinition` | esp8266/esp8266.cpp:164-200 | the line kept is what stands behind the last CR LF |
| `Esp8266.FullLineOverruns` | esp8266/esp8266.cpp:280-289 | called as the source calls it, with the whole array, a line that fills it puts the NUL past its end |
| `Esp8266.SeenOnce` | esp8266/esp8266.cpp:171-189 | of the answers seen in a stream only one can be the first and reported |
| `Esp8266.SwitchExact` | esp8266/esp8266.cpp:149-207 | the earliest end of a selected answer is reported, table order breaking ties such as SEND OK over OK |
| `Esp8266.SwitchComplete` | esp8266/esp8266.cpp:149-207 | every answer is seen when it is due, on every stream, if and only if the mask selects neither of the first two answers |
| `Esp8266.MissedAnswer` | esp8266/esp8266.cpp:149-207 | for a mask with one of them a call reports something else, or nothing, on a stream where it is due |
| `Esp8266.NoChangeMissed` | esp8266/esp8266.cpp:171-189 | a stream in which an answer occurs and is missed |

## Left out

Behaviour of the modelled routines that the model does not capture:

- Allocation failure and, outside `DhmParams`, the limit on the number of limbs: growing a buffer always succeeds.
- The raw limb buffer as an object: two mpi never share a buffer here, except that the R^2 cache of the exponentiation is copied by value where the source copies the pointer.
- Limb sizes other than 32 bits, the half-limb branch of the quotient estimate (bignum.c:1271-1303), and the unrolling of the multiply-accumulate loop, which is one loop here.
- ExpMod.ExpModMpi: X must not be N or E, both of which the source overwrites while it still reads them.
- Modulo.ModMpi: R must not be the object of a positive B; the loops then never end (`Modulo.SelfReduceTurns`).
- InvMod.InvModMpi: the modulus 1 is excluded; the source does not terminate on it (`InvMod.ModulusOneTurns`).
- Radix.WriteString: the memory behind the buffer must hold what of the text does not fit, which only the numbers of `Radix.EstimateExact` need.
- Dhm.Context.CalcSecret: X must be in [2, P - 2], as the key generation leaves it.
- DhmParams.Exchange: states agreement when no step fails, for a server whose pair matches at the start and a fresh client; the prime and the base have at most as many limbs as an mpi may have.
- The offsets that dhm.c adds to error codes, and the sign field 0 of a number cleared by memset, which is 1 here: an empty number compares the same with either.
- Cipher.Context.Update: block sizes other than 16, the ECB, GCM and stream modes, and buffers that overlap without being the same; buffers that the source takes as separate pointers into one array are separate arrays here.
- Ccm.AuthCrypt: the tag is an array of its own; callers of the source may keep it right behind the ciphertext.
- Base64.Encode: the size computations do not wrap around; the two tables are given by their ranges.
- Der.ReadWritten: contents of 65536 bytes and more, whose length the writer cuts to its low 16 bits; the signature buffer is far smaller.
- Jsmn.Parser.Parse: the strict and parent-link builds; the token before the array, which the source reads at a comma without a superior token, is not read here (`JsmnRuns.CommaReadsNothing`).
- Esp8266.ReadSwitch: characters are char values and a timeout is the end of the input, so a read that fails and later succeeds is not modelled; the match of entries that are not selected has no effect, as in the source.

Parts of the repository without a model:

- Prime generation and testing, bit access, swapping and the conditional copies of bignum.c: results depend on the random source, or the members would be easy.
- mpi_shrink, the mirror of growing, which no modelled routine calls.
- Reading and writing files, parsing of PEM and ASN.1 parameters, self tests.
- The block ciphers themselves, their key schedules and the cipher selection: the permutation is arbitrary.
- Setting keys, ivs of other lengths, authentication tags and padding modes in cipher.c.
- Elliptic-curve arithmetic, so the signature check between parsing and its result in ecdsa.c.
- The other element kinds of asn1write.c and asn1parse.c.
- Constant-time behaviour and zeroization, apart from the decoy subtraction and the clearing of rejected plaintext, which are modelled as what they write.
- The two-string and three-string readers, connection handling and all other firmware code around the modem.
