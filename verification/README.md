# Verified model of libscapi's protocols

This project models the interactive protocols of libscapi, and the arithmetic, commitment, circuit and
low-level code under them, and proves what they compute. Groups, block ciphers, key derivation, S-boxes,
coins and channels are parameters; every theorem holds for all of them.

* **Damgard-Jurik.** Encryption modulo n^(s+1) and the operations on ciphertexts for every length parameter s;
  decryption by nested passes, with the exact condition under which it returns the plaintext; the sigma
  protocols for encryptions of zero, of a known value, and of products: completeness, extraction, simulation,
  and what the verifier objects decide.
* **Discrete logarithms.** Groups of prime order as records with stated laws, discharged for the safe-prime
  groups of the library; the extended Diffie-Hellman sigma protocol (with two tuples it is the Diffie-Hellman
  protocol, with one the Schnorr protocol), conjunctions of sigma protocols nested to any depth, and the proof
  of knowledge built from them with Pedersen commitments.
* **Oblivious transfer.** The randomizer RAND with its dichotomy (a chosen pair reveals its mask, any other
  pair hides it perfectly), the full-simulation transfer, which is also the transfer over a fixed reference
  string, the privacy-only transfer and the one-sided transfer, down to the texts that are sent.
* **Commitments.** Pedersen openings, extraction and equivocation; committer and receiver objects over a FIFO
  channel under every interleaving; the ':'-separated message texts.
* **Garbled circuits.** Free-xor garbling with four-row and with row-reduced tables, with and without the layer of
  identity gates on the outputs, against plain evaluation, also by the object that evaluates plain circuits.
* **Low-level code.** AES key expansion by lane shuffles, and a counter-mode generator.

## Where the code differs from its documentation

The model follows the code. Each member named here gives the exact condition.

* The product verifier tests the gcd of c2 twice and that of c3 never (`SigmaDJProduct.DocumentationHoldsIff`).
* The encrypted-value prover overwrites n with one before converting its ciphertext; the converted ciphertext
  does not enter its messages, so honest runs are still accepted (`SigmaDJEncryptedValue.HonestRun`).
* The recovered randomness is r^(n^(s-1)) mod n, which is r exactly when r^(n^(s-1) - 1) is one
  (`SigmaDJEncryptedZero.RecoveryExactIff`).
* Decryption returns a negative representative or, from s = 3 on, a wrong value, because its passes divide by k!
  after reducing (`DamgardJurikLog.LogExact`, `DamgardJurikLog.LogRightIff`, `DamgardJurikEnc.RoundTrip`).
* `isGenerator` accepts one (`SafePrimeGroups.SafePrimeGroupValid`).
* The extended Diffie-Hellman answer can be negative when the challenge is (`SigmaDHExtended.AnswerIsResidue`),
  and then prover and simulator do not give the same answers (`SigmaDHExtended.SameAnswersIff`).
* The extended Diffie-Hellman verifier tests the g_i but not the h_i (`SigmaDHExtended.AtMostOneChallenge`).
* The proof of knowledge opens its committed challenge to as few bytes as possible, so the prover refuses honest
  challenges that need fewer than t/8 bytes (`ZeroKnowledge.HonestRun`).
* The Pedersen range checks admit the group order (`PedersenCommitment.ZeroOpensToOrder`).
* Masked bytes that are empty or contain ':' do not survive the message text, so transfers of byte arrays
  deliver only otherwise (`ObliviousTransferFullSim.TransferBytes`).
* A circuit of two parties from the constructor for two parties has one list of outputs, and compute indexes a
  second, which is undefined behaviour (`BooleanCircuits.TwoPartyRun`).
* A one-input gate is read as a negation whatever its table says (`BooleanCircuits.ReadAgreesIff`).
* The keys of a gate are shifted before they are encrypted, which drops the top bit of each 64-bit lane, so different
  keys can give the same cipher input (`GarbledCircuitObjects.FirstKeysCollideIff`).
* The four-row garbling gives the i-th input and the output of the i-th gate with a table the same zero-key
  (`GarbledCircuits.SharedZeroKey`).
* The comment of the product protocol that writes e^x1 means e*x1.
* AES_192_Key_Expansion takes the address of its pointer argument; the model gives the values it writes, not
  where they land.

## Reading guide

`Congruence`, `Coprimality` and `FermatEuler` hold the number theory. Congruence is defined by repeated
addition, so that proofs compose lemmas instead of non-linear arithmetic. `Outcomes` models exceptions.
Challenges are byte sequences; coins are arguments. `MessageTexts` and `ObliviousTransferMessages` hold what is
sent as text; in the other modules messages are values.

## Model

| member | source | states |
|---|---|---|
| DamgardJurik.Lift | src/interactive_mid_protocols/SigmaProtocolDamgardJurikProduct.cpp:311-342 | a congruence mod n lifts to the n^s-th powers mod n^(s+1); this is why the answers may be reduced mod n |
| DamgardJurik.OrderOfBase | src/mid_layer/DamgardJurikEnc.cpp:241-244 | (1+n)^(n^s) = 1 mod n^(s+1) |
| DamgardJurikBinding.OrderExact | src/mid_layer/DamgardJurikEnc.cpp:241-244 | for odd n the powers of 1+n repeat exactly with period n^s |
| DamgardJurik.EncMul | src/mid_layer/DamgardJurikEnc.cpp:520-542 | products of ciphertexts encrypt sums, with the product of the randomness; the operation add is AddOpens |
| DamgardJurikBinding.PlaintextUnique | src/mid_layer/DamgardJurikEnc.cpp:203-249 | under an RSA key every ciphertext has one plaintext mod n^s |
| DamgardJurikEnc.GenerateD | src/mid_layer/DamgardJurikEnc.cpp:78-87 | succeeds exactly on coprime arguments, and then d = 1 mod N and d = 0 mod t |
| DamgardJurikEnc.EncryptOpens | src/mid_layer/DamgardJurikEnc.cpp:203-249 | returns exactly for x in Z_N and r in Z_N'; the ciphertext is (1+n)^x r^N reduced mod N', and with a unit r opens to x |
| DamgardJurikEnc.Decrypt | src/mid_layer/DamgardJurikEnc.cpp:257-336 | the nested loops compute OuterPasses of c^d, which is LogOf(n, s, x) by LogExact; failures are those of the range check and of the exponent |
| DamgardJurikLog.TruncatedBinomial | src/mid_layer/DamgardJurikEnc.cpp:316-333 | (1+n)^x is the binomial expansion up to order j, modulo n^(j+1) |
| DamgardJurikLog.PassResult | src/mid_layer/DamgardJurikEnc.cpp:316-333 | one pass of the outer loop from any start: j! times its error is what it should subtract, less what it does, plus what its divisions lose |
| DamgardJurikLog.PassIff | src/mid_layer/DamgardJurikEnc.cpp:316-333 | so its result is right exactly when the loss makes up for that difference, for every s with gcd(n, s!) = 1 |
| DamgardJurikLog.PassRightIff | src/mid_layer/DamgardJurikEnc.cpp:325-331 | a pass that starts from a right value ends with one exactly when the weighted remainders its divisions drop sum to zero |
| DamgardJurikLog.LogRightIff | src/mid_layer/DamgardJurikEnc.cpp:316-333 | the passes give the plaintext modulo n, n^2, .., n^s exactly when nothing is lost in any of them, for every s with gcd(n, s!) = 1 |
| DamgardJurikLog.LogAtOne | src/mid_layer/DamgardJurikEnc.cpp:316-333 | at s = 1 the passes return the discrete logarithm to the base 1+n exactly |
| DamgardJurikLog.LogAtTwo | src/mid_layer/DamgardJurikEnc.cpp:316-333 | at s = 2 they return the signed remainder of LastDifference(n, x), which is x or x - n^2 |
| DamgardJurikLog.LogAtThree | src/mid_layer/DamgardJurikEnc.cpp:316-333 | at s = 3 they return x mod n^3 exactly when LossAtThree(n, x), a closed expression in n and x, is zero |
| DamgardJurikLog.LogExact | src/mid_layer/DamgardJurikEnc.cpp:316-333 | for every modulus and every s the passes return exactly LogOf(n, s, x), a number computed from n, s and x alone, sign included |
| DamgardJurikLog.LogAtThreeExact | src/mid_layer/DamgardJurikEnc.cpp:316-333 | at s = 3 that number is the signed remainder mod n^3 of LastDifferenceAtThree(n, x), a closed expression |
| DamgardJurikLog.ZeroAndOne | src/mid_layer/DamgardJurikEnc.cpp:316-333 | zero and one come back at every s |
| DamgardJurikEnc.WhichRepresentative | src/mid_layer/DamgardJurikEnc.cpp:325-331 | whenever x or x - n^s comes back, the sign of the last difference of the last pass says which |
| DamgardJurikEnc.RoundTrip | src/mid_layer/DamgardJurikEnc.cpp:203-336 | decrypting an encryption gives exactly LogOf(n, s, x): x at s = 1; x or x - n^2 by a sign at s = 2; at s = 3 one of x and x - n^3, by the sign of LastDifferenceAtThree, exactly when LossAtThree is zero; at every s with gcd(n, s!) = 1 one of x and x - n^s, by the sign of the last difference, exactly when what the earlier passes got wrong and what the last pass loses cancel mod n^s |
| DamgardJurikEnc.RepresentedAlwaysIff | src/mid_layer/DamgardJurikEnc.cpp:316-333 | that condition on the final value, whatever the earlier passes lose |
| DamgardJurikEnc.RepresentedIff | src/mid_layer/DamgardJurikEnc.cpp:325-331 | if the earlier passes lose nothing it is that the last one loses nothing |
| DamgardJurikEnc.NegativeAtTwo | src/mid_layer/DamgardJurikEnc.cpp:321-333 | under the key 15 every encryption of 6 decrypts to -219 at s = 2 |
| DamgardJurikEnc.WrongAtThree | src/mid_layer/DamgardJurikEnc.cpp:325-331 | under the key 35 no encryption of 9 decrypts to 9 modulo 35^3 at s = 3 |
| DamgardJurikEnc.ReRandomizeOpens | src/mid_layer/DamgardJurikEnc.cpp:404-438 | reRandomize keeps the plaintext and multiplies the randomness; its range checks |
| DamgardJurikEnc.AddOpens | src/mid_layer/DamgardJurikEnc.cpp:494-542 | add gives an encryption of the sum under the product of all the randomness; its range checks |
| DamgardJurikEnc.MultByConstOpens | src/mid_layer/DamgardJurikEnc.cpp:602-642 | multByConst gives an encryption of the multiple; its range checks, which admit the constant N |
| DamgardJurikEnc.OperationLaws | src/mid_layer/DamgardJurikEnc.cpp:404-642 | reRandomize, add and multByConst on any ciphertexts and any randomness, units or not: the product or power times an encryption of zero, reduced mod N' |
| DamgardJurikEnc.ReRandomizeRoundTrip | src/mid_layer/DamgardJurikEnc.cpp:203-438 | a re-randomized encryption decrypts to what the encryption itself decrypts to, at every s |
| DamgardJurikEnc.AddRoundTrip | src/mid_layer/DamgardJurikEnc.cpp:203-542 | encrypting two values, adding and decrypting gives the sum mod n^s, exactly at s = 1, up to the sign at s = 2, and then under the condition of RoundTrip |
| DamgardJurikEnc.MultRoundTrip | src/mid_layer/DamgardJurikEnc.cpp:203-642 | the same for a value, a constant up to n^s and their product mod n^s |
| SigmaDJEncryptedZero.Completeness | src/interactive_mid_protocols/SigmaProtocolDamgardJurikEncryptedZero.cpp:161-210 | for an encryption of zero the honest messages are accepted exactly when the sample is a unit |
| SigmaDJEncryptedZero.Extractor | include/interactive_mid_protocols/SigmaProtocolDamgardJurikEncryptedZero.hpp:297-302 | two accepting transcripts with one first message and coprime challenge difference give an n^s-th root of c |
| SigmaDJEncryptedZero.Simulate | src/interactive_mid_protocols/SigmaProtocolDamgardJurikEncryptedZero.cpp:57-97 | the errors of the simulator, acceptance of its transcript for unit ciphertexts and answers, and what the inverse makes of a ciphertext that is no unit |
| SigmaDJEncryptedZero.SoundnessIff | src/interactive_mid_protocols/SigmaProtocolDamgardJurikEncryptedZero.cpp:115-119 | the soundness check is the bound 2^(3t+2) <= n |
| SigmaDJEncryptedZero.CountBits | src/infra/Common.cpp:38-51 | the loop of find_log2_floor, plus one, counts the bits of n |
| SigmaDJEncryptedZero.BitsBound | src/infra/Common.cpp:38-51 | that number b is the one with 2^(b-1) <= n < 2^b |
| SigmaDJEncryptedZero.SimulatorMatchesProver | src/interactive_mid_protocols/SigmaProtocolDamgardJurikEncryptedZero.cpp:57-97 | for a true statement each unit answer comes from exactly one sample, and fixes the first message |
| SigmaDJEncryptedZero.RecoverRandomness | include/interactive_mid_protocols/SigmaProtocolDamgardJurikEncryptedZero.hpp:103-116 | succeeds exactly when n is invertible mod (p-1)(q-1) and then yields r^(n^(s-1)) mod n for every ciphertext |
| SigmaDJEncryptedZero.RecoveryExactIff | include/interactive_mid_protocols/SigmaProtocolDamgardJurikEncryptedZero.hpp:94-97 | what was recovered is r exactly when r^(n^(s-1) - 1) = 1 mod n |
| SigmaDJEncryptedZero.RecoveryExactAtOne | include/interactive_mid_protocols/SigmaProtocolDamgardJurikEncryptedZero.hpp:94-97 | so at length parameter one it is always r |
| SigmaDJEncryptedZero.RecoveryFailsAtTwo | include/interactive_mid_protocols/SigmaProtocolDamgardJurikEncryptedZero.hpp:103-116 | under the key 15 the code recovers 8 from every ciphertext made with randomness 2 at length parameter two |
| SigmaDJEncryptedZero.Prover.ComputeFirstMsg | src/interactive_mid_protocols/SigmaProtocolDamgardJurikEncryptedZero.cpp:161-187 | state and message after the first step, and the refused soundness parameter |
| SigmaDJEncryptedZero.Prover.ComputeSecondMsg | src/interactive_mid_protocols/SigmaProtocolDamgardJurikEncryptedZero.cpp:194-213 | the answer, the erased sample, and the refused challenge length |
| SigmaDJEncryptedZero.Verifier.SampleChallenge | src/interactive_mid_protocols/SigmaProtocolDamgardJurikEncryptedZero.cpp:242-250 | the challenge is the random bytes with the top bit cleared, hence not negative |
| SigmaDJEncryptedZero.Verifier.Verify | src/interactive_mid_protocols/SigmaProtocolDamgardJurikEncryptedZero.cpp:259-310 | decides exactly the documented condition and forgets the challenge |
| SigmaDJChallenges.ZeroAtMostOnce | src/interactive_mid_protocols/SigmaProtocolDamgardJurikEncryptedZero.cpp:115-119 | under the soundness check, with primes longer than a third of n, a ciphertext that is no encryption of zero is accepted for at most one challenge per first message |
| SigmaDJChallenges.ValueAtMostOnce | src/interactive_mid_protocols/SigmaProtocolDamgardJurikEncryptedZero.cpp:115-119 | the same for a ciphertext that is no encryption of the given value |
| SigmaDJChallenges.ProductAtMostOnce | src/interactive_mid_protocols/SigmaProtocolDamgardJurikEncryptedZero.cpp:115-119 | the same for three encryptions whose third plaintext is not the product of the others |
| SigmaDJEncryptedValue.Reduction | src/interactive_mid_protocols/SigmaProtocolDamgardJurikEncryptedValue.cpp:110-139 | c encrypts x with randomness r exactly when c*(1+n)^(-x) encrypts zero with r |
| SigmaDJEncryptedValue.Extractor | src/interactive_mid_protocols/SigmaProtocolDamgardJurikEncryptedValue.cpp:239-272 | the extractor of the zero protocol shows that c encrypts x |
| SigmaDJEncryptedValue.Prover.ComputeFirstMsg | src/interactive_mid_protocols/SigmaProtocolDamgardJurikEncryptedValue.cpp:147-182 | the message is that of the zero protocol; with n overwritten by one, the converted ciphertext handed on is always zero |
| SigmaDJEncryptedValue.Verifier.Verify | src/interactive_mid_protocols/SigmaProtocolDamgardJurikEncryptedValue.cpp:239-272 | decides the zero protocol on the converted ciphertext |
| SigmaDJEncryptedValue.HonestRun | src/interactive_mid_protocols/SigmaProtocolDamgardJurikEncryptedValue.cpp:147-193 | an honest run is accepted although the prover converts with the wrong modulus, because that ciphertext is never used |
| SigmaDJProduct.Prover.ComputeFirstMsg | src/interactive_mid_protocols/SigmaProtocolDamgardJurikProduct.cpp:256-305 | state and messages of the first step |
| SigmaDJProduct.Prover.ComputeSecondMsg | src/interactive_mid_protocols/SigmaProtocolDamgardJurikProduct.cpp:311-342 | the three answers and the erased samples; it throws exactly when the denominator exceeds one and shares a factor with n, and then keeps the samples |
| SigmaDJProduct.Completeness | src/interactive_mid_protocols/SigmaProtocolDamgardJurikProduct.cpp:256-342 | honest messages satisfy both equations mod n^(s+1); they are accepted exactly when z1 and rd are units |
| SigmaDJProduct.Extractor | include/interactive_mid_protocols/SigmaProtocolDamgardJurikProduct.hpp:391-415 | two accepting transcripts give an opening of c1 to x1 and show c3 = c2^x1 times an n^s-th power |
| SigmaDJProduct.ProductOpening | include/interactive_mid_protocols/SigmaProtocolDamgardJurikProduct.hpp:391-415 | if moreover c2 encrypts x2 then c3 encrypts x1*x2 |
| DamgardJurikBinding.ProductSoundness | include/interactive_mid_protocols/SigmaProtocolDamgardJurikProduct.hpp:391-415 | for any openings of the three ciphertexts, x3 = x1*x2 mod n^s |
| SigmaDJProduct.Verifier.Verify | src/interactive_mid_protocols/SigmaProtocolDamgardJurikProduct.cpp:398-454 | decides CodeAccepts, the condition the code checks, and forgets the challenge |
| SigmaDJProduct.CodeMeetsDocumentation | src/interactive_mid_protocols/SigmaProtocolDamgardJurikProduct.cpp:438-447 | for a unit c3 the condition of the code is the documented one, although it divides with modInverse |
| SigmaDJProduct.UncheckedThirdCiphertext | src/interactive_mid_protocols/SigmaProtocolDamgardJurikProduct.cpp:482-485 | the gcd of c3 is never tested, so a transcript with any c3 meets the condition of the code |
| SigmaDJProduct.DocumentationHoldsIff | src/interactive_mid_protocols/SigmaProtocolDamgardJurikProduct.cpp:479-498 | acceptance implies the documented condition exactly when c3 is a unit |
| SigmaDJProduct.HonestRun | src/interactive_mid_protocols/SigmaProtocolDamgardJurikProduct.cpp:256-454 | a whole honest run through the two objects |
| SigmaDJProductSimulator.Simulate | src/interactive_mid_protocols/SigmaProtocolDamgardJurikProduct.cpp:142-197 | the simulated first message satisfies both equations for unit ciphertexts and z3, and is accepted exactly when z1 and z2 are units; the errors |
| SigmaDJProductSimulator.SimulatorMatchesProver | src/interactive_mid_protocols/SigmaProtocolDamgardJurikProduct.cpp:142-197 | for a true statement and fixed challenge each answer (z1, z2, z3) with units z2 and z3 comes from exactly one choice of (d, rd, rdb), and fixes the first message |
| MathAlgorithms.ModInverse | src/infra/MathAlgorithms.cpp:31-43 | the exact results: one for a <= 1 or m = 1, failure exactly for a common factor, else the inverse in [1, m) |
| MathAlgorithms.ChineseRemainderTheorem | src/infra/MathAlgorithms.cpp:45-61 | succeeds exactly on pairwise coprime moduli, for any number of them, meets every congruence, and stays in range |
| MathAlgorithms.ChineseRemainderUnique | src/infra/MathAlgorithms.cpp:45-61 | solutions agree modulo the product |
| MathAlgorithms.SqrtModP34Correct | src/infra/MathAlgorithms.cpp:78-87 | both roots square to z exactly when z is a quadratic residue |
| MathAlgorithms.FirstRootIsSquare | src/infra/MathAlgorithms.cpp:78-87 | of the two roots of a square the first is itself a square, and the second is not unless z is divisible by p |
| Challenges.Decode | src/infra/Common.cpp:157-167 | the decoding loop computes little-endian two's complement |
| Challenges.DecodeRange | src/infra/Common.cpp:157-167 | the range of a decoded challenge, and its sign |
| Challenges.DecodeInjective | src/infra/Common.cpp:157-167 | different challenges of k bytes decode to integers that differ by less than 256^k and are not equal |
| Challenges.PositiveIsLow | src/interactive_mid_protocols/SigmaProtocolDamgardJurikEncryptedZero.cpp:242-250 | clearing the top bit keeps the low 8k - 1 bits of what was drawn |
| Challenges.DrawnTwice | src/interactive_mid_protocols/SigmaProtocolDamgardJurikEncryptedZero.cpp:242-250 | so each challenge that is not negative is drawn as exactly two strings |
| IntegerEncoding.EncodeBigInteger | src/infra/Common.cpp:108-131 | what the encoding loop leaves in the buffer: low bytes, their complement, or for zero the first byte only |
| IntegerEncoding.EncodeDecode | src/infra/Common.cpp:108-167 | an integer is decoded from its bytes exactly when it fits their two's complement |
| IntegerEncoding.EncodedCong | src/infra/Common.cpp:108-131 | an integer of any size but zero is written modulo 256^k |
| IntegerEncoding.BytesCount | src/infra/Common.cpp:85-106 | the counting loop gives the least number of bytes an integer fits in |
| IntegerEncoding.MinimalBytes | src/interactive_mid_protocols/CommitmentSchemePedersen.cpp:225-231 | the bytes of a committed value: as few as possible, and they decode to it |
| SafePrimeGroups.InverseOfMember | src/primitives/DlogOpenSSL.cpp:343-364 | the inverse of a member is the only residue whose product with it is one, and is a member |
| SafePrimeGroups.SafePrimeGroupValid | src/primitives/DlogOpenSSL.cpp:280-297 | the integers modulo a safe prime form a group of prime order generated by g exactly when g passes isGenerator and is not one |
| DlogGroups.GeneratorInjective | src/primitives/DlogOpenSSL.cpp:366-395 | powers of the generator agree exactly when the exponents agree modulo the order |
| DlogGroups.PowersEqual | src/primitives/DlogOpenSSL.cpp:366-395 | the same for arbitrary integer exponents of members |
| SigmaDHExtended.Completeness | src/interactive_mid_protocols/SigmaProtocolDHExtended.cpp:196-243 | honest messages are accepted for every number of tuples, sample, witness and challenge |
| SigmaDHExtended.AnswerIsResidue | src/interactive_mid_protocols/SigmaProtocolDHExtended.cpp:232-236 | the answer is (r + ew) mod q, less q exactly when the inner sum is negative |
| SigmaDHExtended.NegativeAnswer | src/interactive_mid_protocols/SigmaProtocolDHExtended.cpp:232-236 | a negative challenge that gives a negative answer |
| SigmaDHExtended.Extractor | src/interactive_mid_protocols/SigmaProtocolDHExtended.cpp:339-354 | two accepted answers with different challenges give one w with h_i = g_i^w for all i exactly when the h_i are members; otherwise there is none |
| SigmaDHExtended.AtMostOneChallenge | src/interactive_mid_protocols/SigmaProtocolDHExtended.cpp:98-103 | under 2^t < q two accepted challenges of t/8 bytes for one first message show the statement true exactly when the h_i are members, which verify does not test |
| SigmaDHExtended.UntestedTarget | src/interactive_mid_protocols/SigmaProtocolDHExtended.cpp:324-354 | without membership it fails: against h = p - g^w, which is no power of g, the messages for g^w are accepted exactly for the even challenges |
| SigmaDHExtended.SimulationAccepted | src/interactive_mid_protocols/SigmaProtocolDHExtended.cpp:105-155 | every simulated transcript is accepted |
| SigmaDHExtended.SimulatorMatchesProver | src/interactive_mid_protocols/SigmaProtocolDHExtended.cpp:105-155 | a simulated answer z has the first message of the one sample r = z - ew mod q; the prover answers z from that sample exactly when r plus the reduced ew is not negative, and from no other |
| SigmaDHExtended.SameAnswersIff | src/interactive_mid_protocols/SigmaProtocolDHExtended.cpp:232-236 | prover and simulator give the same answers, all of [0, q), exactly when the reduced ew is not negative |
| SigmaDHExtended.MinusOneMissed | src/interactive_mid_protocols/SigmaProtocolDHExtended.cpp:289-293 | with witness one and challenge minus one, which sampling admits, no sample gives the answer q - 1 |
| SigmaDHExtended.Prover.ComputeFirstMsg | src/interactive_mid_protocols/SigmaProtocolDHExtended.cpp:196-223 | state, message and the refusal of arrays of different sizes |
| SigmaDHExtended.Prover.ComputeSecondMsg | src/interactive_mid_protocols/SigmaProtocolDHExtended.cpp:225-243 | answer, erased sample and refused challenge length |
| SigmaDHExtended.Verifier.Verify | src/interactive_mid_protocols/SigmaProtocolDHExtended.cpp:295-360 | the decision, the exceptions, and that the challenge is forgotten exactly when no exception is thrown |
| SigmaDHExtended.DecisionIsDocumented | src/interactive_mid_protocols/SigmaProtocolDHExtended.cpp:295-360 | the decision is the documented condition |
| SigmaAnd.VerifyTrueIff | src/interactive_mid_protocols/SigmaProtocolAnd.cpp:191-222 | a nested conjunction accepts exactly when all numbers of inputs are right and every leaf accepts under the one challenge |
| SigmaAnd.VerifyDecides | src/interactive_mid_protocols/SigmaProtocolAnd.cpp:191-222 | on inputs of the right shape verify returns and decides |
| SigmaAnd.FirstFailure | src/interactive_mid_protocols/SigmaProtocolAnd.cpp:191-222 | a wrong number of inputs throws, and otherwise the answer is that of the first part that does not accept |
| SigmaAnd.Completeness | src/interactive_mid_protocols/SigmaProtocolAnd.cpp:48-74 | conjunctions of complete protocols, nested to any depth, are complete for the coins and challenges their members admit |
| SigmaAnd.Extractor | src/interactive_mid_protocols/SigmaProtocolAnd.cpp:191-222 | two accepted answers give witnesses for all leaves |
| SigmaAnd.SimulationAccepted | src/interactive_mid_protocols/SigmaProtocolAnd.cpp:112-145 | simulated transcripts of conjunctions are accepted for the answers and challenges their members admit |
| SigmaAndDH.LeafLawful | src/interactive_mid_protocols/SigmaProtocolAnd.cpp:36-46 | the extended Diffie-Hellman protocol meets the three laws, so every conjunction of it does |
| SigmaAndDJ.LeafLawful | src/interactive_mid_protocols/SigmaProtocolAnd.cpp:36-46 | so does the protocol for encryptions of zero, for unit samples and answers and non-negative challenges, at every length parameter |
| SigmaAndDH.Verifier.Create | src/interactive_mid_protocols/SigmaProtocolAnd.cpp:161-171 | the constructor throws exactly when a soundness parameter differs |
| SigmaAndDH.Verifier.SetChallenge | src/interactive_mid_protocols/SigmaProtocolAnd.cpp:185-189 | the one challenge reaches every member |
| SigmaAndDH.Verifier.Verify | src/interactive_mid_protocols/SigmaProtocolAnd.cpp:191-222 | short-circuit order: members after the first failure are not consulted and keep their challenge |
| SigmaAndDH.DecisionTrueIff | src/interactive_mid_protocols/SigmaProtocolAnd.cpp:216-221 | the object accepts exactly when every member meets the documented condition |
| ObliviousTransferRand.ChosenRevealed | src/interactive_mid_protocols/OT.cpp:124-144 | if (x, z) is the r-th power of (w, y) then v = u^r for all coins |
| ObliviousTransferRand.HidesIffNotChosen | src/interactive_mid_protocols/OT.cpp:124-144 | otherwise, and only otherwise, every value of v is equally likely given u: each factor is reached by a shift of the coins |
| ObliviousTransferRand.RandBijective | src/interactive_mid_protocols/OT.cpp:124-144 | on such a pair the coins in Z_q x Z_q correspond one to one to the outputs in G x G |
| ObliviousTransferFullSim.HonestPreprocess | src/interactive_mid_protocols/OTFullSimulation.cpp:107-137 | the honest values are members with exponents 1, y, alpha0 and y(alpha0 + 1), and separated |
| ObliviousTransferFullSim.StatementMeansSeparated | src/interactive_mid_protocols/OTFullSimulation.cpp:71-84 | the proven statement on (g0, g1, h0, h1/g1) says exactly h0 = g0^alpha and h1 = g1^(alpha+1) |
| ZeroKnowledge.ZeroIsShort | src/interactive_mid_protocols/ZeroKnowledge.cpp:128-150 | the zero challenge of two or more bytes needs fewer, so HonestRun refuses it |
| ObliviousTransferFullSim.HonestProofAccepted | src/interactive_mid_protocols/OTFullSimulation.cpp:130-134 | the sigma messages of the honest proof are accepted; the whole proof is ZeroKnowledge.HonestRun |
| ZeroKnowledge.PositiveChallenge | src/interactive_mid_protocols/ZeroKnowledge.cpp:176-181 | the challenge becomes its magnitude, except the one whose magnitude does not fit |
| ZeroKnowledge.HonestRun | src/interactive_mid_protocols/ZeroKnowledge.cpp:128-208 | an honest proof run between the committing verifier and the prover is accepted exactly when the magnitude of the challenge needs all its t/8 bytes; the two failures otherwise |
| ObliviousTransferFullSim.ProofSeparates | src/interactive_mid_protocols/OTFullSimulation.cpp:71-84 | two accepted answers of the proof separate the received values |
| ObliviousTransferFullSim.SenderSafe | src/interactive_mid_protocols/OTFullSimulation.cpp:63-85 | against any receiver: if two challenges of t/8 bytes make the sender's preprocess return, the values received are members and separated |
| ObliviousTransferFullSim.CheaterCaught | src/interactive_mid_protocols/OTFullSimulation.cpp:63-85 | for values that no exponent separates, any first message, key and way of answering: at most one challenge of t/8 bytes lets the preprocess return, and every other makes it throw, CheatAttempt unless the first message has no members |
| ObliviousTransferFullSim.PreprocessAgainst | src/interactive_mid_protocols/OTFullSimulation.cpp:63-85 | the same decision with the verifier object |
| ZeroKnowledge.Respond | src/interactive_mid_protocols/ZeroKnowledge.cpp:128-162 | the prover's answer to any opening: it refuses a rejected one and one that does not need t/8 bytes |
| ZeroKnowledge.Conclude | src/interactive_mid_protocols/ZeroKnowledge.cpp:187-208 | the verifier rejects a wrong trapdoor and otherwise decides as the sigma verifier |
| ObliviousTransferFullSim.TransferElements | src/interactive_mid_protocols/OTFullSimulation.cpp:186-245 | each transfer of group elements delivers x_sigma, for all inputs, coins and preprocessed values |
| ObliviousTransferFullSim.ReceiverTakes | src/interactive_mid_protocols/OTFullSimulation.cpp:417-475 | the receiver against any sender: a non-member is refused, and otherwise it takes the one x whose product with the pad is c |
| ObliviousTransferFullSim.ReceiverTakesBytes | src/interactive_mid_protocols/OTFullSimulation.cpp:492-562 | the same for byte arrays, with the error for different lengths |
| ObliviousTransferFullSim.BytesComputed | src/interactive_mid_protocols/OTFullSimulation.cpp:259-296 | on the message itself byte arrays are refused exactly for different lengths and give x_sigma otherwise |
| ObliviousTransferFullSim.TransferBytes | src/interactive_mid_protocols/OTFullSimulation.cpp:519-565 | through the text that is sent, arrays of one length deliver x_sigma exactly when both masked inputs are printable: not empty and without the byte 0x3A |
| ObliviousTransferFullSim.EmptyLost | src/interactive_mid_protocols/OT.cpp:82-110 | empty inputs are never delivered |
| ObliviousTransferFullSim.SeparatorLost | src/interactive_mid_protocols/OT.cpp:82-110 | for every length, second input, coins and keys there is a first input that is not delivered |
| ObliviousTransferFullSim.XorInPlace | src/interactive_mid_protocols/OTFullSimulation.cpp:559-561 | the masking loop |
| ObliviousTransferFullSim.TransferDelivers | src/interactive_mid_protocols/OTFullSimulation.cpp:186-296 | a transfer in either mode, through its text, delivers the chosen input exactly when the masked inputs survive |
| ObliviousTransferFullSim.Session | src/interactive_mid_protocols/OTFullSimulation.cpp:63-137 | one preprocess with its proof run between the objects, then any number of transfers in both modes: it starts exactly when the challenge is kept, and each transfer delivers exactly when its masked inputs survive |
| ObliviousTransferFullSim.SomeBranchHidden | src/interactive_mid_protocols/OTFullSimulation.cpp:186-210 | for separated values at least one branch is perfectly hidden, exactly when (g, h) is not the pair of identities |
| ObliviousTransferFullSim.AnyPair | src/interactive_mid_protocols/OTFullSimulation.cpp:186-215 | against any receiver: a pair for which the sender sends, in either mode, leaves a branch hidden unless it is the pair of identities |
| ObliviousTransferFullSim.OtherFirstInput | src/interactive_mid_protocols/OTFullSimulation.cpp:225-245 | a hidden branch: the same message could have carried any other first input |
| ObliviousTransferFullSim.OtherSecondInput | src/interactive_mid_protocols/OTFullSimulation.cpp:225-245 | the same for the second branch |
| ObliviousTransferFullSim.OtherFirstBytes | src/interactive_mid_protocols/OTFullSimulation.cpp:259-300 | the same message of byte arrays carries any other first input whose mask some member is derived to, under other coins |
| ObliviousTransferFullSim.OtherSecondBytes | src/interactive_mid_protocols/OTFullSimulation.cpp:259-300 | the same for the second input |
| ObliviousTransferFullSim.SomeBranchUniform | src/interactive_mid_protocols/OTFullSimulation.cpp:186-245 | for separated values with bases other than the identity, exactly the pairs other than the identities leave a branch whose message is uniform on G x G whatever its input |
| ObliviousTransferPrivacyOnly.HonestAdmissible | src/interactive_mid_protocols/OTPrivacyOnly.cpp:121-138 | the sender's check passes exactly when gamma differs from alpha*beta modulo the order |
| ObliviousTransferPrivacyOnly.HonestTuple | src/interactive_mid_protocols/OTPrivacyOnly.cpp:249-280 | the exponents of the receiver's tuple: alpha, beta, alpha*beta in the chosen place and gamma in the other |
| ObliviousTransferPrivacyOnly.Transfer | src/interactive_mid_protocols/OTPrivacyOnly.cpp:25-62 | a whole transfer delivers x_sigma, or is refused exactly when gamma = alpha*beta |
| ObliviousTransferPrivacyOnly.TransferBytes | src/interactive_mid_protocols/OTPrivacyOnly.cpp:200-237 | a whole transfer of byte arrays through its text: the two refusals, and delivery exactly when both masked inputs are printable |
| ObliviousTransferPrivacyOnly.ReceiverTakes | src/interactive_mid_protocols/OTPrivacyOnly.cpp:385-450 | the receiver against any sender: a non-member is a cheat, and otherwise it takes the one x whose product with the pad is c |
| ObliviousTransferPrivacyOnly.ReceiverTakesBytes | src/interactive_mid_protocols/OTPrivacyOnly.cpp:462-530 | the same for byte arrays |
| ObliviousTransferPrivacyOnly.SomeBranchHidden | src/interactive_mid_protocols/OTPrivacyOnly.cpp:121-138 | every tuple that passes the check leaves at least one input perfectly hidden |
| ObliviousTransferPrivacyOnly.AnyTuple | src/interactive_mid_protocols/OTPrivacyOnly.cpp:27-62 | against any receiver: a tuple for which the sender sends, in either mode, leaves an input hidden |
| ObliviousTransferPrivacyOnly.OtherInput | src/interactive_mid_protocols/OTPrivacyOnly.cpp:166-190 | with a branch hidden the same message carries any other input there, under other coins |
| ObliviousTransferPrivacyOnly.OtherBytes | src/interactive_mid_protocols/OTPrivacyOnly.cpp:200-237 | the same for byte arrays whose mask some member is derived to |
| ObliviousTransferPrivacyOnly.SomeBranchUniform | src/interactive_mid_protocols/OTPrivacyOnly.cpp:121-138 | and then the message of one branch is uniform on G x G whatever its input |
| ObliviousTransferPrivacyOnly.HiddenIff | src/interactive_mid_protocols/OTOneSidedSimulation.cpp:79-100 | with x = g^alpha known, a branch is hidden exactly when its z is not y^alpha |
| ObliviousTransferPrivacyOnly.ProofDecides | src/interactive_mid_protocols/OTOneSidedSimulation.cpp:55-64 | two accepted answers of the one-sided protocol's proof give that alpha |
| ObliviousTransferPrivacyOnly.OneAnswer | src/interactive_mid_protocols/OTOneSidedSimulation.cpp:55-64 | for each first message and challenge the proof is accepted for exactly one answer modulo the order, and with the trapdoor |
| ObliviousTransferPrivacyOnly.OneSidedSendsIff | src/interactive_mid_protocols/OTOneSidedSimulation.cpp:136-200 | the one-sided sender against any receiver: it sends byte arrays exactly after an accepted proof, for an admissible tuple and inputs of one length |
| ObliviousTransferPrivacyOnly.OneSidedSendsElementsIff | src/interactive_mid_protocols/OTOneSidedSimulation.cpp:136-200 | the same for group elements |
| ObliviousTransferPrivacyOnly.OneSided | src/interactive_mid_protocols/OTOneSidedSimulation.cpp:136-200 | an honest one-sided transfer of byte arrays, with its proof run between the objects: when it throws, and exactly when it delivers |
| PedersenCommitment.HonestOpens | src/interactive_mid_protocols/CommitmentSchemePedersen.cpp:172-198 | a generated commitment opens to its value |
| PedersenCommitment.GenerateLaw | src/interactive_mid_protocols/CommitmentSchemePedersen.cpp:172-198 | a commitment is made exactly for value and randomness in the admitted range, with exponent r + ax |
| PedersenCommitment.DecommitmentLaw | src/interactive_mid_protocols/CommitmentSchemePedersen.cpp:90-119 | for a member c of exponent l: the value x exactly when 0 <= x <= q and l = r + ax mod q, and a rejection for every other opening; the error for a non-member |
| PedersenCommitment.ExtractTrapdoor | src/interactive_mid_protocols/CommitmentSchemePedersen.cpp:90-119 | two different values accepted for one commitment, whatever was shown, give a trapdoor that validate accepts, unless they are zero and the order |
| PedersenCommitment.ZeroOpensToOrder | src/interactive_mid_protocols/CommitmentSchemePedersen.cpp:103-105 | the range check admits the order, so a commitment opens to zero exactly when it opens to the order |
| PedersenCommitment.Equivocation | include/interactive_mid_protocols/CommitmentSchemePedersenTrapdoor.hpp:68-75 | with the trapdoor each value has exactly one randomness in Z_q that opens the commitment |
| PedersenCommitment.PerfectlyHiding | src/interactive_mid_protocols/CommitmentSchemePedersen.cpp:186-189 | every member is a commitment to every value, with exactly one randomness |
| CommitmentProtocol.Committer.Commit | include/interactive_mid_protocols/CommitmentScheme.hpp:374-383 | stored before sending; a failed send removes the id and sends nothing |
| CommitmentProtocol.Committer.Decommit | include/interactive_mid_protocols/CommitmentScheme.hpp:423-428 | sends the stored opening and changes nothing else; a write that throws is passed on |
| CommitmentProtocol.Receiver.ReceiveCommitment | src/interactive_mid_protocols/CommitmentSchemePedersen.cpp:66-78 | stores the commitment under its id |
| CommitmentProtocol.Receiver.ReceiveDecommitment | src/interactive_mid_protocols/CommitmentSchemePedersen.cpp:80-119 | answers with the value exactly when the opening matches the commitment stored under the id, and rejects otherwise |
| CommitmentProtocol.StepKeepsInvariant | include/interactive_mid_protocols/CommitmentScheme.hpp:314-428 | every step, also of a committer that shows other openings than it stored, keeps the agreement of the maps with the channel and judges each delivered opening by the commitment under its id |
| CommitmentProtocol.RunKeepsInvariant | include/interactive_mid_protocols/CommitmentScheme.hpp:314-428 | the same over every interleaving, with the commitment first sent under each id |
| CommitmentProtocol.StoredIsAccepted | include/interactive_mid_protocols/CommitmentScheme.hpp:314-428 | an opening that was stored is accepted with its value |
| CommitmentProtocol.RunBinds | include/interactive_mid_protocols/CommitmentScheme.hpp:314-428 | if a run accepts two different values under one id, what was shown gives the trapdoor, unless they are zero and the order |
| CommitmentProtocol.Drains | include/interactive_mid_protocols/CommitmentScheme.hpp:314-428 | from every reachable state deliveries alone empty the channel; then both maps hold the same commitments and the pending openings are judged in order |
| CommitmentProtocol.Execute | include/interactive_mid_protocols/CommitmentScheme.hpp:314-428 | the objects follow the step system on every runnable list of events, cheating ones included; each opening is answered with its value exactly when it matches, and stored ones are accepted |
| MessageTexts.Explode | src/infra/Common.cpp:141-154 | the loop computes the non-empty pieces |
| MessageTexts.ExplodeJoin | src/infra/Common.cpp:141-154 | a list of fields survives printing and exploding exactly when every field is non-empty and free of ':' |
| MessageTexts.DecimalRoundTrip | include/interactive_mid_protocols/CommitmentSchemePedersen.hpp:61-72 | every integer, negative ones included, is read back from its text |
| MessageTexts.DecimalLaw | include/interactive_mid_protocols/CommitmentSchemePedersen.hpp:61-72 | a number is read exactly from digits with or without a minus, as their positional value |
| MessageTexts.CommitmentLaw | include/interactive_mid_protocols/CommitmentSchemePedersen.hpp:61-72 | any text with two fields or more and a number in front is read: the id and one field, or two when there are three in all |
| MessageTexts.CommitmentRoundTrip | include/interactive_mid_protocols/CommitmentSchemePedersen.hpp:61-72 | a Pedersen commitment message is read back exactly when its element text has one or two proper fields |
| MessageTexts.OpeningRoundTrip | include/interactive_mid_protocols/CommitmentSchemePedersen.hpp:99-105 | every Pedersen opening is read back |
| MessageTexts.ParseElGamalCommitment | include/interactive_mid_protocols/CommitmentSchemeElGamal.hpp:103-112 | the reassembly loop: id and remaining fields, each followed by ':' |
| MessageTexts.ElGamalCommitmentRoundTrip | include/interactive_mid_protocols/CommitmentSchemeElGamal.hpp:103-113 | an ElGamal commitment of any number of proper fields comes back with exactly one ':' added |
| MessageTexts.ElGamalOpeningRoundTrip | include/interactive_mid_protocols/CommitmentSchemeElGamal.hpp:153-164 | an ElGamal opening is read back exactly when its value has one or two proper fields |
| MessageTexts.ElGamalOpeningLaw | include/interactive_mid_protocols/CommitmentSchemeElGamal.hpp:153-164 | any text: two or three fields are read, and with any other number nothing is read and nothing thrown |
| MessageTexts.FieldsAppend | src/infra/Common.cpp:141-154 | exploding two texts joined by ':' explodes each |
| MessageTexts.ByteMsgRoundTrip | src/interactive_mid_protocols/OT.cpp:82-110 | the byte-array message survives exactly when both masked inputs are non-empty and free of ':', for elements of one coordinate and of two |
| MessageTexts.ElementMsgRoundTrip | src/interactive_mid_protocols/OT.cpp:54-80 | the message of group elements always survives |
| MessageTexts.ByteMsgLaw | src/interactive_mid_protocols/OT.cpp:82-110 | any text is read exactly with four or six fields, and what is read prints to the same fields |
| MessageTexts.ElementMsgLaw | src/interactive_mid_protocols/OT.cpp:54-80 | any text is read exactly with four or eight fields, and what is read prints to the same fields |
| ObliviousTransferMessages.BytesRoundTrip | src/interactive_mid_protocols/OT.cpp:82-110 | a message of byte arrays of one length is read as itself exactly when both are printable, and otherwise never as one with arrays of that length |
| ObliviousTransferMessages.DecimalCodecValid | include/primitives/Dlog.hpp:517-530 | the decimal texts of Zp elements meet the laws the transfers ask of texts |
| GarbledCircuits.GateCorrect | src/circuits/GarbledBooleanCircuitFixedKey.cpp:82-142 | evaluating a gate on the keys for two values gives the output key for the truth-table value |
| GarbledCircuits.FirstRowZero | src/circuits/RowReductionGarbledBooleanCircuit.cpp:241-250 | row reduction makes the first row zero, so leaving it out changes nothing |
| GarbledCircuits.EvaluationCarries | src/circuits/GarbledBooleanCircuitFixedKey.cpp:70-142 | after any number of gates each defined wire holds exactly the key of its plain value, in both schemes |
| GarbledCircuits.OutputsCorrect | src/circuits/GarbledBooleanCircuitFixedKey.cpp:145-157 | output keys are those of the plain values, and translate to them |
| GarbledCircuits.IdentityCorrect | src/circuits/GarbledBooleanCircuitFixedKey.cpp:257-306 | an identity gate of the optional layer without fixed difference takes the key of a value to the new key of that value, and the new zero-key translates it |
| GarbledCircuits.NewKeysDrawn | src/circuits/GarbledBooleanCircuitFixedKey.cpp:262-274 | one of the new keys is the old zero-key, by its signal bit, and the other is drawn from the seed but for its first byte |
| GarbledCircuits.FinalKeyCorrect | src/circuits/GarbledBooleanCircuitFixedKey.cpp:145-190 | with and without the layer evaluation ends with the one of the two output keys that stands for the value |
| GarbledCircuitObjects.GarbledBooleanCircuit.GarbleOutputs | src/circuits/GarbledBooleanCircuitFixedKey.cpp:237-309 | the layer's rows behind the tables of the gates, with the tables themselves unchanged, and the two new keys of every output |
| GarbledCircuitObjects.GarbledBooleanCircuit.ReadOutputs | src/circuits/GarbledBooleanCircuitFixedKey.cpp:145-190 | the layer evaluated from the stored rows, or the output keys copied |
| GarbledCircuitObjects.GarbledBooleanCircuit.InitKeys | src/circuits/FreeXorGarbledBooleanCircuit.cpp:279-310 | input keys, the difference with signal bit one, and wire -1 |
| GarbledCircuitObjects.GarbledBooleanCircuit.GarbleFreeXor | src/circuits/FreeXorGarbledBooleanCircuit.cpp:128-277 | zero-keys, tables, output keys and translation table of the four-row garbling |
| GarbledCircuits.SharedZeroKey | src/circuits/FreeXorGarbledBooleanCircuit.cpp:199-210 | with four rows the output wire of the i-th gate with a table gets the zero-key of the i-th input |
| GarbledCircuitObjects.GarbledBooleanCircuit.GarbleRowReduction | src/circuits/RowReductionGarbledBooleanCircuit.cpp:132-285 | the same for the three-row garbling |
| GarbledCircuitObjects.GarbledBooleanCircuit.Compute | src/circuits/GarbledBooleanCircuitFixedKey.cpp:70-160 | the evaluation loops compute Evaluate, and then the final key of every output |
| GarbledCircuitObjects.GarbledBooleanCircuit.Translate | src/circuits/GarbledBooleanCircuit.cpp:221-234 | signal bits xored with the translation table |
| GarbledCircuitObjects.Run | src/circuits/GarbledBooleanCircuit.cpp:130-149 | garble, compute and translate return the plain outputs for every circuit, input and seed, with and without the layer, on a used object too; the input keys are those of the seed, and the computed keys those of the answer |
| GarbledCircuitObjects.RunFixedKey | src/circuits/GarbledBooleanCircuitFixedKey.cpp:40-188 | the same with masks and keys drawn from a block cipher under the fixed key and under the seed, as the code draws them |
| GarbledCircuitObjects.GateKeyBit | src/circuits/GarbledBooleanCircuitFixedKey.cpp:97-112 | each bit of a gate's cipher input: the neighbours in the two keys and the bit of the gate number |
| GarbledCircuitObjects.OutputKeyBit | src/circuits/GarbledBooleanCircuitFixedKey.cpp:167-171 | the same for the identity gates |
| Blocks.DigitIsBit | src/circuits/GarbledBooleanCircuitFixedKey.cpp:108-109 | bit i of a gate number is (n / 2^i) mod 2 |
| GarbledCircuitObjects.SameInputIff | src/circuits/GarbledBooleanCircuitFixedKey.cpp:97-112 | two gates have the same cipher input exactly when the shifted differences of their keys make up for the difference of their numbers |
| GarbledCircuitObjects.FirstKeysCollideIff | src/circuits/GarbledBooleanCircuitFixedKey.cpp:97-99 | for one gate and second key, first keys give the same cipher input exactly when they agree but for the top bit of each lane |
| GarbledCircuitObjects.TopBitLost | src/circuits/GarbledBooleanCircuitFixedKey.cpp:97-99 | so keys that differ only there always collide |
| GarbledCircuitObjects.GateNumbersApart | src/circuits/GarbledBooleanCircuitFixedKey.cpp:106-109 | under the same keys gates with different numbers below 2^32 have different cipher inputs |
| GarbledCircuitObjects.MaskIsEncryption | src/circuits/GarbledBooleanCircuitFixedKey.cpp:121-133 | a mask with its cipher input xored away is the encryption of that input |
| BooleanCircuits.CalculateIndex | src/circuits/BooleanCircuits.cpp:82-95 | the loop reads the inputs as a binary number, first input highest |
| BooleanCircuits.RowBits | src/circuits/BooleanCircuits.cpp:82-95 | input i is bit n - 1 - i of that number, for any number of inputs |
| BooleanCircuits.GateOutputs | src/circuits/BooleanCircuits.cpp:33-43 | a gate of any number of inputs and outputs sets every output to the entry of its table in that row and keeps all other wires; it throws exactly without such a row |
| BooleanCircuits.BooleanCircuit.SetInputs | src/circuits/BooleanCircuits.cpp:195-213 | the first time existing wires keep their value; later exactly the party's wires up to the first without a value are overwritten; the errors |
| BooleanCircuits.BooleanCircuit.Compute | src/circuits/BooleanCircuits.cpp:230-254 | the final wires and outputs, or the error; with fewer output lists than parties the code indexes past the last list, which is undefined behaviour and is marked OutOfRange |
| BooleanCircuits.BooleanCircuit.CreateTwoParty | include/circuits/BooleanCircuits.hpp:238-257 | the constructor for at most two parties, with its single list of outputs |
| BooleanCircuits.TwoPartyRun | src/circuits/BooleanCircuits.cpp:247-252 | so a circuit of two parties from that constructor has no defined outputs: computing it throws or indexes past its single list of outputs, which is undefined behaviour |
| BooleanCircuits.BinaryToDecimal | src/circuits/GarbledBooleanCircuit.cpp:151-169 | the loop decodes a truth table that was read as a decimal number |
| BooleanCircuits.ReadBitsMatch | src/circuits/GarbledBooleanCircuit.cpp:394-446 | number and bits of a gate that was read agree |
| BooleanCircuits.ReadAgreesIff | src/circuits/GarbledBooleanCircuit.cpp:416-427 | the garbled reading of a gate agrees with the plain one exactly when a one-input gate is a negation |
| BooleanCircuits.ReadingAgrees | src/circuits/BooleanCircuits.cpp:230-254 | plain evaluation and the garbled reading agree on every defined wire after any number of gates |
| BooleanCircuits.OutputsAgree | src/circuits/BooleanCircuits.cpp:230-254 | the plain run succeeds and its wires hold the plain outputs of the circuit that was read |
| BooleanCircuits.RunBoth | src/circuits/BooleanCircuits.cpp:230-254 | garbling the gates of a plain circuit, evaluating and translating gives what the plain circuit computes on the same inputs |
| LaneShuffles.ShuffleIsSelect | include/infra/sse2neon.h:826-917 | all special cases of the shuffle equal the generic lane selector, for every code |
| AesKeyExpansion.ExpandAssist | include/circuits/TedKrovetzAesNiWrapperC.h:46-55 | lane 0 of v3 stays zero, and v1 becomes the chain of its lanes with the mixed word |
| AesKeyExpansion.NextFour | include/circuits/TedKrovetzAesNiWrapperC.h:46-55 | such a chain is the next four words of the recurrence of section 5.2 of FIPS 197 |
| AesKeyExpansion.Step192 | include/circuits/TedKrovetzAesNiWrapperC.h:57-68 | one 192-bit step writes three round keys of the recurrence |
| AesKeyExpansion.BytesFollow | src/circuits/TedKrovetzAesNiWrapperC.cpp:30-81 | round keys that hold the schedule follow section 5.2 of FIPS 197 byte by byte: which byte of which word is substituted, xored and given the constant |
| AesKeyExpansion.AssistBytes | include/circuits/TedKrovetzAesNiWrapperC.h:46-47 | the instruction byte by byte |
| AesKeyExpansion.ExampleKey | src/circuits/TedKrovetzAesNiWrapperC.cpp:30-46 | the first new word of the example in appendix A.1 of FIPS 197 |
| AesKeyExpansion.Expand128 | src/circuits/TedKrovetzAesNiWrapperC.cpp:30-46 | all 44 words of the 128-bit schedule, for every key and S-box, word by word and byte by byte |
| AesKeyExpansion.Expand192 | src/circuits/TedKrovetzAesNiWrapperC.cpp:50-60 | all 52 words of the 192-bit schedule, word by word and byte by byte, whatever follows the key in memory |
| AesKeyExpansion.Expand256 | src/circuits/TedKrovetzAesNiWrapperC.cpp:62-81 | all 60 words of the 256-bit schedule, word by word and byte by byte |
| CounterGenerator.Generator.GetBytes | lib/COTShortKeys/COTSK_Prg.h:41-52 | the blocks encrypted by one request and the counter after it |
| CounterGenerator.NoBlockTwice | lib/COTShortKeys/COTSK_Prg.h:41-52 | over any requests of at most 2^64 blocks together no block is encrypted twice |
| CounterGenerator.CounterAt | lib/COTShortKeys/COTSK_Prg.h:41-52 | the t-th block over all requests: the counting word goes on and the other is that of its place in its request |
| CounterGenerator.BlocksDistinct | lib/COTShortKeys/COTSK_Prg.h:41-52 | the t-th output is the encryption of that block, and a cipher that is injective gives distinct outputs |
| CounterGenerator.BlockComesBack | lib/COTShortKeys/COTSK_Prg.h:41-52 | that bound is exact: with equal high words each block comes back 2^64 blocks later |
| CounterGenerator.SplitDoesNotMatter | lib/COTShortKeys/COTSK_Prg.h:12-52 | with equal high words the stream does not depend on how requests are split |
| CounterGenerator.SplitIndependentIff | lib/COTShortKeys/COTSK_Prg.h:12-52 | any two lists of requests for as many blocks get the same blocks exactly when all high words are equal |
| CounterGenerator.Run | lib/COTShortKeys/COTSK_Prg.h:41-52 | a whole run of requests on the object |

## Left out

- Sockets, threads, configuration files, measurement and memory management: input and output.
- OpenSSL, NTL, Boost and MIRACL: exponentiation with a negative exponent means the inverse here; how BN_mod_exp treats a negative exponent is not modelled.
- Computational assumptions and probability distributions: only exact algebra and bijections are stated.
- Elliptic-curve groups as concrete instances: the protocol theorems are stated for every group record that meets the laws.
- Automatic choice of the Damgard-Jurik length parameter from bit lengths.
- DamgardJurikEnc.RoundTrip: for moduli that share a factor with s! the answer is given from s = 3 on only as LogOf(n, s, x), without saying when it is x; there the division by k! has no meaning modulo n.
- SigmaDJEncryptedZero.Prover.ComputeSecondMsg: negative challenges are excluded because the library exponentiates with them; sampled challenges are never negative.
- SigmaDJEncryptedZero.Verifier.Verify: negative challenges, which setChallenge would admit, are excluded because the library exponentiates with them.
- SigmaDJEncryptedValue.Verifier.Verify: negative challenges are excluded, as in the zero protocol it runs.
- SigmaDJEncryptedZero.CountBits: the length of negative moduli, which no key has.
- SigmaDJProduct.Prover.ComputeSecondMsg: negative challenges are excluded, as in the zero protocol.
- SigmaDJProduct.Verifier.Verify: negative challenges are excluded, as in the zero protocol.
- SigmaDJChallenges.ZeroAtMostOnce: asks for primes longer than a third of the modulus, which key generation gives and the soundness check relies on; for a shorter prime challenges may differ by a multiple of it. Negative challenges are excluded, as in the zero protocol.
- SigmaDJChallenges.ValueAtMostOnce: asks for the same primes and challenges as ZeroAtMostOnce.
- SigmaDJChallenges.ProductAtMostOnce: asks for the same primes and challenges as ZeroAtMostOnce.
- SigmaDJProductSimulator.Simulate: for ciphertexts that are no units only the errors are stated; no honest statement has them.
- SigmaDHExtended.Verifier.Verify: a first message shorter than the input, which the code reads past the end of, is excluded.
- SigmaDHExtended.UntestedTarget: states challenges that are not negative.
- SigmaAndDH.Verifier.Verify: the member verifiers are distinct objects; nested conjunctions are modelled on values, in SigmaAnd.
- ObliviousTransferFullSim.Session: the receiver's messages, texts of two and of three group elements, are passed as values; like the sender's message of elements they always survive.
- ObliviousTransferPrivacyOnly.OneSided: byte arrays; its transfer of group elements is Transfer after the same proof, and is sent exactly when OneSidedSendsElementsIff says.
- ObliviousTransferFullSim.OtherFirstBytes: what the key derivation maps members to is not modelled, so the other input must have a mask that is derived.
- ObliviousTransferFullSim.CheaterCaught: the challenge is the one the verifier holds; drawing it and committing to it is in ZeroKnowledge.HonestRun.
- BooleanCircuits.BooleanCircuit.Compute: wires that no gate or input sets are excluded, because the code reads them uninitialized.
- MessageTexts.DecimalLaw: texts other than decimal numbers are refused; stol would read a number in front of other characters, and refuse numbers beyond 64 bits.
- CommitmentProtocol.Committer.Decommit: an id that was never committed to is excluded, because the code dereferences a null pointer for it.
- CommitmentProtocol.Receiver.ReceiveDecommitment: an id that was never received is excluded, because the code dereferences a null pointer for it.
- CounterGenerator.Generator.GetBytes: sizes that are not multiples of 16 are excluded.
- The flags of the three-round driver in SigmaProtocol.cpp, the other zero-knowledge wrappers and Fiat-Shamir proofs: they would only add easy members.
- The semi-honest transfer: a simpler transfer without checks or RAND.
- ElGamal commitment equations, the hash commitments and the equivocal wrapper: easier copies of the Pedersen core.
- verify of garbled circuits, half gates, four-to-two and no-fixed-key garbling.
- GarbledCircuitObjects.GarbledBooleanCircuit.GarbleOutputs: the code keeps the new keys behind the wires in its wire arrays and copies them out; the model only returns them.
- GarbledCircuitObjects.GarbledBooleanCircuit.GarbleFreeXor: the array of derived keys is a function of the index; the code allocates it for as many keys as there are tabled gates, which can be fewer than inputs.
- Circuit files, the text of common inputs, and ciphertext sendable data.
- AesKeyExpansion.Expand128: the ten unrolled macro calls are written as one loop over their constants, and likewise for the other key lengths.
- AesKeyExpansion.Expand192: gives the values that are written; the code writes them through the address of its parameter.
- The cipher rounds of AES, and shuffles that the key expansion does not use.
