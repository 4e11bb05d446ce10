# Selling a factorisation for bitcoins: a verified model

The repository lets a seller sell the two prime factors of a public number n. The buyer pays into a
bitcoin output; either the seller takes the payment, which publishes signatures from which the buyer
computes p and q, or the buyer forces a timed commitment and takes the money back. This project models
the protocol core in Dafny. For honest parties it proves which random draws let the protocol reach the
payment, and what is to be had from there on: the refund always spends the payment, and the purchase
works exactly when some square the buyer did not check came from a value coprime to n.

The parts, one module per file:

- `NumberTheory`: congruences, powers, the Euclidean algorithm, inverses, Fermat's little theorem.
- `Bytes`: integer, byte and bit encodings.
- `Paillier`: the cryptosystem, its key generation, and decryption of every homomorphic expression.
- `Curve`, `SharedSignature`: the elliptic-curve group by its laws (with a residue group that meets them),
  and the two-party ECDSA run (sections 4.1.3 and 4.1.4 of SEC 1 v2.0) of the classes `S` and `B`.
- `TimedCommitment`: the short path modulo phi, the loop of 2^K squarings, and their agreement.
- `Sorting`, `SquareRoot`: the four roots modulo n = pq, what the two small ones are, and what their GCDs give.
- `CutAndChoose`, `ShaCommitment`, `SignatureKey`: the generic cut and choose, the hash commitment, and the
  protocol that is cut and chosen.
- `SellInformation`, `Disclosure`, `Exchange`: seller and buyer, what is opened before the payment, the
  whole of `SellInformationProtocol::exec`, and the factorisation.
- `Multisig`, `Output`, `Refund`: the R-of-(2R-1) script (BIP 11 and BIP 16), the output with the payment, the
  seller's signatures that spend it, and the buyer's refund that spends it.
- `BuyerThreads`, `Served`: the interleavings of the buyer's threads, and what a return means for the buyer.
- `Witnesses`: concrete instances of everything that is assumed, and a run that `verify` rejects.

Four end-to-end statements summarise the project. `Exchange.Exec`: with honest parties the protocol reaches
the payment exactly when the output can be funded and every signing run succeeds, which the draws decide; the
seller's signatures then spend the output. `Exchange.LearnFactors`: from the seller's published signatures the buyer
gets exactly the two primes, if and only if some index outside its subsets has a value coprime to n.
`Refund.SolveTimeLock`: every refund the buyer sends carries a signature under the key forced from one instance and
spends the output, and the loop fails only if the network refuses all R of them. `Served.BuyerIsServed`: in every
interleaving the last call returns only with the two primes stored or with a refund taken that spends the output;
it is exactly one of the two as long as the output is spent once (`Served.PrimesOrRefund`), either way is open exactly
when there is something to be had by it (`Served.WaysToReturn`), and polling ends (`BuyerThreads.PollingEnds`).

Random draws are arguments, restricted to the closed ranges the code draws from. SHA-256, AES, the AES
keystream, modular square roots, curve operations and wallet signing are function arguments with the laws they
obey stated as predicates (`IsHash`, `IsCipher`, `IsKeystream`, `FindsRoots`, `IsCurve`, `SignsCorrectly`);
`Witnesses` shows that they can be met (`EnvIsInhabited`, `SquareRootIsInhabited`, `CipherIsInhabited`,
`WalletIsInhabited`) and that a signing run succeeds on them (`SomeRunSucceeds`). Sizes T, R, L and K
are arbitrary rather than the constants of common/common.h. Exceptions are `Err` results. A few laws and
row facts are quantified with an always-true predicate (`Scalars`, `At`) as trigger, so that they are used only
where a proof names the values.

Where the code differs from what one expects of it:

- Paillier encryption draws its blinding from [1, n] without testing coprimality. `Paillier.DecEnc` shows that
  decryption returns the plaintext exactly when gcd(r, n) = 1; in all other cases it throws. The draw r = n, which
  the closed range contains, is such a case for every key and message (`Paillier.BlindingByModulus`).
- `verify` compares an unreduced x-coordinate with a reduced r, so an honest signature is accepted exactly when
  the nonce point's x-coordinate is below the group order (`SharedSignature.FinalVerify`). A run with good r, s and
  blindings that is rejected is `Witnesses.VerifyRejectsLargeX`.
- All T instances are copies of one committer, so opening any unchosen instance reveals the prime that opens the
  timed commitment of every kept one without forcing (`SignatureKey.RevealedPrimeOpensAll`). The model keeps to the
  code, in which the buyer ignores that prime and forces.
- Both flags of `wait_for_signature_or_time_lock` are locals passed by reference, and one thread is detached. If
  that thread finishes later, it sets a flag in a frame that is gone. That takes both the seller's transaction and a
  refund confirmed, two spends of one output, as after a deep reorganisation of the chain; with one spend it cannot
  happen (`BuyerThreads.ServedOnce`). With two it can exactly when the detached thread has not ended or gone to
  sleep by then (`BuyerThreads.DeadWriteReachable`); `BuyerThreads.DetachedThreadOutlivesFlag` is such a run. The
  model records the write and lets it change nothing else, which the C++ standard does not promise.
- Opening an instance checks the signature, the lock and the commitments each on its own
  (`SignatureKey.OpeningVerifiesExactly`). The bits of the lock are discarded and the committed signature is not
  compared with the verified one, so an instance passes whatever its lock holds, and the refund from it works exactly
  when that is the share modulo the group order (`SignatureKey.AnyLockPasses`, `Witnesses.WrongLockInstance`); keys
  that come from any other byte string pass as well (`SignatureKey.AnySignaturePasses`). A shown key only has to be
  a prefix of the expected one.
- The product test of `factorise` also accepts the split n*1 when the two roots are equal and coprime to n
  (`SquareRoot.TrivialSplitAccepted`, `SquareRoot.AcceptedSplits`). Honest roots never trigger it.
- cut_and_choose.h:67 reads one past the end of the sorted list once all chosen indices have been passed; the
  model takes that as "no chosen index left".
- The comment on the random primes in paillier.cpp says they have `bits` bits; the range drawn from,
  [2^bits, 2^(bits+1)], is what the model uses.

## Model

| member | source | states |
|---|---|---|
| Paillier.KeyLengthSuffices | shared_signature/paillier.cpp:11-21 | distinct primes from the drawn range give N > 2n^4 and a working inverse u of phi, for every group order n |
| Paillier.PhiCoprime | shared_signature/paillier.cpp:19-20 | gcd(phi, N) = 1 for such primes |
| Paillier.DecEnc | shared_signature/paillier.cpp:56-87 | either party's encryption of m in range decrypts to m if and only if the blinding is coprime to n |
| Paillier.BlindingByModulus | shared_signature/paillier.cpp:56-68 | with the draw r = n, the upper end of the range, no message of any key decrypts |
| Paillier.HomomorphicDecryption | shared_signature/paillier.cpp:70-87 | any expression of ciphertext products and powers decrypts to its linear combination of plaintexts modulo n, exactly when the draws that matter are coprime to n; otherwise decryption throws |
| Paillier.DecryptValid | shared_signature/paillier.cpp:31-33 | L and u read the plaintext off c^phi modulo n^2 |
| Paillier.RefusedArguments | shared_signature/paillier.cpp:56-81 | enc and dec throw exactly for the arguments out of range, a missing private key, or a ciphertext sharing a prime with n |
| SharedSignature.VerifyAccepts | shared_signature/shared_sig.cpp:34-67 | a signature with s*k = +-(z + r*d) passes exactly when r is the unreduced x-coordinate of k*G |
| SharedSignature.VerifyChecks | shared_signature/shared_sig.cpp:34-67 | throws exactly for a message that is no digest; accepts exactly a point of order n with r and s in [1, n-1] and the matching x-coordinate |
| SharedSignature.HalfSignatureFits | shared_signature/shared_sig.cpp:143-144 | the integer inside the half-signature is below 2n^4, so nothing wraps around N |
| SharedSignature.PartsInRange | shared_signature/shared_sig.cpp:164-169 | every plaintext the protocol encrypts is in range and t is not zero |
| SharedSignature.HalfSignatureDecrypts | shared_signature/shared_sig.cpp:157-170 | cb decrypts to the exact integer (kb^-1*z mod n) + t*ds + u*n when the three blindings are coprime to N, and to an exception otherwise |
| SharedSignature.UnsignedS | shared_signature/shared_sig.cpp:115-116 | what S computes before choosing the sign is (ks*kb)^-1*(z + r*ds*db) mod n |
| SharedSignature.FinalVerify | shared_signature/shared_sig.cpp:120-127 | S's own check accepts the low-s signature exactly when K.x < n |
| SharedSignature.HonestSignature | shared_signature/shared_sig.cpp:184-190 | a run yields r and the low-s textbook value exactly when r, s, the blindings and K.x allow it, for all shares, nonces and messages |
| SharedSignature.LargeXNeverSigns | shared_signature/shared_sig.cpp:62 | a run whose nonce point has an x-coordinate of at least n fails, on every curve and with every key |
| Witnesses.VerifyRejectsLargeX | shared_signature/shared_sig.cpp:56-67 | a concrete run with nonzero r and s and coprime blindings that is rejected |
| SharedSignature.S.constructor | shared_signature/shared_sig.cpp:82-95 | the generated key always passes the length check |
| SharedSignature.S.StartInit | shared_signature/shared_sig.cpp:97-100 | S's share and public part |
| SharedSignature.S.FinishInit | shared_signature/shared_sig.cpp:102-105 | S's view of the shared public key |
| SharedSignature.S.StartSig | shared_signature/shared_sig.cpp:107-111 | S's nonce share and encrypted key share |
| SharedSignature.S.FinishSig | shared_signature/shared_sig.cpp:113-130 | new r and s, and which exception ends the run |
| SharedSignature.B.StartInit | shared_signature/shared_sig.cpp:147-150 | B's share and public part |
| SharedSignature.B.FinishInit | shared_signature/shared_sig.cpp:152-155 | B's view of the shared public key |
| SharedSignature.B.ContSig | shared_signature/shared_sig.cpp:157-170 | B's nonce share, r and half-signature, or the exception |
| SharedSignature.CreateB | shared_signature/shared_sig.cpp:136-145 | B exists exactly when the modulus exceeds 2n^4 |
| SharedSignature.Init | shared_signature/shared_sig.cpp:172-182 | both parties arrive at ds*db*G; the mismatch exception cannot be thrown |
| SharedSignature.Exec | shared_signature/shared_sig.cpp:184-190 | the run on the two objects succeeds exactly when RunSucceeds, leaves the low-s textbook signature, and the signature verifies for B |
| SharedSignature.Open | shared_signature/shared_sig.cpp:192-198 | the verdict recorded is that of verify on S's r and s |
| TimedCommitment.Exp | timed_commitment/timed_commitment.cpp:15-25 | square and multiply computes the power |
| TimedCommitment.PrngXor | timed_commitment/timed_commitment.cpp:47-62 | every bit is xored with the low bit of its keystream byte, the seed being the 48 low bytes of u |
| TimedCommitment.SeedSpellsKey | timed_commitment/timed_commitment.cpp:50-52 | the 48 seed bytes, lowest first, spell u modulo 256^48 |
| TimedCommitment.PhiDividesNoPowerOfTwo | timed_commitment/timed_commitment.cpp:31-45 | the reduced exponent of the short path is never zero |
| TimedCommitment.KeysAgree | timed_commitment/timed_commitment.cpp:42-45 | short and long path derive the same key for every K and every h, coprime to n or not |
| TimedCommitment.CommitmentOpens | timed_commitment/timed_commitment.cpp:101-128 | opening with either prime and forcing both return the committed message |
| TimedCommitment.CommitmentMasks | timed_commitment/timed_commitment.cpp:68-86 | the commitment is the message masked, bit by bit, with the keystream of h^(2^(2^K)) mod n |
| TimedCommitment.OpeningUnmasks | timed_commitment/timed_commitment.cpp:101-111 | for any integer: the exact exception, and otherwise the mask of the key with its exponent reduced by that phi is taken off |
| TimedCommitment.ForcingUnmasks | timed_commitment/timed_commitment.cpp:113-128 | forcing takes off the mask of h^(2^(2^K)) mod n, whatever the commitment holds |
| TimedCommitment.Commiter.Commit | timed_commitment/timed_commitment.cpp:68-86 | the stored commitment |
| TimedCommitment.Receiver.Open | timed_commitment/timed_commitment.cpp:101-111 | result or exception of opening with any integer |
| TimedCommitment.Receiver.ForceOpen | timed_commitment/timed_commitment.cpp:113-128 | the squaring loop computes h^(2^(2^K)) mod n and decodes with it |
| TimedCommitment.CommitAndOpen | timed_commitment/timed_commitment.cpp:130-143 | commit, then open and force: the message comes back both ways |
| Bytes.ToBits | timed_commitment/bit_utils.cpp:7-16 | the loop lists the bits of each byte, lowest first |
| Bytes.FromBits | timed_commitment/bit_utils.cpp:18-34 | the loop rebuilds the bytes, and throws exactly for lengths not divisible by 8 |
| Bytes.BytesOfBitsOf | timed_commitment/bit_utils.cpp:7-34 | from_bits after to_bits is the identity on bytes |
| Bytes.BitsAt | timed_commitment/bit_utils.cpp:7-16 | bit 8i+j of the list is bit j of byte i |
| Bytes.BitsOfBytesOf | timed_commitment/bit_utils.cpp:7-34 | to_bits after from_bits is the identity on bit sequences of whole bytes |
| Bytes.IntegerToBits | timed_commitment/bit_utils.cpp:40-49 | the bits of the minimal big-endian encoding; negative integers throw |
| Bytes.IntegerBitsRoundTrip | timed_commitment/bit_utils.cpp:40-59 | bits_to_integer(integer_to_bits(i)) = i for every i >= 0 |
| Bytes.ToBytesMinimal | timed_commitment/bit_utils.cpp:40-49 | the integer encoding has no leading zero byte, except for zero |
| Bytes.DecodeFirst | timed_commitment/bit_utils.cpp:51-59 | bytes are read big-endian: the first weighs most |
| Bytes.ToByteArrayRoundTrip | bitcoin/java/src/BitcoinUtilsHandler.java:538-541 | the sign-padded Java encoding decodes to the same integer |
| Bytes.ToByteArraySigned | bitcoin/java/src/BitcoinUtilsHandler.java:538-541 | the first byte leaves room for the sign, and no byte is wasted |
| SquareRoot.RootExact | common/square_root.cpp:11-34 | for all signs, square_root returns a root exactly when a is a square in [0, n), and -1 otherwise |
| SquareRoot.OppositeCandidates | common/square_root.cpp:23-30 | flipping both signs gives the complement to n |
| SquareRoot.RootsAreMirrored | common/square_root.cpp:38-51 | the sorted roots are e1 <= e2 <= n/2 < n-e2 <= n-e1 |
| SquareRoot.FourDistinctRoots | common/square_root.cpp:38-51 | for a coprime square: four distinct roots, exactly two at most n/2, and those neither equal nor negatives |
| SquareRoot.FirstTwoRoots | common/square_root.cpp:38-51 | the first two entries are all roots in [0, n/2], equal exactly when a shares a factor with n; -1 when there is no root |
| SquareRoot.AllSquareRoots | common/square_root.cpp:38-51 | the array filled and sorted in place holds the four results in order |
| SquareRoot.ChosenRootIsFound | main/sell_information.h:198-203 | every x the buyer can draw is one of the two small roots, coprime to n or not |
| SquareRoot.DifferentRootsSplit | main/sell_information.cpp:347-349 | two roots of one square that differ beyond sign give the two primes |
| SquareRoot.HonestRootsFactor | main/sell_information.cpp:347-349 | honest roots of x*x give the primes when gcd(x, n) = 1 and a rejected pair otherwise |
| SquareRoot.AcceptedSplits | main/sell_information.cpp:347-353 | for arbitrary roots, when the product test accepts, and which of the four possible splits is stored |
| SquareRoot.TrivialSplitAccepted | main/sell_information.cpp:347-353 | a concrete pair for which the test accepts n*1 |
| CutAndChoose.PickR | main/sell_information.cpp:169-175 | on exit the list holds, in ascending order, exactly the first R different values drawn, all in range and valid for cut_and_choose; it exits once R different values were drawn |
| CutAndChoose.SortedCheckIsExact | cut_and_choose/cut_and_choose.h:53-61 | the neighbour check on the sorted list accepts exactly lists without repetitions |
| CutAndChoose.CheckChoice | cut_and_choose/cut_and_choose.h:50-61 | the validation loop |
| CutAndChoose.RunAll | cut_and_choose/cut_and_choose.h:40-43 | every instance is initialised and executed with its own parties, or one throws |
| CutAndChoose.OpenUnchosen | cut_and_choose/cut_and_choose.h:64-80 | the opening loop opens unchosen instances in order up to the first that fails; ix ends at R |
| CutAndChoose.CutAndChoose | cut_and_choose/cut_and_choose.h:38-81 | accepted: all unchosen opened and verified, no chosen one touched; rejected: the first bad one, with all earlier passed and all later untouched; the closing assertion never fires |
| CutAndChoose.EndingIsDecided | cut_and_choose/cut_and_choose.h:64-80 | the executed instances and the list leave only one possible ending |
| ShaCommitment.ExecOpens | sha_commitment/sha_commitment.cpp:26-45 | an executed commitment opens to the committed message |
| ShaCommitment.Binding | sha_commitment/sha_commitment.cpp:15-45 | an accepted opening shows the committed message or exhibits a hash collision |
| SignatureKey.GenKeys | main/signature_key.cpp:16-30 | key i is the hash of the signature followed by the minimal encoding of i |
| SignatureKey.KeyInputsDiffer | main/signature_key.cpp:18-24 | different indices are hashed from different inputs |
| SignatureKey.KeysRegenerated | main/sell_information.cpp:279-282 | the keys regenerated after every encoding on the way through the chain equal the seller's, index by index |
| SignatureKey.InstanceRuns | main/signature_key.cpp:77-115 | an instance executes exactly when its signing run succeeds, and then holds a valid signature, a lock on ds and closed commitments to the keys |
| SignatureKey.ExecutedInstanceOpens | main/signature_key.cpp:117-141 | opening an executed instance throws nothing and verifies |
| SignatureKey.OpeningVerifiesExactly | main/signature_key.cpp:117-141 | for any seller: accepted exactly when the signature verifies, the lock opens to anything, all commitments open and the keys are prefixes of those of the committed signature |
| SignatureKey.AnyLockPasses | main/signature_key.cpp:128 | an honest instance with its lock replaced by a lock on any value is still accepted; the refund key is right exactly when the value is ds modulo n |
| Witnesses.WrongLockInstance | main/signature_key.cpp:128 | a concrete accepted instance whose forced key is not the private key |
| SignatureKey.AnySignaturePasses | main/signature_key.cpp:130-138 | keys derived from any byte string other than the verified signature are accepted |
| SignatureKey.RevealedPrimeOpensAll | main/sell_information.cpp:393-397 | the committer's prime, shared by all instances, opens every kept lock to the same bits as forcing |
| SignatureKey.RefundKeyIsPrivateKey | main/sell_information.cpp:225-241 | the value computed from the forced bits is the private key of the instance's public key and survives its encoding |
| SellInformation.ChooseRoots | main/sell_information.cpp:30-35 | the small pair in the order of the coin |
| SellInformation.Seller.FindRoots | main/sell_information.cpp:28-43 | row j receives the small pairs, other rows stay |
| SellInformation.Seller.EncryptRoots | main/sell_information.cpp:45-50 | both ciphertext rows, unless a key has the wrong length |
| SellInformation.Seller.SetupCommit | main/sell_information.cpp:52-57 | ciphertexts become commitment messages |
| SellInformation.Seller.AcceptSubset | main/sell_information.cpp:59-87 | accepts exactly small roots of the squares, and names the commitment each equals, or 5 |
| SellInformation.ChosenRoots | main/sell_information.cpp:28-43 | for every x in [0, n/2] one of the two roots found is x |
| SellInformation.Buyer.GenSquares | main/sell_information.h:198-203 | values and their squares modulo n |
| SellInformation.Buyer.PickSubset | main/sell_information.cpp:177-182 | the first L/2 entries of the shuffle: distinct indices below L |
| SellInformation.Buyer.GetSubsetValues | main/sell_information.cpp:190-196 | each index is paired with its own value |
| SellInformation.Buyer.Factorise | main/sell_information.cpp:327-357 | the first index in scan order that splits n is stored, the first that throws propagates, and otherwise it fails |
| SellInformation.AttemptOutcome | main/sell_information.cpp:334-354 | an index is skipped exactly when a ciphertext is closed, throws exactly when one does not decrypt, and yields only pairs with product n |
| SellInformation.VerifyRoot | main/sell_information.cpp:198-204 | passes exactly when the ciphertext decrypts under a 32-byte key to the buyer's value |
| SellInformation.Buyer.GetSignature | main/sell_information.cpp:263-301 | a failed wait throws and changes nothing; otherwise the signatures are re-encoded from the chain's bytes and factored with, and the flag is set exactly on success |
| Disclosure.CommitRoots | main/sell_information.cpp:467-482 | one round's squares, roots, encryptions and commitments |
| Disclosure.CheckIndices | main/sell_information.cpp:488-498 | the two index exceptions fire exactly for repeated or large indices |
| Disclosure.OpenOne | main/sell_information.cpp:502-521 | what is opened for one subset index, and when it throws |
| Disclosure.OpenSubset | main/sell_information.cpp:502-522 | for any rows and answers: passes exactly when every subset index opens and decrypts to the buyer's value, and then opens the key and the named ciphertext of these indices and nothing else |
| Disclosure.PassedSubset | main/sell_information.cpp:198-204 | after a passed subset, whatever the seller answered, every subset index shows a key under which the named ciphertext decrypts to the buyer's value |
| Disclosure.WrongRootThrows | main/sell_information.cpp:507-521 | naming the encryption of another root than the buyer's value throws |
| Disclosure.OpenRest | main/sell_information.cpp:524-529 | for any rows: throws exactly when a ciphertext commitment outside the subset does not open; otherwise both are opened there, and no key and nothing of the subset changes |
| Disclosure.ExchangeRoots | main/sell_information.cpp:467-530 | a round with honest parties throws nothing and ends in RoundAtPayment for its instance, leaving the others |
| Disclosure.NothingTooMuch | main/sell_information.cpp:336-337 | no index has key and both ciphertexts open, and factorise skips exactly the subset |
| Disclosure.HonestAttempt | main/sell_information.cpp:334-354 | each index of an honest instance is skipped, missed or yields the primes, as its place and gcd(x, n) say |
| Exchange.InitInstances | main/sell_information.cpp:404-408 | every instance gets the public key of its own shares |
| Exchange.ChooseInstances | main/sell_information.cpp:421-436 | honest cut and choose succeeds exactly when all runs do, and hands on R instances with nothing opened |
| Exchange.PrepareInstances | main/sell_information.cpp:404-440 | from shared keys to kept instances: fails exactly when the output cannot be funded or a run fails; verifyT2Signature never throws |
| Exchange.Exec | main/sell_information.cpp:381-538 | the protocol reaches the payment exactly when the output is funded and all runs succeed; the kept instances are the R picked ones with their own shares and draws, every round follows its own draws, AtPayment holds for all R with every signature still closed, and the seller's signatures spend the output built on the picked shares |
| Exchange.LearnFactors | main/sell_information.cpp:263-301 | the buyer learns {p, q} and sets its flag if and only if the transaction is seen and some index outside the subsets has a coprime value |
| Multisig.CheckIsInOrderMatch | bitcoin/java/src/BitcoinUtilsHandler.java:350 | the scan of CHECKMULTISIG accepts exactly when an in-order assignment exists |
| Multisig.CreateKeys | bitcoin/java/src/BitcoinUtilsHandler.java:173-185 | the key list of the redeem script |
| Multisig.BuyerKeyChunk | bitcoin/java/src/BitcoinUtilsHandler.java:589 | chunk 2R-1 of the script is the buyer's key |
| Multisig.ScriptChunks | bitcoin/java/src/BitcoinUtilsHandler.java:187 | every chunk of the script, from the threshold R to the opcode |
| Multisig.RedeemSignatures | bitcoin/java/src/BitcoinUtilsHandler.java:594-599 | the signature list of a refund |
| Multisig.SharedSignaturesRedeem | bitcoin/java/src/BitcoinUtilsHandler.java:330-350 | the R shared-key signatures redeem |
| Multisig.OneSharedKeyRedeems | bitcoin/java/src/BitcoinUtilsHandler.java:594-600 | one signature under any shared key followed by R-1 of the buyer's redeems |
| Multisig.BuyerAloneCannotRedeem | bitcoin/java/src/BitcoinUtilsHandler.java:173-188 | whatever redeems uses a shared key |
| Output.AcceptsExactly | bitcoin/java/src/BitcoinUtilsHandler.java:173-188 | for every R: R signatures are accepted exactly when they verify in order under ascending positions of the R shared keys followed by R-1 times the buyer's |
| Output.SharedKeyNeeded | bitcoin/java/src/BitcoinUtilsHandler.java:173-188 | whatever is accepted has R signatures, the first of them under a shared key |
| Output.SellerSpends | main/sell_information.cpp:117-132 | the kept instances' signatures satisfy the output, for every R |
| Output.VerifyT2Signature | main/sell_information.cpp:117-132 | throws exactly when the list of the kept instances' signatures does not satisfy the output; if it passes, the first signature verifies under a shared key |
| Refund.AnyInstanceRefunds | main/sell_information.cpp:218-246 | the key recovered from any single instance, with the buyer's own, satisfies the output |
| Refund.RecoverKey | main/sell_information.cpp:225-236 | squarings, bit decoding and multiplication compute the refund key |
| Refund.Redeem | bitcoin/java/src/BitcoinUtilsHandler.java:546-622 | what is sent for instance j is one signature under its forced key and R-1 of the buyer's; it satisfies the output, and the result is the network's |
| Refund.SolveTimeLock | main/sell_information.cpp:218-261 | refunds of instances 0, 1, ... are sent in order, each satisfying the output, up to the first the network takes; failure means that all R were sent and refused |
| BuyerThreads.RunKeepsInvariant | main/sell_information.cpp:218-325 | flags, thread positions and results agree in every reachable state |
| BuyerThreads.ReturnsServed | main/sell_information.cpp:303-325 | in every interleaving a return means p*q = n is stored or a redeem succeeded, and the signature branch means the former |
| BuyerThreads.PollingEnds | main/sell_information.cpp:311-324 | once a flag is set the call returns after four steps of the main thread, in any interleaving, unless an exception ends the program |
| BuyerThreads.ReturnsByTheFlag | main/sell_information.cpp:311-324 | it returns by the thread whose flag is set, and by the signature if both are set before main has chosen |
| BuyerThreads.RefusalsAdvance | main/sell_information.cpp:221-249 | each refused refund takes the loop to the next instance, and R of them to sleep |
| BuyerThreads.NoInstanceSkipped | main/sell_information.cpp:221-255 | in every interleaving, instance j or sleep is reached only after j or R refusals |
| BuyerThreads.AbortsExactly | main/sell_information.cpp:268-270 | the program is cut short exactly by a failed wait or a scan without a result |
| BuyerThreads.JoinDoesNotBlock | main/sell_information.cpp:316-324 | the thread that is joined has already ended |
| BuyerThreads.ResultIsFinal | main/sell_information.cpp:316-319 | after the signature branch no later step of any thread assigns the stored factors |
| BuyerThreads.ServedOnce | main/sell_information.cpp:303-325 | unless both the seller's transaction and a refund are confirmed: a return by signature comes without a refund, a return by time lock without factors, and no local of the returned call is written |
| BuyerThreads.DeadWriteExactly | main/sell_information.cpp:303-325 | the detached thread writes to a local flag of the returned call exactly when it finishes after the return, and only if both spends were confirmed |
| BuyerThreads.DeadWriteReachable | main/sell_information.cpp:303-325 | at the return: some continuation writes to the dead flag exactly when the detached thread is not done, asleep or out of instances |
| BuyerThreads.DetachedThreadOutlivesFlag | main/sell_information.cpp:303-325 | a run with both spends confirmed in which it does |
| BuyerThreads.UnredeemedLockIsSilent | main/sell_information.cpp:221-255 | without a successful redeem the time-lock branch is never taken |
| Served.ScanFindsPrimes | main/sell_information.cpp:327-357 | on the state at payment the scan ends with {p, q} if some index is useful and without a result otherwise |
| Served.BuyerIsServed | main/sell_information.cpp:303-325 | with steps that report what scan and refunds really yield: a return by signature means the two primes, a return by time lock a taken refund that satisfies the output, and an abort that the transaction was not seen or no index is useful |
| Served.PrimesOrRefund | main/sell_information.cpp:303-325 | with one spend of the output: the two primes and no refund, or a refund and no factor |
| Served.WaysToReturn | main/sell_information.cpp:303-325 | some run returns by the signature exactly when some index is useful, and some run by the time lock exactly when the network takes a refund |

## Left out

- Curve arithmetic, SHA-256, AES, the OFB keystream and Crypto++ integers: library code, given by laws.
- Prime generation, sampling, and probabilities (the cheating bound, hiding, termination of pickR with probability one).
- Dishonest parties in the end-to-end statements: errors of single operations are modelled, and what a passed subset guarantees against any seller, but whole dishonest runs are not.
- ShaCommitment.ExecOpens: senders and receivers are values updated by functions, as the protocol holds them by value in arrays; updates through pointers are not captured, nor are the fields an opening that throws has already changed.
- SignatureKey.InstanceRuns: an instance is a value as well, because cut and choose takes protocols as functions; the classes `S` and `B` with their in-place updates are proved separately and tied to the same run by `SharedSignature.Exec`.
- CutAndChoose.CutAndChoose: the test-only `cheat` argument, and the fields of an instance whose protocol throws half-way.
- Disclosure.ExchangeRoots: a row is rebuilt and stored at the end of its loop instead of entry by entry.
- BitcoinUtilsHandler beyond key layout, signature lists and encodings: wallet, broadcast, confirmations and watched addresses; DER encoding is taken as lossless.
- Transactions T1 and T2, prices and addresses: only the hash that is signed and the keys of the output appear.
- The independent Crypto++ verification in signature_key.cpp:58-75, whose result the code ignores.
- Wall-clock time of forcing: only the number and the result of the squarings.
- common/log, main.cpp, JavaServer, BalanceAndAddress, regular_commitment and the demo programs.
