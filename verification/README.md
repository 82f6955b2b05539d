# Secret sharing, commitments, Merkle trees, fuzzing and mining: a verified model

This project models the algorithmic core of eight C files and proves what they compute. Code that
updates state in place is modelled in place: arrays, records that methods overwrite, and linked
nodes with explicit pointers. Each such method is proved against a specification function, and the
theorems are about those functions and about whole runs of calls.

What is modelled, file by file:

- **Sharing over a prime field** (`mpc_proto.c`, `threshold_sig.c`, `ca_vss_*` in `crypto_apps.c`).
  The dealing, reconstruction, share-arithmetic, refresh and Feldman loops run on 64-bit operands
  with C's truncating `%`; `MachineArithmetic.dfy` states that arithmetic, and every product that
  the loops form is proved to fit. The modulus 2147483647 is proved prime. Modules: `Modular`,
  `Primes`, `MersennePrime`, `Polynomials`, `MachineArithmetic`, `SecretSharing`, `MpcShamir`,
  `ThresholdShares`, `FeldmanVss`.
- **Exponents modulo N** (Pedersen commitments in `crypto_apps.c`, the accumulator in
  `crypto_advanced.c`). The unsigned loops wrap at 64 bits in the model, as in the code; the theorems
  say when that does not matter. Modules: `Pedersen`, `Accumulator`.
- **The polynomial ring** of `post_quantum.c`, for any length n. Module: `PolyRing`.
- **Merkle trees**: the heap-indexed one of `crypto_apps.c` (`HeapMerkle`) and the pointer tree of
  `merkle_tree.c` (`MerkleValues` for the trees as values, `PointerMerkle` for the linked nodes).
  The hash is a parameter without any assumed property beyond, where stated, its length.
- **The fuzzer's corpus minimiser and crash database** (`CorpusMinimiser`, `CrashTriage`). The target
  program is a parameter.
- **Mining and the block chain** of `consensus_pow.c` (`ProofOfWork`). The block hash and the
  difficulty of a compact target are parameters.

## Where the code does not do what its names suggest

Each of these is stated as an exact condition; where the failure is not for all inputs, a concrete one
is given.

- Feldman verification rejects some honest shares, because shares are reduced modulo p while
  exponents of g repeat modulo p - 1: `HonestShareAcceptedIff` for every int64 secret,
  `ZeroGeneratorAcceptedIff` for a generator divisible by p; `HonestShareRejected` and
  `NegativeSecretRejected` are inputs.
- Accumulator witnesses reduce their exponent modulo N - 1. The comment in the source speaks of an
  RSA accumulator, whose N is composite; then honest witnesses can fail: `WitnessesVerifyIff`,
  `RemovalIsWitnessIff`, at an input `CompositeModulusRejects`. Elements that make the exponent wrap
  are another cause: `LargeElementRejected`.
- `mpc_shamir_add_share` records the left threshold, which is too small if the right one is larger:
  `SumThresholdExact` over all sharings, `DealtSumExact` and `SumOfNextThresholdFails` over the dealt
  ones, at an input `SumOfZeros`.
- The homomorphic sum of Pedersen commitments records sums modulo 2^64:
  `OverflowingSumVerifiesIff`, at an input `OverflowingSumRejected`. The comment in the source also
  promises binding, but the exponent of the second generator is a constant of the program:
  `OpeningsCoincide`.
- The pointer Merkle tree does not keep the order of insertion (`AddLeaf`, at an input
  `FiveInOrder`), and its proof generator leaves a zero hash with direction 0 for a lone left child,
  which the verifier concatenates the other way round: `ProofAcceptedIff` and `VerifiesIff`, at an
  input `ThirdOfThreeRejected`.
- The XOR combination of the heap Merkle tree lets some path be accepted for every leaf value as soon
  as the tree has more than one node: `XorAcceptsIff`.
- The inverse loop divides by zero when its argument exceeds 1 and shares a factor with the modulus:
  `ModInverse`, at inputs `ModInverseFails` and `LagrangeCoeffFails`. On the paths through the three
  reconstructions this cannot happen: `InvertDenominator`.
- Appending a block to a chain that already contains it breaks the chain: `AddBlock`, at an input
  `AppendTwice`.

## How to check it

`dafny verify dfyconfig.toml` verifies everything with Dafny 4.11.

## Model

| member | source | states |
|---|---|---|
| MachineArithmetic.Reduce | mini-adv-crypto/src/mpc_proto.c:6-9 | the two-step C remainder is the representative in [0, m) of the operand, also for negative operands |
| MachineArithmetic.ModInverse | mini-adv-crypto/src/mpc_proto.c:11-22 | the Euclidean loop terminates; for a0 > 1 it divides by zero exactly when a0 and m0 share a factor, and otherwise returns an inverse in [1, m0); no 64-bit operand overflows |
| MachineArithmetic.ModInverseFails | mini-adv-crypto/src/mpc_proto.c:14-18 | at an input: for 4 modulo 6 the loop divides by zero |
| MachineArithmetic.EuclidStep | mini-adv-crypto/src/mpc_proto.c:14-19 | one round keeps x*a0 = a and y*a0 = m modulo m0, the opposite signs of x and y, and the sum of their weighted magnitudes at m0, so that every intermediate value is bounded by m0 |
| MachineArithmetic.InverseRange | mini-adv-crypto/src/mpc_proto.c:20-21 | the final correction of a negative coefficient lands in [1, m0) |
| MachineArithmetic.EvalPoly | mini-adv-crypto/src/mpc_proto.c:24-32 | the evaluation loop with truncating remainders is the value of the polynomial, reduced, without overflow, for any int64 constant term |
| MachineArithmetic.ModPow | mini-adv-crypto/src/crypto_apps.c:228-238 | square-and-multiply is the power modulo the modulus; a negative exponent counts as 0 |
| MachineArithmetic.PowLoop | mini-adv-crypto/src/crypto_advanced.c:341-346 | the unsigned loop, with 64-bit wrap-around, against its specification `WrappedPow` |
| MachineArithmetic.WrappedPowIsPow | mini-adv-crypto/src/crypto_advanced.c:341-346 | with modulus and base of at most 32 bits the wrapping loop computes the power, for every 64-bit or larger exponent |
| MachineArithmetic.WrappedPowWraps | mini-adv-crypto/src/crypto_advanced.c:341-346 | at an input: the loop squares 2^32 to 0, for every modulus |
| Primes.Fermat | mini-adv-crypto/src/crypto_advanced.c:377-398 | Fermat's little theorem, on which reducing exponents modulo N - 1 and inverting by a power rely |
| Primes.FermatInverse | mini-adv-crypto/src/crypto_apps.c:303-304 | the (p-2)-nd power of a unit is its inverse |
| MersennePrime.PrimeIsPrime | mini-adv-crypto/src/mpc_proto.c:41-41 | 2147483647, the modulus of all three sharing implementations, is prime |
| Polynomials.RootsForceZero | mini-adv-crypto/src/mpc_proto.c:57-76 | a polynomial with n coefficients and n distinct roots modulo p vanishes modulo p |
| Polynomials.InterpolationIsUnique | mini-adv-crypto/src/mpc_proto.c:57-76 | polynomials with n coefficients that agree at n distinct points agree everywhere |
| Polynomials.LagrangeRecovers | mini-adv-crypto/src/mpc_proto.c:62-73 | Lagrange's sum through at least as many points as coefficients gives the polynomial's value anywhere |
| SecretSharing.DealerCoefficients | mini-adv-crypto/src/mpc_proto.c:42-46 | the coefficient buffer holds the secret, then 31337*k + 7920 at every place k, in field range |
| SecretSharing.CoefficientLaw | mini-adv-crypto/src/mpc_proto.c:44-46 | after the secret the coefficients start at 39257 and grow by 31337 |
| SecretSharing.LagrangeFactors | mini-adv-crypto/src/mpc_proto.c:63-70 | numerator and denominator of one Lagrange factor, reduced, without overflow |
| SecretSharing.InvertDenominator | mini-adv-crypto/src/mpc_proto.c:71-71 | on a denominator reduced modulo the prime the inverse loop never divides by zero and yields the field inverse |
| SecretSharing.RepeatedPosition | mini-adv-crypto/src/mpc_proto.c:62-73 | two shares at one position x with one value y: the reconstructions that invert by the Euclidean loop return -2*x*y modulo p, the one that inverts by powers returns 0 |
| SecretSharing.InterpolateAtZero | mini-adv-crypto/src/mpc_proto.c:60-74 | the double loop is Lagrange interpolation at zero for any points of 32 bits |
| SecretSharing.QualifiedPointsRecover | mini-adv-crypto/src/mpc_proto.c:57-76 | points at distinct positions, at least as many as coefficients, reconstruct the constant term |
| SecretSharing.OneShortIsWrong | mini-adv-crypto/src/mpc_proto.c:57-76 | one point fewer than coefficients, the last of them a unit, never reconstructs the constant term |
| MpcShamir.Context.Split | mini-adv-crypto/src/mpc_proto.c:34-55 | return code, recorded parameters, every field of every dealt share, and what stays untouched |
| MpcShamir.DealtAtThree | mini-adv-crypto/src/mpc_proto.c:42-52 | the shares of secret 0 with threshold 3 in numbers: 109851, 360890, 753117 |
| MpcShamir.Context.Reconstruct | mini-adv-crypto/src/mpc_proto.c:57-76 | refuses fewer than `threshold` indices, otherwise interpolates through all the chosen shares |
| MpcShamir.SplitReconstruct | mini-adv-crypto/src/mpc_proto.c:34-76 | for every secret, threshold, total and choice of at least `threshold` distinct shares, the reconstruction is the secret modulo p |
| MpcShamir.RoundTrip | mini-adv-crypto/src/mpc_proto.c:34-76 | the two calls together: the secret modulo p for at least `threshold` distinct indices, otherwise a refusal |
| MpcShamir.OneShareShort | mini-adv-crypto/src/mpc_proto.c:34-76 | for every secret, one distinct dealt share fewer than the threshold reconstructs something else, so refusing fewer indices is necessary |
| MpcShamir.AddShareOnSum | mini-adv-crypto/src/mpc_proto.c:78-86 | the sum of two shares lies on the sum of the polynomials, whatever their sizes, keeps the position and records the left threshold and total |
| MpcShamir.MulShareOnProduct | mini-adv-crypto/src/mpc_proto.c:88-96 | the product of two shares lies on the product of the polynomials, keeps the position and left total, and records t1 + t2 - 1, in 32 bits |
| MpcShamir.ComputeOnShares | mini-adv-crypto/src/mpc_proto.c:78-96 | every arithmetic circuit evaluated share by share reconstructs the circuit on the secrets from as many distinct shares as it needs: the larger threshold at an addition, t1 + t2 - 1 at a product |
| MpcShamir.ShareRecords | mini-adv-crypto/src/mpc_proto.c:78-96 | the threshold that the shares of a result record, with the 32-bit wrap-around |
| MpcShamir.RecordedAgainstNeeded | mini-adv-crypto/src/mpc_proto.c:78-96 | never more than needed, and equal to it when every addition has the larger threshold on the left |
| MpcShamir.RecordedSuffices | mini-adv-crypto/src/mpc_proto.c:78-96 | for such circuits as many shares suffice as the shares themselves record |
| MpcShamir.SumThresholdExact | mini-adv-crypto/src/mpc_proto.c:78-86 | the threshold recorded by an addition suffices for all sharings if and only if the left threshold is not the smaller one |
| MpcShamir.DealtSumExact | mini-adv-crypto/src/mpc_proto.c:34-86 | for any two dealt sharings: as many shares of the sum as it records reconstruct the sum exactly if the public tail of the second polynomial interpolates to zero through their positions |
| MpcShamir.SumOfNextThresholdFails | mini-adv-crypto/src/mpc_proto.c:34-86 | for any two secrets dealt with thresholds t and t + 1 the sum records t, and t of its shares never reconstruct the sum |
| MpcShamir.SumOfZeros | mini-adv-crypto/src/mpc_proto.c:34-86 | at an input: secrets 0 and 0, thresholds 1 and 2, the first share of the sum reconstructs 39257 |
| ThresholdShares.Context.Split | mini-adv-crypto/src/threshold_sig.c:32-52 | return code, recorded parameters, every field of every dealt share, and what stays untouched |
| ThresholdShares.Reconstruct | mini-adv-crypto/src/threshold_sig.c:54-72 | refuses fewer than `threshold` shares, otherwise interpolates through the first `threshold` ones only |
| ThresholdShares.RefreshShare | mini-adv-crypto/src/threshold_sig.c:284-300 | one share after a refresh, with the 32-bit product in the noise |
| ThresholdShares.Context.RefreshProactive | mini-adv-crypto/src/threshold_sig.c:302-317 | overwrites every share in place with exactly the value that `RefreshShare` computes for it |
| ThresholdShares.NoiseLaw | mini-adv-crypto/src/threshold_sig.c:284-292 | the noise of a refresh: 31337 at epoch 0 and 7919 more with every epoch, except where the 32-bit product wraps or reaches p - 1 |
| ThresholdShares.NoiseSamples | mini-adv-crypto/src/threshold_sig.c:284-292 | one epoch whose product reaches p - 1, and one whose product wraps |
| ThresholdShares.RefreshCoefficientLaw | mini-adv-crypto/src/threshold_sig.c:288-296 | coefficient k of a refresh is k times the noise modulo p - 1, plus 1, and the constant term is 0 |
| ThresholdShares.RefreshedInNumbers | mini-adv-crypto/src/threshold_sig.c:284-300 | at an input: the share 5 at position 2 with threshold 3 becomes 313381 in epoch 0 |
| ThresholdShares.RefreshVerify | mini-adv-crypto/src/threshold_sig.c:319-331 | returns 0 if and only if the first `threshold` shares of both contexts reconstruct the same value |
| ThresholdShares.RefreshRunExtends | mini-adv-crypto/src/threshold_sig.c:302-317 | a run of refreshes grows by one call at a time |
| ThresholdShares.SharingReconstructs | mini-adv-crypto/src/threshold_sig.c:54-72 | any qualified choice from shares on a polynomial reconstructs its constant term |
| ThresholdShares.RefreshKeepsSecret | mini-adv-crypto/src/threshold_sig.c:302-317 | after dealing and any run of refreshes with any epochs, every qualified choice of shares reconstructs the secret modulo p |
| ThresholdShares.RefreshVerifyAccepts | mini-adv-crypto/src/threshold_sig.c:319-331 | any two contexts of one run compare equal, so the verification returns 0 |
| ThresholdShares.RefreshRound | mini-adv-crypto/src/threshold_sig.c:32-331 | the calls together: two contexts dealt alike, one of them refreshed in place over any epochs, and the verification returns 0 |
| ThresholdShares.SumReconstructs | mini-adv-crypto/src/threshold_sig.c:74-81 | pointwise sums of two sharings reconstruct the sum of the secrets |
| ThresholdShares.ProductReconstructs | mini-adv-crypto/src/threshold_sig.c:83-90 | pointwise products reconstruct the product of the secrets from t1 + t2 - 1 shares |
| ThresholdShares.ShareArithmetic | mini-adv-crypto/src/threshold_sig.c:74-90 | both operations with an explicit modulus and without one: position, party and the value reduced by the given modulus or by p |
| ThresholdShares.LagrangeCoeff | mini-adv-crypto/src/threshold_sig.c:92-104 | for every positive modulus that keeps the products within 64 bits: divides by zero exactly when the reduced denominator exceeds 1 and shares a factor with the modulus; otherwise denominator times result is the numerator modulo the modulus, or the result is the numerator itself where the denominator reduces to 0 |
| ThresholdShares.SmallModulusFits | mini-adv-crypto/src/threshold_sig.c:92-104 | every modulus of at most 2^31 keeps them within 64 bits |
| ThresholdShares.LagrangeCoeffFails | mini-adv-crypto/src/threshold_sig.c:92-104 | at an input: indices 1 and 5, target 5, modulus 6 divide by zero |
| ThresholdShares.CoefficientsRecover | mini-adv-crypto/src/threshold_sig.c:92-104 | weighting the values of a polynomial with these coefficients gives its constant term |
| FeldmanVss.Dealer.Setup | mini-adv-crypto/src/crypto_apps.c:240-269 | return code, the commitments g^a_j, the dealt shares, and what stays untouched |
| FeldmanVss.Dealer.PartyVerify | mini-adv-crypto/src/crypto_apps.c:277-288 | returns 0 if and only if g^share equals the product of the commitments to the powers x^j mod p |
| FeldmanVss.HonestShareAccepted | mini-adv-crypto/src/crypto_apps.c:277-288 | for every polynomial: the honest share is accepted if and only if g to the difference of the committed exponent sum and the share is 1 modulo p |
| FeldmanVss.HonestShareAcceptedIff | mini-adv-crypto/src/crypto_apps.c:277-288 | for every secret, with S the sum of a_j*(x^j mod p): the honest share is accepted if and only if g^(S/p) is 1 modulo p, the magnitude of a negative secret being added to the exponent |
| FeldmanVss.ZeroGeneratorAcceptedIff | mini-adv-crypto/src/crypto_apps.c:277-288 | for a generator divisible by p: accepted if and only if p divides S exactly when no exponent was committed |
| FeldmanVss.SmallSumAccepted | mini-adv-crypto/src/crypto_apps.c:277-288 | with S in [0, p): every share of a non-negative secret is accepted, that of a negative one if and only if g to its magnitude is 1 |
| FeldmanVss.HonestShareRejected | mini-adv-crypto/src/crypto_apps.c:277-288 | an honest share that the check rejects: secret p - 1, threshold 2, generator 2, party 0 |
| FeldmanVss.NegativeSecretRejected | mini-adv-crypto/src/crypto_apps.c:277-288 | another one, with S below p: secret -1, threshold 2, generator 2, party 0 |
| FeldmanVss.ShareRound | mini-adv-crypto/src/crypto_apps.c:240-288 | the two calls together: a party accepts its dealt share exactly under that condition |
| FeldmanVss.Reconstruct | mini-adv-crypto/src/crypto_apps.c:290-310 | the loop with inverses by powers is Lagrange interpolation at zero, including the 32-bit wrap of index + 1 |
| FeldmanVss.IndexPositionAt | mini-adv-crypto/src/crypto_apps.c:290-310 | the position of an index is one more, except 0 for the largest 32-bit index |
| FeldmanVss.ReconstructionsAgree | mini-adv-crypto/src/crypto_apps.c:290-310 | all three reconstructions return the same value on the same points |
| FeldmanVss.SetupReconstruct | mini-adv-crypto/src/crypto_apps.c:240-310 | any choice of at least `threshold` distinct dealt shares reconstructs the secret modulo p |
| FeldmanVss.SecretRound | mini-adv-crypto/src/crypto_apps.c:240-310 | the two calls together: the secret modulo p |
| Pedersen.Commitment.Setup | mini-adv-crypto/src/crypto_apps.c:326-342 | the second generator is the fixed power of the first, the record is cleared |
| Pedersen.Commitment.Commit | mini-adv-crypto/src/crypto_apps.c:344-362 | the stored commitment value, message and randomness; the parameters stay |
| Pedersen.Commitment.Verify | mini-adv-crypto/src/crypto_apps.c:370-385 | returns 0 exactly for openings that give the stored value, so in particular for what `Commit` stored |
| Pedersen.Commitment.HomomorphicAdd | mini-adv-crypto/src/crypto_apps.c:387-398 | the whole new record, also when the receiver is one of the operands |
| Pedersen.SetupIsSmall | mini-adv-crypto/src/crypto_apps.c:326-337 | from 32-bit g and p the second generator also has 32 bits |
| Pedersen.CommitIsPower | mini-adv-crypto/src/crypto_apps.c:344-362 | with 32-bit parameters the commitment is g^m * h^r modulo p |
| Pedersen.CommitmentWraps | mini-adv-crypto/src/crypto_apps.c:344-362 | at an input beyond 32 bits: the product of the two powers is taken modulo 2^64 before it is reduced |
| Pedersen.CommitmentsMultiply | mini-adv-crypto/src/crypto_apps.c:387-398 | the product of two commitments is the commitment to the unbounded sums |
| Pedersen.HomomorphicSumVerifies | mini-adv-crypto/src/crypto_apps.c:387-398 | if neither sum exceeds 64 bits, the sum of two commitments verifies for the recorded sums |
| Pedersen.SumRound | mini-adv-crypto/src/crypto_apps.c:326-398 | the calls together: two commitments under one setup, their sum, and its verification, which returns 0 if neither sum exceeds 64 bits |
| Pedersen.OverflowingSumVerifiesIff | mini-adv-crypto/src/crypto_apps.c:387-398 | for any sums and any modulus: it verifies if and only if the powers lost by the overflow do not change those kept |
| Pedersen.OverflowModuloPrime | mini-adv-crypto/src/crypto_apps.c:387-398 | modulo a prime, for units g and h: if and only if the lost powers cancel |
| Pedersen.OverflowingSumRejected | mini-adv-crypto/src/crypto_apps.c:387-398 | at an input: g = 3, p = 7, messages 2^64 - 1 and 1, randomness 0 |
| Pedersen.OpeningsCoincide | mini-adv-crypto/src/crypto_apps.c:326-385 | the second generator is a fixed known power of the first, so the commitments to m + 123456789*k with r and to m with r + k are the same, for every 32-bit g and p |
| Pedersen.RunOfSums | mini-adv-crypto/src/crypto_apps.c:387-398 | any run of additions commits to the totals |
| Accumulator.Acc.Init | mini-adv-crypto/src/crypto_advanced.c:330-336 | an empty list, the generator as value, for any modulus |
| Accumulator.Acc.Insert | mini-adv-crypto/src/crypto_advanced.c:338-351 | appends the element and raises the value to it, or refuses when the list has 256 elements |
| Accumulator.Acc.Remove | mini-adv-crypto/src/crypto_advanced.c:353-373 | the value becomes that of the list without the first occurrence; -1 if there is none |
| Accumulator.RemoveFirstAt | mini-adv-crypto/src/crypto_advanced.c:353-373 | the list without the first occurrence, entry by entry |
| Accumulator.Acc.GenWitness | mini-adv-crypto/src/crypto_advanced.c:375-399 | for N of at least 2: fails exactly for elements that were not inserted; otherwise the generator to the product of the others, reduced modulo N - 1 after each factor |
| Accumulator.Acc.VerifyWitness | mini-adv-crypto/src/crypto_advanced.c:401-412 | returns 0 exactly for a valid witness whose power is the accumulator |
| Accumulator.Acc.BatchVerify | mini-adv-crypto/src/crypto_advanced.c:414-420 | returns 0 if and only if every witness verifies |
| Accumulator.AccumulatedIsPower | mini-adv-crypto/src/crypto_advanced.c:338-351 | after any run of insertions the value is the generator to the product of the elements |
| Accumulator.OrderIrrelevant | mini-adv-crypto/src/crypto_advanced.c:338-351 | the value depends only on the multiset inserted |
| Accumulator.WitnessesVerify | mini-adv-crypto/src/crypto_advanced.c:375-412 | for a prime N with 65537 < N < 2^32 every generated witness is accepted, for elements of 32 bits and for larger ones that times N - 2 stay below 2^64 |
| Accumulator.WitnessRound | mini-adv-crypto/src/crypto_advanced.c:330-412 | the calls together: any insertions into a fresh accumulator, the witness of one element, and its verification, which returns 0 |
| Accumulator.WitnessesVerifyIff | mini-adv-crypto/src/crypto_advanced.c:375-412 | for any N below 2^32: all generated witnesses of such elements verify if and only if 65537^(N-1) is 1 modulo N |
| Accumulator.CompositeModulusRejects | mini-adv-crypto/src/crypto_advanced.c:375-412 | with N = 15 and the elements 14 and 1 an honest witness is rejected |
| Accumulator.LargeElementRejected | mini-adv-crypto/src/crypto_advanced.c:375-412 | with the prime 7 and the elements 5, 2^63 and 1 the exponent wraps and an honest witness is rejected |
| Accumulator.RemovalIsWitness | mini-adv-crypto/src/crypto_advanced.c:353-399 | for such a prime the value after removing e, which is the accumulator of the others, equals the witness generated for e just before |
| Accumulator.RemovalIsWitnessIff | mini-adv-crypto/src/crypto_advanced.c:353-399 | for any N below 2^32: that holds for all lists if and only if N exceeds 65537 and 65537^(N-1) is 1 modulo N |
| PolyRing.Add | mini-adv-crypto/src/post_quantum.c:46-51 | the sum modulo q, with the sign of the C remainder, also with overlapping operands |
| PolyRing.Sub | mini-adv-crypto/src/post_quantum.c:53-58 | the difference modulo q, with the sign of the C remainder, also with overlapping operands |
| PolyRing.Multiply | mini-adv-crypto/src/post_quantum.c:60-72 | for any int16 inputs and any length: multiplication in Z_q[X]/(X^n + 1) and which representatives are stored, with no int32 overflow |
| PolyRing.StoredProductInRing | mini-adv-crypto/src/post_quantum.c:60-72 | what is stored represents the ring product, and is the representative in [0, q) if no input coefficient is negative |
| PolyRing.CanonicalSums | mini-adv-crypto/src/post_quantum.c:46-58 | the same for sums of such coefficients, and for differences above -q |
| PolyRing.RemConvolutionCong | mini-adv-crypto/src/post_quantum.c:63-66 | taking a C remainder after every step stays congruent to the plain convolution |
| PolyRing.RemConvolutionSign | mini-adv-crypto/src/post_quantum.c:63-66 | and is not negative if no coefficient is |
| PolyRing.AddRow | mini-adv-crypto/src/post_quantum.c:64-66 | one row of the convolution, added in place, a C remainder at every position |
| PolyRing.Fold | mini-adv-crypto/src/post_quantum.c:68-70 | the second loop: the high half of the buffer subtracted from the low half, as C remainders |
| PolyRing.Reduce | mini-adv-crypto/src/post_quantum.c:74-79 | every coefficient becomes its representative in [0, q) |
| PolyRing.MulIsFoldedConvolution | mini-adv-crypto/src/post_quantum.c:63-70 | the ring product is the plain convolution with the high half subtracted from the low half |
| PolyRing.ShiftPower | mini-adv-crypto/src/post_quantum.c:60-72 | multiplying by X^i rotates and negates; X^n is -1, the relation of section 2.3 of FIPS 203 |
| PolyRing.MulCommutes | mini-adv-crypto/src/post_quantum.c:60-72 | the ring product commutes |
| PolyRing.MulAssociates | mini-adv-crypto/src/post_quantum.c:60-72 | the ring product is associative |
| PolyRing.MulModQ | mini-adv-crypto/src/post_quantum.c:60-72 | it depends only on the operands modulo q |
| PolyRing.CanonicalIsUnique | mini-adv-crypto/src/post_quantum.c:74-79 | reduced results are equal exactly for polynomials equal modulo q, and are the only ones in range |
| PolyRing.CallsCommute | mini-adv-crypto/src/post_quantum.c:60-79 | stored products in either order are equal once reduced |
| PolyRing.CallsAssociate | mini-adv-crypto/src/post_quantum.c:60-79 | chained products associate once reduced, whatever representatives the inner calls stored |
| PolyRing.CallsDistribute | mini-adv-crypto/src/post_quantum.c:46-79 | products distribute over sums once reduced |
| HeapMerkle.Tree.Build | mini-adv-crypto/src/crypto_apps.c:421-447 | return code; every slot of the tree: the data, zeros behind them up to the next power of two, each inner node the combination of its two children, the root |
| HeapMerkle.Tree.HashLevels | mini-adv-crypto/src/crypto_apps.c:440-444 | the bottom-up loop makes node k the combination of 2k and 2k + 1 and leaves the leaf level alone |
| HeapMerkle.PaddedCount | mini-adv-crypto/src/crypto_apps.c:427-428 | the doubling loop finds the least power of two that holds the leaves, and its depth |
| HeapMerkle.RootIsPairwise | mini-adv-crypto/src/crypto_apps.c:440-445 | the root is the recursive pairwise hash of the padded leaves |
| HeapMerkle.ZeroLeafChangesNothing | mini-adv-crypto/src/crypto_apps.c:435-438 | adding a zero leaf below the padded count leaves the padded leaves and the root as they are |
| HeapMerkle.RootOfThree | mini-adv-crypto/src/crypto_apps.c:435-445 | over three leaves the third is combined with zero |
| HeapMerkle.Tree.GenerateProof | mini-adv-crypto/src/crypto_apps.c:454-474 | fails exactly beyond the leaf count; otherwise the siblings on the way from the leaf to the root |
| HeapMerkle.VerifyProof | mini-adv-crypto/src/crypto_apps.c:476-490 | accepts if and only if climbing the path with the sides given by the index bits reaches the root |
| HeapMerkle.StartIndexWraps | mini-adv-crypto/src/crypto_apps.c:479-481 | the index at which the climb starts, in 32 bits |
| HeapMerkle.PathClimbsToRoot | mini-adv-crypto/src/crypto_apps.c:465-488 | the sibling walk and the halving walk fit together for an arbitrary non-commutative combination |
| HeapMerkle.GeneratedProofVerifies | mini-adv-crypto/src/crypto_apps.c:454-490 | for every leaf count and index the generated proof carries the datum and is accepted |
| HeapMerkle.ProofRound | mini-adv-crypto/src/crypto_apps.c:421-490 | the calls together: building, generating and verifying return 0 |
| HeapMerkle.AcceptedLeafIsDatum | mini-adv-crypto/src/crypto_apps.c:476-490 | an accepted proof of full length carries the datum at its index, or at the level returned its climb and that of the generated proof combine different pairs to the same hash |
| HeapMerkle.XorAcceptsIff | mini-adv-crypto/src/crypto_apps.c:413-419 | for the XOR combination of the program some path of full length is accepted for a leaf value if and only if the tree has more than one node or the value is the datum |
| HeapMerkle.SaltLaw | mini-adv-crypto/src/crypto_apps.c:413-419 | the constant of a position is 31 times it in one byte; the ninth wraps |
| MerklePaths.ExtractCollision | mini-adv-crypto/src/crypto_apps.c:476-490 | two paths with the same sides from different leaves to one root combine, at the level returned, different pairs to the same hash |
| PointerMerkle.Tree.Init | mini-blockchain-core/src/merkle_tree.c:57-62 | the empty tree |
| PointerMerkle.Tree.AddLeaf | mini-blockchain-core/src/merkle_tree.c:71-112 | -1 and no change for empty data; otherwise a valid tree again, whose leaves are the old ones with the new one first if their number was a power of two, else last |
| PointerMerkle.FindSlot | mini-blockchain-core/src/merkle_tree.c:87-103 | the breadth-first search ends at the first node with a free child pointer |
| PointerMerkle.AttachLeaf | mini-blockchain-core/src/merkle_tree.c:84-103 | after linking the new leaf there, the nodes form a tree whose in-order leaves are the old ones plus the new one |
| PointerMerkle.SlotOfFull | mini-blockchain-core/src/merkle_tree.c:87-103 | in a full tree the search ends at the leftmost leaf |
| PointerMerkle.SlotOfPacked | mini-blockchain-core/src/merkle_tree.c:87-103 | otherwise it ends at the highest lone parent of the right spine |
| PointerMerkle.Tree.AddLeaves | mini-blockchain-core/src/merkle_tree.c:114-121 | adds data up to the first empty one, and fails exactly if there is one or no data at all |
| PointerMerkle.RunKeepsLeaves | mini-blockchain-core/src/merkle_tree.c:71-121 | over any run of additions the multiset of leaves is exactly what was there plus what was added |
| PointerMerkle.FiveInOrder | mini-blockchain-core/src/merkle_tree.c:87-103 | the order of addition is not kept: five additions a, b, c, d, e leave e, c, b, a, d |
| PointerMerkle.CollectLeaves | mini-blockchain-core/src/merkle_tree.c:150-165 | the walk with an explicit stack yields the leaves in order |
| PointerMerkle.MakeParents | mini-blockchain-core/src/merkle_tree.c:130-141 | one level of fresh parents: each linked with its one or two children in both directions, with the hash of their hashes, zeros for a missing one |
| PointerMerkle.BuildTree | mini-blockchain-core/src/merkle_tree.c:123-144 | the recursion over levels, which relinks in place, yields a well-linked tree with the value of the level-by-level pairing |
| PointerMerkle.Tree.Rebuild | mini-blockchain-core/src/merkle_tree.c:146-177 | -1 for an empty tree; otherwise the same leaves in the same order under a newly built tree, so a second rebuild leaves the root hash unchanged |
| PointerMerkle.Tree.GetRoot | mini-blockchain-core/src/merkle_tree.c:179-184 | the stored root hash is the hash of the tree built from the leaves |
| PointerMerkle.Tree.GetLeaf | mini-blockchain-core/src/merkle_tree.c:192-211 | the leaf at the index in walk order, nothing beyond the count |
| PointerMerkle.Tree.GenerateProof | mini-blockchain-core/src/merkle_tree.c:213-251 | fails exactly beyond the count; otherwise index, leaf hash and the path of the very leaf that `GetLeaf` returns, cut at 64 levels |
| PointerMerkle.ClimbIsProofPath | mini-blockchain-core/src/merkle_tree.c:233-248 | the parent pointers from a leaf lead along the path of the abstract tree |
| PointerMerkle.VerifyProof | mini-blockchain-core/src/merkle_tree.c:253-270 | accepts if and only if climbing the path from the leaf hash reaches the root hash |
| MerkleValues.BuildFromLeaves | mini-blockchain-core/src/merkle_tree.c:123-144 | building keeps the leaves and their order |
| MerkleValues.BuildFromIsFull | mini-blockchain-core/src/merkle_tree.c:123-144 | all leaves of a built tree have one depth, and everything to the left is full; no node has a lone child if and only if the number of leaves is a power of two |
| MerkleValues.LoneAncestorIff | mini-blockchain-core/src/merkle_tree.c:123-144 | leaf k of n has a lone ancestor exactly if some halving of (n, k) makes it the unpaired last one; proofs have as many steps as there are levels |
| MerkleValues.ProofVerifies | mini-blockchain-core/src/merkle_tree.c:213-270 | the generated proof of a leaf whose ancestors all have two children is accepted |
| MerkleValues.PowerOfTwoVerifies | mini-blockchain-core/src/merkle_tree.c:213-270 | with a power of two of leaves every generated proof is accepted |
| MerkleValues.ProofAcceptedIff | mini-blockchain-core/src/merkle_tree.c:213-270 | for any hash function a generated proof is accepted if and only if every lone child on its way has the all-zero hash, or climb and tree hash different bytes to the same value at a node with only such lone children above it |
| MerkleValues.LoneAncestorRejected | mini-blockchain-core/src/merkle_tree.c:238-246 | where climb and tree never hash different bytes to the same value and no lone child has the all-zero hash: accepted if and only if the leaf has no lone ancestor |
| MerkleValues.ThirdOfThreeRejected | mini-blockchain-core/src/merkle_tree.c:213-270 | with three leaves and a concrete hash function the generated proof of the last leaf is rejected, without any collision or lone all-zero hash on its way |
| MerkleValues.ProofsBind | mini-blockchain-core/src/merkle_tree.c:253-270 | two accepted proofs with one root, depth and directions but different leaf hashes hash, at the level returned, different bytes to the same value |
| PointerMerkle.ProofsAreWhole | mini-blockchain-core/src/merkle_tree.c:233-248 | for up to 2^64 leaves no proof is cut at 64 levels |
| PointerMerkle.PairedLeafVerifies | mini-blockchain-core/src/merkle_tree.c:213-270 | the generated proof of a leaf that is never the unpaired last one is accepted |
| PointerMerkle.VerifiesIff | mini-blockchain-core/src/merkle_tree.c:213-270 | exactly which leaves have an accepted generated proof, for any hash function; where neither a collision along the climb nor a lone all-zero hash intervenes, exactly those that are never the unpaired last one of a level |
| PointerMerkle.AcceptedProofIsOfLeaf | mini-blockchain-core/src/merkle_tree.c:253-270 | any accepted proof with the directions of an always paired leaf carries that hash, or at the level returned the two climbs hash different bytes to the same value |
| PointerMerkle.ProofRound | mini-blockchain-core/src/merkle_tree.c:71-270 | the calls together: adding, generating and verifying accept for every position that is always paired |
| ProofOfWork.HashLessThan | mini-blockchain-core/src/consensus_pow.c:40-46 | the bytewise comparison is the order of the big-endian numbers |
| ProofOfWork.BigEndianByWeight | mini-blockchain-core/src/consensus_pow.c:40-46 | the number that a hash stands for: the first byte weighs most, by powers of 256 |
| ProofOfWork.ValidateBlock | mini-blockchain-core/src/consensus_pow.c:244-255 | accepts exactly if the Merkle root is the expected one, the stored hash is that of the header, and it is below the target |
| ProofOfWork.FirstHitIsLeast | mini-blockchain-core/src/consensus_pow.c:58-66 | the first hit is the least nonce in range that beats the target, and there is none exactly if no nonce does |
| ProofOfWork.Mine | mini-blockchain-core/src/consensus_pow.c:54-68 | succeeds exactly if some nonce below min(max_nonce, 2^32) beats the target, leaves the least one and its hash, and the block validates; the header after a failure |
| ProofOfWork.MineAndValidate | mini-blockchain-core/src/consensus_pow.c:244-255 | the two calls together: a mined block is accepted against its own root and rejected against any other, and after a header change it is accepted exactly if the hash stays the same |
| ProofOfWork.MineIncremental | mini-blockchain-core/src/consensus_pow.c:70-87 | searches [start, start + count), clamped on overflow, with 32-bit nonces; result, header and hash in either case |
| ProofOfWork.RangeEndIs | mini-blockchain-core/src/consensus_pow.c:70-76 | the end of the searched range: the sum, or the largest 64-bit number where it overflows |
| ProofOfWork.ChunksCoverRange | mini-blockchain-core/src/consensus_pow.c:70-87 | searches of consecutive chunks find what one search of the whole range finds |
| ProofOfWork.SearchSaturates | mini-blockchain-core/src/consensus_pow.c:70-87 | nonces from 2^32 on find nothing new |
| ProofOfWork.StoredNonceIrrelevant | mini-blockchain-core/src/consensus_pow.c:76-84 | the nonce that an earlier search left in the header does not matter |
| ProofOfWork.ChunksEqualMine | mini-blockchain-core/src/consensus_pow.c:54-87 | searches of consecutive chunks from 0, until one succeeds, find what one search below min(total, 2^32) finds |
| ProofOfWork.MineInChunks | mini-blockchain-core/src/consensus_pow.c:54-87 | consecutive incremental calls from 0 have the status of `Mine` with their total as bound, and on success its header and block hash; after a failure the header differs only in the nonce, the last one tried |
| ProofOfWork.Chain.constructor | mini-blockchain-core/src/consensus_pow.c:266-273 | the empty chain |
| ProofOfWork.Chain.AddBlock | mini-blockchain-core/src/consensus_pow.c:290-320 | appending a block that is not in the chain keeps the invariant: distinct, doubly linked blocks, heights, accumulated work, total work; height and work of the new block in 32 and 64 bits; appending one that is in it leaves the stated cycle and no sequence of distinct, doubly linked blocks of the recorded length |
| ProofOfWork.AppendTwice | mini-blockchain-core/src/consensus_pow.c:290-320 | at an input: appending one block twice |
| ProofOfWork.Chain.ChainWorkIsPrefixSum | mini-blockchain-core/src/consensus_pow.c:290-320 | in every valid chain the work recorded at block k is the sum up to it modulo 2^64, uncut while that is smaller, the total is that of all blocks, and the height is k modulo 2^32 |
| ProofOfWork.WorkIsSum | mini-blockchain-core/src/consensus_pow.c:290-320 | the accumulated work: the difficulty of 0x1d00ffff for the first block plus the difficulties of all later ones |
| ProofOfWork.Chain.GetByHeight | mini-blockchain-core/src/consensus_pow.c:344-354 | block k exactly when k is below the length |
| CorpusMinimiser.CoverageMap.Update | mini-binary-security/src/fuzzing_tool.c:70-84 | ORs the data in place; reports new coverage exactly if some byte changed, and counts those bytes |
| CorpusMinimiser.ChangesCount | mini-binary-security/src/fuzzing_tool.c:75-82 | the count of changed bytes is the number of positions at which the map changes |
| CorpusMinimiser.Corpus.Minimize | mini-binary-security/src/fuzzing_tool.c:131-160 | the in-place compaction leaves exactly the kept entries in front, the vacated slots without data, the rest untouched |
| CorpusMinimiser.KeptIsSubsequence | mini-binary-security/src/fuzzing_tool.c:138-155 | the kept entries are a subsequence of the corpus |
| CorpusMinimiser.KeptCoversAll | mini-binary-security/src/fuzzing_tool.c:138-155 | their combined bitmap is that of the whole corpus |
| CorpusMinimiser.EachKeptAddsABit | mini-binary-security/src/fuzzing_tool.c:142-149 | each kept entry has a bit, exhibited with its position, that no kept entry before it has |
| CorpusMinimiser.KeptIffNewBit | mini-binary-security/src/fuzzing_tool.c:138-155 | an entry is kept if and only if it has a bit that no kept entry before it has |
| CorpusMinimiser.KeptIsStable | mini-binary-security/src/fuzzing_tool.c:131-160 | minimising again changes nothing |
| CorpusMinimiser.UnionBits | mini-binary-security/src/fuzzing_tool.c:75-82 | a bit of the combined bitmap is set exactly if some entry has it |
| CorpusMinimiser.NoBitLost | mini-binary-security/src/fuzzing_tool.c:131-160 | every bit that some entry has is still held by a kept entry |
| CrashTriage.ComputeHash | mini-binary-security/src/fuzzing_tool.c:472-477 | shift-and-add in 32 bits is multiplication by 33, over at most 256 bytes |
| CrashTriage.HashByAppending | mini-binary-security/src/fuzzing_tool.c:472-477 | the hash of the empty input, of one byte more, and of inputs beyond 256 bytes |
| CrashTriage.EachByteMatters | mini-binary-security/src/fuzzing_tool.c:472-477 | changing any one of the first 256 bytes changes the hash |
| CrashTriage.Fuzzer.CrashFind | mini-binary-security/src/fuzzing_tool.c:479-485 | the first entry with the hash, -1 exactly if there is none |
| CrashTriage.Fuzzer.CrashSave | mini-binary-security/src/fuzzing_tool.c:491-528 | the log after a crash: known hashes only counted, a full database drops it |
| CrashTriage.SavedOutcomes | mini-binary-security/src/fuzzing_tool.c:491-528 | the three outcomes field by field: a known hash, a full database, a new entry |
| CrashTriage.Fuzzer.SaveIfInteresting | mini-binary-security/src/fuzzing_tool.c:452-466 | executes the target once on a non-empty buffer and extends the run by it |
| CrashTriage.ExecutedIsConsistent | mini-binary-security/src/fuzzing_tool.c:452-528 | each execution keeps stored hashes distinct and correct and the counter equal to the database size |
| CrashTriage.RunCollects | mini-binary-security/src/fuzzing_tool.c:452-528 | after any run stored crashes have distinct hashes, as many as counted, each a crashing input of the run, and every crashing input is represented unless the database is full |
| CrashTriage.TotalCountsCrashes | mini-binary-security/src/fuzzing_tool.c:452-528 | over any run every crash is counted while the database is not full, and never more than those |
| CrashTriage.Fuzzer.MutateBitflip | mini-binary-security/src/fuzzing_tool.c:174-188 | one pass of flips over the entry is tried, in order, and the buffer is restored |
| CrashTriage.PassFlipsOneBit | mini-binary-security/src/fuzzing_tool.c:180-187 | for any width each buffer of the pass differs from the entry in the stated bit of the stated byte only |
| CrashTriage.OneBytePassIsExhaustive | mini-binary-security/src/fuzzing_tool.c:180-187 | the one-byte pass tries each buffer that differs in exactly one byte, by one of the eight powers of two, exactly once and nothing else |

## Left out

- MpcShamir.Context.Split: requires a threshold of at most 16, the size of the coefficient buffer, which the code does not check; likewise 32 for ThresholdShares.Context.Split, and a threshold of at least 1 once there is a party to deal to.
- Accumulator.WitnessesVerifyIff: moduli of 33 bits or more, and elements of more than 32 bits that times N - 2 reach 2^64, where products wrap; `AccumulatedIsPower` needs no bound on the elements, only the product in `GenWitness` does.
- Accumulator.Acc.GenWitness: requires N of at least 2; for N = 1 the code divides by zero as soon as another element was inserted, for N = 0 its subtraction wraps.
- Accumulator.Acc.Remove: the element list is not shrunk by the code, so nothing is said about calls after a removal.
- PointerMerkle.Tree.AddLeaf: the fixed queue of 2048 and stacks of 1024 nodes are unbounded sequences here, allocation never fails, and unlinked parents are simply dropped.
- ProofOfWork.Chain.GetByHeight: exact up to 2^32 blocks, where the height field wraps.
- CrashTriage.RunCollects: counters are unbounded, and the file name and time stamps of a crash are not modelled; the target is a function of the buffer.
- CrashTriage.Fuzzer.MutateBitflip: the bytes behind the entry that a reused or newly allocated buffer holds are arbitrary.
- CorpusMinimiser.Corpus.Minimize: console output and the freeing of memory; an entry without data is `None`.
- The Patricia trie in merkle_tree.c: splitting drops the branching byte that lookup does not skip, so it is not a map; its proofs are stubs.
- pow_chain_reorg and pow_chain_remove_block: the first compares candidate blocks by pointer, the second leaves heights stale.
- Compact bits and target adjustment in consensus_pow.c: the two conversions are not inverse and the difficulty uses floating point; difficulty is a parameter here.
- SHA-256 and header serialisation: arbitrary functions here; so is the combination of the heap tree, except in `XorAcceptsIff`.
- The number-theoretic transform, Kyber, Dilithium and SPHINCS routines of post_quantum.c, FROST, key generation, ratchets, ring signatures, threshold decryption, homomorphic encryption and zero-knowledge files: placeholder arithmetic without the properties their names suggest.
- The other mutators, trimming, calibration and the main loop of the fuzzer: random choices and output.
- Null-pointer checks at the start of the C functions: the model has no null arguments.
