# Falcon arithmetic, formats and protocol: a verified model

This project models the exact integer core of a deterministic Falcon signature implementation and
its Solidity verifier, and proves what that core is for.

* **Ring arithmetic.** Three in-place transforms (16-bit Montgomery words modulo 12289, 31-bit
  Montgomery words modulo the key generation primes, and 256-bit words with exact modular
  multiplication) are instances of one theory (`Polynomials`, `NttTree`, `NttStages`,
  `NttInPlace`, `Convolution`). The loops refine a recursion, the recursion evaluates at the roots
  of X^n + 1, and evaluation turns the schoolbook product into pointwise multiplication.
* **Keys, signing and verification.** `Verify`, `Keys`, `Completion`, `Recovery`, `Signing` and `SigningLimits` state
  every verdict without any transform and prove that signing implies verifying and that recovery
  and verification agree.
* **Key generation.** `Modp`, `ModpTransform`, `StridedWords`, `ModpNtt` and `NtruCheck` show that the closing check
  decides the NTRU equation over the integers. `BigNum`, `LimbArithmetic`, `Crt`, `BezoutSteps`,
  `BezoutModular`, `GcdSteps`, `GcdLanes`, `GcdRounds`, `Bezout`, `Deepest` and `FieldNorm` treat the
  31-bit limb arithmetic, the Chinese remainder reconstruction, the batched extended GCD with the
  condition for its success, the mixed-parity base case and the parity of resultants; `SignedResidues` and `MakeFg` take f and g down to their resultants in
  residues, so that the base case is stated from f and g themselves; `SmallDegrees` bounds
  these norms at the smallest degrees.
* **Hashing.** `HashToPoint` proves the constant-time compaction network equal to the rejection
  loop, and `Oversampling` and `OversamplingTable` count the streams for which it fails: the number of
  extra samples is the smallest that keeps them below 2^-256 of all; `KeccakSponge`, `KeccakPrng` and `KeccakPoint` treat the Keccak generator, and the Solidity
  form of the same hash, for any permutation.
* **Formats.** `BitStrings`, `Formats`, `FixedCodecs`, `CompressedCodec` and `SignatureSize` show that
  all codecs are exact canonical bijections and that every acceptable signature fits.
  `FalconVerify` and `Deterministic` carry this through header parsing, salting and the conversion
  between the two signature formats.
* **Emulated binary64.** `Rounding`, `FprProducts`, `FprSum` and `FprRounding` show that addition,
  multiplication, division and square root are correctly rounded (section 4.3.1 of IEEE 754-2019).

Machine words are mathematical integers with every wrap-around written out (`Words`). Masks that
select a value are conditionals, and disjunctions of words with disjoint bits are sums. Arrays that
the source keeps in one work buffer are separate arrays. Tables of powers enter by their documented
formula. The hash permutation and the extendable-output function are function parameters. Samples
from a generator are sequences. Products of polynomials in the signing step are exact.

Two findings differ from what the source documents. `zint_bezout` announces x * u - y * v = 1 for all
odd operands; for y = 1 the values it returns never satisfy it (x = y = 1 succeeds with u = v = 0), and
`Bezout.ZintBezout` states the exact condition. The shortness test in signing squares a 32-bit
difference, which wraps in two's complement (in C an overflow of that signed product is undefined; the
wrap is assumed), and narrows the second half to 16 bits. `Signing.AcceptedExactly` and `Signing.VerdictOfPoint`
state exactly which points are valid signatures; `Signing.SigningImpliesVerifying` gives a bound on
the first half under which acceptance is enough, and `SigningLimits` shows for every degree that the
bound cannot be raised and that the second half has to fit.

## Model

| member | source | states |
|---|---|---|
| `Polynomials.ProductCoefficient` | crypto/vrfy.c:504-588 | Horner multiplication modulo X^n + 1 has the schoolbook coefficients: signed convolution sums |
| `Polynomials.EvalProduct` | crypto/vrfy.c:504-588 | a product modulo X^n + 1 takes the product of the values wherever x^n is -1, for every modulus |
| `NttTree.NttEval` | crypto/vrfy.c:504-532 | entry i of the recursive transform is the value at the i-th root of X^n + 1, from the table recurrences alone |
| `NttTree.InttNtt` | crypto/vrfy.c:534-588 | the inverse recursion undoes the transform up to the factor n, at every node of the tree |
| `NttTree.NttIntt` | crypto/vrfy.c:534-588 | the transform undoes the inverse recursion up to the factor n |
| `NttStages.StageRefines` | crypto/vrfy.c:504-532 | one in-place pass descends one level of the recursion in every block, so the passes together are the recursive transform |
| `NttStages.InverseStageRefines` | crypto/vrfy.c:534-588 | one in-place inverse pass merges all pairs of blocks one level up |
| `Convolution.ForwardProduct` | crypto/vrfy.c:604-617 | the transform turns multiplication modulo (q, X^n + 1) into pointwise multiplication |
| `Convolution.BackwardForward` | crypto/vrfy.c:534-588 | inverse transform with 1/n after transform is the identity on reduced vectors |
| `Convolution.ForwardBackward` | crypto/vrfy.c:534-588 | transform after inverse transform is the identity on reduced vectors |
| `Convolution.ValuesDetermine` | crypto/keygen.c:4160-4201 | integer polynomials with congruent values at all roots are congruent: the transform is injective |
| `RootTables.TablesValid` | crypto/vrfy.c:52-56 | powers of a root g with g^(2^b) = -1 in bit-reversed order satisfy the recurrences s(1)^2 = -1, s(2k)^2 = s(k), s(2k+1)^2 = -s(k) |
| `Mq.MqConvSmall` | crypto/vrfy.c:324-339 | the residue of a signed byte |
| `Mq.MqAdd` | crypto/vrfy.c:344-359 | the residue of the sum for reduced operands, despite the 32-bit wrap |
| `Mq.MqSub` | crypto/vrfy.c:361-376 | the residue of the difference for reduced operands |
| `Mq.MqRshift1` | crypto/vrfy.c:381-386 | the residue whose double is x |
| `Mq.MontyMulMeaning` | crypto/vrfy.c:388-424 | Montgomery multiplication is x * y / 2^16 modulo q and reduced; no 32-bit overflow matters |
| `MqDivision.AdditionChain` | crypto/vrfy.c:438-499 | the addition chain reaches the exponent q - 2 |
| `MqDivision.MqDivMeaning` | crypto/vrfy.c:435-499 | division is exact for every nonzero divisor and yields 0 for a zero divisor |
| `Fermat.FermatInverse` | crypto/vrfy.c:440-447 | for a prime p and a nonzero residue y, y^(p-2) inverts y (proved from the binomial theorem) |
| `MqDivision.QIsPrime` | crypto/vrfy.c:440-447 | 12289 is prime |
| `MqTransform.SevenIsPrimitive` | crypto/vrfy.c:52-60 | 7 is a 1024-th root of -1 modulo q, and the first table entries are R and R * 7^512 |
| `MqTransform.MqButterflyBlock` | crypto/vrfy.c:520-529 | the inner loop performs one block of butterflies in place, on reduced words, and keeps them reduced |
| `MqTransform.MqPass` | crypto/vrfy.c:514-531 | one pass of the outer loop is one stage of the transform |
| `MqTransform.MqNtt` | crypto/vrfy.c:501-532 | the in-place loop computes the transform of every reduced vector, for every degree up to 1024, and keeps it reduced |
| `MqInverse.HalvingStep` | crypto/vrfy.c:575-583 | halving modulo q moves R/2^k to R/2^(k+1): the final factor is R/n |
| `MqInverse.MqDivideByN` | crypto/vrfy.c:570-587 | the final loops divide every entry by n |
| `MqInverse.MqIntt` | crypto/vrfy.c:534-588 | the in-place loop computes the inverse transform, division by n included, and keeps it reduced |
| `MqPoly.MqPolyToMonty` | crypto/vrfy.c:590-602 | every reduced word becomes its Montgomery representation, in place |
| `MqPoly.PointwiseWords` | crypto/vrfy.c:604-617 | with one factor in Montgomery representation the pointwise products are plain residues |
| `MqPoly.MqPolySub` | crypto/vrfy.c:620-630 | the residues of the difference, in place |
| `MqPoly.CenteredMeaning` | crypto/vrfy.c:685-693 | centering keeps the residue, lands in -6144..6144 and never increases the square |
| `Verify.ToNttMonty` | crypto/vrfy.c:646-652 | the prepared key is the transform of the key in Montgomery representation |
| `Verify.MultiplyByKey` | crypto/vrfy.c:677-681 | transform, pointwise product with a prepared key and inverse transform multiply modulo (q, X^n + 1), for every integer s2 |
| `Verify.PipelineMeaning` | crypto/vrfy.c:665-693 | the words of the loops end with the centred residues of s2 * h - c0 |
| `Verify.VerifyRaw` | crypto/vrfy.c:654-700 | accepts exactly if the centred s2 * h - c0 together with s2 is within the bound, for every signed 16-bit s2 and every reduced c0 and key |
| `Norms.AddSquare` | crypto/common.c:262-284 | no addition of a 16-bit square can skip over bit 31: the running word is exact until the flag is set |
| `Norms.IsShort` | crypto/common.c:255-284 | decides the exact unbounded comparison of the squared norm with the bound, despite 32-bit wrap-around |
| `Norms.IsShortHalf` | crypto/common.c:286-306 | decides the same comparison from the saturated norm of the first half |
| `SigningLimits.BoundFromSigma` | crypto/common.c:236-253 | the bound is the floor of 1.21 * sigma^2 * 2n at every degree, for the binary64 words of 1 / sigma in crypto/fpr.h:231-243 |
| `Division.InvertibleIff` | crypto/vrfy.c:717-722 | f is invertible modulo (q, X^n + 1) exactly if its transform has no zero entry |
| `Division.QuotientUnique` | crypto/vrfy.c:717-722 | the quotient by an invertible f is unique among reduced polynomials |
| `Keys.ComputePublic` | crypto/vrfy.c:702-726 | succeeds exactly if f is invertible, and then h * f = g modulo (q, X^n + 1) |
| `Completion.CompletePrivate` | crypto/vrfy.c:728-772 | succeeds exactly if f is invertible and some G with coefficients in -127..127 satisfies f * G = g * F modulo q; returns the only such G |
| `Recovery.IsInvertible` | crypto/vrfy.c:774-798 | decides invertibility of s2 modulo (q, X^n + 1) whenever all coefficients are within -12288..12288 |
| `Recovery.VerifyRecover` | crypto/vrfy.c:800-854 | succeeds exactly if (s1, s2) is short and s2 invertible, for all signed 16-bit vectors; then s2 * h = c0 - s1 |
| `Recovery.RecoveredKeyVerifies` | crypto/vrfy.c:654-700 | a short (s1, s2) with s2 * h = c0 - s1 is a valid signature under h |
| `Recovery.ValidSignatureRecovers` | crypto/vrfy.c:800-854 | from a valid signature with invertible s2, recovery on the centred s1 succeeds and its only possible result is the verified key |
| `Signing.ComputeNorm` | crypto/sign.c:1061-1072 | the 32-bit running sum and flag over the differences hm - r0, and the first half in 16 bits |
| `Signing.AcceptPoint` | crypto/sign.c:1061-1092 | writes s2 exactly when the saturated norm passes the test, and leaves it untouched otherwise; the output may be the array of the message |
| `Signing.AcceptanceExact` | crypto/sign.c:1061-1072 | while every difference is at most 46340 in magnitude (46341 for two coefficients) the test is the exact one over the integers |
| `Signing.LatticePointQuotient` | crypto/sign.c:1044-1059 | every lattice point z0*(g,-f) + z1*(G,-F) satisfies s2 * h = r0 modulo (q, X^n + 1) |
| `Signing.VerdictOfPoint` | crypto/sign.c:1044-1092 | for every key, sampled integers and message: the narrowed lattice point is a valid signature exactly if its first half, corrected by what narrowing to 16 bits dropped and centred modulo q, is short together with the second half |
| `Signing.AcceptedExactly` | crypto/sign.c:1044-1092 | a lattice point whose second half fits 16 bits is valid exactly if it is short with its first half centred modulo q, which the signer can compute; so an accepted point is valid exactly under that test |
| `Signing.SigningImpliesVerifying` | crypto/sign.c:1044-1092 | whatever integers the sampler returns, an accepted point whose second half fits 16 bits and whose first half is within the square limit is a valid signature |
| `SigningLimits.OverflowingPointFails` | crypto/sign.c:1064-1072 | the square limit is sharp at every degree: with differences at most one larger a key, sampled integers and a message exist whose point is accepted although no key verifies it |
| `SigningLimits.NarrowedPointFails` | crypto/sign.c:1083-1086 | the second half has to fit 16 bits at every degree: a point with first half zero is narrowed to zero and accepted, and no key verifies it |
| `Modp.NinvMeaning` | crypto/keygen.c:682-698 | the Newton iteration inverts every odd 31-bit p modulo 2^31 |
| `Modp.MontyMeaning` | crypto/keygen.c:750-765 | Montgomery multiplication modulo a 31-bit prime is x * y / 2^31, reduced, within 64 bits |
| `Modp.R2Meaning` | crypto/keygen.c:767-797 | the constant is 2^62 modulo p |
| `Modp.ModpNormMeaning` | crypto/keygen.c:673-680 | normalisation gives the centred representative |
| `ModpTransform.ModpDiv` | crypto/keygen.c:827-866 | square-and-multiply reaches the exponent p - 2; for prime p and nonzero divisor the result is the quotient |
| `ModpTransform.RootOfLength` | crypto/keygen.c:983-993 | repeated squaring gives the root of order 2n and its inverse, using only g^2048 = 1 |
| `ModpTransform.ModpMkgm2` | crypto/keygen.c:960-1005 | both tables hold the Montgomery forms of the powers of g and 1/g in bit-reversed order, for every degree |
| `StridedWords.StoreAt` | crypto/keygen.c:1006-1044 | a store at a selected position changes one word of the walk and nothing elsewhere: different indexes never meet |
| `ModpNtt.ModpNtt2Ext` | crypto/keygen.c:1006-1044 | for every start and stride, the in-place loop computes the transform modulo p of the selected words and touches no other |
| `ModpNtt.ModpIntt2Ext` | crypto/keygen.c:1047-1098 | for every start and stride, the in-place inverse loop and the multiplication by 2^(31-logn) compute the inverse transform of the selected words and touch no other |
| `ModpNtt.ModpNtt2` | crypto/keygen.c:1100-1105 | with stride 1, the transform of the whole array |
| `ModpNtt.ModpIntt2` | crypto/keygen.c:1100-1105 | with stride 1, the inverse transform of the whole array |
| `NtruCheck.FirstPrime` | crypto/keygen.c:85-105 | the first prime and generator of the table are as the transform needs them |
| `NtruCheck.ProductBounded` | crypto/keygen.c:4160-4164 | coefficients of a product are at most n times the product of the bounds |
| `NtruCheck.CheckEquation` | crypto/keygen.c:4160-4201 | one prime decides f * G - g * F = q over the integers, in both directions, for all signed 8-bit polynomials |
| `NtruCheck.WordsComeBack` | crypto/keygen.c:2034-2045 | an integer below 2^30 in magnitude is read back both from a 31-bit limb and from the 32-bit word that the last reduction step stores |
| `NtruCheck.BigToSmall` | crypto/keygen.c:2101-2127 | for every 32-bit word: succeeds exactly if all words, read in two's complement, are within the limit, and then stores them |
| `NtruCheck.FinishSolving` | crypto/keygen.c:4150-4201 | whatever 32-bit words the reduction steps left, success is equivalent to: within the limit and f * G - g * F = q over the integers |
| `LimbArithmetic.ZintSub` | crypto/keygen.c:1169-1197 | difference modulo 2^(31 len) with the borrow; stored only under control |
| `LimbArithmetic.ZintMulSmall` | crypto/keygen.c:1199-1218 | the words and the carry are x times the number |
| `LimbArithmetic.ZintAddMulSmall` | crypto/keygen.c:1273-1297 | x + s * y, one word longer, with no overflow |
| `LimbArithmetic.CompareWithHalf` | crypto/keygen.c:1307-1342 | the sign of floor(p/2) - x, from the top word down |
| `LimbArithmetic.ZintNormZero` | crypto/keygen.c:1299-1349 | x becomes x - p exactly if it exceeds p/2, in two's complement |
| `LimbArithmetic.Z31Add` | crypto/keygen.c:631-641 | sum and carry, also when the result overwrites an operand |
| `LimbArithmetic.Z31Sub` | crypto/keygen.c:644-657 | difference and borrow, also when the result overwrites an operand |
| `Crt.ZintModSmallUnsigned` | crypto/keygen.c:1220-1253 | the residue of a big integer modulo a 31-bit prime |
| `Crt.RebuildStep` | crypto/keygen.c:1393-1407 | adding a multiple of the previous moduli gives the next residue and keeps the earlier ones, in range |
| `SignedResidues.ModpRx` | crypto/keygen.c:801-825 | 2^31 to any positive power modulo p, by binary exponentiation |
| `SignedResidues.ZintModSmallSigned` | crypto/keygen.c:1255-1271 | the residue of a big integer in two's complement |
| `Crt.ZintRebuildCRT` | crypto/keygen.c:1351-1423 | every array of residues becomes the words of the number with those residues, in 0..m-1, or centred around 0 in two's complement, for any prime list with correct s values |
| `Crt.RebuiltUnique` | crypto/keygen.c:1351-1364 | there is only one number in 0..m-1 with given residues |
| `BezoutSteps.ZintNegate` | crypto/keygen.c:1425-1450 | negation under control, with a signed top word |
| `BezoutSteps.ZintCoReduce` | crypto/keygen.c:1452-1499 | both combinations divided exactly by 2^31, made nonnegative, with their signs |
| `BezoutModular.ZintFinishMod` | crypto/keygen.c:1501-1548 | a value in -m..2m-1 is reduced modulo m |
| `BezoutModular.ZintCoReduceMod` | crypto/keygen.c:1550-1599 | both combinations over 2^31 modulo an odd m, in 0..m-1 |
| `GcdLanes.Exceeds` | crypto/keygen.c:1853-1858 | the sign-bit formula decides a > b |
| `GcdSteps.StepShrinks` | crypto/keygen.c:1696-1702 | every step of the binary GCD on integers keeps one number odd and at least halves the product |
| `GcdSteps.StepsDecide` | crypto/keygen.c:1696-1710 | after as many steps as the product has bits, the first number is 1 exactly if the odd operands have no common divisor above 1 |
| `GcdLanes.ReductionFactors` | crypto/keygen.c:1824-1899 | after 31 steps the factors satisfy |pa| + |pb| <= 2^31 and both combinations are multiples of 2^31, whatever the top words are |
| `GcdLanes.ExtractTop` | crypto/keygen.c:1782-1822 | the top words of both numbers at the highest place where one of them is not zero |
| `GcdLanes.TopIsPair` | crypto/keygen.c:1782-1822 | the top words depend on the two integers only, not on the length of the arrays, and below 2^62 they are the integers themselves |
| `GcdRounds.RoundExact` | crypto/keygen.c:1824-1914 | below 2^62 a round is exactly 31 steps of the binary GCD on integers: every comparison of top words is that of the numbers, and no correction of a sign is needed |
| `GcdRounds.RoundsDecide` | crypto/keygen.c:1716-1724 | for odd operands below 2^62 the rounds end with 1 exactly if there is no common divisor above 1 |
| `Bezout.GcdRound` | crypto/keygen.c:1901-1913 | one round keeps the ranges and the congruences of u modulo y and v modulo x |
| `Bezout.GcdEnd` | crypto/keygen.c:1916-1927 | when the GCD is down to 1 the identity holds exactly if y > 1 |
| `Bezout.BezoutRound` | crypto/keygen.c:1773-1914 | one round on the words of the six running integers: keeps the ranges and congruences, and takes a and b to the round of the two integers |
| `Bezout.ZintBezout` | crypto/keygen.c:1601-1927 | for integers of any length: succeeds exactly if both operands are odd and the rounds end with 1, which for operands below 2^62 is to have no common divisor above 1; success implies 0 <= u < y, 0 <= v < x, and x * u - y * v = 1 exactly if y > 1; x = y = 1 succeeds with u = v = 0 |
| `Deepest.OddEven` | crypto/keygen.c:2811-2845 | succeeds exactly if x + y, the GCD of (x, x + y) and the two sums fit or succeed, since the subtraction never borrows; the coefficients for (x, x + y) become those for (x, y) |
| `Deepest.EvenOdd` | crypto/keygen.c:2846-2876 | likewise from (x + y, y) to (x, y) |
| `Deepest.SolveDeepest` | crypto/keygen.c:2760-2894 | succeeds exactly if the GCD of the operands adjusted by parity succeeds and all sums and multiples by 12289 fit the words; then f * G - g * F = 12289 exactly if the second GCD operand is more than 1; two even resultants are rejected |
| `Deepest.AdjustedCoprime` | crypto/keygen.c:2811-2876 | the operands adjusted by parity are coprime exactly if the resultants are |
| `Deepest.SolvableIffCoprime` | crypto/keygen.c:2760-2894 | with room in the words and operands below 2^60, success is exactly that the resultants are coprime |
| `Deepest.SolveNtruDeepest` | crypto/keygen.c:2760-2894 | from f and g themselves: if all norms fit their words, as they always do at degrees 2 and 4 and for accepted norms at degree 8, success means Res(f) * G - Res(g) * F = 12289 exactly if the second GCD operand is more than 1, and two even resultants are rejected; at degrees 2 and 4 it succeeds exactly if the resultants are coprime, for all 8-bit f and g |
| `FieldNorm.EvalNorm` | crypto/keygen.c:1107-1120 | the value of the field norm f0^2 - X * f1^2 at a root |
| `FieldNorm.NormValue` | crypto/keygen.c:1107-1120 | the product of the values at two neighbouring roots is the value of the field norm at the root above |
| `FieldNorm.ModpPolyRecRes` | crypto/keygen.c:1107-1136 | the transform of f becomes the transform of its field norm in the first half of the array |
| `FieldNorm.ResultantParity` | crypto/keygen.c:4539-4555 | the resultant with X^n + 1 is odd exactly if the sum of the coefficients is |
| `FieldNorm.ExactlyOneOdd` | crypto/keygen.c:4539-4555 | opposite parities of f and g leave exactly one resultant odd, over the integers |
| `MakeFg.NormFromTransform` | crypto/keygen.c:2615-2622 | the residues of the field norm of f modulo one prime from the transform of f, plain or transformed |
| `MakeFg.FirstWords` | crypto/keygen.c:2597-2654 | every column of the input becomes plain residues of its polynomial and gives one column of the field norm |
| `MakeFg.RebuildCentred` | crypto/keygen.c:2656-2661 | residues of a polynomial whose coefficients fit become the coefficients themselves, in two's complement |
| `MakeFg.RemainingWords` | crypto/keygen.c:2663-2700 | the further columns of the field norm come from reductions of the rebuilt integers |
| `MakeFg.MakeFgStep` | crypto/keygen.c:2569-2701 | one level down: if all columns stand for f and its coefficients fit the words, all columns of the result stand for its field norm, with the words of the next depth |
| `MakeFg.MakeFg` | crypto/keygen.c:2714-2751 | the residues of f at any depth stand for the field norm taken down that often, if every norm above fits its words |
| `MakeFg.EarlyDepthsFit` | crypto/keygen.c:2447-2449 | the norms of 8-bit coefficients always fit their words at depths 0 to 2 |
| `MakeFg.WordsForMeasured` | crypto/keygen.c:2447-2475 | at every depth the words hold the measured average length with six standard deviations and a sign |
| `SmallDegrees.ResultantSmall` | crypto/keygen.c:2437-2449 | the resultants of two and four 8-bit coefficients are at most 2^15 and 2^33 |
| `SmallDegrees.EightShrinks` | crypto/keygen.c:2437-2449 | the field norm of eight coefficients has a squared length of at most twice the square of theirs |
| `SmallDegrees.EightResultant` | crypto/keygen.c:2437-2449 | the resultant of eight coefficients is at most four times the fourth power of their squared norm |
| `SmallDegrees.SmallIsWellSized` | crypto/keygen.c:2437-2449 | at degrees 2 and 4 for all 8-bit coefficients, and at degree 8 below the norm bound of key generation, all norms and the resultant fit their words |
| `MakeFg.NormDownResultant` | crypto/keygen.c:2714-2751 | taking the norm down to one coefficient gives the resultant |
| `MakeFg.ResultantNonnegative` | crypto/keygen.c:2784-2789 | resultants are never negative, so they need no centring |
| `MakeFg.RebuildResultants` | crypto/keygen.c:2760-2789 | the words at the deepest level are the two resultants as big integers; for opposite parities of f and g exactly one lowest word is odd, so the both-even reject never fires |
| `FieldNorm.MkgaussChoose` | crypto/keygen.c:4417-4471 | the samples within -127..127 are all coefficients but the last, then only values of the wrong parity, then the last coefficient; an unfinished run has too few samples or only wrong parities left |
| `HashToPoint.HashToPointVartime` | crypto/common.c:34-67 | the first n accepted residues of the sample stream |
| `HashToPoint.SlotsFree` | crypto/common.c:150-158 | if a value must jump by p, the p slots below it are all free |
| `HashToPoint.SwapSqueeze` | crypto/common.c:224-231 | moving a kept value over free slots keeps the sequence of kept values |
| `HashToPoint.PassStep` | crypto/common.c:177-232 | one step of a pass clears one displacement bit and keeps order and contents |
| `HashToPoint.CompactPass` | crypto/common.c:159-233 | a pass with jumps by p makes all displacements multiples of 2p, over the three storage segments |
| `HashToPoint.HashToPointCt` | crypto/common.c:69-234 | the first n accepted residues if there are n among the first n + over samples, and otherwise a rejected value in the output |
| `HashToPoint.FormsAgree` | crypto/common.c:34-234 | the two forms agree exactly if the first n + over samples hold n accepted values |
| `Oversampling.TooFewSize` | crypto/common.c:80-99 | the streams of m samples with fewer than n accepted ones are counted by a recurrence over 61445 accepted and 4091 rejected values of a sample |
| `Oversampling.Tail` | crypto/common.c:80-99 | the number of streams with J or more rejections is at most that with exactly J times a geometric factor |
| `OversamplingTable.OversamplingSharp` | crypto/common.c:80-115 | with the oversampling of the table the streams with fewer than n accepted samples are fewer than 2^-256 of all streams, and with one sample less they are not, at every degree |
| `KeccakSponge.Sha3Ctx.Update` | crypto/keccak256.c:284-335 | the context stands for the concatenation of all pieces, whatever their sizes |
| `KeccakSponge.Sha3Ctx.Final` | crypto/keccak256.c:337-363 | the digest of the concatenated message, padding included, for any permutation |
| `KeccakSponge.OutputWord` | crypto/keccak256.c:361-361 | bytes 8i to 8i + 7 of the digest, least significant first, sum to word i of the state |
| `KeccakPrng.Prng.constructor` | crypto/keccak_prng.c:39-57 | an empty generator |
| `KeccakPrng.Prng.Inject` | crypto/keccak_prng.c:59-80 | appends input; refused after flipping or beyond 4096 bytes, leaving the input unchanged |
| `KeccakPrng.Prng.Flip` | crypto/keccak_prng.c:82-104 | the state is the hash of all injected input; a second call is refused |
| `KeccakPrng.WordOfBytes` | crypto/keccak_prng.c:142-146 | the bytes of a number, most significant first, stand for the number |
| `KeccakPrng.Prng.CounterBytes` | crypto/keccak_prng.c:142-146 | eight bytes that stand for the counter, most significant first |
| `KeccakPrng.Prng.Extract` | crypto/keccak_prng.c:106-169 | the next bytes of the stream H(state, 0), H(state, 1), ..., with the counter as eight big-endian bytes, whatever the sizes of this and earlier requests |
| `KeccakPoint.KeccakHashToPointVartime` | crypto/common.c:308-342 | the first n accepted residues of what the generator emits next |
| `KeccakPoint.KeccakHashToPointCt` | crypto/common.c:344-430 | the constant-time form over the same generator |
| `KeccakPoint.Chunk` | contracts/DFVRF_HashToPoint.sol:38-46 | the k-th 16-bit chunk of a 256-bit word consists of bytes 2k and 2k + 1 |
| `KeccakPoint.FrontBytes` | contracts/DFVRF_HashToPoint.sol:47-52 | the first 8 of the 32 bytes of the counter word are its upper 64 bits |
| `KeccakPoint.HashToPointEVM` | contracts/DFVRF_HashToPoint.sol:22-53 | the first 512 accepted residues of the stream whose state is the hash of salt and message |
| `KeccakPoint.HashByBothForms` | contracts/DFVRF_HashToPoint.sol:15-53 | the generator fed with salt and then message yields what the virtual machine computes |
| `Formats.PrefixFree` | crypto/codec.c:308-473 | no code word of a format is the beginning of another |
| `Formats.UniqueDecoding` | crypto/codec.c:35-473 | a vector of known length is recognised at the front of a bit string |
| `Formats.EncodesOneVector` | crypto/codec.c:35-473 | no byte string encodes two vectors: decoding undoes encoding |
| `Formats.OneEncoding` | crypto/codec.c:35-473 | no vector has two encodings, and the length is the bit count rounded up to bytes |
| `FixedCodecs.FixedEncode` | crypto/codec.c:33-72 | for residues and for signed integers of a fixed width (trim; 16-bit elements, or 8-bit elements for widths up to 8): fails exactly if a value is out of range or the buffer too short, otherwise writes the encoding and nothing else |
| `FixedCodecs.ModqDecode` | crypto/codec.c:74-112 | succeeds exactly if a prefix of the input encodes a vector of residues, and returns it |
| `FixedCodecs.TrimDecode` | crypto/codec.c:160-208 | succeeds exactly if a prefix of the input encodes a vector of the given width, and returns it |
| `FixedCodecs.TrimDecodeSmall` | crypto/codec.c:255-304 | the same for 8-bit elements and widths 1 to 8 |
| `CompressedCodec.PushValue` | crypto/codec.c:336-374 | sign, low bits and unary part of a value fit the 32-bit accumulator |
| `CompressedCodec.CompEncode` | crypto/codec.c:306-400 | fails exactly if a value is out of range or the buffer too short, otherwise writes the encoding and nothing else |
| `CompressedCodec.CompDecode` | crypto/codec.c:403-473 | succeeds exactly if a prefix of the input encodes a vector, and returns vector and length: truncation, over-long unary parts, minus zero and nonzero padding are the only rejections |
| `SignatureSize.AcceptableFits` | crypto/falcon.h:323-329 | every in-range vector within the acceptance bound encodes in at most the maximum size minus 41 bytes, for every degree |
| `FalconVerify.SizesMatch` | crypto/falcon.h:315-345 | the sizes of keys and constant-time signatures are those of the encodings that they hold |
| `FalconVerify.PaddedSizes` | crypto/falcon.h:335-338 | the padded size at every degree, 666 and 1280 at degrees 512 and 1024; none exceeds that of the longest compressed signature |
| `FalconVerify.ParseHeaders` | crypto/falcon.c:790-856 | succeeds exactly if headers, lengths, signature type and workspace are consistent, and determines degree and format; each error code is given for exactly one kind of failure |
| `FalconVerify.DecodeBody` | crypto/falcon.c:870-900 | succeeds exactly if the body carries a vector in the announced format, with trailing zeros only where padding is tolerated; the vector is unique |
| `FalconVerify.DecodeKey` | crypto/falcon.c:858-868 | succeeds exactly if the key bytes encode residues, which are unique |
| `FalconVerify.VerifyFinish` | crypto/falcon.c:771-920 | succeeds exactly if the bytes verify: they encode a key and a vector that is a valid signature on the hashed point; each error code is given for exactly one kind of failure |
| `FalconVerify.VerifySignature` | crypto/falcon.c:922-939 | the same for a message hashed with the nonce by any function, with enough accepted samples for this signature |
| `Deterministic.SaltBytes` | crypto/deterministic.c:65-70 | byte 0 of the salt is the version, byte 1 the degree, then FALCON_DET, then zeros |
| `Deterministic.ResaltUnsalt` | crypto/deterministic.c:104-153 | adding the salt back undoes the removal that signing makes |
| `Deterministic.VerifyCompressed` | crypto/deterministic.c:155-182 | succeeds exactly if the header is right, the length allowed and the salted form verifies |
| `Deterministic.VerifyCt` | crypto/deterministic.c:184-199 | succeeds exactly if the header is right and the salted form verifies |
| `Deterministic.ConvertCompressedToCt` | crypto/deterministic.c:116-144 | fails exactly if the header is wrong or no prefix of the body decodes; otherwise same version and same vector |
| `Deterministic.ValidFits` | crypto/deterministic.c:170-174 | a valid vector never exceeds the length limit |
| `Deterministic.ConversionKeepsVerdict` | crypto/deterministic.c:116-199 | compressed verification succeeds exactly if the converted signature verifies and the decoder consumed the whole body, oversized inputs included |
| `Deterministic.UnconvertibleFails` | crypto/deterministic.c:116-131 | a signature that cannot be converted does not verify |
| `Deterministic.S2Coeffs` | crypto/deterministic.c:424-438 | the vector that the constant-time body encodes |
| `Deterministic.S1Coeffs` | crypto/deterministic.c:440-496 | succeeds exactly if verification accepts, and then returns the centred c - s2 * h |
| `Rounding.RoundSticky` | crypto/fpr.h:205-217 | dropping two bits of a sticky number with the increment 011, 110, 111 is round to nearest, ties to even |
| `Rounding.NearestUnique` | crypto/fpr.h:205-217 | rounding to nearest, ties to even, determines the result |
| `Rounding.PackRounds` | crypto/fpr.h:160-217 | packing a sticky significand yields the correctly rounded word, carries into the exponent included |
| `Rounding.PackZero` | crypto/fpr.h:160-201 | zero significands and exponents below the normal range give a signed zero |
| `Rounding.DecodeNormal` | crypto/fpr.h:175-217 | a normal word is the encoding of its sign, significand and power |
| `Rounding.SignXorMeaning` | crypto/fpr.c:784-784 | the sign bit of a product or quotient is set exactly if the product of the signed significands is negative |
| `FprProducts.LimbProductSticky` | crypto/fpr.c:719-752 | the 25-bit limbs reassemble the product, with a sticky bit for the dropped limbs |
| `FprProducts.LimbProductFits` | crypto/fpr.c:730-752 | every intermediate of the limb product fits its word |
| `FprProducts.MulCorrect` | crypto/fpr.c:705-799 | the product of normal numbers is correctly rounded in the normal range, with the sign of the product of the signed significands |
| `FprProducts.MulZero` | crypto/fpr.c:785-792 | a zero factor gives a zero whose sign is the sum of the sign bits modulo 2 |
| `FprProducts.QuotientInvariant` | crypto/fpr.c:952-969 | x * 2^i is the quotient so far times y plus the remainder, which stays below 2 * y |
| `FprProducts.ComputeDiv` | crypto/fpr.c:940-1025 | the division loop computes the specified word |
| `FprProducts.DivCorrect` | crypto/fpr.c:940-1025 | the quotient of normal numbers is correctly rounded in the normal range, with the sign of the product of the signed significands |
| `FprProducts.DivZero` | crypto/fpr.c:1010-1024 | a zero dividend gives plus zero |
| `FprProducts.RootInvariant` | crypto/fpr.c:1236-1255 | the operand is the square of the partial root plus the remainder, and the root misses less than one unit |
| `FprProducts.ComputeSqrt` | crypto/fpr.c:1207-1282 | the square root loop computes the specified word, with no overflow of the compared words |
| `FprProducts.SqrtCorrect` | crypto/fpr.c:1207-1282 | the square root of a normal positive number is correctly rounded |
| `FprProducts.SqrtZero` | crypto/fpr.c:1273-1276 | the square root of zero is plus zero |
| `FprSum.NormMeaning` | crypto/fpr.c:46-79 | normalisation multiplies by a power of two into 2^63..2^64-1 and lowers the exponent by as much |
| `FprSum.ShiftSticky` | crypto/fpr.c:528-533 | a right shift with a sticky bit divides the exact value |
| `FprSum.AddNear` | crypto/fpr.c:519-579 | sums of operands less than 60 places apart are correctly rounded, also under cancellation |
| `FprSum.AddFar` | crypto/fpr.c:519-526 | an operand 60 or more places away does not change the rounded result |
| `FprSum.AddCorrect` | crypto/fpr.c:473-579 | every nonzero sum of zero or normal numbers is correctly rounded in the normal range; the exact sum is that of the signed significands at the smaller power |
| `FprSum.AddZero` | crypto/fpr.c:556-578 | a sum whose exact value is zero is plus zero, except for two minus zeros |
| `FprRounding.RintCorrect` | crypto/fpr.h:273-320 | the integer nearest to the decoded value, ties to even, for magnitudes below 2^63 |
| `FprRounding.RintScaled` | crypto/fpr.h:273-320 | an integer below 2^53 in magnitude, converted to a number and rounded, comes back |
| `FprRounding.RintZero` | crypto/fpr.h:288-294 | zero converts to zero |
| `FprRounding.TruncCorrect` | crypto/fpr.h:365-394 | the decoded value rounded toward zero, for magnitudes below 2^63 |
| `FprRounding.FloorCorrect` | crypto/fpr.h:322-363 | the largest integer not above the decoded value, for magnitudes below 2^63 |
| `FprRounding.ZeroParts` | crypto/fpr.h:350-361 | zero truncates to zero; minus zero has floor -1 |
| `FprRounding.ScaledCorrect` | crypto/fpr.c:175-229 | every nonzero integer times a power of two is correctly rounded in the normal range |
| `FprRounding.ScaledZero` | crypto/fpr.c:216-229 | zero scales to plus zero |
| `SolidityNtt.NttFw` | contracts/DFVRF_NTT.sol:187-210 | the transform of 256-bit words computes what the transform of crypto/vrfy.c computes, on any words |
| `SolidityNtt.NM1Meaning` | contracts/DFVRF_NTT.sol:54-55 | the stored constant is 1/512 modulo q |
| `SolidityNtt.NttInv` | contracts/DFVRF_NTT.sol:212-241 | the inverse transform for n = 512 computes what the inverse of crypto/vrfy.c computes |
| `SolidityNtt.VecMulMod` | contracts/DFVRF_NTT.sol:17-26 | pointwise residues of the products |
| `SolidityNtt.HalfMul` | contracts/DFVRF_NTT.sol:248-255 | a reduced polynomial times a transformed one is their negacyclic product |
| `SolidityNtt.Expand` | contracts/DFVRF_NTT.sol:342-365 | the sixteen 16-bit fields of every word, in order |
| `SolidityNtt.Compact` | contracts/DFVRF_NTT.sol:367-386 | every word packs sixteen coefficients, by exclusive or into disjoint fields |
| `SolidityNtt.ExpandCompact` | contracts/DFVRF_NTT.sol:342-386 | unpacking undoes packing |
| `SolidityNtt.CompactExpand` | contracts/DFVRF_NTT.sol:342-386 | packing undoes unpacking |
| `SolidityNtt.HalfMulCompact` | contracts/DFVRF_NTT.sol:403-411 | the packed result holds the coefficients of the product |

## Left out

- Signing.SigningImpliesVerifying: the products that the source computes by floating-point FFT are exact ring products here, so rounding errors of the FFT are not modelled.
- Bezout.ZintBezout: that the rounds end with 1 for every coprime pair is proved for operands below 2^62; for longer operands the condition is stated by the rounds on integers, and that they reach the GCD within their number is not proved. Array lengths are taken small enough that the 32-bit round counter does not wrap. Even operands are rejected before the rounds instead of after them.
- Deepest.SolveNtruDeepest: that all field norms fit the word counts chosen from measurements is proved at every depth up to degree 4 (SmallDegrees.SmallIsWellSized), at degree 8 below the norm bound of key generation, and at depths 0 to 2 for every degree (MakeFg.EarlyDepthsFit); from degree 16 on it is a hypothesis at the later depths.
- Recovery.IsInvertible: for coefficients outside -12288..12288 the words are not reduced, and nothing is stated about the result.
- FixedCodecs.TrimDecodeSmall: 8-bit elements with widths above 8 are not modelled; no caller uses them.
- MakeFg.MakeFg: the list of small primes is a parameter with the properties its comments state; only the first entry is checked, in NtruCheck.FirstPrime.
- MakeFg.MakeFgStep: f and g are stepped one after the other and each column of words is gathered into a contiguous array; the source interleaves the two and walks the columns with a stride in one buffer.
- HashToPoint.HashToPointVartime: reads from a finite sequence with enough accepted samples; on a stream without them the source does not terminate.
- FalconVerify.VerifyFinish: assumes enough accepted samples for this signature once its headers are consistent: as many as the degree, in the constant-time format among those that it draws; otherwise the first form does not end and the second leaves a word that is no residue (HashToPoint.FormsAgree).
- KeccakSponge.Sha3Ctx.Update: the direct processing of aligned input is the same as copying it first.
- SolidityNtt.NttFw: the stateless form with in-contract tables; the variants that read tables from other contracts run the same loops. SolidityNtt.HalfMulCompact composes the stateless forms.
- Sampling distributions, exponentials, FFT error and Babai reduction in key generation: the sampler and the reduction are arbitrary integer outputs.
- The Keccak permutation, SHAKE and ChaCha20: function parameters.
- Comparisons, halving and doubling of emulated floating-point numbers: easy members beside the rounded operations.
- Vector and assembly branches, native floating point, and constant-time behaviour.
- The four-element public key variant in crypto/epervier16.c, the Go bindings and the command line tools.
- Private key encoding around the trim codec, and the key generation loop around the solver.
