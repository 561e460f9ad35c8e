# MQOM v2.1.1: why an honest signature verifies

A Dafny model of the signature scheme in `src/`: the field tower, the packed
quadratic system, key generation, the binary line commitment (a correlated seed
tree folded in Gray-code order), the polynomial relation, and the whole of
`sign` and `verify`.

The main result is completeness. `sign` verifies its own output before it
returns it. For every consistent secret key, every message, master seed and
salt, and whatever AES and SHAKE128 compute, that check never rejects: `sign`
returns a signature exactly when some 32-bit nonce passes the grinding test
(`Sign.Sign`). For any other key the outcome is characterised too: the matrix the
verifier recomputes differs from the signer's by the squared evaluation point
times the batched residual of the key.

The second main result says what the verdict depends on. A signature of full size
that verifies, whatever AES and SHAKE128 compute, whenever another one does, is that
signature, for the same public key and message, if there is at least one execution
(`VerificationBinding.VerificationBinds`). So no byte of key, message or signature is
left out of what the verifier hashes and checks. Without executions the salt enters
nothing (`VerificationBinding.SaltUnused`), so the condition is needed. The same is
shown of each hash by itself: of the second commitment, the Fiat-Shamir hash, the
challenge stream, the batching rows, the equations, and both sides' commitments.

AES-128 and SHAKE128 (section 6.2 of FIPS 202) are arbitrary functions, fields of
`Prg.Primitives`. SHAKE128 is an arbitrary stream of bytes for each absorbed
string, so that a shorter output is a prefix of a longer one is built in, as in
the standard; nothing else is assumed, so no property here is cryptographic: that a
hash determines its inputs means that no two inputs agree under all functions. The
sizes of a profile (tree depth, executions, variables, equations, repetitions,
grinding bits) are parameters, constrained only as the code's fixed-width conversions
and array lengths constrain them (`Params.Supported`); the frozen profile of
`src/params.rs` is one instance (`Params.FROZEN`).

## How it is built

Code that changes state is written as methods over arrays, with loop invariants,
and each method is proved equal to a specification function. The theorems are
lemmas about those functions.

| file | part of the system |
|---|---|
| `words.dfy`, `byte_strings.dfy` | bytes, little-endian words, exclusive or, slots of a byte string |
| `binary_fields.dfy`, `base_fields.dfy` | residues of binary polynomials: GF(16), GF(256), the embedding |
| `extension_field.dfy`, `extension_inverse.dfy` | GF(256^2), its product and its inverse |
| `packing.dfy`, `linear_algebra.dfy`, `mq.dfy` | packed vectors, sums, packed quadratic equations |
| `params.dfy`, `prg.dfy` | profile sizes, tweaked keys, seed derivation, streams |
| `gray.dfy`, `seed_tree.dfy`, `fold.dfy` | Gray codes as field points, the seed tree, folding |
| `line_commitment.dfy` | what is committed and opened, and why an opening lies on the line |
| `blc.dfy`, `opening.dfy` | `commit`, `open`, `evaluate_opening` |
| `keygen.dfy`, `polynomial.dfy`, `alpha.dfy` | keys, the relation between signer and verifier, its two loops |
| `challenge.dfy`, `signature.dfy`, `verify.dfy`, `sign.dfy` | the challenge search, signatures, both sides |
| `transcript_binding.dfy`, `opening_binding.dfy`, `verification_binding.dfy` | what hashes, commitments and the verdict depend on |

A field law is proved for GF(2)-polynomials by recursion on
the coefficients of one factor, so products are never decided bit by bit; only
facts about a single byte are. The lemmas about honest parts (`Signature.Honest`) are
not about an empty class: `Sign.Sign` constructs such parts whenever a nonce exists.
A loop that hashes or sums is specified by a
concatenation or a sum over an index, and two loops are compared term by term.

The specification functions have laws of their own, so that a function and the loop
proved equal to it cannot both be wrong in the same way: masks are remainders, matrix
products on unit vectors are stored coefficients, streams and keys are given byte by
byte, and every hash determines what it absorbs. A binding lemma takes its hypothesis
for all AES and SHAKE128 and applies it to functions chosen to show one input, for
instance a SHAKE128 that is 1 on a single string, or one that repeats a leaf
commitment up to the root.

## Model

| member | source | states |
|---|---|---|
| Sign.Sign | src/sign.rs:146-211 | a signature is returned exactly when a least nonce exists and the self-verification under it passes; it is then the honest parts under that nonce laid out at the code's offsets, and it verifies; for a consistent key this is exactly when some 32-bit nonce grinds |
| Sign.ConsistentSelfCheck | src/sign.rs:206-210 | for a consistent key the self-verification passes if and only if a nonce exists |
| Sign.SelfCheckWithoutResidue | src/sign.rs:210 | for any key the self-verification passes if every batched residual is zero wherever the hidden leaf is not leaf 0 |
| Sign.LeastNonceBelow | src/sign.rs:130-144 | below any nonce that grinds there is a least one |
| Sign.LeastNonceUnique | src/sign.rs:130-144 | the nonce a signature carries is determined by the hash |
| Sign.Respond | src/sign.rs:206-211 | nonce search, opening and self-verification give the outcome `Sign.Outcome` describes |
| Sign.VerdictIsSelfCheck | src/sign.rs:210 | on honest parts the verifier's verdict is the equality of the two second commitments |
| Sign.CommitToSecret | src/sign.rs:152-162 | unpacking, commit and compute_alpha give the commitment and both alpha matrices of the specification |
| Sign.AlphasAreHonest | src/sign.rs:160-162 | what compute_alpha returns from the committed constants and masks is the pair of specified matrices |
| Sign.WriteCommitments | src/sign.rs:164-190 | after the four writes the signature starts with salt, both commitments and the encoded alpha_one, and the second commitment hashes alpha_zero and those bytes |
| Sign.WriteRows | src/sign.rs:168-175 | the running offset ends at the opening offset, and the bytes written are the concatenated encodings |
| Sign.WriteResponse | src/sign.rs:207-208 | opening and nonce fill the rest of the signature |
| Verify.VerifySignature | src/verify.rs:120-190 | accepts exactly the signatures that `Signature.Verifies` describes, for keys and signatures of any length |
| Verify.VerifyParts | src/verify.rs:128-185 | accepts exactly when the nonce grinds, the opening is accepted, and the recomputed matrix hashes to the second commitment |
| Verify.RecomputedFromOpened | src/verify.rs:166-173 | the matrix recomputed from the opened evaluations is the one the closed form of the opening gives |
| Verify.ParseAlphaOne | src/verify.rs:159-165 | parsing the serialized rows is the specified decoding |
| Verify.HashAlphas | src/verify.rs:175-184 | absorbing element by element hashes the encoded matrix followed by the serialized alpha_one |
| VerificationBinding.VerificationBinds | src/verify.rs:120-190 | a signature that verifies, for all AES and SHAKE128, whenever another one of full size does is that signature, for the same key and message; given at least one execution |
| VerificationBinding.SaltUnused | src/verify.rs:120-190 | without executions the verdict is the same for every salt |
| VerificationBinding.VerifiedGrinds | src/verify.rs:55-57 | in a signature that verifies the challenge word behind the indices is divisible by 2^grindingBits |
| TranscriptBinding.SecondCommitmentBinds | src/verify.rs:175-185 | the second commitment determines alpha_zero and the alpha_one bytes |
| TranscriptBinding.FiatShamirBinds | src/verify.rs:143-156 | the Fiat-Shamir hash determines public key, both commitments and message |
| TranscriptBinding.ChallengeStreamBinds | src/verify.rs:48-49 | the challenge stream determines hash and nonce |
| TranscriptBinding.BatchingBinds | src/sign.rs:68-69 | a batching row determines the first commitment |
| TranscriptBinding.BatchingAt | src/sign.rs:68-76 | coefficient i of row j is the two bytes at j * 2m + 2i of the stream behind tag 8 |
| TranscriptBinding.EquationBinds | src/mq.rs:104-142 | an equation determines the public seed and its index |
| TranscriptBinding.Tags | src/sign.rs:177-204 | every transcript hash absorbs its own first byte |
| Signature.Completeness | src/sign.rs:210 | every honest signature of a consistent key verifies |
| Signature.Verdict | src/sign.rs:210 | for any key the honest signature verifies if and only if the matrix shifted by point squared times residual has the signer's second commitment |
| Signature.RecomputedAgreement | src/verify.rs:85-116 | for any key the matrix recomputed from an honest signature is the signer's if and only if every entry opens leaf 0 or has residual zero |
| Signature.ConsistentRecomputed | src/verify.rs:67-118 | for a consistent key the matrix recomputed from an honest signature is the signer's |
| Signature.RecomputedEntryOnLine | src/verify.rs:85-116 | an entry recomputed from an honest opening is the signer's alpha_zero plus point squared times the residual |
| Signature.RecomputedIsDiscrepant | src/verify.rs:67-118 | the same for the whole matrix of an honest signature |
| Signature.ConsistentResidue | src/keygen.rs:46-71 | a consistent key has residual zero in every component |
| Signature.OpenedXOnLine | src/blc.rs:401-514 | the vector opened from an honest signature is x_zero plus point times the lifted secret |
| Signature.DecodeEncoded | src/verify.rs:159-165 | decoding the encoded alpha_one gives the matrix back |
| Signature.ParseEncodedRow | src/verify.rs:30-38 | parse_extension_vector reads the encoding of any row back |
| Signature.DisassembleAssembled | src/sign.rs:12-18 | cutting an assembled signature at the offsets gives its parts back |
| Signature.ZeroPoint | src/verify.rs:40-42 | the evaluation point is zero for leaf 0 and no other |
| Signature.SignatureLayout | src/sign.rs:12-18 | salt, both commitments, alpha_one, opening and nonce stand at bytes 0, 16, 48, 80, 80 + alpha size and the last 4 |
| Signature.EncodedAt | src/sign.rs:168-175 | element j of row e takes the two bytes at (e * repetitions + j) * 2, c0 first |
| Signature.AlphaEntries | src/sign.rs:110-120 | component j of execution e is mask j plus the product of batching row j with the coefficients of all equations |
| Challenge.SampleChallenge | src/sign.rs:125-144 | returns the least 32-bit nonce whose grinding bits are zero with its indices, and nothing if and only if there is none |
| Challenge.ParseChallenge | src/verify.rs:44-58 | accepts a nonce if and only if its grinding bits are zero, and returns the same index vector |
| Challenge.HiddenIndicesBelow | src/sign.rs:137-140 | every index is below the number of leaves |
| Challenge.HiddenIndexIsWord | src/sign.rs:136-139 | index e is the little-endian word at byte 2e of the stream, modulo the number of leaves |
| Challenge.GrindsIsDivisible | src/sign.rs:134-135 | a nonce grinds exactly when the last word of its stream is divisible by 2^grindingBits |
| Challenge.SolvableByBytes | src/sign.rs:130-144 | the search finds a nonce if and only if any 4-byte string grinds |
| Words.AndMask | src/sign.rs:128-138 | masking with 2^k - 1 is the remainder modulo 2^k, for every word and k |
| Words.FromLittleEndianValue | src/sign.rs:134 | a word of two bytes is the first plus 256 times the second |
| Words.LittleEndian32Onto | src/sign.rs:130-131 | every 4-byte string encodes a 32-bit nonce |
| Polynomial.ExactDiscrepancy | src/verify.rs:85-116 | on the line, with the signer's alpha_one, the recomputed value is alpha_zero plus p squared times the batched residual |
| Polynomial.AgreementCondition | src/verify.rs:85-116 | both sides agree if and only if p is zero or the batched residual is zero |
| Polynomial.HomogenisedOnLine | src/sign.rs:88-108 | the homogenised equation on a line has the signer's two coefficients and the residual in degree 2 |
| Polynomial.ConsistentResidual | src/keygen.rs:46-71 | when every output is its equation at the secret, the batched residual is zero |
| Polynomial.HomogenisedExpanded | src/verify.rs:90-105 | the homogenised equation is x A x + p b x + p^2 y |
| Polynomial.MasksEnter | src/sign.rs:111-117 | what is added to a mask is added to the coefficient it masks, on both sides |
| Polynomial.BatchingSelects | src/sign.rs:114-117 | a batching row with a single one selects that equation, on both sides |
| Alpha.ComputeAlpha | src/sign.rs:62-123 | every entry is the masked batched degree-0, respectively degree-1, coefficient |
| Alpha.AlphaExecution | src/sign.rs:86-120 | the same for one execution, from the equations and the slope rows |
| Alpha.Coefficients | src/sign.rs:91-108 | the three accumulation loops compute the two coefficients of one equation |
| Alpha.SlopeRows | src/sign.rs:77-84 | row i is A_i s + b_i |
| Alpha.RecomputeAlphaZero | src/verify.rs:67-118 | every entry is the batched evaluation plus mask plus point times alpha_one |
| Alpha.EvaluateHomogenised | src/verify.rs:90-105 | the verifier's loop evaluates the homogenised equation at the opened vector |
| Alpha.ParseBatching | src/sign.rs:68-76 | row j of the batching matrix is chunk j of the stream, element by element |
| Alpha.ExpandEquations | src/sign.rs:54-60 | all equations of the system, in order |
| Opening.EvaluateOpening | src/blc.rs:401-514 | accepts exactly when sizes, indices and the recomputed commitment match; for any opening bytes x and u are the closed form over the visible leaves |
| Opening.HonestOpeningEvaluates | src/blc.rs:401-514 | the opening of a commitment is accepted, and x and u are the committed lines at the hidden leaf's point |
| Opening.EvaluateExecution | src/blc.rs:418-495 | leaf hash and closed form of one execution, for any path and partial delta |
| Opening.EvaluatesOpened | src/blc.rs:458-495 | folded rows plus the corrected accumulator at the point are the sum of the visible leaves weighted by the difference of points |
| Opening.FoldOpened | src/blc.rs:431-457 | the verifier's leaf loop hashes and folds the visible leaves with zero for the hidden one |
| Opening.AdjustBase | src/blc.rs:475-479 | the corrected base vector is the accumulator plus the zero-padded partial delta |
| Opening.Open | src/blc.rs:370-398 | succeeds exactly when every index is a leaf, and writes path, hidden commitment and partial delta of every execution to its slot |
| Opening.OpenExecution | src/blc.rs:375-394 | writes the three slots of one execution and no slot of another |
| OpeningBinding.ObservedCommitmentBinds | src/blc.rs:401-514 | the recomputed commitment determines every byte of the opening, every hidden index and, given an execution, the salt |
| OpeningBinding.PartialDeltasDetermined | src/blc.rs:503-508 | the recomputed commitment determines the partial deltas |
| OpeningBinding.PathDetermined | src/blc.rs:418-457 | the recomputed commitment determines every path, through the leftmost leaf below each block |
| OpeningBinding.CommitmentBinds | src/blc.rs:346-355 | the signer's commitment determines secret, master seed and salt, given an execution |
| LineCommitment.OpeningOnLine | src/blc.rs:401-514 | the opened value of every coordinate of an honest opening is constant plus point times slope of the committed line |
| LineCommitment.OpeningAccepted | src/blc.rs:498-508 | the honest opening recomputes the signer's commitment |
| LineCommitment.OpenedHashIsLeafHash | src/blc.rs:438-457 | an opened path with the hidden commitment gives the signer's leaf hash |
| LineCommitment.OpenedSeedIsLeafSeed | src/blc.rs:100-151 | off the hidden leaf the opened seeds are the committed ones |
| LineCommitment.HiddenLeafDropsOut | src/blc.rs:439-457 | weighting by differences to the hidden point does not see the hidden leaf |
| LineCommitment.ShiftedWeights | src/blc.rs:475-495 | shifting all weights adds the accumulated leaves times the shift |
| LineCommitment.AccumulatedSeeds | src/blc.rs:301-314 | the leaf seeds of an execution sum to delta |
| LineCommitment.CorrectedAccumulator | src/blc.rs:335-343 | the accumulated base vector plus the partial delta is the packed secret, and the mask part is unchanged |
| LineCommitment.CorrectedReadsSlope | src/blc.rs:333-343 | the corrected accumulator reads as the slope: the lifted secret, respectively u_one |
| LineCommitment.PartialDeltasConcat | src/blc.rs:503 | the last region of an opening is the concatenation of the partial deltas |
| LineCommitment.RegionBounds | src/blc.rs:15-27 | the three regions of an opening do not overlap and end at its size |
| LineCommitment.LeafBytes | src/blc.rs:305-309 | byte i of a leaf is its seed's, then the derivation's with selector 3 and the index of its block |
| LineCommitment.CommittedHalves | src/blc.rs:82-97 | the halves of a seed commitment are derived with selectors 0 and 1 |
| LineCommitment.RootSeedAt | src/blc.rs:270-279 | root seed e is derived from the master seed with zero salt, selector 3 and block index e |
| Blc.Commit | src/blc.rs:260-367 | commitment, x_zero, u_zero, u_one, roots and partial deltas are those of the specification |
| Blc.CommitExecution | src/blc.rs:288-343 | the same for one execution |
| Blc.FoldExecution | src/blc.rs:288-314 | the leaf loop hashes every leaf commitment and folds every expanded leaf |
| Blc.CommitSeed | src/blc.rs:92-97 | a seed commitment is the two derivations with selectors 0 and 1 |
| Blc.NewCommitter | src/blc.rs:82-90 | flipping the lowest bit of the first key gives the key of selector 1 |
| Blc.DeriveRoots | src/blc.rs:271-279 | root seed e is slot e of the stream of the master seed |
| Fold.FoldingIsDirectSum | src/blc.rs:301-332 | for every sequence of 2^depth leaves the folded rows combine to the directly weighted sum |
| Fold.FoldedPartial | src/blc.rs:301-332 | after i leaves the rows hold each leaf weighted by its point plus the next point |
| Fold.FoldedStep | src/blc.rs:311-313 | one leaf adds its prefix sum times the sum of two consecutive points |
| Fold.AccumulateLeaf | src/blc.rs:310-313 | the in-place updates of accumulator and one folding row |
| Fold.CombineRows | src/blc.rs:316-332 | the loop over the rows sums them with their basis elements, in both parts |
| Fold.CombinedRows | src/blc.rs:301-332 | combined rows of all leaves are the directly weighted sums |
| Fold.AddBaseProducts | src/blc.rs:318-326 | every packed element times the point is added to its evaluation |
| Fold.AddMaskProducts | src/blc.rs:327-331 | every mask element times the point is added to its evaluation |
| Fold.ReadXor | src/blc.rs:250-258 | reading a coordinate commutes with exclusive or, so bytes may be folded instead of elements |
| Fold.ReadAt | src/blc.rs:318-331 | secret coordinates are nibbles of the leaf, low nibble first; mask coordinates are two bytes behind them |
| SeedTree.FullyExpand | src/blc.rs:153-182 | node i holds the seed its ancestors determine |
| SeedTree.OpeningPath | src/blc.rs:184-222 | refuses exactly bad sizes and indices; block k is the sibling of the leaf's k-th ancestor, the result is the hidden leaf, and nothing outside the window changes |
| SeedTree.PathStep | src/blc.rs:199-220 | one level writes one block and moves to the selected child |
| SeedTree.PartiallyExpand | src/blc.rs:100-151 | total on every path of the right size; returns the nodes the path determines |
| SeedTree.PlacePath | src/blc.rs:110-119 | after placement exactly the siblings of the leaf's ancestors are present |
| SeedTree.ExpandPartialLevel | src/blc.rs:121-139 | after a level exactly the nodes that are not ancestors of the leaf are present |
| SeedTree.ExpandedPresent | src/blc.rs:128-138 | giving children to a present node overwrites no path block |
| SeedTree.CollectLeaves | src/blc.rs:140-150 | the final presence check never fails |
| SeedTree.PathDeterminesNodes | src/blc.rs:100-222 | expanding the path of a leaf gives every node of the full tree but the leaf's ancestors |
| SeedTree.ChildrenSum | src/blc.rs:170-178 | the two children of a node sum to it, the roots to delta |
| SeedTree.SubtreeSum | src/blc.rs:159-180 | the nodes h levels below a node sum to it, so every level sums to delta |
| SeedTree.HiddenSeedIsPathSum | src/blc.rs:184-222 | the hidden leaf is delta plus all path blocks |
| SeedTree.DerivedChildren | src/blc.rs:164-180 | on level d a left child is derived with selector 2 and index d - 1, and the right child adds the parent |
| SeedTree.HeldBlock | src/blc.rs:199-219 | path block k is the seed of the other child of the parent of leaf / 2^k |
| ByteStrings.CopyInto | src/blc.rs:218 | a copied slice replaces its window and nothing else |
| Gray.BitPositionCorrect | src/blc.rs:229-238 | for every depth and leaf the position exists and is the one bit in which consecutive codes differ, including the wrap to 0 |
| Gray.CodeStep | src/blc.rs:224-227 | consecutive codes differ at the trailing zeros of the next index |
| Gray.CodeLast | src/blc.rs:231-235 | the last code has its top bit alone set |
| Gray.CodeInjective | src/blc.rs:224-227 | different indices have different codes |
| Gray.PointStep | src/blc.rs:312-317 | the basis element of the flipped bit is the sum of consecutive evaluation points |
| Gray.GrayCodeIsPoint | src/blc.rs:224-227 | the committer's Gray code exists exactly for 16-bit indices and is then the verifier's separately written evaluation point |
| Gray.PointsDistinct | src/verify.rs:40-42 | different 16-bit indices have different evaluation points |
| Gray.PointBytes | src/verify.rs:40-42 | the point of an index is its Gray code as a word, low byte in c0 |
| Keygen.KeypairFromSeed | src/keygen.rs:21-44 | seeds, outputs and packed secret vector are the parts of the seed's expansion; the public key is the prefix of the secret key, and every generated secret key is consistent |
| Keygen.SecretKeyIsConsistent | src/keygen.rs:46-71 | accepts exactly the keys whose stored outputs are the equations at the unpacked secret |
| Keygen.PublicKeyFor | src/keygen.rs:31-38 | the outputs are written behind the seed, in order |
| Keygen.ConsistentBytes | src/keygen.rs:46-71 | a key is consistent if and only if output i stands at bytes 32 + 2i and 33 + 2i, c0 first |
| Keygen.ExpandEquation | src/mq.rs:104-142 | refuses exactly indices past the last equation; quadratic then linear coefficients of the stream |
| Keygen.QuadraticAt | src/mq.rs:123-135 | quadratic coefficient k is element k of the stream |
| Keygen.LinearAt | src/mq.rs:123-135 | linear coefficient k is element n(n+1)/2 + k of the stream |
| Mq.MultiplyExtension | src/mq.rs:66-84 | with the running offset the result is the lower-triangular matrix times the vector, for every size |
| Mq.MultiplyBase | src/mq.rs:48-63 | the base form is the extension form on the embedded vector |
| Mq.EvaluateBase | src/mq.rs:87-100 | the quadratic form at the embedded vector |
| Mq.EvaluateIsDoubleSum | src/mq.rs:86-100 | the quadratic form is the double sum over entries plus the linear part |
| Mq.MatrixVectorLinear | src/mq.rs:66-84 | the product is linear in the vector |
| Mq.TriangleClosedForm | src/mq.rs:50-60 | row r starts at r(r+1)/2 |
| Mq.ProductOfUnit | src/mq.rs:50-80 | on the unit vector at c, element r of the product is stored coefficient r(r+1)/2 + c, and zero for c > r |
| BaseFields.MultiplyGf16 | src/field.rs:114-133 | the loop computes the product of residues modulo x^4 + x + 1 |
| BaseFields.MultiplyGf256 | src/field.rs:229-248 | the loop computes the product of residues modulo x^8 + x^4 + x^3 + x + 1 |
| BinaryFields.ProductIsPolynomialProduct | src/field.rs:229-248 | that product is a remainder of the carry-less polynomial product |
| BinaryFields.RemainderUnique | src/field.rs:12-13 | being the remainder determines the residue |
| BinaryFields.Commutative | src/field.rs:114-133 | the product commutes |
| BinaryFields.Associative | src/field.rs:114-133 | the product associates |
| BinaryFields.Distributive | src/field.rs:114-133 | the product distributes over exclusive or |
| BaseFields.InvertGf16 | src/field.rs:33-40 | the chain computes a^14, which is the inverse of a, and 0 for 0 |
| BaseFields.InvertGf256 | src/field.rs:162-170 | the loop computes a^254, which is the inverse of a, and 0 for 0 |
| BaseFields.Order255 | src/field.rs:162-170 | every non-zero element has order dividing 255 |
| BaseFields.EmbedProduct | src/field.rs:43-53 | the embedding preserves products |
| BaseFields.EmbedAdditive | src/field.rs:43-53 | the embedding preserves sums |
| BaseFields.EmbedInjective | src/field.rs:43-53 | the embedding is injective and preserves 1 |
| ExtensionField.Multiply | src/field.rs:359-370 | the Karatsuba form is multiplication modulo X^2 + X + 32 |
| ExtensionField.MultiplyBaseScalar | src/field.rs:378-393 | a base scalar acts as multiplication by its embedding |
| ExtensionField.LiftHomomorphism | src/field.rs:378-393 | lifting is an injective ring homomorphism |
| ExtensionField.FieldConstants | src/field.rs:43-53 | X^2 is X + 32, and the embedding sends x, x^2, x^3 to 0xe0, 0x5d, 0xb0 |
| ExtensionField.MulCommutes | src/field.rs:359-370 | the extension product commutes |
| ExtensionField.MulAssociates | src/field.rs:359-370 | the extension product associates |
| ExtensionField.MulDistributes | src/field.rs:359-370 | the extension product distributes |
| ExtensionInverse.Invert | src/field.rs:289-297 | the loop computes a^65534; a times it is 1 for every non-zero a, and 0 for 0 |
| ExtensionInverse.PowerIsConjugate | src/field.rs:289-297 | a^256 is the conjugate of a |
| ExtensionInverse.ConjugateProduct | src/field.rs:289-297 | an element times its conjugate is its norm in GF(256) |
| ExtensionInverse.Irreducible | src/field.rs:256-257 | X^2 + X + 32 has no root in GF(256) |
| ExtensionInverse.Order65535 | src/field.rs:289-297 | every non-zero element has order dividing 65535 |
| ExtensionInverse.ZeroProduct | src/field.rs:359-370 | a product is zero exactly when a factor is |
| Packing.UnpackGf16 | src/field.rs:395-408 | refuses exactly a wrong length; element i is nibble i, low nibble first |
| Packing.PackGf16 | src/field.rs:410-423 | refuses exactly a wrong length; two elements to a byte |
| Packing.UnpackPacked | src/field.rs:395-423 | unpacking undoes packing for every length |
| Packing.PackUnpacked | src/field.rs:395-423 | packing undoes unpacking for even lengths and clears only the last high nibble for odd ones |
| Packing.NibbleXor | src/field.rs:395-408 | unpacking commutes with exclusive or |
| ByteStrings.XorInto | src/blc.rs:250-258 | refuses unequal lengths without change, otherwise the bytewise exclusive or |
| Prg.TweakSalt | src/prg.rs:32-44 | three bytes of the salt are changed |
| Prg.TweakedEqual | src/prg.rs:32-44 | keys for selectors below 4 and 16-bit indices are equal if and only if selectors and indices are equal and executions are equal modulo 64 |
| Prg.TweakedAt | src/prg.rs:32-44 | byte 0 of the salt takes selector plus 4 times execution, bytes 1 and 2 the index, all others nothing |
| Prg.TweakedSalt | src/prg.rs:32-44 | keys of one use under different salts differ |
| Prg.FlippedKey | src/blc.rs:82-90 | the bit flip of the second committer key is selector 1 |
| Prg.LinearOrthomorphism | src/prg.rs:18-30 | the two halves (l, r) go to (r + l, l) |
| Prg.OrthomorphismInjective | src/prg.rs:18-30 | the map and its sum with the identity are injective |
| Prg.DerivedAt | src/prg.rs:53-65 | byte by byte, cipher output and derivation differ by the halves (r + l, l) of the seed |
| Prg.Derive | src/prg.rs:53-65 | the cipher output plus the image of the seed |
| Prg.NewGenerator | src/prg.rs:73-86 | succeeds exactly for at most 65536 blocks, with the keys of selector 3 |
| Prg.Fill | src/prg.rs:88-106 | fails without change exactly when blocks are missing; otherwise the window is the stream |
| Prg.FillStream | src/prg.rs:113-123 | fails without change exactly when a block index would leave 16 bits |
| Prg.StreamPrefix | src/prg.rs:88-106 | a shorter stream is a prefix of a longer one |
| Prg.StreamBlock | src/prg.rs:88-106 | block k of a stream is derived with selector 3 and index k |
| Params.FrozenSizes | src/params.rs:3-29 | the frozen profile is supported and has the sizes the code asserts: keys of 60 and 88 bytes, signatures of 2916 |

## Left out

- AES-128 and SHAKE128 internals: arbitrary functions of key and block, and of the absorbed bytes.
- Unforgeability, hiding, soundness and every probabilistic claim.
- Zeroisation, `Drop`, `subtle` wrappers and timing: constant-time equality is equality.
- `src/mqom2_l1_gf16_short_r5/mod.rs`: length checks, randomness, trait glue and redaction around the core.
- `xtask/`, `fuzz/`, `benches/` and the tests.
- `usize` overflow in `checked_add` of `Generator::new`, `Generator::fill` and the packing functions: lengths are unbounded here.
- Fixed-size arrays that are only passed on are sequences, and the result matrices (x, u, alpha) are collected row by row in sequences; buffers written in place (nodes, presence flags, accumulator, folding rows, matrix products, evaluations, openings, keys, signatures) are arrays.
- The long bodies of `commit`, `open`, `evaluate_opening`, `compute_alpha`, `recompute_alpha_zero` and `sign` are cut into one method per loop or stage.
- Error returns that a supported profile cannot reach (`try_from`, `?` on parsers given slices of the right size, the offset check of `sign`) are proved unreachable instead of modelled as results.
- The nodes 0 and 1 of the tree array, which the code leaves zero and never reads.
