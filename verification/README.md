# Steganographer: a verified model of its coding and embedding core

The project models the parts of Steganographer in which bytes are coded, hidden, bound and found again, and proves
what those parts are for. It is laid out after the program:

- **Reed-Solomon codec.** `GaloisField`, `FieldPowers` and `GfArithmetic` hold the field of section 4.2 of FIPS 197: its
  laws are derived from bilinearity, and the bitwise loops are proved against it. `Polynomials`, `Interpolation`,
  `PolynomialDivision`, `LinearSystems` and `GaussJordan` hold the algebra and its in-place algorithms. `KeyEquations` and
  `ReedSolomon` put them together: the decoder is exactly a bounded-distance decoder.
- **Bit carriers.** `BitStreams` (with `UnitBits`) says what writing a bit stream into low bits does. `PacketCarrier`,
  `CycleWalking` and `Placement` are the sequential, keyed and interleaved packet carriers and their schedules.
  `LengthPrefix`, `SignaturePayloads`, `SignatureStream`, `Samples`, `LsbVideo`, `LsbAudio` and `RawLsb` are the
  length-prefixed LSB coders, `FormatAgreement` their common format. `StableSorting`, `Texture` and `AdaptiveLsb` are
  the content-adaptive kernel, `DctGeometry` and `DctVideo` the staged block embedder.
- **Carrier binding and verification.** `CarrierBinding` and `BindingSurvives` are the canonical bytes that a signature
  binds. `EndToEnd` is the run of the encoder and the checks of the verifier: a carrier whose owned bits are damaged within
  what error correction absorbs verifies as it was signed, and the signed payload is judged valid on no other
  content unless the hash collides. `DirectDct` is the same run with the payload in transform blocks.
- **Streams and shards.** `MerkleChain` is the hash chain with its Merkle segments, `XorSharing` the n-of-n sharing and
  `SpreadFrames` its use over several copies of a carrier.

Objects and loops of the source are classes, arrays and loops here. Each is proved against a function of its inputs or of
the old state, and the laws are lemmas about those functions. The functions themselves are fixed from outside: every
extractor finds a payload exactly where its bits are, every canonical form and every hashed layout is given byte by byte
or bit by bit, a verdict is valid exactly when nothing outside the owned bits changed or the hash collides, and what is
refused is characterised as well as what is accepted. Values that come from outside are parameters: the hash
functions, the signature scheme, the cipher, the round function of the placement network, the derived stride and phase, the
masks of the shards and the block transform. Nothing but the 32 bytes of a digest is assumed of the hash functions: soundness is
stated as "equal, or here is a collision". Of signatures and the cipher only this is assumed, and written as a
precondition: signatures have 64 bytes, a signature checks on what was signed, and decryption undoes encryption with a
fixed overhead of 41 bytes.

Three facts are worth knowing beside the documentation:

- The keyed capacity report admits an empty packet to a carrier with no unit behind the tag, which the embedder refuses
  (`PacketCarrier.KeyedFitsAgrees`); for every other length the two agree.
- The canonical form of the DCT kernel covers the green channel only. A kernel built for another channel keeps the
  binding exactly when every payload block already is the block that it would write
  (`DctVideo.Kernel.BindingSurvivesExactly`), which needs a frame that carried the payload before
  (`DctVideo.Kernel.SurvivorsCarryAlready`). Every frame of one grey value that the kernel embeds into loses it
  (`DctVideo.Kernel.GreyFrameUnbinds`): the frame of 128s into which the example at
  `steganographer-core/src/dct_video.rs:380-386` embeds is such a frame for every channel.
- A chain root verifies with the hash before it exactly when its frames are consecutive, none is numbered below the root,
  and that hash is not all zero, which the first root does not need (`MerkleChain.EveryRootExactly`).

`dafny verify dfyconfig.toml` checks the whole project.

## Model

| member | source | states |
|---|---|---|
| GaloisField.MulDistributes | steganographer-core/src/error_correction.rs:21-35 | multiplication distributes over addition, which is exclusive or, on both sides |
| GaloisField.MulAssociates | steganographer-core/src/error_correction.rs:21-35 | multiplication modulo the polynomial is associative |
| GaloisField.MulCommutes | steganographer-core/src/error_correction.rs:21-35 | multiplication is commutative |
| GaloisField.MulOne | steganographer-core/src/error_correction.rs:21-35 | 1 is neutral |
| GaloisField.StandardProducts | steganographer-core/src/error_correction.rs:21-35 | the two products that section 4.2 of FIPS 197 works out |
| FieldPowers.InverseLaw | steganographer-core/src/error_correction.rs:52-63 | every nonzero byte times its inverse is 1 |
| FieldPowers.NoZeroDivisors | steganographer-core/src/error_correction.rs:21-35 | a product is zero only when a factor is |
| FieldPowers.DivLaw | steganographer-core/src/error_correction.rs:66-71 | the quotient is the one byte that the divisor multiplies to the dividend |
| FieldPowers.AlphaIsPrimitive | steganographer-core/src/error_correction.rs:82-88 | a power of 3 is 1 exactly when 255 divides the exponent: 3 has order 255 |
| FieldPowers.PointsDistinct | steganographer-core/src/error_correction.rs:82-88 | the evaluation points of every allowed codeword are distinct |
| GfArithmetic.CarrylessMul | steganographer-core/src/error_correction.rs:21-29 | the shift-and-xor loop yields a word of at most 15 bits whose reduction is the field product |
| GfArithmetic.Reduce | steganographer-core/src/error_correction.rs:29-35 | the reduction loop returns the residue of the word modulo the field polynomial |
| GfArithmetic.GfMul | steganographer-core/src/error_correction.rs:21-35 | the bitwise algorithm computes the field product that the field laws are about |
| GfArithmetic.GfPow | steganographer-core/src/error_correction.rs:39-50 | square-and-multiply equals repeated multiplication for every exponent |
| GfArithmetic.InverseTable | steganographer-core/src/error_correction.rs:52-63 | every entry of the table is the inverse of its index |
| GfArithmetic.GfInv | steganographer-core/src/error_correction.rs:52-63 | the table lookup returns the inverse |
| GfArithmetic.GfDiv | steganographer-core/src/error_correction.rs:66-71 | division returns the unique solution of the multiplication |
| Polynomials.RootCount | steganographer-core/src/error_correction.rs:82-88 | a polynomial with at least as many distinct roots as coefficients is zero |
| Polynomials.AgreementUnique | steganographer-core/src/error_correction.rs:337-370 | two polynomials of one length that agree at that many distinct points are equal |
| Polynomials.EvalProduct | steganographer-core/src/error_correction.rs:293-331 | evaluating the coefficient product is multiplying the evaluations |
| Interpolation.NewtonInterpolates | steganographer-core/src/error_correction.rs:345-358 | every divided-difference polynomial passes through its values |
| Interpolation.DividedDifferences | steganographer-core/src/error_correction.rs:352-358 | the in-place pass from the right leaves the divided differences of the first values |
| Interpolation.HornerStepInPlace | steganographer-core/src/error_correction.rs:359-367 | one nested multiply-and-add step is done in place on the coefficient array |
| Interpolation.LagrangeInterpolate | steganographer-core/src/error_correction.rs:337-370 | the result has length k and passes through the first k points; too few values are an error |
| PolynomialDivision.QuotientUnique | steganographer-core/src/error_correction.rs:293-331 | a product with a nonzero leading coefficient determines its factor |
| PolynomialDivision.DivisionStep | steganographer-core/src/error_correction.rs:308-319 | subtracting a multiple of the denominator keeps numerator = quotient times denominator plus remainder |
| PolynomialDivision.LongDivision | steganographer-core/src/error_correction.rs:308-319 | the loop keeps that equation and clears every high coefficient |
| PolynomialDivision.PolynomialDivideExact | steganographer-core/src/error_correction.rs:293-331 | Ok(q) exactly when q of the expected length times the denominator is the numerator; a non-monic denominator is an error |
| LinearSystems.SwapKeepsSolutions | steganographer-core/src/error_correction.rs:241-244 | swapping rows keeps the solution set |
| LinearSystems.ScaleKeepsSolutions | steganographer-core/src/error_correction.rs:246-249 | scaling a row by a nonzero factor keeps the solution set |
| LinearSystems.ClearKeepsSolutions | steganographer-core/src/error_correction.rs:251-264 | subtracting multiples of the pivot row from all others keeps the solution set |
| GaussJordan.FindPivot | steganographer-core/src/error_correction.rs:241-243 | finds the first row from the next one on with a nonzero entry in the column, if any |
| GaussJordan.NormalizePivotRow | steganographer-core/src/error_correction.rs:246-249 | the pivot row is divided by its pivot, the other rows stay |
| GaussJordan.SubtractPivotRow | steganographer-core/src/error_correction.rs:253-264 | one row loses the multiple of the pivot row that clears its column |
| GaussJordan.ClearColumn | steganographer-core/src/error_correction.rs:251-264 | every row but the pivot row is cleared in the pivot column |
| GaussJordan.Eliminate | steganographer-core/src/error_correction.rs:236-271 | the matrix becomes reduced row-echelon, the pivots match, and the solution set is the one of the input |
| GaussJordan.AllPivotsUnique | steganographer-core/src/error_correction.rs:282-289 | a consistent reduced system with a pivot in every column has exactly the solution read off |
| GaussJordan.FreeColumnSeveral | steganographer-core/src/error_correction.rs:282-284 | a consistent reduced system with a free column has more than one solution |
| GaussJordan.SolveLinearSystem | steganographer-core/src/error_correction.rs:235-290 | Ok(v) exactly when v is the one solution; Inconsistent exactly when there is none; Singular exactly when there are several |
| KeyEquations.MinimumDistance | steganographer-core/src/error_correction.rs:95-109 | codewords of different messages of one length differ in more places than there is parity |
| KeyEquations.KnownSymbols | steganographer-core/src/error_correction.rs:95-109 | the message [0, 1] is encoded as 1, 3, 5, 15, 17, 51, 85, 255, 26: low coefficient first, at the powers of 3 |
| KeyEquations.RadiusUnique | steganographer-core/src/error_correction.rs:115-160 | at most one message lies within half the parity of a word |
| KeyEquations.KeySolved | steganographer-core/src/error_correction.rs:194-231 | the locator of the true errors and its product with the message solve the key equation at every point |
| KeyEquations.KeyForced | steganographer-core/src/error_correction.rs:194-231 | with the true number of errors nothing else solves it |
| ReedSolomon.SystemMeans | steganographer-core/src/error_correction.rs:205-224 | a vector solves the Berlekamp-Welch matrix exactly when it solves the key equation |
| ReedSolomon.SystemUnique | steganographer-core/src/error_correction.rs:194-231 | with the true number of errors the matrix has exactly one solution |
| ReedSolomon.GfPolyEval | steganographer-core/src/error_correction.rs:74-80 | Horner evaluation is the value of the polynomial |
| ReedSolomon.Encode | steganographer-core/src/error_correction.rs:95-109 | the codeword is the message evaluated at the first powers of 3; both length errors in order; parity 0 copies |
| ReedSolomon.MismatchCount | steganographer-core/src/error_correction.rs:183-191 | counts exactly the positions that differ from the codeword |
| ReedSolomon.BuildSystemRow | steganographer-core/src/error_correction.rs:208-224 | one matrix row holds the powers for Q, the scaled powers for E and the right-hand side |
| ReedSolomon.BerlekampWelch | steganographer-core/src/error_correction.rs:194-231 | returns the message at distance exactly errorCount whenever there is one; too few symbols are an error |
| ReedSolomon.Corrects | steganographer-core/src/error_correction.rs:115-160 | any damage to at most half the parity is corrected |
| ReedSolomon.Decode | steganographer-core/src/error_correction.rs:115-160 | Ok(m) exactly when m has the length and its codeword lies within half the parity of the received word; every error case |
| BitStreams.ReadBack | steganographer-core/src/carrier.rs:983-1066 | every stream bit is read back from the unit it was written to, also when bits does not divide the stream |
| BitStreams.BytesReadBack | steganographer-core/src/carrier.rs:983-1066 | reading n written bytes returns them, and a shorter read returns a prefix |
| BitStreams.EmbeddedElsewhere | steganographer-core/src/carrier.rs:983-1002 | bytes that are no slot keep their value |
| BitStreams.EmbeddedHighBits | steganographer-core/src/carrier.rs:983-1002 | the bits above the low ones keep their value in every byte |
| BitStreams.PackUnit | steganographer-core/src/carrier.rs:990-998 | the inner loop packs the next bits of the packet, highest first, padding with zeros |
| PacketCarrier.FitsIsCeiling | steganographer-core/src/carrier.rs:512-526 | the capacity report admits exactly the lengths that pass the ceiling-division check |
| PacketCarrier.KeyedFitsAgrees | steganographer-core/src/carrier.rs:528-543 | the keyed report and the keyed check agree for every length but 0, which the report alone admits to full-tag carriers |
| PacketCarrier.TagUnitsByStrength | steganographer-core/src/carrier.rs:287-291 | the 64 bits of the tag take 64, 32, 22 or 16 units |
| PacketCarrier.WriteBitsSequential | steganographer-core/src/carrier.rs:983-1002 | writes the stream to the first units of the stride, as many as are needed and exist, and nothing else |
| PacketCarrier.WriteBody | steganographer-core/src/carrier.rs:710-740 | writes the stream to the scheduled units behind the tag and nothing else |
| PacketCarrier.EmbedSequential | steganographer-core/src/carrier.rs:580-618 | Ok exactly when descriptor, bits and capacity admit the packet; an error changes nothing and names what was missing; the report is exact |
| PacketCarrier.ExtractSequential | steganographer-core/src/carrier.rs:620-672 | computes the two-phase read: locator, announced length, whole packet, and each error |
| PacketCarrier.SequentialRoundTrip | steganographer-core/src/carrier.rs:580-672 | extraction after an embed returns the packet |
| PacketCarrier.SequentialExtractsExactly | steganographer-core/src/carrier.rs:620-672 | extraction succeeds exactly on carriers that hold a locator and the packet it announces, bit by bit |
| PacketCarrier.BodyExtractsExactly | steganographer-core/src/carrier.rs:785-821 | two-phase reading succeeds exactly where the slots hold a locator and the packet that it announces |
| PacketCarrier.BodyRefusals | steganographer-core/src/carrier.rs:785-821 | the refusals behind the tag, in order, each with what it reports |
| PacketCarrier.EmbedKeyed | steganographer-core/src/carrier.rs:674-751 | Ok exactly when descriptor, bits and body capacity admit the packet; an error changes nothing and names what was missing; tag and body are where the key puts them |
| PacketCarrier.ReadBytesAt | steganographer-core/src/carrier.rs:1025-1066 | reads the bytes at the scheduled slots or reports the missing capacity |
| PacketCarrier.ExtractBytes | steganographer-core/src/carrier.rs:1084-1119 | reads bytes in unit order or reports the missing capacity |
| PacketCarrier.ConstantTimeEq | steganographer-core/src/carrier.rs:1068-1077 | true exactly when the two byte strings are equal |
| PacketCarrier.ExtractKeyed | steganographer-core/src/carrier.rs:753-821 | computes tag check, locator read and packet read under the key, and each error |
| PacketCarrier.TagUntouched | steganographer-core/src/carrier.rs:674-751 | body writes never touch the units of the recognition tag |
| PacketCarrier.KeyedRoundTrip | steganographer-core/src/carrier.rs:674-981 | for bits 1 to 4 and any schedule that visits each unit once, extraction finds tag, locator and the whole packet |
| PacketCarrier.NoPacketExactly | steganographer-core/src/carrier.rs:753-783 | no packet is reported exactly where no unit lies behind the tag or a bit of the tag is not what the key says |
| PacketCarrier.TamperedTagHides | steganographer-core/src/carrier.rs:753-775 | one changed bit of an embedded tag hides the packet, whatever else happened |
| PacketCarrier.KeyedExtractsExactly | steganographer-core/src/carrier.rs:753-821 | keyed extraction succeeds exactly on carriers that show the tag and hold a locator with its packet behind it |
| PacketCarrier.KeyedPlaces | steganographer-core/src/carrier.rs:674-751 | tag and body units lie at these bytes |
| PacketCarrier.KeyedTouchesOnlySlots | steganographer-core/src/carrier.rs:674-751 | only low bits of unit bytes change: high bytes of samples and all high bits survive |
| CycleWalking.WalkInjective | steganographer-core/src/placement.rs:88-97 | cycle walking of a permutation is injective on the shorter range |
| CycleWalking.WalkBack | steganographer-core/src/placement.rs:101-110 | walking with the inverse network undoes the walk |
| Placement.FeistelInverses | steganographer-core/src/placement.rs:124-162 | whatever the round function, the eight-round network and its inverse undo each other |
| Placement.FeistelTrace | steganographer-core/src/placement.rs:124-142 | the network ends where eight swap-and-mix rounds, numbered from 0, take the two halves of the word |
| Placement.XorDigit | steganographer-core/src/placement.rs:134-136 | a binary digit of the mixed half is set where exactly one of the two has it |
| Placement.DomainIsLeast | steganographer-core/src/placement.rs:56-64 | the domain is the least power of four that covers the range, four at least, so it is below four times the range |
| Placement.KeyedPermutation.constructor | steganographer-core/src/placement.rs:49-73 | the object keeps length and round function, with the even width that covers the length |
| Placement.TryNew | steganographer-core/src/placement.rs:49-73 | construction fails on an empty range and on an invalid label, in this order, and otherwise selects the round function by key and padded label |
| Placement.PaddingInjective | steganographer-core/src/placement.rs:27-29 | valid labels stay different when they are padded |
| Placement.PaddedBytes | steganographer-core/src/placement.rs:65-66 | the label fills the first of sixteen bytes, zeros the others |
| Placement.KeyedPermutation.Permute | steganographer-core/src/placement.rs:88-97 | the loop ends and returns the permuted index |
| Placement.KeyedPermutation.InversePermute | steganographer-core/src/placement.rs:101-110 | the loop ends and returns the index that was permuted there |
| Placement.PermutesAll | steganographer-core/src/placement.rs:83-110 | every index below the length is hit exactly once and found again by the inverse |
| Placement.PermutedWalk | steganographer-core/src/placement.rs:88-97 | an index is sent to the first place inside the range that its walk through the network comes to |
| Placement.InterleavedSchedule.constructor | steganographer-core/src/placement.rs:200-225 | the stride is the first number from the derived start on that is coprime with the length; the scan never wraps |
| Placement.CoprimeExactly | steganographer-core/src/placement.rs:216-218 | the test of the scan is coprimality: no number above 1 divides both |
| Placement.InterleavedSchedule.SlotSteps | steganographer-core/src/placement.rs:238-246 | the first unit goes to the phase, each further one a stride on, around the range |
| Placement.InterleavedSchedule.SlotsDistinct | steganographer-core/src/placement.rs:234-246 | every unit is visited exactly once |
| Placement.PermutationIsSchedule | steganographer-core/src/carrier.rs:674-751 | the keyed permutation is a schedule that the keyed carriers may use |
| Placement.InterleavedIsSchedule | steganographer-core/src/carrier.rs:823-901 | the interleaved schedule is one that the keyed carriers may use |
| SignaturePayloads.PayloadRoundTrip | steganographer-core/src/crypto.rs:153-195 | parsing undoes serialising, in 109 bytes |
| SignaturePayloads.ParsedPayload | steganographer-core/src/crypto.rs:166-195 | bytes parse exactly when they are the serialisation of a payload, and it is the parsed one |
| SignaturePayloads.PayloadLayout | steganographer-core/src/crypto.rs:146-161 | where magic, version, index, digest and signature lie, the index lowest byte first |
| SignaturePayloads.ParseErrorsExactly | steganographer-core/src/crypto.rs:166-195 | another magic is the first error, another version the second, and there is no other |
| SignaturePayloads.PreimageInjective | steganographer-core/src/crypto.rs:64-107 | different index, video, audio triples are never hashed over the same bytes |
| SignaturePayloads.PreimageLayout | steganographer-core/src/crypto.rs:70-84 | where the eight hashed parts lie, numbers lowest byte first |
| SignaturePayloads.SignatureBinds | steganographer-core/src/crypto.rs:272-378 | a signed payload verifies on its media, and on other media exactly when the two preimages collide |
| SignaturePayloads.AcceptedMedia | steganographer-core/src/crypto.rs:353-378 | any payload, forged or not, is accepted exactly with the digest of the media and a signature on it, and not on two media without a collision |
| LengthPrefix.MostSignificantFirst | steganographer-core/src/carrier.rs:1079-1082 | the eight stream bits of a byte spell its value, most significant first |
| LengthPrefix.EmbeddedRead | steganographer-cli/src/cmd_verify.rs:860-886 | behind an embed the prefix reads as the bit count and the region as the payload |
| LengthPrefix.HeldExactly | steganographer-cli/src/cmd_verify.rs:860-886 | units hold a prefixed payload exactly when the prefix reads as its bit count and the region as the payload |
| SignatureStream.PayloadToBits | steganographer-core/src/lsb_video.rs:41-55 | the 904-bit stream is the 32-bit length 872 and the serialised payload, most significant bit first |
| SignatureStream.SignatureRoundTrip | steganographer-core/src/lsb_video.rs:75-138 | a payload embedded at any distinct slots is extracted again |
| SignatureStream.SignatureExtractsExactly | steganographer-core/src/lsb_video.rs:116-138 | a signature is found exactly where its 904 bits are, nothing exactly without room or with another count, and all else is a parse error |
| LsbVideo.OffsetsValid | steganographer-core/src/lsb_video.rs:57-66 | the logical units lie at distinct bytes inside the frame |
| LsbVideo.UnownedIsNoOffset | steganographer-core/src/lsb_video.rs:57-66 | no logical unit lies on alpha or in row padding |
| LsbVideo.ValidExactly | steganographer-core/src/video.rs:40-62 | a view is accepted exactly when it is RGB or BGRA, not empty, with rows that do not overlap and every pixel inside |
| Texture.LogicalPixel | steganographer-core/src/lsb_video.rs:57-66 | colour byte b of pixel (x, y) is unit 3 (width y + x) + b and lies behind y strides and x pixels |
| LsbVideo.Kernel.Embed | steganographer-core/src/lsb_video.rs:75-114 | writes the prefixed payload at the colour bytes; each refusal changes nothing |
| LsbVideo.Kernel.Extract | steganographer-core/src/lsb_video.rs:116-138 | computes the extraction of the frame, with each way to find nothing |
| LsbVideo.Kernel.RoundTrip | steganographer-core/src/lsb_video.rs:75-138 | extraction after an embed returns the payload, for every packed layout with room |
| LsbVideo.ExtractsExactly | steganographer-core/src/lsb_video.rs:116-138 | a payload is found exactly in packed frames whose colour bytes hold it behind its bit count |
| LsbVideo.EmbedKeepsUnowned | steganographer-core/src/lsb_video.rs:75-114 | row padding and alpha keep their bytes |
| LsbVideo.RepackedExtraction | steganographer-core/src/lsb_video.rs:116-138 | extraction from a copy without row padding finds the same |
| LsbAudio.DeriveSeed | steganographer-core/src/lsb_audio.rs:48-56 | the in-place loop mixes the frame index into every eighth byte of the key |
| LsbAudio.FrameSeedsDiffer | steganographer-core/src/lsb_audio.rs:48-56 | different frame indices give different seeds |
| LsbAudio.FirstFrameSeed | steganographer-cli/src/cmd_encode.rs:912-916 | frame index 0 leaves the key as it is |
| LsbAudio.SeedByte | steganographer-core/src/lsb_audio.rs:48-56 | each byte of the seed is the key's byte xor the byte of the index, lowest first, eight in turn |
| LsbAudio.AudioPlaces | steganographer-core/src/lsb_audio.rs:48-56 | unit u is the low byte of the sample where the permutation of the frame's seed sends u |
| RawLsb.RawSeed | steganographer-cli/src/cmd_encode.rs:912-916 | the seed loop of the raw coders gives the seed of the kernel |
| LsbAudio.AudioSlotsValid | steganographer-core/src/lsb_audio.rs:48-56 | the permuted samples give distinct low bytes inside the buffer |
| LsbAudio.WriteBits | steganographer-core/src/lsb_audio.rs:74-105 | writes the stream into the permuted samples; high bytes and all other samples stay; an error changes nothing |
| LsbAudio.ReadBits | steganographer-core/src/lsb_audio.rs:108-135 | returns the low bits in permuted order, fewer when the samples end |
| LsbAudio.Kernel.Embed | steganographer-core/src/lsb_audio.rs:139-168 | writes the prefixed payload under key and frame index; each refusal changes nothing |
| LsbAudio.Kernel.Extract | steganographer-core/src/lsb_audio.rs:170-214 | computes the extraction of the buffer, with each way to find nothing |
| LsbAudio.Kernel.RoundTrip | steganographer-core/src/lsb_audio.rs:139-214 | extraction after an embed under the same key and index returns the payload |
| LsbAudio.ExtractsExactly | steganographer-core/src/lsb_audio.rs:170-214 | a payload is found exactly in buffers of whole frames whose permuted samples hold it behind its bit count |
| Samples.PutSampleBytes | steganographer-core/src/lsb_audio.rs:87-102 | masking and setting a 16-bit sample changes its low byte as a byte write does and leaves its high byte |
| Samples.LeInjective | steganographer-cli/src/cmd_encode.rs:780-786 | samples that are stored in the same bytes are the same |
| Samples.LeRoundTrip | steganographer-cli/src/cmd_encode.rs:778-788 | samples decoded from bytes and stored again are the bytes |
| Samples.StoredLowFirst | steganographer-cli/src/cmd_encode.rs:778-788 | samples are stored low byte first and read back |
| RawLsb.EmbedRaw | steganographer-cli/src/cmd_encode.rs:840-885 | writes bit count and payload into the first bytes; length and capacity errors change nothing |
| RawLsb.ExtractRaw | steganographer-cli/src/cmd_verify.rs:848-887 | computes the raw extraction: sanity limits, available bits, bytes |
| RawLsb.EmbedRawAudio | steganographer-cli/src/cmd_encode.rs:888-950 | writes bit count and payload into the permuted samples; every error changes nothing |
| RawLsb.ExtractRawAudio | steganographer-cli/src/cmd_verify.rs:890-972 | computes the raw extraction from permuted samples |
| RawLsb.RawRoundTrip | steganographer-cli/src/cmd_verify.rs:848-972 | raw extraction undoes raw embedding exactly for the payloads of 1 to 100,000 bytes |
| RawLsb.RawExtractsExactly | steganographer-cli/src/cmd_verify.rs:848-972 | a raw payload is found exactly where the units hold it behind its bit count, from 1 to 100,000 bytes |
| RawLsb.DamagedExtraction | steganographer-cli/src/cmd_verify.rs:848-972 | damage behind the length prefix changes the extracted bytes in their place only |
| FormatAgreement.VideoAgrees | steganographer-cli/src/cmd_encode.rs:840-885 | on packed RGB kernel and raw coder leave identical bytes, and each reads the other |
| FormatAgreement.AudioAgrees | steganographer-cli/src/cmd_encode.rs:888-950 | under one key, kernel at frame index 0 and raw coder leave identical samples, and each reads the other |
| CarrierBinding.Canonicalize | steganographer-core/src/carrier_binding.rs:14-86 | refuses what the kernel cannot bind, otherwise clears exactly the owned bits and nothing else |
| CarrierBinding.MaskVideo | steganographer-core/src/carrier_binding.rs:44-48 | the loop clears the low bits of every byte but alpha |
| CarrierBinding.MaskAudio | steganographer-core/src/carrier_binding.rs:55-60 | masking decoded samples clears the low bits of every low byte and leaves the high bytes |
| CarrierBinding.CanonicalSeparates | steganographer-core/src/carrier_binding.rs:14-86 | two carriers of one size bind alike exactly when they agree on every bit that is not owned |
| CarrierBinding.CanonicalIdempotent | steganographer-core/src/carrier_binding.rs:14-86 | a canonical form is its own canonical form |
| CarrierBinding.CanonicalSurvives | steganographer-core/src/carrier_binding.rs:3-8 | whoever changes owned bits only leaves the canonical form |
| CarrierBinding.VideoFormExactly | steganographer-core/src/carrier_binding.rs:24-50 | bit by bit: the video form keeps the bits from the strength on and alpha, and zeroes the others |
| CarrierBinding.AudioFormExactly | steganographer-core/src/carrier_binding.rs:51-62 | bit by bit: the audio form keeps high bytes and the bits from the strength on, and zeroes the others |
| CarrierBinding.SpreadFormExactly | steganographer-core/src/carrier_binding.rs:63-80 | the spread-spectrum form zeroes 64 bytes for every embedded bit and keeps the rest |
| CarrierBinding.DctFormExactly | steganographer-core/src/carrier_binding.rs:99-147 | the DCT form zeroes the green bytes of the first 872 blocks and keeps the rest |
| CarrierBinding.AcceptedExactly | steganographer-core/src/carrier_binding.rs:14-147 | which carriers have a form, for each kernel |
| CarrierBinding.RefusalOrder | steganographer-core/src/carrier_binding.rs:14-147 | which refusal comes first |
| DctGeometry.OffsetAtDistinct | steganographer-core/src/carrier_binding.rs:99-147 | every pixel of every block has a byte of its own |
| DctGeometry.GreenBlocksExactly | steganographer-core/src/carrier_binding.rs:99-147 | which bytes of packed RGB carry the first blocks, told from the byte |
| DctGeometry.ClearBlocks | steganographer-core/src/carrier_binding.rs:99-147 | zeroes the carrying bytes of the payload blocks and nothing else |
| BindingSurvives.VideoEmbedSurvives | steganographer-core/src/carrier_binding.rs:23-50 | the video kernel keeps the canonical form, on packed RGB and on packed BGRA |
| BindingSurvives.AudioEmbedSurvives | steganographer-core/src/carrier_binding.rs:51-61 | writing permuted samples keeps the canonical form |
| EndToEnd.Embed | steganographer-cli/src/cmd_encode.rs:757-790 | embeds raw bytes in the media bytes of either carrier; an error changes nothing |
| EndToEnd.Prepare | steganographer-cli/src/cmd_encode.rs:505-565 | succeeds exactly when parity and canonical form allow, with the signed payload of the canonical form and its sealed, protected bytes |
| EndToEnd.Run | steganographer-cli/src/cmd_encode.rs:505-593 | succeeds exactly when parity, canonical form and capacity allow; the media then carry the signed, sealed, protected payload of their own canonical form |
| EndToEnd.TransformedLength | steganographer-cli/src/cmd_encode.rs:505-565 | the embedded length is the one that the canonical form was told, so neither length check can fail |
| EndToEnd.ApplyEccTransform | steganographer-cli/src/cmd_verify.rs:830-845 | computes correction of the extracted bytes, with its short-payload error |
| EndToEnd.DecodeSignaturePayload | steganographer-cli/src/cmd_verify.rs:809-828 | computes correction, decryption, length check and parsing, each with its error |
| EndToEnd.Judge | steganographer-cli/src/cmd_verify.rs:466-530 | the verdict on extracted bytes is the one that the opened payload and the canonical form of the carrier determine |
| EndToEnd.JudgedExactly | steganographer-cli/src/cmd_verify.rs:484-535 | a verdict is valid exactly when the payload's digest is that of the carrier's form and its signature checks on it |
| EndToEnd.JudgedBinds | steganographer-cli/src/cmd_verify.rs:484-535 | bytes that open to the signed payload are judged valid exactly on carriers that agree outside the owned bits, or on a collision |
| EndToEnd.Verify | steganographer-cli/src/cmd_verify.rs:400-530 | the verdict is the one that the extracted payload and the canonical form of the received carrier determine |
| EndToEnd.SigningSurvives | steganographer-cli/src/cmd_encode.rs:505-593 | the carrier that is sent has the canonical form that was signed |
| EndToEnd.OpensDespiteDamage | steganographer-cli/src/cmd_verify.rs:809-845 | bytes with no more damage than error correction absorbs open to the sealed payload |
| EndToEnd.Resilience | steganographer-cli/src/cmd_verify.rs:809-887 | whatever happens to owned bits behind the prefix, up to half the parity in damaged bytes, the carrier verifies as signed |
| EndToEnd.SentVerifies | steganographer-cli/src/cmd_encode.rs:584-605 | an undamaged carrier verifies as signed |
| EndToEnd.RunAuthenticated | steganographer-cli/src/cmd_encode.rs:584-605 | reading the output back and verifying it before success never fails |
| EndToEnd.AcceptanceBinds | steganographer-cli/src/cmd_verify.rs:484-530 | the signed payload is accepted exactly on carriers that agree outside the owned bits, or on a hash collision |
| EndToEnd.VerdictBinds | steganographer-cli/src/cmd_verify.rs:400-535 | the verdict on a received carrier is valid exactly when nothing but owned bits changed, or the forms collide |
| EndToEnd.FlippedBitInvalid | steganographer-cli/src/cmd_verify.rs:400-535 | one flipped bit that no embed at this strength may touch makes the verdict invalid, unless the hash collides |
| EndToEnd.NoSignatureExactly | steganographer-cli/src/cmd_verify.rs:622-700 | no signature is reported exactly where the units hold no payload of 1 to 100,000 bytes behind its bit count |
| EndToEnd.CorrectedExactly | steganographer-cli/src/cmd_verify.rs:830-845 | correction finds exactly the message within half the parity |
| EndToEnd.OpenedExactly | steganographer-cli/src/cmd_verify.rs:809-828 | bytes open to a payload exactly when they are corrected to, and decrypted to, its 109 bytes |
| EndToEnd.OpenErrors | steganographer-cli/src/cmd_verify.rs:809-845 | why bytes do not open, in the order of the steps |
| EndToEnd.AcceptedRuns | steganographer-cli/src/cmd_encode.rs:398-524 | a run succeeds exactly within these numbers |
| MerkleChain.ComputeMerkleRoot | steganographer-core/src/hash_chain.rs:234-259 | the level-by-level loop ends and computes the recursive root |
| MerkleChain.PairLayout | steganographer-core/src/hash_chain.rs:247-253 | a pair is hashed over its left digest and then its right one |
| MerkleChain.MerkleIsTop | steganographer-core/src/hash_chain.rs:228-259 | the root is the top node of the tree whose nodes hash their two children, the last one doubled when alone |
| MerkleChain.MerkleBinds | steganographer-core/src/hash_chain.rs:234-259 | equal roots over equally many leaves: equal leaves or an exhibited collision |
| MerkleChain.LastLeafDoubles | steganographer-core/src/hash_chain.rs:228-259 | without the count a root does not bind: doubling the last of an odd number of leaves keeps it |
| MerkleChain.ChainBinds | steganographer-core/src/hash_chain.rs:94-112 | equal last hashes of equally many frames: equal frames and predecessors or an exhibited collision |
| MerkleChain.ChainHashAt | steganographer-core/src/hash_chain.rs:190-202 | leaf i is the hash of the chain up to frame i |
| MerkleChain.FrameLayout | steganographer-core/src/hash_chain.rs:94-99 | a frame is hashed over its index, lowest byte first, the hash before it, and its data |
| MerkleChain.RootBinds | steganographer-core/src/hash_chain.rs:176-219 | equal Merkle roots of equally many frames: equal frames and predecessors or an exhibited collision |
| MerkleChain.VerifyChain | steganographer-core/src/hash_chain.rs:176-219 | returns true exactly when every condition on root, frames and predecessor holds |
| MerkleChain.AcceptsExactly | steganographer-core/src/hash_chain.rs:176-219 | acceptance determines the whole root: it is the root of the frames, which are consecutive, not numbered below it, with a zero predecessor exactly at segment 0 |
| MerkleChain.AcceptedRootUnique | steganographer-core/src/hash_chain.rs:176-219 | two roots accepted for the same frames, predecessor and segment number are the same |
| MerkleChain.AcceptedFramesEqual | steganographer-core/src/hash_chain.rs:176-219 | two frame lists accepted for one root are equal, with equal predecessors, or exhibit a collision |
| MerkleChain.RunPartitions | steganographer-core/src/hash_chain.rs:94-151 | over any run the segments are never empty, never too long, and together the added frames in order |
| MerkleChain.SegmentsFill | steganographer-core/src/hash_chain.rs:94-112 | without a request for a root every finished segment is full |
| MerkleChain.BuildFinishes | steganographer-core/src/hash_chain.rs:146-151 | a request for a root finishes the segment in progress, adds no frame, and does nothing when repeated |
| MerkleChain.EveryRootExactly | steganographer-core/src/hash_chain.rs:94-219 | over every run root i verifies against its frames exactly when they are consecutive, not numbered below i, and it is the first or its predecessor hash is not zero |
| MerkleChain.EveryRootVerifies | steganographer-core/src/hash_chain.rs:94-219 | over any run of consecutive frames root i verifies against its frames exactly when it is the first or its predecessor hash is not zero |
| MerkleChain.HashChain.WithSegmentSize | steganographer-core/src/hash_chain.rs:75-85 | a new chain is the empty run |
| MerkleChain.HashChain.AddFrame | steganographer-core/src/hash_chain.rs:94-112 | advances the run by the frame, returns its chained hash and finishes a full segment |
| MerkleChain.HashChain.FinalizeSegment | steganographer-core/src/hash_chain.rs:115-140 | appends the root of the segment in progress and starts the next one |
| MerkleChain.HashChain.BuildRoot | steganographer-core/src/hash_chain.rs:146-151 | finishes a partial segment and returns the latest root, if any |
| MerkleChain.ReportedRootsVerify | steganographer-core/src/hash_chain.rs:94-219 | the roots that the object reports verify with the last frame hash of the root before them, under exactly those conditions |
| XorSharing.SplitPayloadBytes | steganographer-core/src/multi_frame.rs:54-109 | succeeds exactly for 2 to 8 shards, no index overflow and a nonempty payload; shard 0 hides the payload under all masks |
| XorSharing.ShardsLayout | steganographer-core/src/multi_frame.rs:84-108 | numbers, totals and data of every shard; two shards are a bytewise exclusive or |
| XorSharing.CheckShards | steganographer-core/src/multi_frame.rs:130-150 | passes exactly the shard lists with one total, one length and distinct indices in range |
| XorSharing.ReconstructPayloadBytes | steganographer-core/src/multi_frame.rs:112-163 | succeeds exactly on complete groups and combines them in index order |
| XorSharing.Split | steganographer-core/src/multi_frame.rs:178-237 | the fixed-size form makes the same shards |
| XorSharing.Reconstruct | steganographer-core/src/multi_frame.rs:256-304 | complete groups give the parsed combination, all others an error |
| XorSharing.AnyOrderReconstructs | steganographer-core/src/multi_frame.rs:112-163 | all shards in any order give the payload back |
| XorSharing.CompleteExactly | steganographer-core/src/multi_frame.rs:130-150 | a consistent group is accepted exactly when every index occurs, so a missing or repeated index is always refused |
| XorSharing.CompleteIsSplit | steganographer-core/src/multi_frame.rs:112-163 | every accepted group is a split of what it combines to, under the masks that its later shards are |
| XorSharing.AllButOneTellNothing | steganographer-core/src/multi_frame.rs:1-22 | all shards but one fit every payload of their length through exactly one choice of masks |
| SpreadFrames.SpreadReconstructs | steganographer-cli/src/cmd_encode.rs:1041-1080 | whatever the masks, the shards extracted from the copies combine to the payload, in any order |
| SpreadFrames.EncodeMultiFrame | steganographer-cli/src/cmd_encode.rs:1041-1070 | one copy for each shard, exactly when the payload can be split and fits |
| SpreadFrames.VerifyMultiFrame | steganographer-cli/src/cmd_verify.rs:1023-1129 | the verdict is the one that the shards of the copies and the first copy determine |
| SpreadFrames.VerdictExactly | steganographer-cli/src/cmd_verify.rs:1023-1100 | the verdict names the first obstacle: a copy of another size, one without a shard, or shards of different lengths |
| SpreadFrames.SpreadVerdictBinds | steganographer-cli/src/cmd_verify.rs:1023-1129 | shards that combine to the signed payload verify exactly when nothing but owned bits of the first copy changed, or the forms collide |
| SpreadFrames.SpreadResilience | steganographer-cli/src/cmd_verify.rs:1023-1129 | with at most half the parity in damaged byte positions over all copies together, the copies verify as signed |
| SpreadFrames.RunSpread | steganographer-cli/src/cmd_encode.rs:505-605 | the run for several frames reads its copies back, and that check never fails |
| SpreadFrames.CopiesBindAlike | steganographer-cli/src/cmd_encode.rs:1041-1080 | every copy has the canonical form of the carrier it was made from |
| StableSorting.SortContents | steganographer-core/src/multi_frame.rs:152-153 | sorting keeps the elements with their multiplicity |
| StableSorting.SortOrdered | steganographer-core/src/multi_frame.rs:152-153 | sorting orders by the key |
| StableSorting.SortStable | steganographer-core/src/adaptive.rs:140-141 | elements with equal keys keep their order |
| Texture.ComputeVariance | steganographer-core/src/adaptive.rs:331-346 | computes the integer variance of the window |
| Texture.VarianceBound | steganographer-core/src/adaptive.rs:331-346 | the variance fits its 32-bit result |
| Texture.FlatWindow | steganographer-core/src/adaptive.rs:331-346 | a flat window has no variance |
| Texture.VarianceSpread | steganographer-core/src/adaptive.rs:331-346 | two values d apart among n give a variance of at least d squared over 2 n |
| Texture.TwoColourVariance | steganographer-core/src/adaptive.rs:331-346 | the exact variance of a window of two colours, from how often each occurs |
| Texture.ComputeVarianceMap | steganographer-core/src/adaptive.rs:81-130 | one entry for every colour byte in frame order, none for alpha or padding, with the variance of the masked 3 x 3 window |
| Texture.SelectPositions | steganographer-core/src/adaptive.rs:134-145 | computes filter, stable sort and projection of the map |
| Texture.SelectionMeans | steganographer-core/src/adaptive.rs:134-145 | the selection holds exactly the bytes at or above the threshold, largest variance first, ties in frame order |
| Texture.NearWindow | steganographer-core/src/adaptive.rs:81-130 | the variance around a pixel is that of the first bytes of the pixels at most one step away, each once |
| Texture.SelectedExactly | steganographer-core/src/adaptive.rs:81-145 | a colour byte is selected exactly when the variance around its pixel reaches the threshold |
| Texture.EdgeSelected | steganographer-core/src/adaptive.rs:81-145 | next to an edge of height d the colour bytes are selected at every threshold up to d squared over 18 |
| Texture.FlatUnselected | steganographer-core/src/adaptive.rs:81-145 | away from edges they are selected at threshold 0 only |
| Texture.PositionsValid | steganographer-core/src/adaptive.rs:134-145 | selected positions are distinct bytes inside the frame, never alpha or padding |
| Texture.SelectionIgnoresLowBits | steganographer-core/src/adaptive.rs:74-90 | frames with equal high bits have the same selection |
| AdaptiveLsb.BitsToBytes | steganographer-core/src/adaptive.rs:156-169 | packs bits to bytes, the last one padded with zeros |
| AdaptiveLsb.PackedValues | steganographer-core/src/adaptive.rs:205-218 | every chunk value is what its unit must hold, a short chunk padded on the right |
| AdaptiveLsb.Kernel.Embed | steganographer-core/src/adaptive.rs:173-233 | writes the packet at the selected positions; each refusal changes nothing |
| AdaptiveLsb.Kernel.Extract | steganographer-core/src/adaptive.rs:235-327 | computes the extraction of the frame, with each way to find nothing |
| AdaptiveLsb.Kernel.SelectionSurvives | steganographer-core/src/adaptive.rs:74-145 | embedding does not change the ordered list of positions that directed it |
| AdaptiveLsb.Kernel.RoundTrip | steganographer-core/src/adaptive.rs:173-327 | extraction returns the embedded payload for every frame, threshold and strength that leave room |
| AdaptiveLsb.PacketLayout | steganographer-core/src/adaptive.rs:183-200 | the packet is the bit count 872, lowest byte first, and the 109 bytes |
| AdaptiveLsb.FitsExactly | steganographer-core/src/adaptive.rs:196-204 | there is room exactly when the selected bytes offer 904 bits |
| AdaptiveLsb.ExtractsExactly | steganographer-core/src/adaptive.rs:235-327 | a payload is found exactly in packed frames whose selected bytes hold its packet bit by bit |
| DctVideo.ReadBlock | steganographer-core/src/dct_video.rs:239-248 | collects the 64 pixels of a block in the chosen channel |
| DctVideo.WriteBlocks | steganographer-core/src/dct_video.rs:280-289 | stores every staged block in its place and changes no other byte |
| DctVideo.Kernel.Stage | steganographer-core/src/dct_video.rs:229-278 | returns all restored blocks exactly when every bit survives reconstruction |
| DctVideo.Kernel.Embed | steganographer-core/src/dct_video.rs:195-300 | all or nothing: succeeds exactly when step, layout, block count and every bit allow; otherwise the frame is unchanged |
| DctVideo.Kernel.Extract | steganographer-core/src/dct_video.rs:303-350 | computes the payload that the blocks decide, or nothing |
| DctVideo.Kernel.RoundTrip | steganographer-core/src/dct_video.rs:195-350 | a successful embed is read back whatever the transform does |
| DctVideo.Kernel.BlockPixel | steganographer-core/src/dct_video.rs:229-248 | pixel (x, y) is pixel (x mod 8, y mod 8) of its block, blocks counted row by row |
| DctVideo.Kernel.EmbeddableExactly | steganographer-core/src/dct_video.rs:195-278 | a frame can be embedded into exactly with step 8, a packed layout, 872 blocks, and every bit surviving, lowest of a byte first |
| DctVideo.Kernel.MarkedBlocks | steganographer-core/src/dct_video.rs:229-289 | after an embed every block is the one restored for its bit, and no other byte changed |
| DctVideo.Kernel.ExtractsExactly | steganographer-core/src/dct_video.rs:303-350 | a payload is found exactly in packed frames of 872 blocks that decide its bits |
| DctVideo.Kernel.EmbedSurvives | steganographer-core/src/carrier_binding.rs:99-147 | on packed RGB a green-channel embed keeps the canonical form |
| DctVideo.Kernel.BindingSurvivesExactly | steganographer-core/src/carrier_binding.rs:99-147 | on packed RGB the canonical form survives an embed exactly on the green channel or where every payload block already shows its candidate |
| DctVideo.Kernel.ChangesNothingExactly | steganographer-core/src/dct_video.rs:195-300 | an embed changes nothing exactly when every candidate is the block that is there |
| DctVideo.Kernel.OtherChannelsUnbound | steganographer-core/src/carrier_binding.rs:99-147 | on another channel the canonical form survives only an embed that leaves the frame as it was |
| DctVideo.Kernel.SurvivorsCarryAlready | steganographer-core/src/carrier_binding.rs:99-147 | outside the green channel the canonical form survives only in a frame from which the payload could be extracted before |
| DctVideo.Kernel.EqualBlocksUnbind | steganographer-core/src/carrier_binding.rs:99-147 | where the first and the third block are equal, every embed outside the green channel breaks the binding, whatever the transform |
| DctVideo.Kernel.GreyFrameUnbinds | steganographer-core/src/carrier_binding.rs:99-147 | so it does on every frame of one grey value that the kernel can embed into |
| DirectDct.RunDirect | steganographer-cli/src/cmd_encode.rs:505-605 | the direct path succeeds exactly where canonical form and embedder allow, reads its output back, and that check never fails |
| DirectDct.VerifyDirect | steganographer-cli/src/cmd_verify.rs:722-739 | the verdict is the one that the extracted payload and the canonical form of the received frame determine |
| DirectDct.DirectResilience | steganographer-cli/src/cmd_encode.rs:809-834 | whatever happens to payload blocks that still decide their bits, the frame verifies as signed |
| DirectDct.DirectVerdictBinds | steganographer-cli/src/cmd_verify.rs:484-535 | a frame that shows the signed payload verifies exactly when nothing but payload blocks changed, or the forms collide |
| DirectDct.ChangedByteInvalid | steganographer-cli/src/cmd_verify.rs:484-535 | one changed byte outside the green bytes of the first 872 blocks makes the verdict invalid, unless the hash collides |

## Left out

- Integer widths: lengths, capacities and indices are natural numbers, so the overflow errors of checked multiplication
  and addition (capacity overflow, geometry overflow) do not occur; the 32-bit length prefix and the 64-bit frame indices
  are modelled with their limits.
- Packet format: envelopes and locators of `packet.rs` are a parameter with two laws, that a locator announces the
  length of its packet and that parsing gives the packet back; the carriers are proved for every such format.
- GfArithmetic.InverseTable: the table is computed when asked for; that the source computes it once and shares it is not
  modelled.
- GaussJordan.SolveLinearSystem: rows are values in an array, so swapping rows exchanges values and not vectors.
- PacketCarrier.EmbedKeyed: one model stands for the keyed and the interleaved embedder, which differ in their schedule
  and their descriptor check only; the parse errors of a malformed packet are one error.
- Placement.KeyedPermutation.constructor: key and label act through the round function; length and label are checked in
  `Placement.TryNew`, before the object is built.
- LsbAudio.WriteBits: samples are 16-bit words; a sign plays no part in masking and shifting low bits.
- DctVideo.Kernel.Embed: the floating-point transform, its zigzag table and its quantisation are two abstract functions,
  one that restores a block for a bit and one that decides the bit of a block; how often an embed succeeds is not stated.
- EndToEnd.Verify: exact strengths only; the automatic search over strengths, revocation, missing public keys and
  time stamps are left out, and the media are packed RGB or complete samples, as the media reader delivers them.
- EndToEnd.RunAuthenticated: writing the output file and reading it back is the identity on the media bytes.
- EndToEnd.Run: single carriers of the two LSB kernels; the branch to several frames is `SpreadFrames.RunSpread` and the
  direct DCT path `DirectDct.RunDirect`. The spread-spectrum kernel is left out, with only its canonical region modelled.
- SpreadFrames.VerifyMultiFrame: exact strengths only; that a file of the group is missing is not modelled.
- XorSharing.SplitPayloadBytes: the masks are inputs; that the operating system draws them uniformly is not modelled.
- MerkleChain.HashChain.AddFrame: frame indices are natural numbers in the chain itself; the checks of consecutive
  64-bit indices are where the source makes them, in verification.
- Files, images, sound containers, keys on disk, command-line parsing, reports, the MDCT kernel, which repeats the staged
  commit of the DCT kernel, steganalysis, the dashboard and the streaming plug-in.
