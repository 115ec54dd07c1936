# A verified model of the glasssix cross-module object system and its image primitives

This project is a Dafny model of the C++ core of the repository. It covers:

- the object system under `cpp/common/Primitives/abi/`:
  - bit, byte and hex helpers;
  - the SHA-3 sponge (FIPS 202) and GUIDs derived from it;
  - type signatures and interface identities;
  - reference-counted objects with `query_interface`, `add_ref` and `release`;
  - the error-code channel;
  - parameter strings, spans, vectors and hash maps;
  - iterators, boxed values and the class factory exports;
- the general primitives: `hash_utils`, `pool_allocator`, `delegate`, `profiler`, `array_buffer`, `singleton`;
- the tensor and its helpers: `tensor`, `tensor_helper`, `tensor_converter`;
- the CPU image operations of `cpp/common/Excalibur/`: cut_border, make_border, merge_channel, safty_cut, and the fixed-point bilinear path of resize;
- two helpers of the RKNN2 wrapper: `split_string` and `f16_2_f32`.

Source files map to Dafny files as follows:

- Each modelled file of `cpp/common/Primitives/` and `cpp/common/Primitives/abi/` becomes one Dafny module in a file of the same stem (`sha3_details.hpp` → `sha3_details.dfy`, module `Sha3Details`), with these exceptions:
  - `base_abi.hpp` becomes two modules in `base_abi.dfy`: `BaseAbi` for the generic interface GUIDs and `UnknownObjects` for the `unknown_object` handle;
  - `param_string_allocations.hpp` has no module of its own. Its string functions are the class `ParamStrings.StringStore` in `param_string.dfy`.
- Each `operation_<name>.hpp` of `cpp/common/Excalibur/` becomes `<name>.dfy` without the prefix (`operation_cut_border.hpp` → `cut_border.dfy`, module `CutBorders`), and likewise make_border, merge_channel, safty_cut and resize.
- The two helpers of `rknn2_wrapper.hpp` become two files and two modules: `rknn2_strings.dfy` (`Rknn2Strings`) and `rknn2_floats.dfy` (`Rknn2Floats`).
- `wrappers.dfy` holds the `Option` type the others share.

The model follows the form of the source:

- Code that computes values becomes datatypes, functions and lemmas.
- Code that changes state becomes imperative Dafny:
  - classes whose methods update their fields;
  - arrays rewritten in place by loops, with the invariants that prove them.
- Each method is proved against a specification function, and the properties the source promises are proved about that function:
  - round trips;
  - invariants an operation keeps;
  - agreement with FIPS 202 and RFC 4122;
  - bounds and "nothing else changes".

Errors are modelled as follows:

- A fatal check (`CHECK`, `LOG(FATAL)`, `NOT_IMPLEMENTED`, `std::terminate`) is a precondition.
- A logged error followed by a return leaves its output as it was.
- An exception raised across the ABI is a result value.

Where the code, as written, breaks what its comments or its callers evidently expect, the model keeps both versions (see "Findings"):

- the operation as written, with a lemma that exhibits the discrepancy;
- the corrected operation, with the intended property proved.

The rest of the model uses the corrected version.

## Model

| member | source | states |
|---|---|---|
| Meta.FromHexCharacter | cpp/common/Primitives/abi/meta.hpp:278-296 | a character decodes exactly when it is a hexadecimal digit of either case, and its value is below 16 |
| Meta.FromHexCharacterTable | cpp/common/Primitives/abi/meta.hpp:278-296 | digit i of "0123456789ABCDEF" decodes to i, and a lower-case letter decodes like its upper-case twin |
| Meta.ToHexCharacter | cpp/common/Primitives/abi/meta.hpp:298-301 | every byte is written as exactly two digits |
| Meta.PairByteOfHex | cpp/common/Primitives/abi/meta.hpp:278-301 | the two digits written for a byte are hexadecimal digits and decode back to that byte |
| Meta.ToArray | cpp/common/Primitives/abi/meta.hpp:310-318 | to_array gives exactly sizeof(Number) bytes |
| Meta.ToArrayAt | cpp/common/Primitives/abi/meta.hpp:310-318 | byte i of to_array is the number shifted right by that byte's offset (from the top in big-endian order, from the bottom otherwise) and masked to 8 bits |
| Meta.MakeNumber | cpp/common/Primitives/abi/meta.hpp:431-437 | make_number builds a number that fits in as many bytes as it was given |
| Meta.MakeNumberToArray | cpp/common/Primitives/abi/meta.hpp:431-437 | make_number undoes to_array for the same byte order, for every number that fits |
| Meta.ToArrayMakeNumber | cpp/common/Primitives/abi/meta.hpp:502-505 | to_array undoes make_number for the same byte order, for every byte array |
| Meta.SplitNumberTruncated | cpp/common/Primitives/abi/meta.hpp:486-492 | split_number with a truncation size passes the first min(TruncateSize, sizeof(Number)) bytes of to_array, unchanged |
| Meta.HexOfBytesAt | cpp/common/Primitives/abi/meta.hpp:527-530 | byte i of the number's bytes is written as its high nibble at character 2i and its low nibble at 2i + 1 |
| Meta.AllHexOfBytes | cpp/common/Primitives/abi/meta.hpp:527-530 | the text to_char_array writes consists of hexadecimal digits only |
| Meta.BytesOfHexAt | cpp/common/Primitives/abi/meta.hpp:455-470 | byte k that to_number decodes is the pair of digits at characters 2k and 2k + 1 |
| Meta.BytesOfHexOfBytes | cpp/common/Primitives/abi/meta.hpp:447-473 | decoding the hexadecimal text of a byte string gives the bytes back |
| Meta.ToCharArray | cpp/common/Primitives/abi/meta.hpp:527-530 | to_char_array writes two characters per byte of the number |
| Meta.ToNumber | cpp/common/Primitives/abi/meta.hpp:447-473 | to_number's pair-by-pair loop computes the decoded number; a string shorter than two digits per byte gives 0; the result fits the number's width |
| Meta.ToNumberToCharArray | cpp/common/Primitives/abi/meta.hpp:447-473 | to_number reads back exactly the number to_char_array wrote, in the same byte order |
| Meta.TruncRem | cpp/common/Primitives/abi/meta.hpp:351 | C++ `bits %= digits` leaves a remainder of the dividend's sign and of magnitude below the width |
| Meta.TruncRemCongruent | cpp/common/Primitives/abi/meta.hpp:351 | the truncated remainder is congruent to the count modulo the width |
| Meta.RotateImplReduced | cpp/common/Primitives/abi/meta.hpp:337-361 | a rotation by any count is the shift pair by the count's remainder, the opposite shift pair for a negative remainder, and the identity for a zero remainder |
| Meta.RotateNegative | cpp/common/Primitives/abi/meta.hpp:553-571 | rotl by -k is rotr by k and rotr by -k is rotl by k |
| Meta.RotatePeriodic | cpp/common/Primitives/abi/meta.hpp:553-571 | counts that differ by the word width rotate alike |
| Meta.RotateWholeWidth | cpp/common/Primitives/abi/meta.hpp:553-571 | a count that is a multiple of the width, zero included, leaves the word unchanged |
| Meta.RotrIsRotl | cpp/common/Primitives/abi/meta.hpp:342-343 | the right shift pair by c equals the left shift pair by 64 - c |
| Meta.RotlThenRotr | cpp/common/Primitives/abi/meta.hpp:342-343 | a word rotated left by a count in 1..63 and then right by the same count is unchanged |
| Meta.ShiftPairsInverse | cpp/common/Primitives/abi/meta.hpp:342-343 | the left and right shift pairs of one count undo each other in either order |
| Meta.ShiftPairInverse | cpp/common/Primitives/abi/meta.hpp:342-344 | the shift pair rotate_impl selects and the opposite one undo each other |
| Meta.RotateInverse | cpp/common/Primitives/abi/meta.hpp:553-571 | rotr(rotl(x, k), k) == x and rotl(rotr(x, k), k) == x for every count k |
| Meta.GetNumberBit | cpp/common/Primitives/abi/meta.hpp:581-584 | the bit read is 0 or 1 |
| Meta.GetNumberBitMask | cpp/common/Primitives/abi/meta.hpp:581-584 | the bit read is 1 exactly when the word has the single-bit mask of that offset set |
| Meta.SetNumberBit | cpp/common/Primitives/abi/meta.hpp:594-597 | after set_number_bit, get_number_bit at that offset reads the low bit of the value written |
| Meta.SetNumberBitOthers | cpp/common/Primitives/abi/meta.hpp:594-597 | writing 0 clears and writing 1 sets the offset's bit, and every other bit keeps its value |
| Meta.SwapEndian | cpp/common/Primitives/abi/meta.hpp:606-623 | the loop's result is the byte-reversed word |
| Meta.SwappedBytes | cpp/common/Primitives/abi/meta.hpp:606-623 | byte i of the swapped word is byte 7 - i of the original |
| Meta.BytesDetermineWord | cpp/common/Primitives/abi/meta.hpp:606-623 | two words with the same eight bytes are equal |
| Meta.SwappedInvolution | cpp/common/Primitives/abi/meta.hpp:606-623 | swapping the byte order twice gives the word back |
| Meta.Log2 | cpp/common/Primitives/abi/meta.hpp:651-661 | log2(0) is 0, and for a positive number the result r satisfies 2^r <= number < 2^(r+1) |
| Meta.MinusModUnsignedAsWritten | cpp/common/Primitives/abi/meta.hpp:673-684 | as written, the result is below the divisor and equals (a - b) mod c when no wrap-around occurs |
| Meta.MinusModUnsignedAsWrittenCounterexample | cpp/common/Primitives/abi/meta.hpp:681-684 | the wrap branch as written gives 4 for (0 - 1) mod 7, whose residue is 6 |
| Meta.MinusModUnsignedAsWrittenOnFive | cpp/common/Primitives/abi/meta.hpp:673-684 | the one wrapping use in the sources, x - 1 mod 5 for x < 5, gives the residue the doc comment promises |
| Meta.MinusMod | cpp/common/Primitives/abi/meta.hpp:663-684 | the corrected (a - b) mod c is a residue below c |
| Meta.MinusModCongruent | cpp/common/Primitives/abi/meta.hpp:663-671 | adding b back to the corrected (a - b) mod c gives a modulo c, the doc comment's promise |
| Meta.MinusModAgrees | cpp/common/Primitives/abi/meta.hpp:673-684 | the corrected definition equals the source's wherever no wrap-around occurs and on its one wrapping use |
| Meta.CopyBytes | cpp/common/Primitives/abi/meta.hpp:370-376 | the destination holds the first size source bytes from the offset on, and every other byte keeps its value |
| Meta.ConcatArrays | cpp/common/Primitives/abi/meta.hpp:514-517 | the concatenation is as long as all the arrays together |
| Meta.ConcatArraysAt | cpp/common/Primitives/abi/meta.hpp:327-334 | array i of concat_arrays lies unchanged at the running sum of the lengths before it |
| Meta.SubArray | cpp/common/Primitives/abi/meta.hpp:704-711 | sub_array holds Size elements, element k being data[Index + k] |
| Meta.UniqueProperties | cpp/common/Primitives/abi/meta.hpp:40-47 | tuple_unique's list has no repeats, has the same elements as the original, and keeps the original's first element first |
| Meta.UniqueOfDistinct | cpp/common/Primitives/abi/meta.hpp:170-180 | a list without repeats is left as it is |
| Sha3Details.FinalHashSize | cpp/common/Primitives/abi/sha3_details.hpp:79-85 | the digest length of each SHA3 variant is 28, 32, 48 or 64 bytes, a whole number of 32-bit words |
| Sha3Details.BlockSize | cpp/common/Primitives/abi/sha3_details.hpp:79-85 | the rate plus twice the digest length is the 200-byte state, the rate is a whole number of lanes and exceeds the digest |
| Sha3Details.CalculateIndex | cpp/common/Primitives/abi/sha3_details.hpp:190-195 | the lane index is below 25 and encodes x mod 5 and y mod 5 |
| Sha3Details.CalculateIndexOnto | cpp/common/Primitives/abi/sha3_details.hpp:190-195 | every position 0..24 is the index of exactly one lane of the 5 x 5 grid |
| Sha3Details.LaneModulo | cpp/common/Primitives/abi/sha3_details.hpp:143-146 | state(x, y) reads its coordinates modulo 5 |
| Sha3Details.LaneAtIndex | cpp/common/Primitives/abi/sha3_details.hpp:143-146 | lane (i mod 5, i / 5) is element i of the state |
| Sha3Details.UpdatedStep | cpp/common/Primitives/abi/sha3_details.hpp:337-356 | writing lane (x, y) of a lane-by-lane pass advances the pass by exactly one lane |
| Sha3Details.UpdatedColumn | cpp/common/Primitives/abi/sha3_details.hpp:337-356 | a finished column of a lane-by-lane pass is the start of the next column |
| Sha3Details.UpdatedEnds | cpp/common/Primitives/abi/sha3_details.hpp:337-356 | a lane-by-lane pass starts from its input and ends at its target |
| Sha3Details.LanesDetermineState | cpp/common/Primitives/abi/sha3_details.hpp:90-198 | two states agreeing on all 25 lanes are equal |
| Sha3Details.ZeroLanes | cpp/common/Primitives/abi/sha3_details.hpp:96-98 | the default state has 25 lanes, all zero |
| Sha3Details.Theta | cpp/common/Primitives/abi/sha3_details.hpp:337-356 | theta keeps 25 lanes and XORs each with the parities of its two neighbouring columns |
| Sha3Details.ThetaKernel | cpp/common/Primitives/abi/sha3_details.hpp:337-356 | a state whose columns all have even parity is a fixed point of theta |
| Sha3Details.ThetaAt | cpp/common/Primitives/abi/sha3_details.hpp:337-356 | lane (x, y) of theta(A) absorbs C[x-1] and rotl(C[x+1], 1) |
| Sha3Details.RcStepBitwise | cpp/common/Primitives/abi/sha3_details.hpp:264-280 | the source's read-bit-8-then-flip-bits-0,4,5,6 spelling equals one step of the rc(t) shift register |
| Sha3Details.Rc | cpp/common/Primitives/abi/sha3_details.hpp:250-285 | rc(t) is a single bit, 1 when t mod 255 = 0 |
| Sha3Details.StepMappingHelperRc | cpp/common/Primitives/abi/sha3_details.hpp:250-285 | the loop returns rc(t): bit 0 of the register after t mod 255 steps |
| Sha3Details.FuncRc | cpp/common/Primitives/abi/sha3_details.hpp:312-329 | func_rc builds round constant RC[round] from rc(j + 7 round) at bits 2^j - 1 |
| Sha3Details.RoundConstantFromRegisters | cpp/common/Primitives/abi/sha3_details.hpp:312-329 | a round constant is determined by the seven register values it reads |
| Sha3Details.RcRegisterNext | cpp/common/Primitives/abi/sha3_details.hpp:250-285 | one more step of the register after n steps is the register after n + 1 steps |
| Sha3Details.RoundConstantRow | cpp/common/Primitives/abi/sha3_details.hpp:312-329 | each round's register walk reaches the next round's starting register and yields the tabulated constant |
| Sha3Details.RoundStartRegister | cpp/common/Primitives/abi/sha3_details.hpp:312-329 | the register reaches the tabulated value at the start of every round |
| Sha3Details.RoundConstantsPublished | cpp/common/Primitives/abi/sha3_details.hpp:312-329 | the 24 round constants computed at compile time are the published Keccak-f[1600] constants |
| Sha3Details.Walk | cpp/common/Primitives/abi/sha3_details.hpp:290-307 | the (x, y) walk of FIPS 202 Algorithm 2 stays inside the 5 x 5 grid |
| Sha3Details.WalkNextPair | cpp/common/Primitives/abi/sha3_details.hpp:300-303 | each step moves (x, y) to (y, (2x + 3y) mod 5) |
| Sha3Details.WalkOrderStep | cpp/common/Primitives/abi/sha3_details.hpp:290-307 | each lane of the visit order is where the walk goes from the lane before it |
| Sha3Details.WalkAt | cpp/common/Primitives/abi/sha3_details.hpp:290-307 | the walk visits the lanes in the tabulated order |
| Sha3Details.WalkAtNext | cpp/common/Primitives/abi/sha3_details.hpp:290-307 | the visit order is preserved from step s to step s + 1 |
| Sha3Details.IndexOfMove | cpp/common/Primitives/abi/sha3_details.hpp:290-307 | the index of the lane the walk moves to |
| Sha3Details.WalkStepInverse | cpp/common/Primitives/abi/sha3_details.hpp:290-307 | step t visits a lane other than (0, 0) whose published offset is that of step t |
| Sha3Details.WalkOnto | cpp/common/Primitives/abi/sha3_details.hpp:290-307 | every lane other than (0, 0) is visited by the walk |
| Sha3Details.RhoOffsetsAfter | cpp/common/Primitives/abi/sha3_details.hpp:290-307 | after t steps, visited lanes hold their offset and the others 0 |
| Sha3Details.RhoOffsetsStep | cpp/common/Primitives/abi/sha3_details.hpp:298 | step t writes (t + 1)(t + 2) / 2 mod 64 into the lane it visits |
| Sha3Details.RhoOffsetsComplete | cpp/common/Primitives/abi/sha3_details.hpp:290-307 | after 24 steps the offsets table is the published rho table |
| Sha3Details.StepMappingRhoRotationBits | cpp/common/Primitives/abi/sha3_details.hpp:290-307 | the computed table equals the published rho offsets, with 0 for lane (0, 0) |
| Sha3Details.Rho | cpp/common/Primitives/abi/sha3_details.hpp:364-378 | rho keeps 25 lanes and rotates each left by its offset |
| Sha3Details.RhoKeepsOrigin | cpp/common/Primitives/abi/sha3_details.hpp:364-378 | lane (0, 0) is unchanged by rho |
| Sha3Details.RhoAlongWalk | cpp/common/Primitives/abi/sha3_details.hpp:364-378 | lane i of rho(A) is lane i rotated by the offset of the walk step that reaches it |
| Sha3Details.Pi | cpp/common/Primitives/abi/sha3_details.hpp:386-397 | pi keeps 25 lanes |
| Sha3Details.PiAt | cpp/common/Primitives/abi/sha3_details.hpp:386-397 | lane (x, y) of pi(A) is lane (x + 3y, x) of A |
| Sha3Details.PiInverse | cpp/common/Primitives/abi/sha3_details.hpp:386-397 | the inverse of pi keeps 25 lanes |
| Sha3Details.PiCoordinates | cpp/common/Primitives/abi/sha3_details.hpp:386-397 | the coordinate maps of pi and of its inverse undo each other |
| Sha3Details.PiInverseOfPi | cpp/common/Primitives/abi/sha3_details.hpp:386-397 | undoing pi gives the input back |
| Sha3Details.PiOfPiInverse | cpp/common/Primitives/abi/sha3_details.hpp:386-397 | pi undoes its inverse, so pi is a permutation of the lanes |
| Sha3Details.Chi | cpp/common/Primitives/abi/sha3_details.hpp:405-416 | chi keeps 25 lanes |
| Sha3Details.ChiAt | cpp/common/Primitives/abi/sha3_details.hpp:405-416 | lane (x, y) of chi(A) is A[x,y] xor (not A[x+1,y] and A[x+2,y]) |
| Sha3Details.ChiLaneReads | cpp/common/Primitives/abi/sha3_details.hpp:405-416 | a chi lane depends only on its own lane and the next two lanes of its row |
| Sha3Details.ChiRowLocal | cpp/common/Primitives/abi/sha3_details.hpp:405-416 | chi acts row by row: equal rows give equal output rows |
| Sha3Details.Iota | cpp/common/Primitives/abi/sha3_details.hpp:425-432 | tau XORs lane (0, 0) with RC[round] and leaves every other lane alone |
| Sha3Details.IotaInvolution | cpp/common/Primitives/abi/sha3_details.hpp:425-432 | applying the same round's tau twice is the identity |
| Sha3Details.IotaUpdatesOrigin | cpp/common/Primitives/abi/sha3_details.hpp:425-432 | tau is an update of lane (0, 0) alone |
| Sha3Details.Round | cpp/common/Primitives/abi/sha3_details.hpp:440-450 | one round is tau(chi(pi(rho(theta(A))))) and keeps 25 lanes |
| Sha3Details.RoundsFromEnd | cpp/common/Primitives/abi/sha3_details.hpp:440-450 | with no rounds left the state is unchanged |
| Sha3Details.KeccakPermutation | cpp/common/Primitives/abi/sha3_details.hpp:440-450 | Keccak-p[1600, 24] is rounds 0 to 23 in order and keeps 25 lanes |
| Sha3Details.BlockWords | cpp/common/Primitives/abi/sha3_details.hpp:489-507 | a block of 8k bytes gives k lanes, each eight bytes least significant first |
| Sha3Details.XorBlock | cpp/common/Primitives/abi/sha3_details.hpp:489-507 | absorbing a block XORs the lanes it covers and leaves the capacity lanes untouched |
| Sha3Details.AbsorbPermutation | cpp/common/Primitives/abi/sha3_details.hpp:489-507 | step 6 of SPONGE with Keccak-p keeps 25 lanes |
| Sha3Details.AbsorbBlocks | cpp/common/Primitives/abi/sha3_details.hpp:489-507 | absorbing a padded string block by block keeps 25 lanes |
| Sha3Details.AbsorbBlocksAppend | cpp/common/Primitives/abi/sha3_details.hpp:489-507 | absorbing p and then one more block equals absorbing p followed by that block |
| Sha3Details.StateBytes | cpp/common/Primitives/abi/sha3_details.hpp:164-182 | the state as a 200-byte string, lane by lane |
| Sha3Details.StateBytesLane | cpp/common/Primitives/abi/sha3_details.hpp:164-182 | bytes 8i to 8i + 7 of the state string are lane i, least significant first |
| Sha3Details.StateBytesRoundTrip | cpp/common/Primitives/abi/sha3_details.hpp:164-182 | reading each lane back from the state string gives the state |
| Sha3Details.Trunc | cpp/common/Primitives/abi/sha3_details.hpp:164-182 | Trunc_d is the first d bytes of the state string |
| Sha3Details.StateBytesSplit | cpp/common/Primitives/abi/sha3_details.hpp:164-182 | a partial lane of t bytes is the first t bytes split_number gives |
| Sha3Details.PadBytes | cpp/common/Primitives/abi/sha3_details.hpp:453-481 | the padding after an n-byte tail is 1 to r bytes and fills the block |
| Sha3Details.PadBytesLength | cpp/common/Primitives/abi/sha3_details.hpp:453-481 | a tail shorter than the rate plus its padding is exactly one block |
| Sha3Details.LastBlock | cpp/common/Primitives/abi/sha3_details.hpp:453-481 | the last block is the tail followed by its padding, r bytes long |
| Sha3Details.PadBytesBits | cpp/common/Primitives/abi/sha3_details.hpp:465-478 | the padding bytes are the bits 01, 1, 8k - 4 zeros, 1 |
| Sha3Details.PadZeroCount | cpp/common/Primitives/abi/sha3_details.hpp:453-481 | (-(8n + 2) - 2) mod 8r equals 8k - 4 for the k padding bytes |
| Sha3Details.PadBytesAreFips | cpp/common/Primitives/abi/sha3_details.hpp:453-481 | the padding is the SHA-3 suffix 01 followed by pad10*1(8r, 8n + 2) of FIPS 202 sections 5.1 and 6.1 |
| Sha3Details.PermutationKeepsWidth | cpp/common/Primitives/abi/sha3_details.hpp:440-450 | Keccak-p maps 25-lane states to 25-lane states |
| Sha3Details.Sha3 | cpp/common/Primitives/abi/sha3_details.hpp:516-538 | SHA3-d(M) is d bytes long |
| Sha3Details.HashContext.constructor | cpp/common/Primitives/abi/sha3_details.hpp:219 | a new context has a zero state, zero parities and an empty zero block |
| Sha3Details.HashContext.BlockRemainingSize | cpp/common/Primitives/abi/sha3_details.hpp:227-230 | remaining plus the block index is the block size; zero exactly when the block is full |
| Sha3Details.HashContext.Reset | cpp/common/Primitives/abi/sha3_details.hpp:235-242 | every lane, parity and block byte is zero and the block is empty |
| Sha3Details.HashContext.StepMappingTheta | cpp/common/Primitives/abi/sha3_details.hpp:337-356 | the state becomes theta of the old state and tmp holds the column parities |
| Sha3Details.HashContext.StepMappingRho | cpp/common/Primitives/abi/sha3_details.hpp:364-378 | intermediate becomes rho of the state |
| Sha3Details.HashContext.StepMappingPi | cpp/common/Primitives/abi/sha3_details.hpp:386-397 | the state becomes pi of intermediate |
| Sha3Details.HashContext.StepMappingChi | cpp/common/Primitives/abi/sha3_details.hpp:405-416 | intermediate becomes chi of the state |
| Sha3Details.HashContext.StepMappingTau | cpp/common/Primitives/abi/sha3_details.hpp:425-432 | the state becomes tau(intermediate, round) |
| Sha3Details.HashContext.KeccakP | cpp/common/Primitives/abi/sha3_details.hpp:440-450 | the state becomes Keccak-p[1600, 24] of the old state |
| Sha3Details.HashContext.KeccakRound | cpp/common/Primitives/abi/sha3_details.hpp:440-450 | one loop pass turns the state into Round(old state, round) |
| Sha3Details.HashContext.PadAndAppend01 | cpp/common/Primitives/abi/sha3_details.hpp:453-481 | the block becomes the last block of the buffered tail; the index stays |
| Sha3Details.HashContext.SpongeStep6 | cpp/common/Primitives/abi/sha3_details.hpp:489-507 | the state becomes Keccak-p(state xor block) and the block is emptied |
| Sha3Details.HashContext.TruncateAsBytes | cpp/common/Primitives/abi/sha3_details.hpp:164-182 | the buffer holds Trunc of the state to its length |
| Sha3Details.HashContext.SpongeFinalize | cpp/common/Primitives/abi/sha3_details.hpp:516-538 | the digest is Trunc_d(Keccak-p(state xor LastBlock(tail))) and the context is reset |
| Sha3.PadBytesOfRemainder | cpp/common/Primitives/abi/sha3_details.hpp:453-481 | the padding depends on the message length only through its remainder modulo the rate |
| Sha3.TailRemainder | cpp/common/Primitives/abi/sha3.hpp:42-69 | whole blocks plus a short tail leave the tail's length modulo the rate |
| Sha3.PadOfTail | cpp/common/Primitives/abi/sha3.hpp:42-69 | a message of whole blocks and a tail is padded as the tail alone would be |
| Sha3.AbsorbOneMore | cpp/common/Primitives/abi/sha3.hpp:60-65 | absorbing whole blocks and then one more block with Keccak-p |
| Sha3.Absorbed | cpp/common/Primitives/abi/sha3.hpp:42-69 | the state after absorbing whole blocks one at a time keeps 25 lanes |
| Sha3.AbsorbedIsAbsorbBlocks | cpp/common/Primitives/abi/sha3.hpp:42-69 | absorbing block by block is step 6 of SPONGE over the concatenated blocks |
| Sha3.Sha3OfBlocksAndTail | cpp/common/Primitives/abi/sha3.hpp:74-77 | SHA3-d of whole blocks plus a short tail is Trunc_d(Keccak-p(absorbed xor LastBlock(tail))) |
| Sha3.AbsorbedAppend | cpp/common/Primitives/abi/sha3.hpp:60-65 | absorbing one more block after the blocks is one more Keccak-p step |
| Sha3.BufferedAfterCopy | cpp/common/Primitives/abi/sha3.hpp:53-58 | copying bytes into a block without filling it extends the waiting tail |
| Sha3.FillJoins | cpp/common/Primitives/abi/sha3.hpp:53-58 | the waiting tail and the copied bytes together make up the full block |
| Sha3.BufferedAfterFill | cpp/common/Primitives/abi/sha3.hpp:53-65 | completing the block adds it to the absorbed blocks and empties the tail |
| Sha3.HashDigest.constructor | cpp/common/Primitives/abi/sha3.hpp:18-80 | a new digest has consumed nothing and its buffering invariant holds |
| Sha3.HashDigest.Update | cpp/common/Primitives/abi/sha3.hpp:42-69 | update appends exactly the data to what the digest has consumed and keeps the invariant (absorbed state equals the blocks absorbed so far) |
| Sha3.HashDigest.Consume | cpp/common/Primitives/abi/sha3.hpp:53-65 | one loop pass consumes size more bytes and keeps the invariant |
| Sha3.HashDigest.Finalize | cpp/common/Primitives/abi/sha3.hpp:74-77 | finalize returns SHA3-d of everything consumed and resets the digest |
| Sha3.Min | cpp/common/Primitives/abi/sha3.hpp:53 | the minimum is at most each argument and equals one of them |
| Sha3.SpliceParts | cpp/common/Primitives/abi/meta.hpp:370-376 | after copy_bytes, the block is its old prefix, the copied bytes, then its old suffix |
| Sha3.NextSlice | cpp/common/Primitives/abi/sha3.hpp:56 | advancing the source pointer by size extends the consumed prefix of the data |
| Sha3.HashSha3Impl | cpp/common/Primitives/abi/sha3.hpp:88-92 | hash_sha3_impl returns SHA3-d(data) |
| Sha3.HashSha3_224 | cpp/common/Primitives/abi/sha3.hpp:149-152 | the result is SHA3-224(data), 28 bytes |
| Sha3.HashSha3_256 | cpp/common/Primitives/abi/sha3.hpp:160-163 | the result is SHA3-256(data), 32 bytes |
| Sha3.HashSha3_384 | cpp/common/Primitives/abi/sha3.hpp:171-174 | the result is SHA3-384(data), 48 bytes |
| Sha3.HashSha3_512 | cpp/common/Primitives/abi/sha3.hpp:182-185 | the result is SHA3-512(data), 64 bytes |
| Guids.PowFacts | cpp/common/Primitives/abi/guid.hpp:36-38 | the value ranges of one-, two- and four-byte fields |
| Guids.ParseField | cpp/common/Primitives/abi/guid.hpp:64-66 | an n-byte field parsed from 2n characters is below 256^n |
| Guids.ToNumberIsParseField | cpp/common/Primitives/abi/guid.hpp:64-66 | to_number on the substring of the field reads exactly that field |
| Guids.Parse | cpp/common/Primitives/abi/guid.hpp:49-72 | the string constructor builds the five parsed fields, and the all-zero GUID for a string shorter than 36 |
| Guids.ParseData4 | cpp/common/Primitives/abi/guid.hpp:70-71 | the two helper calls fill data4 with the parsed bytes |
| Guids.Data4OfAt | cpp/common/Primitives/abi/guid.hpp:61-62 | data4[i] is read from its two digits after the third or fourth hyphen |
| Guids.AssignToData4Helper | cpp/common/Primitives/abi/guid.hpp:96-102 | bytes offset..offset+size-1 of data4 become the parsed two-digit fields; the other bytes are unchanged |
| Guids.ParsedReadsOnlyFields | cpp/common/Primitives/abi/guid.hpp:49-72 | only the characters of the five fields are read: hyphens are not checked and text after 36 characters is ignored |
| Guids.Data4OfReadsOnlyFields | cpp/common/Primitives/abi/guid.hpp:70-71 | data4 depends only on the last two groups of the text |
| Guids.ParseFieldNonHex | cpp/common/Primitives/abi/guid.hpp:64-66 | a field containing a non-hex character reads as 0 |
| Guids.BytesEqualFromMeansSuffixEqual | cpp/common/Primitives/abi/guid.hpp:79-87 | the data4 loop returns true exactly when the remaining bytes are equal |
| Guids.EqualsIsEquality | cpp/common/Primitives/abi/guid.hpp:74-94 | operator== holds exactly for equal GUIDs and operator!= exactly for different ones |
| Guids.GuidBytes | cpp/common/Primitives/abi/guid.hpp:111-119 | to_array gives 16 bytes |
| Guids.GuidOfGuidBytes | cpp/common/Primitives/abi/guid.hpp:111-119 | the big-endian byte form read back gives the GUID: to_array is one-to-one |
| Guids.GuidBytesOfBytes | cpp/common/Primitives/abi/guid.hpp:141-147 | reading sixteen bytes as a GUID and writing it back gives those bytes |
| Guids.CreateGuidFromBytesIsTruncatedDigest | cpp/common/Primitives/abi/guid.hpp:127-148 | the derived GUID's byte form is the first 16 bytes of SHA3-512(to_array(root) ++ data) |
| Guids.GuidText | cpp/common/Primitives/abi/guid.hpp:156-165 | to_char_array gives 36 characters |
| Guids.Hyphenate | cpp/common/Primitives/abi/guid.hpp:158-164 | five groups joined by four hyphens |
| Guids.HyphenateAt | cpp/common/Primitives/abi/guid.hpp:158-164 | each character of the hyphenated text is a hyphen or a character of its group |
| Guids.HyphenateGroups | cpp/common/Primitives/abi/guid.hpp:158-164 | the groups can be read back from the hyphenated text |
| Guids.HexOfBytesUpper | cpp/common/Primitives/abi/meta.hpp:298-301 | every digit of the hex text is an upper-case hex digit |
| Guids.GuidTextLayout | cpp/common/Primitives/abi/guid.hpp:156-165 | hyphens at 8, 13, 18, 23 and upper-case hex digits everywhere else |
| Guids.ByteDigitsRoundTrip | cpp/common/Primitives/abi/guid.hpp:100 | the two digits of a byte read back as that byte |
| Guids.ParseFieldOfDigits | cpp/common/Primitives/abi/guid.hpp:100 | a one-byte field holding the digits of b reads as b |
| Guids.NumberFieldRoundTrip | cpp/common/Primitives/abi/guid.hpp:64-66 | a number field read back from its own hex text |
| Guids.GuidTextNumbers | cpp/common/Primitives/abi/guid.hpp:159-161 | the three number groups of the text are the hex texts of data1, data2, data3 |
| Guids.GuidTextData4Digits | cpp/common/Primitives/abi/guid.hpp:162-163 | the two digits of data4[i] in the text |
| Guids.ParsedGuidText | cpp/common/Primitives/abi/guid.hpp:49-72 | parsing the text form gives the GUID back, for every GUID |
| Guids.Data4OfGuidText | cpp/common/Primitives/abi/guid.hpp:70-71 | the data4 digits of the text read back as data4 |
| Base.PrimitiveGuidsDistinct | cpp/common/Primitives/abi/base.hpp:21-79 | the hand-assigned primitive GUIDs are pairwise distinct (equal exactly when the types are equal) |
| Base.KindTagsDistinct | cpp/common/Primitives/abi/base.hpp:181-223 | the five kind tags are pairwise distinct |
| Base.PrimitiveHasPrimitiveIdentity | cpp/common/Primitives/abi/base.hpp:142-158 | a type has the primitive identity exactly when it is one of the fixed primitives or declares that identity in its ABI |
| Base.Signature | cpp/common/Primitives/abi/base.hpp:181-235 | every type signature is 32 bytes |
| Base.SignatureHalves | cpp/common/Primitives/abi/base.hpp:181-223 | the first 16 bytes of a signature read back as the kind tag, the last 16 as the type's GUID |
| Base.SignatureInjective | cpp/common/Primitives/abi/base.hpp:181-235 | two types share a signature exactly when they have the same kind and the same GUID |
| Base.EnumSignatureEmbedsUnderlying | cpp/common/Primitives/abi/base.hpp:191-196 | an enum's signature is the enum tag followed by its underlying integer type's GUID, and differs from that integer's own signature |
| Base.IsGuidOfPrimitive | cpp/common/Primitives/abi/base.hpp:240-247 | is_guid_of<T> recognises T's GUID and no other primitive's |
| BaseAbi.SignatureList | cpp/common/Primitives/abi/base_abi.hpp:148 | the signatures of the type arguments, one per argument and in order |
| BaseAbi.ConcatBlocksInjective | cpp/common/Primitives/abi/base_abi.hpp:148 | concatenations of equally long blocks are equal only when the block lists are |
| BaseAbi.GenericInputInjective | cpp/common/Primitives/abi/base_abi.hpp:145-149 | the hashed input of a generic interface GUID determines the base id and the kind and GUID of every argument, so different argument lists give different GUIDs up to a digest collision |
| BaseAbi.ParamStringSignatureDistinct | cpp/common/Primitives/abi/base_abi.hpp:77-83 | param_string has primitive identity, yet its signature differs from every fixed primitive's |
| UnknownObjects.UnknownObject.Null | cpp/common/Primitives/abi/base_abi.hpp:202-219 | the default and nullptr constructors give a null handle |
| UnknownObjects.UnknownObject.TakeOver | cpp/common/Primitives/abi/base_abi.hpp:210-212 | the handle adopts the pointer and the reference it carries, with no count change |
| UnknownObjects.UnknownObject.FromAbi | cpp/common/Primitives/abi/base_abi.hpp:463-472 | create_from_abi adds exactly one reference for a non-null pointer and none for null |
| UnknownObjects.UnknownObject.Copy | cpp/common/Primitives/abi/base_abi.hpp:221-224 | copying a handle shares the pointer and adds one reference when it is not null |
| UnknownObjects.UnknownObject.Move | cpp/common/Primitives/abi/base_abi.hpp:226-228 | moving transfers the pointer, leaves the source null and changes no count |
| UnknownObjects.UnknownObject.ReleaseAbi | cpp/common/Primitives/abi/base_abi.hpp:329-335 | a non-null pointer is released exactly once and the handle becomes null |
| UnknownObjects.UnknownObject.Destroy | cpp/common/Primitives/abi/base_abi.hpp:230-233 | destruction releases the held pointer exactly once |
| UnknownObjects.UnknownObject.AssignNull | cpp/common/Primitives/abi/base_abi.hpp:258-263 | nullptr assignment releases the held pointer and leaves the handle null |
| UnknownObjects.UnknownObject.AssignCopy | cpp/common/Primitives/abi/base_abi.hpp:235-245 | self-assignment changes nothing; otherwise the old pointer is released and the right one shared with one more reference |
| UnknownObjects.UnknownObject.AssignMove | cpp/common/Primitives/abi/base_abi.hpp:247-256 | self-assignment changes nothing; otherwise the old pointer is released and the right one taken, leaving the right null |
| UnknownObjects.UnknownObject.StoreDangerous | cpp/common/Primitives/abi/base_abi.hpp:374-377 | a store through put_abi_dangerous replaces the pointer without releasing the old one |
| UnknownObjects.UnknownObject.PutAbi | cpp/common/Primitives/abi/base_abi.hpp:409-412 | put_abi releases the held pointer before the written one is adopted |
| UnknownObjects.UnknownObject.Detach | cpp/common/Primitives/abi/base_abi.hpp:431-444 | detach_abi returns the pointer with its reference and nulls the handle without releasing |
| UnknownObjects.UnknownObject.Query | cpp/common/Primitives/abi/base_abi.hpp:492-518 | a null source gives null (abi_null_pointer when throwing); otherwise the query's slot, with one more reference on success and abi_no_interface on failure when throwing |
| UnknownObjects.UnknownObject.As | cpp/common/Primitives/abi/base_abi.hpp:294-298 | as<To> gives the converted handle, or abi_null_pointer / abi_no_interface exactly when the result is null |
| UnknownObjects.UnknownObject.TryAs | cpp/common/Primitives/abi/base_abi.hpp:305-309 | try_as<To> gives the converted handle, null when the source is null or lacks the interface, without raising |
| UnknownObjects.Swap | cpp/common/Primitives/abi/base_abi.hpp:316-319 | swap exchanges the two pointers and changes no count |
| UnknownObjects.SlotOf | cpp/common/Primitives/abi/base_abi.hpp:509 | a pointer exists exactly when the query found a slot |
| UnknownObjects.UnknownObject.Make | cpp/common/Primitives/abi/implements.hpp:546-550 | make creates an object with count 1 owned by the handle, which points at the requested interface's vtable in the searchable list; the module counter grows by one |
| UnknownObjects.UnknownObject.MakeAsFirst | cpp/common/Primitives/abi/implements.hpp:559-563 | make_as_first points the handle at slot 0, whose interface is the first declared one |
| FundamentalSemantics.IncrementDecrement | cpp/common/Primitives/abi/fundamental_semantics.hpp:148-173 | a decrement undoes a non-wrapping increment, an increment undoes any allowed decrement, and the increment of 2^32 - 1 wraps to 0 |
| FundamentalSemantics.AtomicRefCount.Default | cpp/common/Primitives/abi/fundamental_semantics.hpp:135-137 | the default counter is zero |
| FundamentalSemantics.AtomicRefCount.constructor | cpp/common/Primitives/abi/fundamental_semantics.hpp:139-141 | the counter starts at the given value |
| FundamentalSemantics.AtomicRefCount.Assign | cpp/common/Primitives/abi/fundamental_semantics.hpp:143-146 | operator= stores the value |
| FundamentalSemantics.AtomicRefCount.Increment | cpp/common/Primitives/abi/fundamental_semantics.hpp:148-152 | operator++ adds one modulo 2^32 and returns the new value |
| FundamentalSemantics.AtomicRefCount.Decrement | cpp/common/Primitives/abi/fundamental_semantics.hpp:154-173 | operator-- returns one less and reaches zero exactly from one; a decrement from zero terminates and is excluded |
| FundamentalSemantics.TakeOverPointer.constructor | cpp/common/Primitives/abi/fundamental_semantics.hpp:76-78 | the wrapper holds the given pointer |
| FundamentalSemantics.TakeOverPointer.Assign | cpp/common/Primitives/abi/fundamental_semantics.hpp:85-88 | operator= replaces the pointer |
| FundamentalSemantics.EnumVariable.constructor | cpp/common/Primitives/abi/fundamental_semantics.hpp:19-24 | an enumeration variable holding a value |
| FundamentalSemantics.EnumRef.constructor | cpp/common/Primitives/abi/fundamental_semantics.hpp:24-26 | enum_ref captures the enumeration's current underlying value |
| FundamentalSemantics.EnumRef.WriteThrough | cpp/common/Primitives/abi/fundamental_semantics.hpp:43-46 | a write through the underlying pointer changes only the copy |
| FundamentalSemantics.EnumRef.Destroy | cpp/common/Primitives/abi/fundamental_semantics.hpp:28-31 | the destructor stores the copy back into the enumeration |
| Exceptions.Code | cpp/common/Primitives/abi/exceptions.hpp:67-76 | the failure codes are -1 to -10 |
| Exceptions.CodeInjective | cpp/common/Primitives/abi/exceptions.hpp:67-76 | distinct error kinds have distinct codes |
| Exceptions.ToAbiResult | cpp/common/Primitives/abi/exceptions.hpp:83-86 | to_abi_result gives a no-error code, zero exactly for true |
| Exceptions.ErrorOf | cpp/common/Primitives/abi/exceptions.hpp:125-151 | the error type of a kind carries that kind's code |
| Exceptions.CheckAbiResult | cpp/common/Primitives/abi/exceptions.hpp:233-273 | nothing is raised exactly for a non-negative code; codes -1..-10 raise their own error type and any other negative code raises abi_failure |
| Exceptions.TranslateCurrentException | cpp/common/Primitives/abi/exceptions.hpp:157-187 | an abi_error translates to its own code, every standard exception to a negative code |
| Exceptions.CheckThenTranslate | cpp/common/Primitives/abi/exceptions.hpp:157-187 | translating the error check_abi_result raises for a code -1..-10 gives that code back |
| Exceptions.TranslateThenCheck | cpp/common/Primitives/abi/exceptions.hpp:157-273 | raising a kind's error, translating it and checking the code raises the same kind again |
| Exceptions.AbiSafeCall | cpp/common/Primitives/abi/exceptions.hpp:195-210 | abi_safe_call gives success for a void body, the body's own code when it returns one, the translated code when it throws |
| Exceptions.SafeCallThenCheck | cpp/common/Primitives/abi/exceptions.hpp:195-273 | an abi_error thrown across abi_safe_call is raised again by check_abi_result; a void body raises nothing |
| Implements.MaxDepthBound | cpp/common/Primitives/abi/implements.hpp:102-112 | the greatest inheritance height of a list is bounded by any bound on its members |
| Implements.MaxDepthAtLeast | cpp/common/Primitives/abi/implements.hpp:102-112 | each member's height is at most the list's greatest height |
| Implements.LevelMember | cpp/common/Primitives/abi/implements.hpp:105 | every interface of a level is a direct base of some interface of the list |
| Implements.LevelDepth | cpp/common/Primitives/abi/implements.hpp:102-112 | one level up the inheritance trees is strictly lower, so the recursion ends |
| Implements.UniqueFromAppend | cpp/common/Primitives/abi/meta.hpp:40-47 | deduplicating a concatenation in two steps equals deduplicating it in one |
| Implements.UniqueFromMembers | cpp/common/Primitives/abi/meta.hpp:40-47 | deduplication keeps exactly the elements already kept or still to come |
| Implements.UniqueFromUnique | cpp/common/Primitives/abi/meta.hpp:170-180 | deduplicating a list first changes nothing about what is kept from it |
| Implements.UniqueConcatUnique | cpp/common/Primitives/abi/meta.hpp:170-180 | Unique(a + Unique(b)) == Unique(a + b) |
| Implements.InheritedIsUniqueOfLevels | cpp/common/Primitives/abi/implements.hpp:99-112 | the nested deduplication of get_interfaces_recursively_impl is one deduplication of all levels above the list |
| Implements.SearchableIsUniqueOfLevels | cpp/common/Primitives/abi/implements.hpp:117-136 | the searchable list is the level-order walk of the inheritance trees without repeats: no duplicates, exactly the declared and inherited interfaces, starting with the first declared one |
| Implements.LeafInheritsNothing | cpp/common/Primitives/abi/implements.hpp:109-112 | an interface without bases inherits nothing |
| Implements.LeafSearchable | cpp/common/Primitives/abi/implements.hpp:117-124 | the searchable list of one interface without bases is that interface |
| Implements.FirstInterface | cpp/common/Primitives/abi/implements.hpp:295-302 | first_interface is the first declared interface |
| Implements.LastMatch | cpp/common/Primitives/abi/implements.hpp:328-340 | find_interface_by_guid's fold keeps the last entry whose GUID matches, or none when no entry matches |
| Implements.QuerySlotSpec | cpp/common/Primitives/abi/implements.hpp:417-443 | a slot is handed out exactly for an implemented GUID or the root GUID, and it implements the GUID asked for (slot 0 for the root) |
| Implements.IndexOf | cpp/common/Primitives/abi/implements.hpp:283-287 | to_abi's vtable is the first position of the interface in the searchable list |
| Implements.OwnerOf | cpp/common/Primitives/abi/implements.hpp:196 | an optional pointer has an owner exactly when it is not null |
| Implements.ReleasedSpec | cpp/common/Primitives/abi/implements.hpp:450-469 | release changes only the released object: removed exactly at its last reference without unique_release, otherwise one count less (1 when handed to unique_release); every live object stays held |
| Implements.ReleaseUndoesAddRef | cpp/common/Primitives/abi/implements.hpp:445-469 | a release right after an add_ref restores the objects and destroys nothing |
| Implements.DestroyedBy | cpp/common/Primitives/abi/implements.hpp:454-465 | a release destroys at most one object |
| Implements.DeferredBy | cpp/common/Primitives/abi/implements.hpp:457-461 | a release hands at most one object to unique_release |
| Implements.ReleaseKeepsInvariant | cpp/common/Primitives/abi/implements.hpp:450-469 | release keeps the heap invariant (held, duplicate-free interfaces, destroyed once, module counter counts live objects) |
| Implements.AddRefKeepsInvariant | cpp/common/Primitives/abi/implements.hpp:445-448 | add_ref keeps the heap invariant |
| Implements.CreateKeepsInvariant | cpp/common/Primitives/abi/implements.hpp:407-410 | adding a fresh object with count 1 keeps the heap invariant and the module counter |
| Implements.ObjectHeap.constructor | cpp/common/Primitives/abi/fundamental_semantics.hpp:187-192 | a module starts with no objects and its counter at zero |
| Implements.ObjectHeap.Create | cpp/common/Primitives/abi/implements.hpp:407-410 | a new object with count 1 and its searchable list; the module counter grows by one |
| Implements.ObjectHeap.AddRef | cpp/common/Primitives/abi/implements.hpp:445-448 | add_ref returns the count one higher |
| Implements.ObjectHeap.Release | cpp/common/Primitives/abi/implements.hpp:450-469 | release returns the count one lower and destroys or defers the object at zero |
| Implements.ObjectHeap.QueryInterface | cpp/common/Primitives/abi/implements.hpp:417-443 | a null out-pointer gives error_null_pointer; otherwise the chosen slot is written with one more reference and error_success, or error_no_interface with nothing changed |
| ParamStrings.ReleasedBy | cpp/common/Primitives/abi/param_string_allocations.hpp:27 | a free releases the storage of at most one handle |
| ParamStrings.FreedSpec | cpp/common/Primitives/abi/param_string_allocations.hpp:19-27 | a free keeps every other string and its text, releases a string exactly at its last reference, and undoes a preceding create_param_string_ref |
| ParamStrings.StringStore.constructor | cpp/common/Primitives/abi/param_string_allocations.hpp:13-30 | the store starts empty |
| ParamStrings.StringStore.Create | cpp/common/Primitives/abi/param_string_allocations.hpp:17 | create_param_string gives new storage holding the text with one reference |
| ParamStrings.StringStore.AddRef | cpp/common/Primitives/abi/param_string_allocations.hpp:19 | create_param_string_ref returns the same handle with one more reference; null stays null |
| ParamStrings.StringStore.Free | cpp/common/Primitives/abi/param_string_allocations.hpp:27 | free_param_string drops one reference and releases the storage with the last one |
| ParamStrings.ParamString.Default | cpp/common/Primitives/abi/param_string.hpp:53-55 | param_string() is a new non-null empty string |
| ParamStrings.ParamString.Null | cpp/common/Primitives/abi/param_string.hpp:61-63 | param_string(nullptr) is a null handle |
| ParamStrings.ParamString.TakeOver | cpp/common/Primitives/abi/param_string.hpp:69-71 | the string adopts the handle and its reference |
| ParamStrings.ParamString.FromText | cpp/common/Primitives/abi/param_string.hpp:77-104 | the text constructors create new storage holding exactly the text |
| ParamStrings.ParamString.Copy | cpp/common/Primitives/abi/param_string.hpp:106-108 | the copy shares the handle with one more reference and reads the same text |
| ParamStrings.ParamString.Move | cpp/common/Primitives/abi/param_string.hpp:110-112 | the move takes the handle and leaves the source null |
| ParamStrings.ParamString.Clear | cpp/common/Primitives/abi/param_string.hpp:249-256 | a non-null handle is freed once and nulled; a null handle is left alone |
| ParamStrings.ParamString.AssignCopyAsWritten | cpp/common/Primitives/abi/param_string.hpp:119-122 | copy assignment as written: for distinct strings the old handle is freed and the right one shared; assigning a string to itself frees it and leaves it null |
| ParamStrings.ParamString.AssignCopy | cpp/common/Primitives/abi/param_string.hpp:119-122 | corrected copy assignment: self-assignment changes nothing; otherwise as written |
| ParamStrings.ParamString.AssignMove | cpp/common/Primitives/abi/param_string.hpp:124-127 | the old handle is freed and the right one taken, leaving the right null |
| ParamStrings.ParamString.GetAddRef | cpp/common/Primitives/abi/param_string_allocations.hpp:94-97 | get_add_ref returns the handle with one more reference for the caller |
| ParamStrings.ParamString.At | cpp/common/Primitives/abi/param_string.hpp:218-226 | operator[] returns the character exactly when the index is below the size, and raises abi_out_of_bounds otherwise |
| ParamStrings.ParamString.Empty | cpp/common/Primitives/abi/param_string.hpp:241-244 | empty holds exactly for size 0, and a null string is empty |
| ParamStrings.ParamString.PutAbi | cpp/common/Primitives/abi/param_string.hpp:439-442 | put_abi clears the old handle before the written one is adopted |
| ParamStrings.ParamString.Detach | cpp/common/Primitives/abi/param_string.hpp:449-462 | detach_abi hands out the handle with its reference and nulls the string without freeing |
| ParamStrings.GuidToParamString | cpp/common/Primitives/abi/param_string.hpp:379-384 | to_param_string(guid) holds the 36-character text form, which parses back to the GUID |
| ParamStrings.CharHashes | cpp/common/Primitives/abi/param_string.hpp:494-502 | one character hash per character |
| ParamStrings.StringHash | cpp/common/Primitives/abi/param_string.hpp:494-502 | std::hash<param_string> is hash_all over the character hashes in order |
| ParamStrings.StringHashOfLowered | cpp/common/Primitives/abi/param_string.hpp:494-502 | a string without upper-case letters hashes as the case-insensitive hash does |
| ParamSpans.Elements | cpp/common/Primitives/abi/param_span.hpp:150-158 | a sound span views exactly size elements |
| ParamSpans.EmptyViewsNothing | cpp/common/Primitives/abi/param_span.hpp:140-148 | an empty span views nothing, a null span is empty, and a span is non-empty exactly when it is non-null with elements |
| ParamSpans.At | cpp/common/Primitives/abi/param_span.hpp:135-138 | operator[] returns element index exactly when index < size, and raises abi_out_of_bounds otherwise |
| ParamSpans.SubSpanAsWrittenOverruns | cpp/common/Primitives/abi/param_span.hpp:220-223 | as written, index 1 and size 2^64 - 1 on a 4-element span pass the wrapping check and give a span past the memory |
| ParamSpans.SubSpan | cpp/common/Primitives/abi/param_span.hpp:220-223 | corrected sub_span succeeds exactly when index < size and index + size <= size without wrap-around, and raises abi_out_of_bounds otherwise |
| ParamSpans.SubSpanViews | cpp/common/Primitives/abi/param_span.hpp:220-223 | a sub-span of a sound span is sound and views exactly elements [index, index + size); an empty span and index == size have none |
| ParamSpans.SubSpanAgrees | cpp/common/Primitives/abi/param_span.hpp:220-223 | when the sum does not wrap, the as-written check and the corrected one agree |
| ParamSpans.ParamSpan.constructor | cpp/common/Primitives/abi/param_span.hpp:86-98 | both fields stored |
| ParamSpans.ParamSpan.Null | cpp/common/Primitives/abi/param_span.hpp:104-106 | param_span(nullptr) is (null, 0) |
| ParamSpans.ParamSpan.Copy | cpp/common/Primitives/abi/param_span.hpp:112-119 | the copy and take-over constructors copy both fields |
| ParamSpans.ParamSpan.Move | cpp/common/Primitives/abi/param_span.hpp:121-123 | the move takes both fields and leaves the source (null, 0) |
| ParamSpans.ParamSpan.AssignCopy | cpp/common/Primitives/abi/param_span.hpp:125-128 | copy assignment copies both fields |
| ParamSpans.ParamSpan.AssignMove | cpp/common/Primitives/abi/param_span.hpp:130-133 | move assignment takes both fields and resets the right span; a self-move keeps the span |
| ParamSpans.ParamSpan.PutAbi | cpp/common/Primitives/abi/param_span.hpp:263-267 | put_abi resets the span, then the written span is adopted |
| ParamSpans.ParamSpan.Detach | cpp/common/Primitives/abi/param_span.hpp:275-290 | detach_abi returns a copy and leaves the span as it is |
| ParamVectors.Inserted | cpp/common/Primitives/abi/param_vector.hpp:284-287 | inserting x before i: the prefix is kept, x is at i, the rest shifts up by one |
| ParamVectors.Removed | cpp/common/Primitives/abi/param_vector.hpp:279-282 | erasing position i: the prefix is kept, the rest shifts down by one |
| ParamVectors.InsertRemoveInverse | cpp/common/Primitives/abi/param_vector.hpp:279-287 | erasing what was just inserted gives the sequence back, and re-inserting an erased element does too |
| ParamVectors.Resized | cpp/common/Primitives/abi/param_vector.hpp:304-307 | resize(n) has n elements: the first min(n, size) kept, the rest value-initialised |
| ParamVectors.Overwritten | cpp/common/Primitives/abi/param_vector.hpp:321 | copy_from keeps the length of the buffer |
| ParamVectors.OverwrittenSpec | cpp/common/Primitives/abi/param_vector.hpp:314-332 | copy_from changes exactly [index, index + size), which then holds the data; copy_to reads that range back |
| ParamVectors.ParamVector.constructor | cpp/common/Primitives/abi/param_vector.hpp:237-239 | a default vector has no elements |
| ParamVectors.ParamVector.FromElements | cpp/common/Primitives/abi/param_vector.hpp:241-252 | the span and list constructors hold the elements in order |
| ParamVectors.ParamVector.Empty | cpp/common/Primitives/abi/param_vector.hpp:254-257 | empty holds exactly when there are no elements |
| ParamVectors.ParamVector.Contains | cpp/common/Primitives/abi/param_vector.hpp:294-297 | contains holds exactly when some element equals the item |
| ParamVectors.ParamVector.SetAt | cpp/common/Primitives/abi/param_vector.hpp:269-272 | set_at replaces the element at the index and nothing else |
| ParamVectors.ParamVector.PushBack | cpp/common/Primitives/abi/param_vector.hpp:274-277 | push_back appends the item |
| ParamVectors.ParamVector.RemoveAt | cpp/common/Primitives/abi/param_vector.hpp:279-282 | remove_at erases the element at the index |
| ParamVectors.ParamVector.InsertAt | cpp/common/Primitives/abi/param_vector.hpp:284-287 | insert_at inserts the item before the index |
| ParamVectors.ParamVector.Clear | cpp/common/Primitives/abi/param_vector.hpp:289-292 | clear leaves no elements |
| ParamVectors.ParamVector.Resize | cpp/common/Primitives/abi/param_vector.hpp:304-307 | resize gives the Resized sequence |
| ParamVectors.ParamVector.Reserve | cpp/common/Primitives/abi/param_vector.hpp:309-312 | reserve leaves the elements unchanged |
| ParamVectors.ParamVector.CopyFrom | cpp/common/Primitives/abi/param_vector.hpp:314-322 | abi_out_of_bounds, with the buffer unchanged, exactly when the data does not fit from the index; otherwise the range is overwritten with the data |
| ParamVectors.ParamVector.CopyTo | cpp/common/Primitives/abi/param_vector.hpp:324-332 | abi_out_of_bounds, with the span unchanged, exactly when the span does not fit from the index; otherwise the span receives buffer[index, index + size) |
| ParamVectors.VectorIterator.constructor | cpp/common/Primitives/abi/param_vector.hpp:341-343 | a new iterator is at index 0 |
| ParamVectors.VectorIterator.MoveToNext | cpp/common/Primitives/abi/param_vector.hpp:355-358 | move_to_next advances by one and reports whether the new position is inside the vector |
| ParamHashMaps.FromPairsSpec | cpp/common/Primitives/abi/param_hash_map.hpp:299-301 | the initializer-list map holds exactly the listed keys, each with the value of its first pair |
| ParamHashMaps.EnumeratesExtend | cpp/common/Primitives/abi/param_hash_map.hpp:379-403 | an enumeration extended by a pair with a new key enumerates the extended map |
| ParamHashMaps.Enumerate | cpp/common/Primitives/abi/param_hash_map.hpp:379-403 | the entries the iterator walks are every entry of the map exactly once, with its stored value |
| ParamHashMaps.ParamHashMap.constructor | cpp/common/Primitives/abi/param_hash_map.hpp:295-297 | a default map has no entries |
| ParamHashMaps.ParamHashMap.FromList | cpp/common/Primitives/abi/param_hash_map.hpp:299-301 | the initializer-list constructor builds the first-pair-wins map |
| ParamHashMaps.ParamHashMap.Empty | cpp/common/Primitives/abi/param_hash_map.hpp:313-316 | empty holds exactly when there are no keys |
| ParamHashMaps.ParamHashMap.Size | cpp/common/Primitives/abi/param_hash_map.hpp:318-321 | size is the number of keys |
| ParamHashMaps.ParamHashMap.GetValue | cpp/common/Primitives/abi/param_hash_map.hpp:323-339 | get_value returns the stored value exactly when the key is present, and raises abi_key_not_found otherwise |
| ParamHashMaps.ParamHashMap.TryGetValue | cpp/common/Primitives/abi/param_hash_map.hpp:341-346 | try_get_value is true exactly for a present key, writing its value; otherwise the output is left as it was |
| ParamHashMaps.ParamHashMap.AbiTryGetValue | cpp/common/Primitives/abi/param_hash_map.hpp:105-111 | through the vtable the output starts as the null value, so a missing key yields the null value |
| ParamHashMaps.ParamHashMap.Contains | cpp/common/Primitives/abi/param_hash_map.hpp:353-356 | contains holds exactly when get_value would succeed |
| ParamHashMaps.ParamHashMap.AddOrUpdate | cpp/common/Primitives/abi/param_hash_map.hpp:348-351 | the key maps to the value, no other key changes, and the size grows only for a new key |
| ParamHashMaps.ParamHashMap.Remove | cpp/common/Primitives/abi/param_hash_map.hpp:358-364 | the key is erased when present; otherwise nothing changes |
| ParamHashMaps.ParamHashMap.Clear | cpp/common/Primitives/abi/param_hash_map.hpp:366-369 | clear leaves no entries |
| ParamHashMaps.AddOrUpdateReadsBack | cpp/common/Primitives/abi/param_hash_map.hpp:348-351 | after add_or_update the value reads back and every other key reads as before |
| ParamHashMaps.GetIterator | cpp/common/Primitives/abi/param_hash_map.hpp:371-374 | the iterator starts at the first entry and will hand out every entry exactly once |
| ParamHashMaps.ForEachEntry | cpp/common/Primitives/abi/param_hash_map.hpp:379-403 | a range-for over the map produces every entry exactly once |
| IterableObjects.Cursor.constructor | cpp/common/Primitives/abi/param_vector.hpp:341-343 | a new iterator stands at the first item |
| IterableObjects.Cursor.MoveToNext | cpp/common/Primitives/abi/iterable_object.hpp:114-119 | move_to_next advances by one and reports whether an item is still there |
| IterableObjects.End | cpp/common/Primitives/abi/iterable_object.hpp:198-202 | end(obj) is the null iterator |
| IterableObjects.Begin | cpp/common/Primitives/abi/iterable_object.hpp:204-210 | begin(obj) is the object's iterator exactly when it is valid, otherwise the end iterator |
| IterableObjects.Increment | cpp/common/Primitives/abi/iterable_object.hpp:121-130 | operator++ advances the implementation and becomes the end iterator when move_to_next reports false |
| IterableObjects.ForEach | cpp/common/Primitives/abi/iterable_object.hpp:198-210 | a range-for produces every item of the iterator once, in order, and stops at the end |
| BoxValues.BoxValue.Empty | cpp/common/Primitives/abi/box_value.hpp:98-100 | a default box stores nothing |
| BoxValues.BoxValue.constructor | cpp/common/Primitives/abi/box_value.hpp:102-105 | the value constructor stores the value |
| BoxValues.BoxValue.Get | cpp/common/Primitives/abi/box_value.hpp:120-123 | get returns the stored value exactly when one is set, and raises abi_not_initialized otherwise |
| BoxValues.BoxValue.Set | cpp/common/Primitives/abi/box_value.hpp:125-129 | after set the box has the value and get returns it |
| BoxValues.Unbox | cpp/common/Primitives/abi/box_value.hpp:158-162 | unbox raises abi_null_pointer for a null object and abi_no_interface when the object lacks box_value<U>; otherwise it returns the stored value, or raises abi_not_initialized for an empty box; a value is returned exactly when the object is non-null, implements box_value<U> and holds a value |
| BoxValues.UnboxBox | cpp/common/Primitives/abi/box_value.hpp:144-162 | unboxing a box as its own type gives the value back; as a type with a different interface GUID it raises abi_no_interface |
| BoxValues.StringBox.Empty | cpp/common/Primitives/abi/box_value.hpp:98-100 | a default string box owns no reference |
| BoxValues.StringBox.SetAsWritten | cpp/common/Primitives/abi/box_value.hpp:125-129 | set as written takes a new reference without freeing the one the old string held |
| BoxValues.StringBox.Set | cpp/common/Primitives/abi/box_value.hpp:125-129 | corrected set frees the old string's reference before taking the new one, so the box owns exactly one |
| BoxValues.StringBox.Destroy | cpp/common/Primitives/abi/box_value.hpp:107-113 | the destructor frees the reference of a constructed string |
| BoxValues.SetTwiceAsWrittenLeaks | cpp/common/Primitives/abi/box_value.hpp:125-129 | as written, setting a string box twice and destroying it leaves one reference too many, so the string is never freed |
| BoxValues.SetTwiceRestores | cpp/common/Primitives/abi/box_value.hpp:107-129 | with the corrected set, setting twice and destroying restores the store exactly |
| StandardExports.LastIndexTableSpec | cpp/common/Primitives/abi/abi_standard_export.hpp:62-68 | after the insert_or_assign fold a key is registered exactly when some component carries it, and it maps to the last component carrying it (later registrations overwrite earlier ones) |
| StandardExports.LastIndexTableMembers | cpp/common/Primitives/abi/abi_standard_export.hpp:66-67 | the keys of a registration table are exactly the keys that were inserted |
| StandardExports.Names | cpp/common/Primitives/abi/abi_standard_export.hpp:66 | the name table is keyed by every component's external qualified name, one per component in declaration order |
| StandardExports.FirstIds | cpp/common/Primitives/abi/abi_standard_export.hpp:67 | the GUID table is keyed by the GUID of every component's first interface, one per component in declaration order |
| StandardExports.ModuleExports.constructor | cpp/common/Primitives/abi/abi_standard_export.hpp:50-53 | the module starts with empty, unfilled tables for the given library name and components |
| StandardExports.ModuleExports.FillOnce | cpp/common/Primitives/abi/abi_standard_export.hpp:58-69 | the first factory construction fills both tables; any later construction leaves them unchanged (call_once) |
| StandardExports.ModuleExports.MakeFound | cpp/common/Primitives/abi/abi_standard_export.hpp:41-45 | a found component is created by make_as_first as a fresh object with one reference and the component's interfaces; a missing one gives a null object and allocates nothing |
| StandardExports.ModuleExports.CreateByName | cpp/common/Primitives/abi/abi_standard_export.hpp:76-81 | the result is null exactly when no component has the name; otherwise it is a fresh instance of the last component registered under that name, and nothing else changes |
| StandardExports.ModuleExports.CreateByInterfaceId | cpp/common/Primitives/abi/abi_standard_export.hpp:88-93 | the result is null exactly when no component's first interface has the GUID; otherwise it is a fresh instance of the last such component, whose first interface has that GUID |
| StandardExports.ModuleExports.InterfaceIds | cpp/common/Primitives/abi/abi_standard_export.hpp:99-102 | the first-interface GUIDs in declaration order; once the tables are filled, a GUID is listed exactly when create_by_interface_id finds it |
| StandardExports.ModuleExports.QualifiedNames | cpp/common/Primitives/abi/abi_standard_export.hpp:108-111 | the qualified names in declaration order; once the tables are filled, a name is listed exactly when create_by_name finds it |
| StandardExports.ModuleExports.DllCreateFactory | cpp/common/Primitives/abi/abi_standard_export.hpp:123-131 | a null out-pointer gives error_null_pointer and changes nothing; otherwise error_success, the tables filled, and a fresh class factory with one reference handed to the caller, which keeps the module from unloading |
| StandardExports.CanUnloadNow | cpp/common/Primitives/abi/abi_standard_export.hpp:29 | the module can unload exactly when its live-object count is zero |
| HashUtils.HashAllAppend | cpp/common/Primitives/hash_utils.hpp:28-54 | hash_all over one more value is hash_combine of that value into hash_all of the values before it (the fold is left to right from 0) |
| HashUtils.HashAllPrefixStep | cpp/common/Primitives/hash_utils.hpp:47-54 | the step a left-to-right combining loop takes: the hash of a prefix one longer is the old prefix's hash combined with the next value |
| HashUtils.HashAllPointwise | cpp/common/Primitives/hash_utils.hpp:47-54 | hash_all depends only on the value hashes: equal hashes at every position give the same result |
| HashUtils.Lowered | cpp/common/Primitives/hash_utils.hpp:66 | the lowered text has the same length and holds tolower of each character at the same position |
| HashUtils.CaseInsensitiveEqualIsLoweredEquality | cpp/common/Primitives/hash_utils.hpp:75-81 | the comparer holds exactly when the two texts are equal after lowering every character, so it is an equivalence |
| HashUtils.CaseInsensitiveEqualProperties | cpp/common/Primitives/hash_utils.hpp:77-80 | the comparer is reflexive and symmetric and never equates texts of different sizes |
| HashUtils.LoweredHashes | cpp/common/Primitives/hash_utils.hpp:66 | one value hash per character of the text |
| HashUtils.CaseInsensitiveStringHash | cpp/common/Primitives/hash_utils.hpp:60-70 | the hash is hash_all over the hashes of the lowered characters, in order, starting from 0 |
| HashUtils.CaseInsensitiveHashRespectsComparer | cpp/common/Primitives/hash_utils.hpp:60-81 | any two texts the comparer deems equal get the same case-insensitive hash, as an unordered container keyed by both requires |
| PoolAllocators.FirstFit | cpp/common/Primitives/pool_allocator.hpp:77-92 | the chosen budget serves the request, no earlier budget does, and there is none exactly when no budget serves it |
| PoolAllocators.FindAddress | cpp/common/Primitives/pool_allocator.hpp:119-132 | the chosen handed-out block has the address, no earlier one does, and there is none exactly when no block has it |
| PoolAllocators.SearchBudgets | cpp/common/Primitives/pool_allocator.hpp:77-92 | the loop over the budget list stops at the first budget that serves the request |
| PoolAllocators.SearchPayouts | cpp/common/Primitives/pool_allocator.hpp:119-132 | the loop over the payout list stops at the first block with the address |
| PoolAllocators.FitsBounds | cpp/common/Primitives/pool_allocator.hpp:82 | a reused block is never smaller than the request and, when the 64-bit product does not wrap, at most 256/ratio times its size |
| PoolAllocators.ExactSizeFits | cpp/common/Primitives/pool_allocator.hpp:82 | a cached block of exactly the requested size is always reused, whatever the ratio |
| PoolAllocators.FreedBlockServesAgain | cpp/common/Primitives/pool_allocator.hpp:115-131 | a block given back by fastFree is found by the next fastMalloc of its size when no earlier budget serves it |
| PoolAllocators.Addresses | cpp/common/Primitives/pool_allocator.hpp:63-68 | the addresses of the blocks, in list order |
| PoolAllocators.AddressesStep | cpp/common/Primitives/pool_allocator.hpp:63-68 | walking one more block appends its address to those freed so far |
| PoolAllocators.MoveKeepsHeld | cpp/common/Primitives/pool_allocator.hpp:85-88 | moving a block from one list to the end of the other keeps the blocks the pool holds |
| PoolAllocators.FreshKeepsInvariant | cpp/common/Primitives/pool_allocator.hpp:107-110 | a freshly allocated address is held by no other block, and adding it keeps every address held once |
| PoolAllocators.DropKeepsInvariant | cpp/common/Primitives/pool_allocator.hpp:69 | releasing blocks keeps every remaining address held once |
| PoolAllocators.PoolAllocator.constructor | cpp/common/Primitives/pool_allocator.hpp:27-30 | a new pool has ratio 192 (0.75 of 256) and no budgets or payouts |
| PoolAllocators.PoolAllocator.SetSizeCompareRatio | cpp/common/Primitives/pool_allocator.hpp:49-57 | a ratio in [0, 1] is stored as its 256ths rounded down and nothing else changes; outside that range is fatal |
| PoolAllocators.PoolAllocator.Clear | cpp/common/Primitives/pool_allocator.hpp:60-71 | every budget's address goes back to the heap in list order and the budget list empties; handed-out blocks stay |
| PoolAllocators.PoolAllocator.FastMalloc | cpp/common/Primitives/pool_allocator.hpp:73-113 | the first budget that serves the request moves to the end of the payouts and its address is returned; with none, a fresh address held by no other block is returned and recorded with the requested size; either way the returned block is at least the requested size |
| PoolAllocators.PoolAllocator.TakeBudget | cpp/common/Primitives/pool_allocator.hpp:84-90 | the reuse path: the chosen budget leaves the budget list and ends the payout list |
| PoolAllocators.PoolAllocator.AllocateFresh | cpp/common/Primitives/pool_allocator.hpp:105-112 | the fresh path: a new address, distinct from every held block, recorded at the end of the payouts |
| PoolAllocators.PoolAllocator.FastFree | cpp/common/Primitives/pool_allocator.hpp:115-147 | a handed-out block leaves the payouts and ends the budgets; an unknown address goes straight back to the heap and neither list changes |
| PoolAllocators.PoolAllocator.Destroy | cpp/common/Primitives/pool_allocator.hpp:32-45 | destruction frees every budget; a block still handed out is fatal |
| Delegates.Handlers | cpp/common/Primitives/delegate.hpp:152-155 | the handlers of the listener list, one per listener in list order |
| Delegates.WithoutSpec | cpp/common/Primitives/delegate.hpp:124-132 | remove_listener with an id no listener has leaves the list as it was; otherwise exactly the first listener with that id is erased and the others keep their order |
| Delegates.AddThenRemove | cpp/common/Primitives/delegate.hpp:117-132 | a handler added under a new id and then removed by that id leaves the listener list as it was |
| Delegates.CalledAsWrittenStops | cpp/common/Primitives/delegate.hpp:97-110 | the invocation loop as written calls the leading non-empty buffer entries in order and stops at the first empty one |
| Delegates.CalledAsWrittenStep | cpp/common/Primitives/delegate.hpp:107-110 | one step of the invocation loop: a non-empty entry is called and the walk continues with the next entry |
| Delegates.NonEmpty | cpp/common/Primitives/delegate.hpp:97-110 | the handlers an invocation should call, never more than the buffer holds |
| Delegates.NonEmptyStep | cpp/common/Primitives/delegate.hpp:97-110 | the handlers to call from an index on: the one at that index if it is set, then those after it |
| Delegates.CalledAsWrittenAllSet | cpp/common/Primitives/delegate.hpp:90-114 | when no handler is empty, the loop as written calls every listener's handler exactly once, in list order |
| Delegates.EmptyHandlerHidesLater | cpp/common/Primitives/delegate.hpp:97-110 | an empty handler registered first makes the loop as written call nothing, although a non-empty handler follows it |
| Delegates.IdCounter.constructor | cpp/common/Primitives/delegate.hpp:163 | the global id counter starts at 0 |
| Delegates.Delegate.constructor | cpp/common/Primitives/delegate.hpp:68-71 | a new delegate has no listeners, a readable buffer holding only the terminating empty entry, and is alive |
| Delegates.Delegate.UpdateReadableBuffer | cpp/common/Primitives/delegate.hpp:148-158 | the readable buffer becomes every listener's handler in list order followed by one empty entry; the listeners do not change |
| Delegates.Delegate.AddListener | cpp/common/Primitives/delegate.hpp:142-146 | the handler is appended under the counter's current value, which is returned, and the counter advances by one |
| Delegates.Delegate.Add | cpp/common/Primitives/delegate.hpp:83-87 | operator+= with a handler appends it under a fresh id and republishes the buffer |
| Delegates.Delegate.Append | cpp/common/Primitives/delegate.hpp:73-81 | operator+= with another delegate appends each of its handlers, in its order, under consecutive fresh ids, keeps the existing listeners, and republishes the buffer |
| Delegates.Delegate.RemoveListener | cpp/common/Primitives/delegate.hpp:124-132 | the first listener with the id is erased (none for an unknown id) and the buffer is republished |
| Delegates.Delegate.InvokeAsWritten | cpp/common/Primitives/delegate.hpp:89-114 | operator() as written calls the handlers before the first empty buffer entry and returns the last result, or a default-constructed result when none was called |
| Delegates.Delegate.Invoke | cpp/common/Primitives/delegate.hpp:89-114 | corrected operator(): every non-empty handler is called once, in list order, and the last result is returned, or a default-constructed result when none was called |
| Delegates.Delegate.Destroy | cpp/common/Primitives/delegate.hpp:160 | destroying the delegate releases its lifetime observer, so its tokens stop calling back; the listeners are untouched |
| Delegates.Delegate.AddListenerAutoRemoval | cpp/common/Primitives/delegate.hpp:116-122 | the handler is added under a fresh id and a new token bound to this delegate and that id is returned |
| Delegates.DelegateToken.constructor | cpp/common/Primitives/delegate.hpp:17-19 | a default token has id 0 and nothing to call |
| Delegates.DelegateToken.Bound | cpp/common/Primitives/delegate.hpp:21-23 | the token records the id and the delegate that remove_listener belongs to |
| Delegates.DelegateToken.Move | cpp/common/Primitives/delegate.hpp:27-29 | the new token takes the other's id and delegate; the other is left with id 0 and no delegate |
| Delegates.DelegateToken.MoveAssign | cpp/common/Primitives/delegate.hpp:38-46 | the token first removes its own id from its delegate if that is alive, then takes the other's id and delegate, leaving the other with id 0 and none |
| Delegates.DelegateToken.Clear | cpp/common/Primitives/delegate.hpp:31-55 | while the delegate is alive, the listener with the token's id is removed from it; otherwise nothing changes |
| Profilers.Elapsed | cpp/common/Primitives/profiler.hpp:75-86 | a timestamp relative to init_ is below 2^64 and equals the plain difference whenever the clock has not run back or 2^64 microseconds ahead |
| Profilers.NestedName | cpp/common/Primitives/profiler.hpp:67-70 | a nested scope's name is its parent's name, then a colon, then its own name |
| Profilers.Profiler.constructor | cpp/common/Primitives/profiler.hpp:155-159 | the profiler starts stopped with no open or closed scopes, remembering the clock reading as init_ |
| Profilers.Profiler.ScopeStart | cpp/common/Primitives/profiler.hpp:63-77 | while stopped nothing changes; while running a scope named after the open one (or alone at the top) is pushed with its start time, and closed scopes are untouched |
| Profilers.Profiler.ScopeEnd | cpp/common/Primitives/profiler.hpp:81-90 | while stopped nothing changes; while running the innermost open scope gets its end time, is popped and is appended to the closed scopes; an empty stack is fatal |
| Profilers.Profiler.TurnOn | cpp/common/Primitives/profiler.hpp:127-131 | turning on a stopped profiler makes it run; turning on a running one is fatal |
| Profilers.Profiler.TurnOff | cpp/common/Primitives/profiler.hpp:133-139 | turning off a running profiler with no open scope stops it; anything else is fatal |
| Profilers.StartThenEnd | cpp/common/Primitives/profiler.hpp:63-90 | a matched scope_start and scope_end while running leaves the open stack as it was and records exactly one closed scope with the nested name and both times |
| ArrayBuffers.GrownCapacityAsWritten | cpp/common/Primitives/array_buffer.hpp:182 | the growth as written never shrinks the capacity, and grows it exactly when it is not zero |
| ArrayBuffers.ZeroCapacityStaysFull | cpp/common/Primitives/array_buffer.hpp:34-182 | a buffer created with capacity 0 stays at capacity 0 after growing as written, so emplace_back has no slot to construct into |
| ArrayBuffers.GrownCapacity | cpp/common/Primitives/array_buffer.hpp:182-199 | corrected growth: always strictly larger, and equal to the doubling as written for a non-zero capacity |
| ArrayBuffers.CarriedAsWritten | cpp/common/Primitives/array_buffer.hpp:186 | memcpy of position_ bytes carries at most position_ elements, and all of them only when the buffer is empty or elements are one byte wide |
| ArrayBuffers.MemcpyDropsElements | cpp/common/Primitives/array_buffer.hpp:186 | growing a buffer that holds one four-byte element carries no element over |
| ArrayBuffers.CapacityAfterEmplace | cpp/common/Primitives/array_buffer.hpp:178-192 | after an emplace_back the capacity exceeds the old size and is never below the old capacity |
| ArrayBuffers.EmplaceKeepsCompact | cpp/common/Primitives/array_buffer.hpp:178-199 | growing only when full, by doubling from capacity 1, keeps the capacity a power of two and below twice the size |
| ArrayBuffers.ArrayBuffer.Contents | cpp/common/Primitives/array_buffer.hpp:17-200 | the constructed elements, one per position below size() |
| ArrayBuffers.ArrayBuffer.Default | cpp/common/Primitives/array_buffer.hpp:26-28 | the default buffer has capacity 1 and no elements |
| ArrayBuffers.ArrayBuffer.constructor | cpp/common/Primitives/array_buffer.hpp:34-36 | a buffer built with a capacity has that capacity and no elements |
| ArrayBuffers.ArrayBuffer.Size | cpp/common/Primitives/array_buffer.hpp:61-64 | size() is the number of constructed elements |
| ArrayBuffers.ArrayBuffer.Capacity | cpp/common/Primitives/array_buffer.hpp:70-73 | capacity() is the number of slots and never below size() |
| ArrayBuffers.ArrayBuffer.At | cpp/common/Primitives/array_buffer.hpp:80-103 | operator[] returns the element at the index; an index at or past size() terminates |
| ArrayBuffers.ArrayBuffer.SetAt | cpp/common/Primitives/array_buffer.hpp:80-88 | a write through operator[] replaces exactly that element |
| ArrayBuffers.ArrayBuffer.End | cpp/common/Primitives/array_buffer.hpp:118-158 | end() is begin() plus size() while the buffer is held and null after release |
| ArrayBuffers.ArrayBuffer.ExpandBufferCore | cpp/common/Primitives/array_buffer.hpp:178-192 | corrected: a full buffer moves to a fresh, strictly larger buffer that keeps every element; a buffer with room is untouched |
| ArrayBuffers.ArrayBuffer.EmplaceBack | cpp/common/Primitives/array_buffer.hpp:165-176 | the element is appended after all existing elements, which are kept, with the capacity grown when the buffer was full |
| ArrayBuffers.ArrayBuffer.Destroy | cpp/common/Primitives/array_buffer.hpp:38-55 | destruction releases the buffer: capacity 0 and a null end() |
| ArrayBuffers.FillDefault | cpp/common/Primitives/array_buffer.hpp:26-176 | a sequence of emplace_back calls on a default buffer holds exactly those elements, in order, in a compact power-of-two buffer |
| Singletons.Singleton.constructor | cpp/common/Primitives/singleton.hpp:20 | before the first instance() call no object exists for any argument signature |
| Singletons.Singleton.Instance | cpp/common/Primitives/singleton.hpp:17-23 | the first call with a given argument signature constructs that signature's object from its arguments; every later call with the same signature returns that object and ignores its arguments; the objects of other signatures are untouched |
| Singletons.InstanceTwice | cpp/common/Primitives/singleton.hpp:17-23 | two calls to instance() with the same argument signature return the same object, the one built from the first call's arguments when that signature had none |
| Singletons.InstancesIndependent | cpp/common/Primitives/singleton.hpp:17-23 | calls with different argument signatures reach different statics: the second constructs its own object from its own arguments when its signature had none |
| Singletons.InitOnce.constructor | cpp/common/Primitives/singleton.hpp:49 | the flag starts false and the initializer has not run |
| Singletons.InitOnce.Invoke | cpp/common/Primitives/singleton.hpp:36-43 | after any number of invoke() calls the initializer has run exactly once and the flag is set |
| Tensors.ProductNonNegative | cpp/common/Primitives/tensor.hpp:100-107 | count(start, end) over non-negative dimensions is never negative |
| Tensors.ShapeInRoundTrip | cpp/common/Primitives/tensor.hpp:27-98 | the shape vector built from four extents in either order has four non-negative entries, reads back as the same extents through num/channels/height/width, and its count() is n·c·h·w |
| Tensors.OffsetInRange | cpp/common/Primitives/tensor.hpp:124-134 | in either order, every index inside the extents has an offset inside a buffer of count() elements |
| Tensors.OffsetInjective | cpp/common/Primitives/tensor.hpp:124-134 | in either order, two indices inside the extents with the same offset are the same index |
| Tensors.OffsetsApart | cpp/common/Primitives/tensor.hpp:124-134 | distinct indices inside the extents are stored at distinct offsets |
| Tensors.FirstImageIndex | cpp/common/Primitives/tensor.hpp:124-134 | the offset of (0, c, h, w) is W·H·c + W·h + w in NCHW order and C·W·h + C·w + c in NHWC order, the forms the pixel accessors use |
| Tensors.RowLayout | cpp/common/Primitives/tensor.hpp:124-134 | every element's offset splits into a row number below the row count times the row length plus a position inside the row (W per channel row in NCHW, W·C per image row in NHWC) |
| Tensors.RowKeyInjective | cpp/common/Primitives/tensor.hpp:124-134 | two elements in the same row belong to the same image and image row, and in NCHW order the same channel |
| Tensors.RowsCover | cpp/common/Primitives/tensor.hpp:124-134 | the rows together hold exactly count() elements |
| Tensors.RowInside | cpp/common/Primitives/tensor.hpp:124-134 | each row lies inside the buffer and starts at the per-image plus per-channel plus per-row stride the image kernels compute |
| Tensors.ElementInRow | cpp/common/Primitives/tensor.hpp:124-134 | every element sits at its in-row position from the start of the row that holds it |
| Tensors.CopyElements | cpp/common/Primitives/tensor.hpp:78 | a memcpy of count elements sets exactly that destination range to the source range and leaves every other element as it was |
| Tensors.Tensor.constructor | cpp/common/Primitives/tensor.hpp:52-56 | a shaped tensor gets the given extents, order, device and allocator and a fresh buffer of exactly count() elements |
| Tensors.Tensor.Unshaped | cpp/common/Primitives/tensor.hpp:44 | the empty-tensor constructor has no shape, no buffer and the CPU device |
| Tensors.Tensor.Num | cpp/common/Primitives/tensor.hpp:80-83 | num() is the image count of a four-dimensional shape |
| Tensors.Tensor.Channels | cpp/common/Primitives/tensor.hpp:85-88 | channels() is the channel extent whichever the order |
| Tensors.Tensor.Height | cpp/common/Primitives/tensor.hpp:90-93 | height() is the height extent whichever the order |
| Tensors.Tensor.Width | cpp/common/Primitives/tensor.hpp:95-98 | width() is the width extent whichever the order |
| Tensors.Tensor.CountRange | cpp/common/Primitives/tensor.hpp:100-107 | the loop multiplies the dimensions from start_axis up to end_axis, giving 1 for an empty range |
| Tensors.Tensor.Count | cpp/common/Primitives/tensor.hpp:109-112 | count() is the product of all dimensions |
| Tensors.Tensor.OffsetOf | cpp/common/Primitives/tensor.hpp:124-134 | offset() of an index inside the extents lies inside the buffer |
| Tensors.Tensor.DenseSize | cpp/common/Primitives/tensor.hpp:29-31 | a tensor whose buffer was sized by its shape holds exactly count() elements |
| Tensors.Tensor.Reshape | cpp/common/Primitives/tensor.hpp:141-144 | reshape replaces the shape vector and keeps the buffer, order, device and allocator |
| Tensors.Tensor.SetAllocator | cpp/common/Primitives/tensor.hpp:146-152 | the allocator is set only when none is set yet; nothing else changes |
| Tensors.Tensor.Clone | cpp/common/Primitives/tensor.hpp:64-65 | clone() is a deep copy: same shape, order, device and allocator, and a fresh buffer with the same elements (none when there is no buffer) |
| Tensors.CloneIsEqual | cpp/common/Primitives/tensor.hpp:64-65 | a clone of a dense tensor has the same extents and the same element at every index |
| TensorHelpers.ImageShape | cpp/common/Primitives/tensor_helper.hpp:71 | a one-image shape: [1, h, w, c] in NHWC order and [1, c, h, w] in NCHW order |
| TensorHelpers.SetPixel | cpp/common/Primitives/tensor_helper.hpp:280-286 | pixel_setter stores the value at channel c of pixel (h, w) of the one-image buffer and changes no other element of the image |
| TensorHelpers.TransformOrdinary | cpp/common/Primitives/tensor_helper.hpp:222-278 | ordinary mode: a fresh one-image tensor with the source's order, device, height and width and the requested channel count, whose element (c, h, w) is the generator's value at (w, h, c) |
| TensorHelpers.FillPixelOrdinary | cpp/common/Primitives/tensor_helper.hpp:266-275 | the channel loop of ordinary mode fills every channel of pixel (h, w), keeping every pixel filled before it |
| TensorHelpers.FillPixelMerging | cpp/common/Primitives/tensor_helper.hpp:262-275 | the channel loop of merging mode writes the one generated value into every channel of pixel (h, w), keeping every pixel filled before it |
| TensorHelpers.FilledAll | cpp/common/Primitives/tensor_helper.hpp:257-277 | once the row loop has covered every row, every element of the image holds the generator's value |
| TensorHelpers.TransformMerging | cpp/common/Primitives/tensor_helper.hpp:222-278 | merging mode: as ordinary mode, but every channel of pixel (h, w) holds the generator's single value at (w, h) |
| TensorHelpers.RgbaPixel | cpp/common/Primitives/tensor_helper.hpp:157-159 | the rgba_to_rgb generator reads exactly element (0, c, h, w) of the source in either order |
| TensorHelpers.RgbaToRgb | cpp/common/Primitives/tensor_helper.hpp:140-161 | a four-channel source gives a fresh one-image three-channel tensor in the same order whose element (c, h, w) is the source's element (c, h, w) |
| TensorHelpers.GrayPixel | cpp/common/Primitives/tensor_helper.hpp:128-130 | the gray generator combines exactly the source's first three channels of pixel (h, w) of the first image, in either order |
| TensorHelpers.RgbOrRgbaToGray | cpp/common/Primitives/tensor_helper.hpp:113-132 | a three- or four-channel source gives a fresh one-image tensor of the requested channel count whose every channel of pixel (h, w) is the luma of the source's first three channels there |
| TensorHelpers.BitmapIndexInRow | cpp/common/Primitives/tensor_helper.hpp:166-191 | copy_data_core's bitmap position with the padding added per row is row h at stride times h plus the pixel's offset, inside the pixel part of the row and inside the bitmap |
| TensorHelpers.BitmapIndexApart | cpp/common/Primitives/tensor_helper.hpp:187-191 | each channel of each pixel has its own bitmap position, which is a pixel element and never padding |
| TensorHelpers.CopyFromBitmap | cpp/common/Primitives/tensor_helper.hpp:163-220 | copy_data_core from a bitmap: in either order every element (c, h, w) of the image becomes channel c of pixel (h, w) of the bitmap |
| TensorHelpers.PlaneRowFromBitmap | cpp/common/Primitives/tensor_helper.hpp:182-192 | the innermost NCHW loop fills row h of plane c, keeping everything filled before it |
| TensorHelpers.RowFromBitmap | cpp/common/Primitives/tensor_helper.hpp:201-214 | one NHWC memcpy fills row h of the image from the pixel part of bitmap row h, skipping the padding |
| TensorHelpers.RowBounds | cpp/common/Primitives/tensor_helper.hpp:203-212 | both memcpy ranges of row h lie inside their buffers, and index plus padding·h is h·stride |
| TensorHelpers.RowElement | cpp/common/Primitives/tensor_helper.hpp:201-214 | channel c of pixel (h, w) is at the same place of row h in an NHWC image and in a bitmap |
| TensorHelpers.CopyToBitmap | cpp/common/Primitives/tensor_helper.hpp:163-220 | copy_data_core to a bitmap: in either order every pixel element gets the image's element, and row padding and anything past the last row keep their contents |
| TensorHelpers.PlaneRowToBitmap | cpp/common/Primitives/tensor_helper.hpp:182-192 | the innermost NCHW loop writes row h of plane c into the bitmap, keeping what was written before and the padding |
| TensorHelpers.SetBitmapElement | cpp/common/Primitives/tensor_helper.hpp:187 | the store writes channel c of pixel (h, w) of the bitmap and changes no other pixel element and no padding |
| TensorHelpers.RowToBitmap | cpp/common/Primitives/tensor_helper.hpp:201-214 | one NHWC memcpy writes row h of the image into the pixel part of bitmap row h, keeping its padding |
| TensorHelpers.Create | cpp/common/Primitives/tensor_helper.hpp:63-83 | create gives a fresh one-image tensor of the given order and device with shape [1, h, w, c] or [1, c, h, w], whose element (c, h, w) is channel c of pixel (h, w) of the bitmap |
| TensorHelpers.TensorToBitmap | cpp/common/Primitives/tensor_helper.hpp:92-104 | copy_to_bitmap writes the tensor's first image into the bitmap's pixels and leaves every other bitmap element as it was |
| TensorHelpers.BitmapRoundTrip | cpp/common/Primitives/tensor_helper.hpp:63-104 | a tensor created from a bitmap and copied back to another bitmap of the same geometry reproduces every pixel of the first bitmap |
| TensorConverters.ConvertElements | cpp/common/Primitives/tensor_converter.hpp:24-60 | every destination element below the smaller of the two counts becomes the cast of the source element at the same index, as the source was before the call; later destination elements keep their values |
| TensorConverters.ConvertToGray | cpp/common/Primitives/tensor_converter.hpp:75-127 | a one-channel source is deep-copied; a three- or four-channel source becomes a one-image tensor of 1 (grayscale) or 3 (grayscale_3) channels, each the luma of the source's first three channels; any other channel count leaves the destination as it was |
| TensorConverters.ConvertToRgb | cpp/common/Primitives/tensor_converter.hpp:133-153 | a three-channel source is deep-copied, a four-channel source loses its fourth channel, and any other channel count leaves the destination as it was |
| CutBorders.CopyStarts | cpp/common/Excalibur/operation_cut_border.hpp:57-88 | the source and destination offsets the loops compute for a kept row are where element (n, ch, row + top, left) of the source and that row of the output begin |
| CutBorders.SourceInRow | cpp/common/Excalibur/operation_cut_border.hpp:69-89 | the element a memcpy copies to in-row position w of a kept row is source element (n, c, h, left + w) |
| CutBorders.CutRowBounds | cpp/common/Excalibur/operation_cut_border.hpp:69-89 | every memcpy stays inside both buffers: the whole output row, and the copied part of the source row |
| CutBorders.CutRow | cpp/common/Excalibur/operation_cut_border.hpp:69-89 | one memcpy replaces exactly one output row with the source elements it copies and changes nothing else |
| CutBorders.CutRowStep | cpp/common/Excalibur/operation_cut_border.hpp:65-90 | after the copy of a row, every row up to it holds its part of the source |
| CutBorders.CutAll | cpp/common/Excalibur/operation_cut_border.hpp:55-92 | an output filled row by row holds at every index the source element top rows down and left columns right |
| CutBorders.CutRows | cpp/common/Excalibur/operation_cut_border.hpp:49-96 | the loops of either order copy every row of the output |
| CutBorders.CutRowsPlanar | cpp/common/Excalibur/operation_cut_border.hpp:55-72 | the image loop of the NCHW path copies every row of every image |
| CutBorders.CutImagePlanar | cpp/common/Excalibur/operation_cut_border.hpp:60-71 | the channel and row loops of the NCHW path copy every row of image n |
| CutBorders.CutRowsInterleaved | cpp/common/Excalibur/operation_cut_border.hpp:80-91 | the image and row loops of the NHWC path copy every row |
| CutBorders.CutBorder | cpp/common/Excalibur/operation_cut_border.hpp:21-99 | unchanged size gives a clone of src; a cut leaving no row or column leaves dst as it was; otherwise dst is a fresh tensor of the cut size in src's order and device whose element (n, c, h, w) is src's element (n, c, h + top, w + left), with src's allocator in NCHW order and none in NHWC order |
| MakeBorders.Clamp | cpp/common/Excalibur/operation_make_border.hpp:132-375 | the replicated row or column index always lies inside the source and is the index itself when it already does |
| MakeBorders.BorderedNone | cpp/common/Excalibur/operation_make_border.hpp:66-118 | before the loops run, no row is required to be written |
| MakeBorders.RowStep | cpp/common/Excalibur/operation_make_border.hpp:79-273 | writing row k after rows before it leaves every row up to k holding its bordered values |
| MakeBorders.EarlierRowKept | cpp/common/Excalibur/operation_make_border.hpp:79-115 | writing one row leaves every element of an earlier row as it was |
| MakeBorders.FillRun | cpp/common/Excalibur/operation_make_border.hpp:82-104 | a column loop storing the fill value sets exactly that run of the row and nothing else |
| MakeBorders.FillPixels | cpp/common/Excalibur/operation_make_border.hpp:221-258 | a column-and-channel loop storing the fill value sets every channel of every pixel in the run and nothing else |
| MakeBorders.RepeatPixel | cpp/common/Excalibur/operation_make_border.hpp:289-342 | a column-and-channel loop copying one source pixel sets every pixel of the run to that pixel's channels and nothing else |
| MakeBorders.ConstantEdgeRowPlanar | cpp/common/Excalibur/operation_make_border.hpp:79-115 | a top or bottom row of the NCHW constant border holds the fill value in every column and nothing else changes |
| MakeBorders.ConstantCenterRowPlanar | cpp/common/Excalibur/operation_make_border.hpp:89-105 | a centre row of the NCHW constant border holds the fill value left and right of a copy of source row row − top |
| MakeBorders.ReplicateRowPlanar | cpp/common/Excalibur/operation_make_border.hpp:132-194 | a row of the NCHW replicated border holds the source row it replicates, extended by its first element to the left and its last element to the right |
| MakeBorders.PixelSegment | cpp/common/Excalibur/operation_make_border.hpp:223-240 | channel c of pixel w lies (w − a)·C + c past pixel a exactly when w is at or past a |
| MakeBorders.PixelRuns | cpp/common/Excalibur/operation_make_border.hpp:238-258 | the three column runs of an NHWC row cover exactly the row's W·C-element segments in order |
| MakeBorders.ConstantEdgeRowInterleaved | cpp/common/Excalibur/operation_make_border.hpp:218-273 | a top or bottom row of the NHWC constant border holds the fill value in every channel of every column |
| MakeBorders.FramePixels | cpp/common/Excalibur/operation_make_border.hpp:236-258 | an NHWC centre row holds the fill value outside the source columns and the copied source pixel inside them, and nothing outside the row changes |
| MakeBorders.ConstantCenterRowInterleaved | cpp/common/Excalibur/operation_make_border.hpp:232-259 | a centre row of the NHWC constant border holds source row row − top framed by the fill value |
| MakeBorders.ReplicatePixels | cpp/common/Excalibur/operation_make_border.hpp:320-342 | an NHWC replicated row holds at every column the source pixel at the clamped column, and nothing outside the row changes |
| MakeBorders.ReplicateRowInterleaved | cpp/common/Excalibur/operation_make_border.hpp:284-375 | a row of the NHWC replicated border holds the replicated source row, its first pixel repeated to the left and its last to the right |
| MakeBorders.BorderRow | cpp/common/Excalibur/operation_make_border.hpp:64-382 | one output row, written by the code for its border kind and order, extends the rows already bordered by one |
| MakeBorders.BorderRows | cpp/common/Excalibur/operation_make_border.hpp:79-194 | the top, centre and bottom row loops of one channel (NCHW) or image (NHWC) border all its rows, replicating source row 0, row − top and H − 1 |
| MakeBorders.BorderImages | cpp/common/Excalibur/operation_make_border.hpp:58-383 | the image loops of either order border every row of the output |
| MakeBorders.BorderImagesPlanar | cpp/common/Excalibur/operation_make_border.hpp:66-196 | the NCHW image loop borders every row of every image |
| MakeBorders.BorderChannels | cpp/common/Excalibur/operation_make_border.hpp:73-195 | the NCHW channel loop borders every row of every channel of image n |
| MakeBorders.PlanarRowKeys | cpp/common/Excalibur/operation_make_border.hpp:68-76 | the rows of the next channel follow the last row of a channel, and the next image follows the last channel |
| MakeBorders.BorderImagesInterleaved | cpp/common/Excalibur/operation_make_border.hpp:212-376 | the NHWC image loop borders every row of every image |
| MakeBorders.BorderAll | cpp/common/Excalibur/operation_make_border.hpp:58-383 | an output bordered row by row holds the source element shifted by (top, left) inside the source and the fill value outside (constant), or the source element at the clamped row and column (replicate) |
| MakeBorders.MakeBorder | cpp/common/Excalibur/operation_make_border.hpp:23-390 | a negative margin or an unsupported border type leaves dst as it was; zero margins give a clone of src; otherwise dst is a fresh tensor grown by the margins, in src's order and device, holding the constant or replicated border around src, with src's allocator in NCHW order and none in NHWC order |
| MakeBorders.Bordered | cpp/common/Excalibur/operation_make_border.hpp:57-389 | the bordering path: a fresh tensor of the grown size holding the constant or replicated border around src |
| MergeChannels.CheckInputs | cpp/common/Excalibur/operation_merge_channel.hpp:19-49 | the merge goes ahead exactly when the first input is on the CPU and the others match its height, width, device and order; then every input has one channel and the first input's geometry is returned |
| MergeChannels.ChannelsOfLayout | cpp/common/Excalibur/operation_merge_channel.hpp:64-71 | a buffer laid out as its order expects holds input c as its channel c |
| MergeChannels.PlanarOffset | cpp/common/Excalibur/operation_merge_channel.hpp:51-70 | element (0, c, h, w) of the NCHW result is at c·H·W + h·W + w, inside plane c |
| MergeChannels.InterleavedOffset | cpp/common/Excalibur/operation_merge_channel.hpp:55-58 | element (0, c, h, w) of the NHWC result is at (h·W + w)·3 + c |
| MergeChannels.SingleChannelAt | cpp/common/Excalibur/operation_merge_channel.hpp:69-70 | pixel (h, w) of the first image of a one-channel input is at h·W + w in either order |
| MergeChannels.MergeChannelsAsWritten | cpp/common/Excalibur/operation_merge_channel.hpp:16-72 | as written: inputs that fail the tests leave dst as it was; otherwise dst is a fresh one-image, three-channel tensor in the first input's order and device whose buffer holds the first H·W elements of each input one after another, whatever the order |
| MergeChannels.PlanarMisreadInNhwc | cpp/common/Excalibur/operation_merge_channel.hpp:55-71 | in NHWC order the buffer written as above does not hold the merged image: channel 1 of pixel (0, 0) reads an element of input 0 |
| MergeChannels.MergeChannels | cpp/common/Excalibur/operation_merge_channel.hpp:11-71 | corrected: the same tests and result shape, and channel c of the result equals input c at every pixel in either order |
| MergeChannels.LaidOutTensor | cpp/common/Excalibur/operation_merge_channel.hpp:51-71 | a fresh one-image, three-channel tensor holding the three planes as its order expects |
| MergeChannels.LayoutGivesMerge | cpp/common/Excalibur/operation_merge_channel.hpp:51-71 | planes laid out as the result's order expects make element (0, c, h, w) of the result pixel (h, w) of input c |
| MergeChannels.MergedElement | cpp/common/Excalibur/operation_merge_channel.hpp:64-71 | a result whose channel c holds an input's buffer gives that input's pixel at every (h, w) of channel c |
| MergeChannels.Planes | cpp/common/Excalibur/operation_merge_channel.hpp:69 | each input's buffer holds at least the H·W elements the copy reads |
| MergeChannels.CopyPlanes | cpp/common/Excalibur/operation_merge_channel.hpp:67-71 | the memcpy loop puts plane i at i·H·W .. (i + 1)·H·W |
| MergeChannels.InterleavePlanes | cpp/common/Excalibur/operation_merge_channel.hpp:55-71 | the corrected NHWC copy puts channel c of pixel q at q·3 + c |
| SaftyCuts.Intersection | cpp/common/Excalibur/operation_safty_cut.hpp:81-92 | the overlap never has a negative size, and an overlap without width or height is the all-zero rectangle |
| SaftyCuts.IntersectionCovers | cpp/common/Excalibur/operation_safty_cut.hpp:81-92 | a pixel lies in the overlap of two rectangles exactly when it lies in both |
| SaftyCuts.IntersectionCommutes | cpp/common/Excalibur/operation_safty_cut.hpp:81-92 | the overlap does not depend on the order of the rectangles |
| SaftyCuts.IntersectionWithItself | cpp/common/Excalibur/operation_safty_cut.hpp:81-92 | a rectangle with an area overlaps itself in itself; any other in the all-zero rectangle |
| SaftyCuts.HalfTowardZero | cpp/common/Excalibur/operation_safty_cut.hpp:78 | half a coordinate, rounded toward zero as the conversion back to an integer rounds |
| SaftyCuts.Rectangle.constructor | cpp/common/Excalibur/operation_safty_cut.hpp:22-28 | the default rectangle is all zero |
| SaftyCuts.Rectangle.Of | cpp/common/Excalibur/operation_safty_cut.hpp:30-38 | the rectangle holds the given corner and size; a negative size is a failed CHECK |
| SaftyCuts.Rectangle.FromCorners | cpp/common/Excalibur/operation_safty_cut.hpp:40-48 | the rectangle spans from the top-left to the bottom-right corner; a corner above or left of the other is a failed CHECK |
| SaftyCuts.Rectangle.Copy | cpp/common/Excalibur/operation_safty_cut.hpp:63-69 | the copy holds the other rectangle's value |
| SaftyCuts.Rectangle.Assign | cpp/common/Excalibur/operation_safty_cut.hpp:50-61 | after assignment the rectangle holds the other's value, including on self-assignment |
| SaftyCuts.Rectangle.IoU | cpp/common/Excalibur/operation_safty_cut.hpp:71-74 | IoU is 0 for every pair, as the source leaves it unimplemented |
| SaftyCuts.Rectangle.Center | cpp/common/Excalibur/operation_safty_cut.hpp:76-79 | the centre lies within the rectangle's closed extent and each coordinate is the corner plus half the size, rounded toward zero |
| SaftyCuts.Rectangle.IntersectWith | cpp/common/Excalibur/operation_safty_cut.hpp:81-92 | the rectangle becomes its overlap with the other one, which may be itself |
| SaftyCuts.SaftyCut | cpp/common/Excalibur/operation_safty_cut.hpp:101-141 | a GPU tensor leaves dst as it was; otherwise dst holds the region of interest: each pixel is the source pixel under the rectangle when it lies in the image and zero otherwise (an empty rectangle that does not span the image leaves dst as it was) |
| SaftyCuts.CutInside | cpp/common/Excalibur/operation_safty_cut.hpp:110-113 | a rectangle inside the image is cut out with cut_border using the margins around it |
| SaftyCuts.CutPadded | cpp/common/Excalibur/operation_safty_cut.hpp:114-140 | a rectangle reaching past the image is cut from the image padded with zeros by exactly its overhang, giving the same region of interest |
| SaftyCuts.CutPaddedImage | cpp/common/Excalibur/operation_safty_cut.hpp:139 | the cut of the padded image with the margins moved by the padding gives the region of interest |
| SaftyCuts.PaddedRoi | cpp/common/Excalibur/operation_safty_cut.hpp:116-139 | padding by (top, left) and cutting at (y + top, x + left) lands every result pixel on the source pixel under the rectangle, or on zero outside the image |
| Resizes.ColumnEntryInside | cpp/common/Excalibur/operation_resize.hpp:171-196 | every column table entry reads inside the source row with a weight below 2^10; an entry reaches the right edge exactly when it is the last column with weight 0, and before the edge the next column also exists |
| Resizes.SplitWeight | cpp/common/Excalibur/operation_resize.hpp:173-175 | splitting a source coordinate leaves a fraction in [0, 2^10) |
| Resizes.RowEntryInside | cpp/common/Excalibur/operation_resize.hpp:198-212 | with the bottom clamp the column table has, every row table entry lies inside an image of at least one row, with a weight below 2^10 |
| Resizes.RowEntryAgrees | cpp/common/Excalibur/operation_resize.hpp:198-212 | the corrected row entry equals the row entry as written exactly when the latter lies inside the image |
| Resizes.RowPastImage | cpp/common/Excalibur/operation_resize.hpp:198-212 | as written, a one-row image resized to 65536 rows maps the last destination row to source row 1, past the image; the corrected entry is row 0 |
| Resizes.CoordinateMonotone | cpp/common/Excalibur/operation_resize.hpp:173 | source coordinates do not decrease along the destination axis |
| Resizes.EdgeStays | cpp/common/Excalibur/operation_resize.hpp:183-192 | once a destination column reaches the right edge, every later one does |
| Resizes.FirstEdge | cpp/common/Excalibur/operation_resize.hpp:157-191 | xmax is the first column at the right edge, or the destination width when none is; no column before it is at the edge |
| Resizes.FirstEdgeUnique | cpp/common/Excalibur/operation_resize.hpp:188-191 | any column that is at the edge with none before it is xmax |
| Resizes.PastFirstEdge | cpp/common/Excalibur/operation_resize.hpp:78-187 | from xmax on every column entry is the last source column with weight 0 |
| Resizes.ColumnTable | cpp/common/Excalibur/operation_resize.hpp:157-196 | the loop fills every xofs entry with its column entry and returns xmax as the first column at the right edge |
| Resizes.RowTable | cpp/common/Excalibur/operation_resize.hpp:198-212 | the loop, with the corrected bottom clamp, fills every yofs entry with its row entry |
| Resizes.TablesInside | cpp/common/Excalibur/operation_resize.hpp:162-212 | the tables built for any source of at least one row and column stay inside it |
| Resizes.Sampling | cpp/common/Excalibur/operation_resize.hpp:162-212 | the tables have one entry per destination column and row and fit every source of at least one row and column |
| Resizes.SamplingTables | cpp/common/Excalibur/operation_resize.hpp:162-212 | the scales and the two table loops produce exactly the tables Sampling describes |
| Resizes.Blend | cpp/common/Excalibur/operation_resize.hpp:75-91 | blending two values with a weight in [0, 2^10] stays between them, scaled by 2^10 |
| Resizes.HorizontalBetween | cpp/common/Excalibur/operation_resize.hpp:70-79 | a row buffer element lies between the two source pixels it blends, scaled by 2^10 |
| Resizes.DescaleBetween | cpp/common/Excalibur/operation_resize.hpp:19-21 | rounding away 20 bits of a value between lo·2^20 and hi·2^20 gives a value between lo and hi |
| Resizes.Vertical | cpp/common/Excalibur/operation_resize.hpp:85-91 | blending two buffered values within [lo, hi]·2^10 stays within [lo, hi]·2^20 |
| Resizes.BlendOfFour | cpp/common/Excalibur/operation_resize.hpp:70-91 | two buffered rows blended and rounded give a byte between the smallest and largest of the four source pixels, so the cast to unsigned char never wraps |
| Resizes.InterpolatedBlend | cpp/common/Excalibur/operation_resize.hpp:85-91 | an output byte is the rounded vertical blend of the two buffered rows, with weight 0 when both rows are the same |
| Resizes.InterpolatedBetween | cpp/common/Excalibur/operation_resize.hpp:43-92 | every output byte lies between the smallest and the largest of the four source pixels it is interpolated from |
| Resizes.ExactAtSamples | cpp/common/Excalibur/operation_resize.hpp:43-92 | where both weights are 0 the output byte is the sampled source pixel itself |
| Resizes.HorizontalPass | cpp/common/Excalibur/operation_resize.hpp:69-79 | the two loops leave the horizontal pass of source row y in the row buffer: interpolated before xmax, copied from there on |
| Resizes.OutputRow | cpp/common/Excalibur/operation_resize.hpp:85-91 | the loops write the interpolated bytes of output row dy and change no other byte of the destination |
| Resizes.RowDone | cpp/common/Excalibur/operation_resize.hpp:43 | writing row dy after the rows before it keeps those rows and completes row dy |
| Resizes.RowElementDone | cpp/common/Excalibur/operation_resize.hpp:43 | one element of RowDone: an earlier row is kept, row dy holds what was written |
| Resizes.NextOutputRow | cpp/common/Excalibur/operation_resize.hpp:43-91 | output row dy is written at its place after the rows before it, and the destination outside the rows written stays as it was |
| Resizes.FillBuffers | cpp/common/Excalibur/operation_resize.hpp:58-80 | from k on, buffer 0 receives the pass of row sy0 and buffer 1 that of row sy1, copied when sy1 is sy0; buffers before k keep theirs |
| Resizes.Bilinear | cpp/common/Excalibur/operation_resize.hpp:30-95 | icvResize_Bilinear_8u_C1 writes every output row of the plane with its interpolated bytes, whatever the reuse and swapping of buffers, and nothing outside the plane |
| Resizes.PlaneInside | cpp/common/Excalibur/operation_resize.hpp:216-224 | plane (n, c) of an NCHW buffer starts at (n·C + c)·H·W and ends inside the buffer |
| Resizes.PlaneOffset | cpp/common/Excalibur/operation_resize.hpp:216-224 | element (n, c, y, x) of an NCHW buffer is element y·W + x of plane (n, c) |
| Resizes.PlaneAt | cpp/common/Excalibur/operation_resize.hpp:224 | the plane of image n and channel c has H rows of W bytes |
| Resizes.PlanePixel | cpp/common/Excalibur/operation_resize.hpp:224 | pixel (y, x) of plane (n, c) is element (n, c, y, x) of the tensor |
| Resizes.PlaneDone | cpp/common/Excalibur/operation_resize.hpp:214-227 | one kernel call completes plane (n, c) and keeps the planes before it |
| Resizes.PlaneElementDone | cpp/common/Excalibur/operation_resize.hpp:214-227 | one element of PlaneDone: an earlier plane is kept, plane (n, c) holds the kernel's bytes |
| Resizes.PlaneStart | cpp/common/Excalibur/operation_resize.hpp:216-224 | the kernel's offset n·(C·H·W) + c·(H·W) is the start of plane n·C + c |
| Resizes.ResizePlane | cpp/common/Excalibur/operation_resize.hpp:219-226 | one kernel call writes plane (n, ch) after the planes before it |
| Resizes.ResizePlanes | cpp/common/Excalibur/operation_resize.hpp:214-227 | after the loops over images and channels every output element is the bilinear interpolation of its source plane |
| Resizes.AllPlanes | cpp/common/Excalibur/operation_resize.hpp:214-227 | every plane of the output has a key below N·C, so finishing the loops covers all of it |
| Resizes.Resampled | cpp/common/Excalibur/operation_resize.hpp:139-373 | the fixed-point path returns a new dense NCHW tensor of src's images and channels at the new size whose every plane is the bilinear resize of src's |
| Resizes.Resize | cpp/common/Excalibur/operation_resize.hpp:108-373 | a size not positive in both directions leaves dst as it was; the source's own size gives a fresh copy of src; any other size gives the bilinear resize of src |
| Resizes.NegativeSizesPass | cpp/common/Excalibur/operation_resize.hpp:117-121 | as written, a height and a width of -1 have a positive product and pass the size guard |
| Resizes.SizeGuardsAgree | cpp/common/Excalibur/operation_resize.hpp:117-121 | the corrected guard (both sizes positive) and the guard as written agree on every size except two negative ones |
| Rknn2Strings.Find | cpp/common/RKNN2Wrapper/rknn2_wrapper.hpp:721-727 | find returns the first occurrence of the separator at or after the start position, and npos exactly when none is left |
| Rknn2Strings.Fields | cpp/common/RKNN2Wrapper/rknn2_wrapper.hpp:717-730 | the text is cut into at least one field at the leftmost occurrences of the separator |
| Rknn2Strings.SplitString | cpp/common/RKNN2Wrapper/rknn2_wrapper.hpp:717-730 | the loop returns exactly the fields of the text, without the last one when it is empty |
| Rknn2Strings.FieldsAt | cpp/common/RKNN2Wrapper/rknn2_wrapper.hpp:723-727 | one round of the loop: the piece before an occurrence, then the fields after it |
| Rknn2Strings.PiecesEnd | cpp/common/RKNN2Wrapper/rknn2_wrapper.hpp:728-729 | after the last occurrence the rest of the text is pushed only when it is not empty |
| Rknn2Strings.EmptySeparatorStalls | cpp/common/RKNN2Wrapper/rknn2_wrapper.hpp:721-727 | with an empty separator find answers the start position itself, so the loop would never advance; the model requires a non-empty separator |
| Rknn2Strings.FieldsJoin | cpp/common/RKNN2Wrapper/rknn2_wrapper.hpp:717-730 | joining the fields with the separator gives back the text they were cut from |
| Rknn2Strings.PiecesJoin | cpp/common/RKNN2Wrapper/rknn2_wrapper.hpp:717-730 | joining the pieces with the separator gives back the text, except for a closing separator that was dropped |
| Rknn2Strings.JoinLast | cpp/common/RKNN2Wrapper/rknn2_wrapper.hpp:728-729 | a list ending in an empty string joins to the others followed by the separator |
| Rknn2Strings.FieldsFree | cpp/common/RKNN2Wrapper/rknn2_wrapper.hpp:721-727 | no field contains the separator |
| Rknn2Strings.SliceFree | cpp/common/RKNN2Wrapper/rknn2_wrapper.hpp:721-727 | a slice in which no occurrence starts contains none |
| Rknn2Strings.PiecesFree | cpp/common/RKNN2Wrapper/rknn2_wrapper.hpp:717-730 | no piece split_string returns contains the separator |
| Rknn2Strings.WholeOrNothing | cpp/common/RKNN2Wrapper/rknn2_wrapper.hpp:717-730 | a text without the separator gives itself as the one piece, or no piece when it is empty |
| Rknn2Strings.SplitClosingSeparator | cpp/common/RKNN2Wrapper/rknn2_wrapper.hpp:717-730 | "a,b," splits into "a" and "b" |
| Rknn2Strings.SplitLeadingSeparators | cpp/common/RKNN2Wrapper/rknn2_wrapper.hpp:717-730 | ",,a" splits into "", "" and "a": empty pieces between separators are kept |
| Rknn2Floats.Pack | cpp/common/RKNN2Wrapper/rknn2_wrapper.hpp:124 | packing a sign, an exponent and a mantissa puts each back in its own field |
| Rknn2Floats.AsWrittenFields | cpp/common/RKNN2Wrapper/rknn2_wrapper.hpp:118-127 | f16_2_f32 keeps the sign, adds 112 to the exponent field and moves the mantissa up 13 bits |
| Rknn2Floats.AsWrittenFieldValues | cpp/common/RKNN2Wrapper/rknn2_wrapper.hpp:118-127 | the same, field by field, as numbers |
| Rknn2Floats.AsWrittenNormal | cpp/common/RKNN2Wrapper/rknn2_wrapper.hpp:118-127 | on every normal half (exponent field from 1 to 30) the widened bit pattern is the same number |
| Rknn2Floats.AsWrittenSpecials | cpp/common/RKNN2Wrapper/rknn2_wrapper.hpp:118-127 | as written, a half zero widens to 2^-15, infinity to 65536 and the quiet NaN 0x7E00 to 98304 |
| Rknn2Floats.RebiasedNumber | cpp/common/RKNN2Wrapper/rknn2_wrapper.hpp:122-123 | rebiasing a normal exponent from 15 to 127 and scaling the mantissa by 2^13 keeps the number |
| Rknn2Floats.RebiasedPattern | cpp/common/RKNN2Wrapper/rknn2_wrapper.hpp:122-124 | a single whose fields are a normal half's fields rebiased is the same number as the half |
| Rknn2Floats.Normalize | cpp/common/RKNN2Wrapper/rknn2_wrapper.hpp:118-127 | a subnormal mantissa is shifted at most 10 times until its leading bit reaches bit 10 |
| Rknn2Floats.NormalizeKeepsValue | cpp/common/RKNN2Wrapper/rknn2_wrapper.hpp:118-127 | normalising keeps the value: m·2^s = 2^10 + m' |
| Rknn2Floats.SubnormalValue | cpp/common/RKNN2Wrapper/rknn2_wrapper.hpp:118-127 | the corrected conversion widens every subnormal half to a normal single that is the same number |
| Rknn2Floats.F16ToF32Value | cpp/common/RKNN2Wrapper/rknn2_wrapper.hpp:118-127 | the corrected conversion widens every finite half, zeros and subnormals included, to the same number |
| Rknn2Floats.F16ToF32Finite | cpp/common/RKNN2Wrapper/rknn2_wrapper.hpp:118-127 | a finite half widens to a finite single |
| Rknn2Floats.F16ToF32Specials | cpp/common/RKNN2Wrapper/rknn2_wrapper.hpp:118-127 | an infinity stays an infinity and a NaN stays a NaN, with the same sign |
| Rknn2Floats.F16ToF32AgreesOnNormals | cpp/common/RKNN2Wrapper/rknn2_wrapper.hpp:118-127 | on normal halves the corrected conversion gives exactly the bits f16_2_f32 gives |

## Left out

- Sha3.HashSha3Impl: the published FIPS 202 digests of "" and "abc" are not evaluated. The verifier cannot unfold 24 rounds of Keccak-f[1600] on concrete data. Conformance rests instead on the step mappings, the padding and the sponge, which are proved against the definitions of FIPS 202 sections 3.2, 5.1 and 4.
- Guids.GuidRoot: the root GUID is written as its four fields, transcribed from the text literal at cpp/common/Primitives/abi/guid.hpp:130. Parsing the 36-character literal is not evaluated, because it is too costly for the verifier. Guids.ParsedGuidText proves that printing and parsing agree for every GUID.
- Implements.ObjectHeap.AddRef: the reference count of an object (ObjectRecord.count) is an unbounded natural number. The 32-bit wrap-around of atomic_ref_count is modelled separately, in FundamentalSemantics.AtomicRefCount, and is not carried into the heap: 2^32 live references to one object cannot be held at once.
- Tensors.Tensor.Count: the product of the shape is an unbounded integer. The source's `int` product overflows for tensors of 2^31 or more elements, and that overflow is not modelled.
- Tensors.Tensor.OffsetOf: the offset is an unbounded integer, with the same `int` overflow not modelled.
- Resizes.Scale: `width << 15` is an unbounded product. It overflows the source's `int` for widths or heights of 65536 and more, and that overflow is not modelled.
- Resizes.Coordinate: `(2d + 1)·scale` is an unbounded product, with the same `int` overflow not modelled.
- Resizes.Resize: a size change of an NHWC tensor takes the single-precision floating-point path (cpp/common/Excalibur/operation_resize.hpp:298-367), and so do element types other than unsigned char (231-296). Neither path is modelled: the method requires an NCHW tensor for a size change. It also requires planes with at least one row and one column, because the kernel reads row 0 and column 0 of every plane.
- Resizes.Resize: the interpolation type parameter is not modelled. The fixed-point path never reads it and always interpolates bilinearly.
- HashUtils.CaseInsensitiveStringHash: a string is a sequence of characters with no encoding, and tolower is that of the "C" locale. The standard library's hash of one character is implementation-defined, so it is the parameter `h`.
- HashUtils.Combine64: hash_combine updates its accumulator by reference. The model returns the new accumulator instead.
- Guids.GuidBytes: std::hash of a GUID (cpp/common/Primitives/abi/guid.hpp:182-194) is not modelled. It is hash_combine over the implementation-defined std::hash of each field.
- ParamStrings.StringStore.TextOf: a null handle reads as the empty text. The extern "C" string functions of cpp/common/Primitives/abi/param_string_allocations.hpp:17-29 (create, reference, free, data and size) are not part of this model. Their storage is an abstract store of reference-counted immutable texts.
- ParamHashMaps.ParamHashMap: the Hasher and KeyEqual template parameters are not modelled. Keys are compared by equality, and the bucket layout is left out. Iteration may visit the entries in any order, because Enumerate picks each next entry nondeterministically.
- PoolAllocators.PoolAllocator.SetSizeCompareRatio: the ratio argument is a real number, not a 32-bit float. The rounding of `scr * 256` in single precision is not modelled.
- PoolAllocators.PoolAllocator: the mutexes are not modelled; every operation runs alone. The host allocation is an address counter, and freeing is recorded in a list.
- TensorHelpers.Create: the bitmap stride is counted in elements, while the source counts bytes. The two agree for one-byte elements, the only ones the source copies with a stride.
- TensorHelpers.RgbOrRgbaToGray: the luma weights (0.299, 0.587, 0.114 in floating point, cast back to the element type) are the parameter `luma`.
- TensorConverters.ConvertToGray: the luma weights are the parameter `luma`, for the same reason.
- Tensors.Tensor.Clone: tensor.cpp is not part of this model. The constructors and clone are modelled from their declarations at cpp/common/Primitives/tensor.hpp:44-65: the shape constructor allocates the product of the shape, and clone is a deep copy.
- Tensors.Tensor: host/device memory synchronisation (syncedmem) is not modelled, and neither is any GPU path, such as cut_border_gpu (cpp/common/Excalibur/operation_cut_border.hpp:113-203). Where a CPU operation checks the device (merge_channel, safty_cut), a GPU tensor takes the "device wrong" branch, which leaves the output unchanged.
- MakeBorders.MakeBorder: replication requires planes with at least one row and one column whenever there is an image. This also excludes images with no channel and an empty plane, which the source handles without reading anything.
- SaftyCuts.Rectangle: the coordinate type Rtype is modelled as an integer. A floating-point Rtype is not modelled.
- SaftyCuts.Rectangle.Center: the centre is computed by exact halving. The source computes `x + w * 0.5f` in single precision before converting back to Dtype (cpp/common/Excalibur/operation_safty_cut.hpp:78), and that float rounding is not modelled. The two agree while x, w and 2x + w are all below 2^24 in magnitude, where the float sum is exact. Beyond that, the source can differ: x = 8388609, w = 1 gives 8388610 there, and x = 16777217, w = 0 gives 16777216, below x. Center's bounds `x <= p.x <= x + w` therefore hold for the model, not for the source at such coordinates.
- Profilers.Profiler: DumpProfile, profiler_write_event, the timer and the file output are not modelled. The clock is a parameter: each operation is given the current time.
- Delegates.Delegate: the atomic swap of the snapshot, and the thread-safety it gives, are not modelled. Operations run one at a time.
- Delegates.IdCounter: the global listener counter is an unbounded natural number. The source's std::atomic_uint64_t (cpp/common/Primitives/delegate.hpp:163) wraps to 0 after 2^64 ids, after which ids could repeat; that wrap-around is not modelled, so the model's ids are always fresh.
- FundamentalSemantics.AtomicRefCount: memory orders and fences are not modelled. Operations run one at a time.
- Exceptions.TranslateCurrentException: only the error code is modelled. The message side channel is not: each standard-exception branch also stores ex.what() with set_abi_exception_what_ex_narrow, and the abi_error branch stores its own message with set_abi_exception_what (cpp/common/Primitives/abi/exceptions.hpp:163-186). Exceptions.CheckThenTranslate and Exceptions.TranslateThenCheck therefore carry the kind of error round, not its message.
- Exceptions.CheckAbiResult: the raised error carries its kind only. The source rebuilds it with the message read back by get_abi_exception_what, or with the default message when none was stored (cpp/common/Primitives/abi/exceptions.hpp:216-226); that message is not modelled.
- StandardExports.FillOnce: std::call_once is a one-shot flag.
- Rknn2Strings.SplitString: requires a non-empty separator. With an empty one, find returns the start position, so the source's loop never ends (Rknn2Strings.EmptySeparatorStalls).
- Rknn2Floats.F16ToF32AsWritten: the function returns the single-precision bit pattern that f16_2_f32 reinterprets as a float. Numbers are compared exactly as sign, significand and power of two; no floating-point arithmetic is modelled.
- Meta.UniqueFrom: the template metaprogramming of cpp/common/Primitives/abi/meta.hpp:21-244 is not modelled, except tuple_unique, which is modelled as first-occurrence deduplication of a list.
- The interface vtables and abi_adapter forwarding in every abi file are not modelled, nor the RKNN SDK calls and model loading of rknn2_wrapper.hpp: they are marshalling and foreign calls with no logic of their own.

## Findings

| source | as written | input that shows it | evidently intended | confidence | as-written member | corrected member |
|---|---|---|---|---|---|---|
| cpp/common/Primitives/abi/meta.hpp:673-684 | when the minuend is smaller, minus_mod_unsigned rounds the wrapped difference up to a multiple of the divisor modulo 2^64; that is a multiple of the divisor only when the divisor divides 2^64 | minuend 0, subtrahend 1, divisor 7 over 64-bit size_t gives 4 | (0 − 1) mod 7 = 6, the residue the doc comment at 663-666 promises | not executed | Meta.MinusModUnsignedAsWrittenCounterexample | Meta.MinusModCongruent |
| cpp/common/Primitives/abi/param_span.hpp:220-223 | sub_span checks index + size <= size_ in size_t, where the sum wraps | a 4-element span, index 1 and size 2^64 − 1: the check passes and the sub-span reaches past the memory | a sub-span must lie inside the span, so the sum must be checked without wrap-around | not executed | ParamSpans.SubSpanAsWrittenOverruns | ParamSpans.SubSpanViews |
| cpp/common/Primitives/abi/param_string.hpp:119-122 | copy assignment clears the string, then takes a new reference to the right-hand handle, with no self-assignment check | s = s, for a string s that holds the only reference to its text: clear frees the text, and s ends null | self-assignment leaves the string unchanged, as unknown_object's assignment does (cpp/common/Primitives/abi/base_abi.hpp:235-245) | not executed | ParamStrings.ParamString.AssignCopyAsWritten | ParamStrings.ParamString.AssignCopy |
| cpp/common/Primitives/abi/box_value.hpp:125-129 | set constructs the new value over the storage without destroying the value already there | a string box set twice to the same string and then destroyed leaves that string with one reference too many, so it is never freed | the old value is destroyed before the new one is constructed | not executed | BoxValues.SetTwiceAsWrittenLeaks | BoxValues.SetTwiceRestores |
| cpp/common/Primitives/array_buffer.hpp:182 | expand_buffer_core multiplies the capacity by the expanding factor, so a capacity of 0 stays 0 | an array_buffer constructed with capacity 0: emplace_back constructs its first element at index 0 of a zero-length buffer | growing always makes room for at least one more element | not executed | ArrayBuffers.ZeroCapacityStaysFull | ArrayBuffers.GrownCapacity |
| cpp/common/Primitives/array_buffer.hpp:186 | memcpy copies position_ bytes, which are position_ / sizeof(Element) whole elements | a full buffer holding one four-byte element: growing copies one byte, so no element is carried over | every element already constructed moves to the new buffer | not executed | ArrayBuffers.MemcpyDropsElements | ArrayBuffers.ArrayBuffer.ExpandBufferCore |
| cpp/common/Primitives/delegate.hpp:97-110 | operator() walks the snapshot until the first empty entry, but an empty handler a caller added is such an entry, like the closing sentinel | add_listener with an empty handler, then with a handler f: invoking the delegate calls nothing | every registered non-empty handler is called, in registration order | not executed | Delegates.EmptyHandlerHidesLater | Delegates.Delegate.Invoke |
| cpp/common/Excalibur/operation_merge_channel.hpp:51-71 | the three planes are copied one after another in both orders, but in NHWC order the three-channel result is read interleaved | NHWC inputs with planes [1, 2], [3, 4], [5, 6] of one row and two columns: channel 1 of pixel (0, 0) reads 2 instead of 3 | channel c of the result is input c, as the summary at 11-13 says: three single-channel images merged into one three-channel image | not executed | MergeChannels.PlanarMisreadInNhwc | MergeChannels.MergeChannels |
| cpp/common/Excalibur/operation_resize.hpp:198-212 | the row table is clamped below only, while the column table is also clamped at the right edge | a one-row image resized to 65536 rows: the last destination row reads source row 1, which is past the image | each row entry lies inside the image, clamped to the last row with weight 0 as the column table does | not executed | Resizes.RowPastImage | Resizes.RowEntryInside |
| cpp/common/Excalibur/operation_resize.hpp:117-121 | the size guard rejects dst_height · dst_width <= 0, so two negative sizes pass it | dst_height = dst_width = −1: the product is 1 and resize_cpu goes on with a negative size | "Illegal input size." unless both sizes are positive | not executed | Resizes.NegativeSizesPass | Resizes.SizeGuardsAgree |
| cpp/common/RKNN2Wrapper/rknn2_wrapper.hpp:118-127 | f16_2_f32 rebiases the exponent from 15 to 127 whatever its value, including 0 and 31 | the half zero 0x0000 becomes 2^-15; infinity 0x7C00 becomes 65536; the NaN 0x7E00 becomes 98304 | zeros, subnormals, infinities and NaNs keep their meaning, as every finite half does | not executed | Rknn2Floats.AsWrittenSpecials | Rknn2Floats.F16ToF32Value |
