# Groth16 BN254 payload codec — a Dafny model

This project models the byte-level codec around a Groth16 proof verifier for the BN254
curve. On the Solana program side, `verify_proof` receives one flat payload. Bytes 0..64
hold the proof's A point, 64..192 hold B, 192..256 hold C, and the public signal follows.
`verify_proof`:

- reverses A's two 32-byte words (`change_endianness`);
- decodes A with arkworks' validating uncompressed G1 decoder;
- negates A and writes -A back in the payload's byte order, reversing its two words again;
- passes B and C on unchanged;
- cuts the bytes after 256 into zero-padded 32-byte signals (`chunk_instruction_data`);
- hands everything to the Groth16 verifier.

The program entry point (`process_instruction`) loads and logs the verifying key (not
modelled), then strips the 4-byte borsh length prefix.

On the JavaScript side, three scripts build such payloads from a snarkjs proof:

- `parse_proof.js` and `parse_proof_to_rust.js` use ffjavascript serialisation, whole-buffer
  reversal and big-endian `to32ByteBuffer`;
- `de.js` uses bn.js little-endian encoding, with the G2 coefficients imaginary part first.

`gen_key.js` reshapes a snarkjs verification key into arkworks field names.

Modules:

- `Bytes`: byte strings, their big- and little-endian values, the fixed-width encoders and reversal.
- `Endianness`: `change_endianness` (a loop method proved against the function `ChunkReverse`)
  and `chunk_instruction_data`.
- `Bn254`: the base-field prime p, G1 points, negation `(x, (p - y) mod p)`, and the arkworks
  uncompressed G1 decoder. The decoder checks that x and y are below p, reads the SWFlags bits
  and checks the curve equation y² = x³ + 3.
- `Verifier`: `verify_proof`, as a method over a 65-byte array and as the function it is proved
  equal to. The Groth16 verifier is a `Groth16Backend` parameter. Slice panics are an explicit
  `Panic` outcome.
- `Program`: `process_instruction`, and the payload the test in `lib.rs` builds.
- `JsText`: decimal rendering, `Array.prototype.join`, and a reader for joined number lists.
- `ProofJs`: `parse_proof.js`, with ffjavascript's curve operations as fields of a `Bn128` value.
- `ProofToRustJs`: what `parse_proof_to_rust.js` adds. Its copies of `to32ByteBuffer`,
  `reverseEndianness`, `negateG1`, `negateAndSerializeG1` and `g1Uncompressed`/`g2Uncompressed`
  are the same code as in `parse_proof.js` and are modelled once, in `ProofJs`.
- `De`: `de.js`.
- `GenKey`: `gen_key.js`.

Where the code and its written description differ, the model follows the code:

- `verify_proof` does not require a payload of 256 + 32k bytes. Any 1 to 32 bytes after byte
  256 become one zero-padded signal. No trailing bytes, or more than 32, give
  `InvalidPublicInputsLength`. A payload of 64 to 255 bytes whose A decodes panics on slicing
  instead of returning an error; one whose A does not decode returns `DecompressingG1Failed`
  first. A payload shorter than 64 bytes panics before A is decoded
  (`Verifier.VerifyProofPanics`, `Verifier.VerifyProofDispatch`).
- `verify_proof` reads A's coordinates big-endian (`Verifier.DecodeProofAIsBigEndian`). The first
  word of the `PROOF` fixture in the `lib.rs` test is below p read little-endian and at least p
  read big-endian (`Program.FixtureXByteOrder`). So `verify_proof` rejects that fixture with
  `DecompressingG1Failed` (`Program.FixtureProofRejected`). `process_instruction` never calls
  `verify_proof`; if `get_vkey_from_json` returns, it returns `Ok(())` on the test's
  instruction (`Program.FixtureLayout`).
- `parse_proof.js` reverses the whole 64-byte buffer, which swaps x and y. This is not the Rust
  per-word reversal (`ProofJs.WholeReversalSwapsHalves`, `ProofJs.WholeReversalIsNotChunkReversal`).

## Model

| member | source | states |
|---|---|---|
| Endianness.ChunkReverse | program/src/verifier.rs:57-65 | change_endianness keeps the length of its input |
| Endianness.ChunkReverseAt | program/src/verifier.rs:57-65 | byte j of 32-byte chunk k comes from position m-1-j of the same chunk, m being that chunk's length, so a short last chunk is reversed within itself and not padded |
| Endianness.ChunkReverseCons | program/src/lib.rs:22-26 | chunk order is kept: a full first chunk is reversed in place and the rest follows, itself chunk-reversed |
| Endianness.ChunkReverseHalves | program/src/verifier.rs:69 | on 64 bytes, each 32-byte half is reversed in place |
| Endianness.ChunkReverseInvolution | program/src/lib.rs:20-28 | applying change_endianness twice gives the input back |
| Endianness.ChangeEndianness | program/src/verifier.rs:57-65 | the nested push loops produce exactly ChunkReverse of the input (same code as program/src/lib.rs:20-28) |
| Endianness.PushReversed | program/src/verifier.rs:60-62 | the inner loop appends the chunk back to front |
| Endianness.PadChunk | program/src/verifier.rs:49-53 | a chunk copied into a zeroed 32-byte array: its bytes first, zeros after |
| Endianness.ChunkInstructionData | program/src/verifier.rs:47-55 | ceil(len/32) arrays of 32 bytes; byte j of array i is data[32i+j], or 0 past the end; empty input gives none |
| Endianness.SingleChunk | program/src/verifier.rs:91-92 | exactly one array comes out if and only if 1 to 32 bytes go in, and it is those bytes zero-padded |
| Bn254.Neg | program/src/verifier.rs:75-82 | negation keeps infinity and x, gives a canonical y with y + y' ≡ 0 mod p, and keeps valid points valid |
| Bn254.NegatedYOnCurve | program/src/verifier.rs:75-82 | for canonical y (below p), (x, (p - y) mod p) is on the curve whenever (x, y) is |
| Bn254.NegInvolution | program/src/verifier.rs:75-82 | negating twice gives back any point with canonical y |
| Bn254.FlagsOfRanges | program/src/verifier.rs:68-73 | the SWFlags byte (`Bn254.FlagsOf`) by ranges: below 64 no flag, 64..128 infinity, 128..192 negative y, 192 and above refused |
| Bn254.DecodeFqCanonical | program/src/verifier.rs:68-73 | the field decoder (`Bn254.DecodeFq`) accepts exactly the canonical 32-byte little-endian encodings: what it accepts re-encodes to the same bytes, and every value below p decodes from its encoding |
| Bn254.DecodeG1Uncompressed | program/src/verifier.rs:68-73 | whatever the decoder accepts is a valid point, and its x bytes were canonical |
| Bn254.EncodeG1Coordinates | program/src/verifier.rs:74-84 | the serialised x and y take 64 bytes |
| Bn254.CanonicalTopByte | program/src/verifier.rs:78-84 | a canonical coordinate's little-endian last byte has both flag bits clear |
| Bn254.DecodeEncodedAffine | program/src/verifier.rs:74-86 | decoding the serialised coordinates of a valid affine point gives the point back, whatever follows |
| Bn254.EncodedInfinityIsZeros | program/src/verifier.rs:74-84 | the point at infinity is written as 64 zero bytes, which the validating decoder refuses |
| Verifier.SerializeFq | program/src/verifier.rs:78-84 | serialising a field element into buf[start..end] succeeds if and only if there are 32 bytes of room; it then writes the 32 little-endian bytes and nothing else; on a shorter slice it fills the slice with the leading bytes of the encoding before failing, and changes nothing outside it |
| Verifier.VerifyProof | program/src/verifier.rs:67-98 | the method over a 65-byte buffer returns exactly the outcome the function `Verifier.VerifyProofOutcome` specifies; the lemma rows below state what that outcome is |
| Verifier.DecodeProofAIsBigEndian | program/src/verifier.rs:68-73 | decoding chunk-reversed A plus a zero byte reads x from bytes 0..32 and y from bytes 32..64 big-endian, with the flags in the top bits of byte 32 |
| Verifier.NegatedProofAIsBigEndian | program/src/verifier.rs:74-86 | the negated A handed on is -A with x and y each 32 bytes big-endian |
| Verifier.NegatedProofAKeepsX | program/src/verifier.rs:74-86 | for a decoded affine A, the negated A keeps the input's 32 x bytes and replaces y by (p - y) mod p, big-endian |
| Verifier.NegatedProofAInfinity | program/src/verifier.rs:74-86 | an A flagged as infinity (bit 6 of byte 32) is handed on as 64 zero bytes |
| Verifier.NegatedProofARoundTrip | program/src/verifier.rs:74-86 | decoding the negated A of a valid affine point gives the negated point |
| Verifier.VerifyProofPanics | program/src/verifier.rs:67-90 | verify_proof panics exactly when the payload is under 64 bytes, or A decodes and the payload is under 256 bytes |
| Verifier.VerifyProofBadA | program/src/verifier.rs:68-73 | an A that does not decode gives DecompressingG1Failed whatever follows |
| Verifier.VerifyProofNonCanonicalX | program/src/verifier.rs:68-73 | an A whose first 32 bytes read big-endian are at least p gives DecompressingG1Failed |
| Verifier.VerifyProofDispatch | program/src/verifier.rs:87-97 | with a good A and a payload of at least 256 bytes: a payload length outside 257..288 gives InvalidPublicInputsLength; otherwise the backend receives -A, data[64..192], data[192..256] and the one zero-padded signal; construction failure gives ProofVerificationFailed, and otherwise verify()'s result is returned unchanged |
| Verifier.DispatchMatchesKey | program/src/verifier.rs:6-45 | what reaches the verifier has the sizes the program's key expects: 64, 128 and 64 bytes, and one 32-byte public input per IC point beyond the first |
| Program.InstructionPayload | program/src/lib.rs:38 | fewer than 4 bytes panic; otherwise the payload is the data after the first 4 bytes |
| Program.ProcessInstruction | program/src/lib.rs:30-41 | process_instruction panics exactly on fewer than 4 bytes and otherwise returns Ok(()) |
| Program.ProcessInstructionIgnoresPayload | program/src/lib.rs:30-41 | the result does not depend on anything after the 4-byte prefix |
| Program.BorshBytes | program/src/lib.rs:97-101 | the borsh encoding of a byte vector is 4 + n bytes, beginning with n as a little-endian u32 |
| Program.PayloadOfBorshBytes | program/src/lib.rs:97-101 | stripping 4 bytes from a borsh-encoded payload gives the payload back, and the program returns Ok(()) |
| Program.BuildInstructionData | program/src/lib.rs:90-94 | the test's loop builds the proof followed by every public input, in order |
| Program.ChunksOfFlatten | program/src/lib.rs:90-94 | k 32-byte inputs laid end to end take 32k bytes, and chunk_instruction_data recovers them |
| Program.FixtureLayout | program/src/lib.rs:50-69 | the test payload is 288 bytes: PROOF, then the single public input, which is 12 big-endian; the program accepts its borsh encoding |
| Program.FixtureXByteOrder | program/src/lib.rs:50-52 | the first word of PROOF is below p read little-endian, and at least p read big-endian |
| Program.FixtureProofRejected | program/src/lib.rs:50-69 | verify_proof on the test payload returns DecompressingG1Failed, whatever the key and backend |
| JsText.Decimal | utils/parse_proof_to_rust.js:121 | a number's decimal text is digits, has no leading zero except for 0, and denotes the number |
| JsText.ParseJoin | utils/de.js:27 | numbers joined with a non-digit separator read back exactly, whatever follows, as long as it starts with neither a digit nor the separator |
| ProofJs.HexString | utils/parse_proof.js:8 | toString(16) is never empty |
| ProofJs.PadStart | utils/parse_proof.js:8 | padStart yields the longer of the input and the requested width |
| ProofJs.HexDecode | utils/parse_proof.js:9 | Buffer.from(hex) yields at most half as many bytes as hex digits |
| ProofJs.To32ByteBufferIsBigEndian | utils/parse_proof.js:7-11 | for n below 2^256, to32ByteBuffer(n) (`ProofJs.To32ByteBuffer`) is n as 32 big-endian bytes, zero-padded on the left; its length is 32 and its value n |
| ProofJs.HexDecodeFixed | utils/parse_proof.js:8-9 | decoding 2k low-order hex digits gives the k low-order bytes, most significant first |
| ProofJs.PadHexString | utils/parse_proof.js:8 | padding the hex text of n < 16^k to k digits gives its k low-order hex digits |
| ProofJs.ReverseEndianness | utils/parse_proof.js:32-34 | the caller's buffer is reversed in place, and a fresh buffer with the reversed bytes is returned |
| ProofJs.WholeReversalSwapsHalves | utils/parse_proof.js:32-34 | on 64 bytes, whole-buffer reversal is per-32-byte reversal followed by swapping the halves |
| ProofJs.WholeReversalIsNotChunkReversal | utils/parse_proof.js:32-34 | a 64-byte buffer on which whole reversal and the Rust change_endianness differ |
| ProofJs.GuardRejectsNonBytes | utils/parse_proof.js:37 | the guard throws exactly for values that are neither a Uint8Array nor a Buffer; an empty byte array passes |
| ProofJs.WriteAt | utils/parse_proof.js:17 | toRprUncompressed writes the representation at the offset and leaves the rest of the buffer unchanged |
| ProofJs.G1Uncompressed | utils/parse_proof.js:13-20 | g1Uncompressed returns the point's 64-byte representation |
| ProofJs.G2Uncompressed | utils/parse_proof.js:57-64 | g2Uncompressed returns the point's 128-byte representation |
| ProofJs.NegateG1 | utils/parse_proof.js:23-29 | negateG1 returns the 64-byte representation of the negated point; reversed, it is what negateAndSerializeG1 returns |
| ProofJs.NegateAndSerializeG1 | utils/parse_proof.js:36-55 | throws if and only if the input is not a byte array; otherwise returns the 64-byte representation of the negated point, reversed |
| ProofJs.BigIntOfArrayCases | utils/parse_proof.js:80 | BigInt(publicSignals) gives 0 for no signal and the signal for one, and throws a SyntaxError for two or more |
| ProofJs.ProofData | utils/parse_proof.js:66-90 | with the curve calls returning normally, throws if and only if there are two or more signals, and then a SyntaxError; otherwise returns pi_a (serialised, reversed, negated, reversed), pi_b, pi_c and the signal's buffer, in that order |
| ProofJs.ProofDataWidths | utils/parse_proof.js:71-87 | the four arrays are 64, 128, 64 and 32 bytes, and the last is the signal in big-endian |
| ProofToRustJs.ProofDataFlat | utils/parse_proof_to_rust.js:77-101 | with the curve calls returning normally, throws if and only if there are two or more signals, and then a SyntaxError; otherwise returns pi_a, pi_b, pi_c and the signal concatenated |
| ProofToRustJs.ProofDataFlatLayout | utils/parse_proof_to_rust.js:93-100 | the flat payload is 288 bytes, with pi_a at 0..64, pi_b at 64..192, pi_c at 192..256 and the big-endian signal at 256..288 |
| ProofToRustJs.FourParts | utils/parse_proof_to_rust.js:93-98 | parts of widths 64, 128, 64 and 32 sit at those offsets in their concatenation |
| ProofToRustJs.PayloadReachesVerifier | utils/parse_proof_to_rust.js:93-100 | given to verify_proof, when its first 64 bytes decode as a point A, that payload reaches the verifier with -A, pi_b and pi_c unchanged and the signal as the single public input |
| ProofToRustJs.SliceTo | utils/parse_proof_to_rust.js:118 | slice(0, 256) has min(256, length) elements |
| ProofToRustJs.SliceFrom | utils/parse_proof_to_rust.js:119 | slice(256) has the remaining elements, none if the data is shorter |
| ProofToRustJs.SlicesCover | utils/parse_proof_to_rust.js:118-119 | the two slices concatenate back to the data; a 288-byte payload splits into 256 and 32 |
| ProofToRustJs.GenerateRustProof | utils/parse_proof_to_rust.js:103-124 | with the curve calls returning normally, throws if and only if an input path is missing or empty, or proofData throws (a SyntaxError for two or more public signals); otherwise the text is the Rust source `ProofToRustJs.RustProofText` for proofData's payload, and it reads back as the two slices |
| ProofToRustJs.RustProofTextReadsBack | utils/parse_proof_to_rust.js:121-124 | the generated Rust text (`ProofToRustJs.RustProofText`) parses back to the proof bytes and the signal bytes |
| De.To32ByteLE | utils/de.js:3-5 | succeeds if and only if the number is below 2^256, giving 32 bytes whose little-endian value is the number |
| De.To32ByteLEIsReversedBuffer | utils/de.js:3-5 | to32ByteLE is the other scripts' big-endian to32ByteBuffer, reversed |
| De.EncodeSlots | utils/de.js:8-20 | the concatenation succeeds if and only if every element's access succeeds and its value fits; then piece i has the value of element i |
| De.SerializeProofAndPublicInputs | utils/de.js:7-23 | succeeds if and only if all eight coordinates can be read and fit, and the output is then 256 bytes |
| De.SerializeIgnoresPublicInputs | utils/de.js:7 | the output does not depend on publicInputs |
| De.SerializedLayout | utils/de.js:9-19 | the bytes are a.x, a.y, b.x1, b.x0, b.y1, b.y0, c.x, c.y, each 32 bytes little-endian; A is not negated |
| De.FirstFailureThrows | utils/de.js:8-20 | the first element that fails decides the error thrown |
| De.MissingRowThrows | utils/de.js:12-15 | a proof without a second pi_b row throws a TypeError once the earlier coordinates fit |
| De.FormatRustArrayReadsBack | utils/de.js:25-30 | the Rust array formatRustArray prints (`De.FormatRustArray`) reads back as the buffer's length and its bytes |
| GenKey.ConvertG1 | utils/gen_key.js:14-20 | x and y are the first two entries, and infinity is false |
| GenKey.ConvertG1DropsExtra | utils/gen_key.js:14-20 | entries after the second, such as snarkjs's projective "1", do not change the result |
| GenKey.ConvertG2 | utils/gen_key.js:22-28 | throws a TypeError if and only if a row is missing; otherwise x = [p[0][0], p[0][1]] and y = [p[1][0], p[1][1]] in the given order, not the swap de.js applies, with infinity false |
| GenKey.ConvertIc | utils/gen_key.js:35 | the IC list keeps its length and order, each point converted by convertG1 |
| GenKey.ConvertIcAppend | utils/gen_key.js:35 | the IC conversion distributes over concatenation |
| GenKey.ConvertKey | utils/gen_key.js:31-44 | succeeds if and only if the three G2 points have both rows (otherwise TypeError); the fields land under alpha_g1, beta_g2, gamma_g2, delta_g2 and gamma_abc_g1 |

## Left out

- The Groth16 pairing check (`Groth16Verifier::new` and `verify`) is foreign code. It is the
  `Groth16Backend` parameter, a pair of functions.
- G2 deserialisation, and every curve operation in ffjavascript (`fromObject`,
  `fromRprUncompressed`, `toAffine`, `toRprUncompressed`) are foreign. They are fields of the
  `Bn128` value. Their output widths (64 and 128 bytes) are the precondition `RprWidths`.
  Negation in the scripts is the same `Bn254.Neg` the program uses.
- Field and group arithmetic beyond the curve equation are not modelled. In particular the
  G1 subgroup check is not modelled: on BN254 G1 every curve point is in the subgroup.
- The literal bytes of the program's verifying key are not modelled, only its shape
  (`Verifier.ProgramKeyShape`).
- The Solana entry point, `AccountInfo`, `msg!`, `get_vkey_from_json` (its module is not part
  of this model) and the `solana_program_test` test framework are not modelled.
- Script I/O is not modelled: file reads and writes, `require` of JSON, `console`,
  `async`/`await`, and the top-level invocations.
  - Command-line arguments are `Option<string>` parameters.
  - The proof and public-signal values `generateRustProof` reads from its two files are parameters.
- JSON parsing and `unstringifyBigInts` are not modelled. Proof coordinates arrive as numbers.
- The bn.js decimal-string parser is not modelled. Its input is the number the string denotes.
- `utils/generate-proof-and-public-input.js` is not modelled: it is a call to snarkjs plus file writes.
- The `generateRustProof` of `parse_proof.js` is not modelled. It emits `Fq::from_str` source text.
- The JSON text `gen_key.js` writes (`JSON.stringify`) is not modelled. The model stops at the
  converted object.
- ProofJs.To32ByteBufferIsBigEndian: covers values below 2^256 only. Larger values follow the
  same definition, but nothing is proved about them. With 65 hex digits, `Buffer.from` drops
  the last digit.
- ProofJs.BigIntOfString: models `BigInt` on the empty string and on decimal digits, the only
  texts `join` produces here. Whitespace, signs and radix prefixes are not modelled.
- Verifier.VerifyProof: the serialise failure branches (`map_err` on lines 79 and 84) are
  modelled in `SerializeFq`. In `verify_proof` they cannot be taken, because both
  destinations have room, and the method proves this instead of returning those errors.
  The `try_into` failures on lines 86, 88 and 90 (`InvalidG1Length`, `InvalidG2Length`,
  `InvalidG1Length`) cannot be taken either, because the slices have the fixed lengths
  64, 128 and 64; the method asserts those lengths instead of returning those errors.
- ProofJs.ProofData: assumes the ffjavascript calls (`fromObject`, `toRprUncompressed`,
  `fromRprUncompressed`, `toAffine`) return normally. A proof lacking an entry of pi_a or
  pi_c, or a row of pi_b, makes `fromObject` throw a TypeError in the script; the model
  treats those calls as total, so its throws-if-and-only-if covers only the signals.
- ProofToRustJs.ProofDataFlat: the same assumption as `ProofJs.ProofData`; the TypeError
  of `fromObject` on a proof with a missing coordinate is not modelled.
- ProofToRustJs.GenerateRustProof: the same assumption as `ProofJs.ProofData`; the
  TypeError of `fromObject` on a proof with a missing coordinate is not modelled.
- Program.ProcessInstruction: assumes `get_vkey_from_json` returns normally; its module is
  not part of this model, so a failure or panic while loading the key is not modelled.
