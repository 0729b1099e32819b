/**
 * The Solana program's entry point `process_instruction` and the payload its test
 * builds.  The entry point drops the 4-byte length prefix that borsh puts in front of
 * the instruction bytes and returns success; it does not call `verify_proof`.
 */
module Program {
  import opened Results
  import opened Bytes
  import opened Endianness
  import opened Bn254
  import opened Verifier

  /** The Solana ProgramError a failed ProgramResult carries (process_instruction never returns one). */
  datatype ProgramError = Custom(code: nat)

  /** `&instruction_data[4..]`: the bytes after the first four, or a panic when there are fewer. */
  function InstructionPayload(instructionData: seq<Byte>): (r: Outcome<seq<Byte>>)
    ensures r.Panic? <==> |instructionData| < 4
    ensures r.Return? ==> instructionData == instructionData[..4] + r.value
  {
    if |instructionData| < 4 then Panic else Return(instructionData[4..])
  }

  /**
   * process_instruction: load and log the verifying key (taken to return normally; the
   * loader is not part of this model), strip the prefix, return Ok(()).
   * The stripped payload is never looked at.
   */
  function ProcessInstruction(instructionData: seq<Byte>): (r: Outcome<Result<(), ProgramError>>)
    ensures r.Panic? <==> |instructionData| < 4
    ensures r.Return? ==> r.value == Ok(())
  {
    match InstructionPayload(instructionData)
    case Panic => Panic
    case Return(_) => Return(Ok(()))
  }

  /** The outcome does not depend on anything after the first four bytes. */
  lemma ProcessInstructionIgnoresPayload(prefix: seq<Byte>, p1: seq<Byte>, p2: seq<Byte>)
    requires |prefix| == 4
    ensures ProcessInstruction(prefix + p1) == ProcessInstruction(prefix + p2) == Return(Ok(()))
  {
  }

  /** Borsh serialisation of a byte vector: its length as a 4-byte little-endian u32, then the bytes. */
  function BorshBytes(payload: seq<Byte>): (r: seq<Byte>)
    requires |payload| < Pow256(4)
    ensures |r| == |payload| + 4 && LEValue(r[..4]) == |payload|
  {
    LEValueOfToLittleEndian(|payload|, 4);
    ToLittleEndian(|payload|, 4) + payload
  }

  /** Stripping four bytes from a borsh-serialised vector gives the vector back. */
  lemma PayloadOfBorshBytes(payload: seq<Byte>)
    requires |payload| < Pow256(4)
    ensures InstructionPayload(BorshBytes(payload)) == Return(payload)
    ensures ProcessInstruction(BorshBytes(payload)) == Return(Ok(()))
  {
    assert BorshBytes(payload)[4..] == payload;
  }

  /** The concatenation of a list of byte strings. */
  function Flatten(parts: seq<seq<Byte>>): seq<Byte>
  {
    if parts == [] then [] else Flatten(parts[..|parts| - 1]) + parts[|parts| - 1]
  }

  lemma {:induction false} FlattenCons(first: seq<Byte>, rest: seq<seq<Byte>>)
    ensures Flatten([first] + rest) == first + Flatten(rest)
  {
    if rest != [] {
      var all := [first] + rest;
      assert all[..|all| - 1] == [first] + rest[..|rest| - 1];
      FlattenCons(first, rest[..|rest| - 1]);
    }
  }

  /**
   * The test's payload construction: a vector extended with the proof, then with each
   * public input in turn.
   */
  method BuildInstructionData(proof: seq<Byte>, inputs: seq<seq<Byte>>) returns (data: seq<Byte>)
    ensures data == proof + Flatten(inputs)
  {
    data := [];
    data := data + proof;
    var i := 0;
    while i < |inputs|
      invariant 0 <= i <= |inputs|
      invariant data == proof + Flatten(inputs[..i])
    {
      assert inputs[..i + 1][..i] == inputs[..i];
      data := data + inputs[i];
      i := i + 1;
    }
    assert inputs[..|inputs|] == inputs;
  }

  /** Cutting the concatenation of 32-byte inputs into 32-byte arrays gives the inputs back. */
  lemma {:induction false} ChunksOfFlatten(inputs: seq<seq<Byte>>)
    requires forall i :: 0 <= i < |inputs| ==> |inputs[i]| == 32
    ensures |Flatten(inputs)| == 32 * |inputs|
    ensures ChunkInstructionData(Flatten(inputs)) == inputs
  {
    if inputs != [] {
      var first, rest := inputs[0], inputs[1..];
      assert inputs == [first] + rest;
      FlattenCons(first, rest);
      ChunksOfFlatten(rest);
      var f := Flatten(inputs);
      if rest == [] {
        assert f == first;
        assert PadChunk(first) == first;
      } else {
        assert f[..32] == first && f[32..] == Flatten(rest);
        assert PadChunk(first) == first;
      }
    }
  }

  /** The test fixture PROOF, written as its eight 32-byte words: A.x, A.y, four words of B, C.x, C.y. */
  const PROOF_WORDS: seq<seq<Byte>> := [
    [220, 67, 64, 26, 46, 89, 237, 206, 15, 62, 21, 122, 24, 223, 42, 22,
     243, 14, 211, 63, 155, 236, 28, 25, 32, 228, 117, 2, 230, 187, 197, 28],
    [179, 146, 150, 73, 225, 36, 169, 139, 248, 70, 127, 213, 77, 188, 167, 221,
     120, 181, 83, 95, 208, 45, 205, 14, 155, 176, 35, 35, 32, 228, 41, 17],
    [35, 12, 113, 210, 84, 88, 150, 59, 160, 143, 203, 121, 207, 25, 220, 96,
     134, 155, 19, 132, 162, 132, 221, 233, 233, 88, 24, 2, 92, 192, 47, 38],
    [250, 162, 185, 124, 165, 29, 200, 187, 206, 167, 52, 42, 6, 240, 209, 168,
     129, 247, 90, 169, 187, 129, 200, 9, 16, 143, 113, 222, 12, 64, 93, 35],
    [77, 46, 70, 170, 56, 155, 35, 25, 87, 239, 245, 249, 9, 201, 86, 100,
     92, 209, 252, 123, 140, 49, 227, 218, 120, 237, 11, 222, 53, 222, 188, 34],
    [40, 233, 251, 97, 197, 229, 23, 206, 38, 253, 106, 16, 64, 170, 215, 127,
     112, 250, 155, 109, 139, 38, 226, 241, 117, 229, 195, 194, 119, 104, 178, 31],
    [254, 161, 121, 197, 188, 225, 199, 97, 128, 203, 57, 6, 74, 252, 222, 0,
     41, 75, 233, 228, 192, 16, 91, 12, 219, 113, 0, 154, 141, 117, 194, 2],
    [223, 245, 198, 78, 158, 129, 38, 138, 83, 169, 99, 130, 74, 119, 230, 159,
     21, 197, 180, 231, 25, 125, 185, 11, 189, 30, 119, 60, 231, 212, 234, 38]
  ]

  /** The test fixture PROOF: 256 bytes, A then B then C. */
  const PROOF: seq<Byte> := Flatten(PROOF_WORDS)

  /** The test fixture PUBLIC_INPUTS: one 32-byte big-endian input. */
  const PUBLIC_INPUTS: seq<seq<Byte>> := [seq(31, _ => 0) + [12]]

  /**
   * The test's instruction bytes are 288 long; their last 32 are the one public input, the
   * number 12 in big-endian, and verify_proof's chunking recovers exactly PUBLIC_INPUTS.
   */
  lemma FixtureLayout(data: seq<Byte>)
    requires data == PROOF + Flatten(PUBLIC_INPUTS)
    ensures |data| == 288 && data[..256] == PROOF
    ensures ChunkInstructionData(data[256..]) == PUBLIC_INPUTS
    ensures BEValue(PUBLIC_INPUTS[0]) == 12
    ensures ProcessInstruction(BorshBytes(data)) == Return(Ok(()))
  {
    FixtureFirstWord();
    ChunksOfFlatten(PUBLIC_INPUTS);
    assert data[256..] == Flatten(PUBLIC_INPUTS);
    PayloadOfBorshBytes(data);
    ZeroPrefixValue(31, 12);
  }

  lemma {:induction false} ZeroPrefixValue(n: nat, b: Byte)
    ensures BEValue(seq(n, _ => 0) + [b]) == b
  {
    var s := seq(n, _ => 0) + [b];
    assert s[..|s| - 1] == seq(n, _ => 0);
    ZeroValueBigEndian(n);
  }

  lemma {:induction false} ZeroValueBigEndian(n: nat)
    ensures BEValue(seq(n, _ => 0)) == 0
  {
    if n > 0 {
      ZeroValueBigEndian(n - 1);
      assert seq(n, _ => 0)[..n - 1] == seq(n - 1, _ => 0);
    }
  }

  lemma FixtureFirstWord()
    ensures |PROOF| == 256 && PROOF[..32] == PROOF_WORDS[0]
    ensures PROOF_WORDS[0][0] == 220 && PROOF_WORDS[0][31] == 28
  {
    var w := PROOF_WORDS;
    assert forall i :: 0 <= i < |w| ==> |w[i]| == 32;
    ChunksOfFlatten(w);
    assert w == [w[0]] + w[1..];
    FlattenCons(w[0], w[1..]);
  }

  /**
   * The fixture's A is written little-endian per coordinate: read that way its x is below p,
   * while read big-endian, as verify_proof reads it, x is at least p.
   */
  lemma FixtureXByteOrder()
    ensures LEValue(PROOF[..32]) < P <= BEValue(PROOF[..32])
  {
    FixtureFirstWord();
    var x := PROOF_WORDS[0];
    PrimeTopByte();
    BEValueLeadingByte(x);
    LEValueTopByte(x);
  }

  /** So the test's payload, handed to verify_proof, gives DecompressingG1Failed whatever the key and verifier. */
  lemma FixtureProofRejected(vk: VerifyingKey, backend: Groth16Backend)
    ensures VerifyProofOutcome(PROOF + Flatten(PUBLIC_INPUTS), vk, backend) == Return(Err(DecompressingG1Failed))
  {
    FixturePayloadPrefix();
    FixtureXByteOrder();
    VerifyProofNonCanonicalX(PROOF + Flatten(PUBLIC_INPUTS), vk, backend);
  }

  lemma FixturePayloadPrefix()
    ensures |PROOF + Flatten(PUBLIC_INPUTS)| >= 64
    ensures (PROOF + Flatten(PUBLIC_INPUTS))[..32] == PROOF[..32]
  {
    FixtureFirstWord();
    PrefixOfAppend(PROOF, Flatten(PUBLIC_INPUTS), 32);
  }
}
