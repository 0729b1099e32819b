/**
 * `verify_proof` of the Solana program: it splits the instruction payload at fixed
 * offsets (A = bytes 0..64, B = 64..192, C = 192..256, public inputs from 256 on),
 * decodes A, negates it, writes -A back in the payload's byte order, and hands
 * everything to a Groth16 verifier with the program's verifying key.  The verifier
 * (groth16-solana) is foreign: its constructor and its pairing check are parameters.
 */
module Verifier {
  import opened Results
  import opened Bytes
  import opened Endianness
  import opened Bn254

  /** The groth16-solana error codes that `verify_proof` produces or passes on. */
  datatype Groth16Error =
    | IncompatibleVerifyingKeyWithNrPublicInputs
    | ProofVerificationFailed
    | PreparingInputsG1AdditionFailed
    | PreparingInputsG1MulFailed
    | InvalidG1Length
    | InvalidG2Length
    | InvalidPublicInputsLength
    | DecompressingG1Failed
    | DecompressingG2Failed
    | PublicInputGreaterThanFieldSize

  /**
   * Groth16Verifyingkey: the number of public inputs plus one, alpha in G1, beta, gamma
   * and delta in G2, and one G1 point per public input plus one (the IC points), all in
   * the payload's big-endian byte format.
   */
  datatype VerifyingKey = VerifyingKey(
    nrPubinputs: nat,
    alphaG1: seq<Byte>,
    betaG2: seq<Byte>,
    gammaG2: seq<Byte>,
    deltaG2: seq<Byte>,
    ic: seq<seq<Byte>>)

  /** The shape of the program's VERIFYINGKEY: nr_pubinputs 2, 64-byte G1 and 128-byte G2 points, two IC points. */
  predicate ProgramKeyShape(vk: VerifyingKey)
  {
    && vk.nrPubinputs == 2
    && |vk.alphaG1| == 64 && |vk.betaG2| == 128 && |vk.gammaG2| == 128 && |vk.deltaG2| == 128
    && |vk.ic| == 2 && (forall i :: 0 <= i < |vk.ic| ==> |vk.ic[i]| == 64)
  }

  /** What `verify_proof` passes to Groth16Verifier::new. */
  datatype VerifierInputs = VerifierInputs(
    proofA: seq<Byte>,
    proofB: seq<Byte>,
    proofC: seq<Byte>,
    publicInputs: seq<seq<Byte>>)

  /**
   * The foreign verifier: whether Groth16Verifier::new accepts its arguments, and what
   * verify() then returns.
   */
  datatype Groth16Backend = Groth16Backend(
    accepts: (VerifierInputs, VerifyingKey) -> bool,
    check: (VerifierInputs, VerifyingKey) -> Result<bool, Groth16Error>)

  /** The 65-byte buffer A is decoded from: the first 64 payload bytes chunk-reversed, then a zero. */
  function ProofABuffer(a: seq<Byte>): seq<Byte>
    requires |a| == 64
  {
    ChunkReverse(a) + [0]
  }

  /** A as the program decodes it from the first 64 payload bytes. */
  function DecodeProofA(a: seq<Byte>): Option<G1Point>
    requires |a| == 64
  {
    DecodeG1Uncompressed(ProofABuffer(a))
  }

  /** The bytes of -A that the program hands on: -A's stored coordinates, little-endian, chunk-reversed. */
  function NegatedProofA(a: G1Point): seq<Byte>
  {
    ChunkReverse(EncodeG1Coordinates(Neg(a)))
  }

  /** Specification of `verify_proof`: the outcome for every payload, panics included. */
  function VerifyProofOutcome(data: seq<Byte>, vk: VerifyingKey, backend: Groth16Backend)
    : Outcome<Result<bool, Groth16Error>>
  {
    if |data| < 64 then Panic
    else match DecodeProofA(data[..64])
      case None => Return(Err(DecompressingG1Failed))
      case Some(a) =>
        if |data| < 256 then Panic
        else
          var signals := ChunkInstructionData(data[256..]);
          if |signals| != 1 then Return(Err(InvalidPublicInputsLength))
          else
            var inputs := VerifierInputs(NegatedProofA(a), data[64..192], data[192..256], signals);
            if !backend.accepts(inputs, vk) then Return(Err(ProofVerificationFailed))
            else Return(backend.check(inputs, vk))
  }

  /**
   * Fp::serialize_with_mode into buf[start..end]: the 32 little-endian bytes of v, written
   * through `Write for &mut [u8]`, which copies as many bytes as fit and then reports
   * `WriteZero`.  So it fails when the slice has fewer than 32 bytes, after filling the slice
   * with the leading bytes of the encoding.
   */
  method SerializeFq(v: nat, buf: array<Byte>, start: nat, end: nat) returns (ok: bool)
    requires start <= end <= buf.Length
    modifies buf
    ensures ok <==> end - start >= 32
    ensures ok ==> buf[..] == old(buf[..start]) + ToLittleEndian(v, 32) + old(buf[start + 32..])
    ensures !ok ==> buf[..] == old(buf[..start]) + ToLittleEndian(v, 32)[..end - start] + old(buf[end..])
  {
    var enc := ToLittleEndian(v, 32);
    var n := if end - start < 32 then end - start else 32;
    var i := 0;
    while i < n
      invariant 0 <= i <= n
      invariant forall k :: 0 <= k < start ==> buf[k] == old(buf[k])
      invariant forall k :: start <= k < start + i ==> buf[k] == enc[k - start]
      invariant forall k :: start + i <= k < buf.Length ==> buf[k] == old(buf[k])
    {
      buf[start + i] := enc[i];
      i := i + 1;
    }
    assert buf[..] == old(buf[..start]) + enc[..n] + old(buf[start + n..]);
    ok := n == 32;
  }

  /**
   * verify_proof: decode A, write -A into a zeroed 65-byte buffer, re-reverse its first
   * 64 bytes, slice B, C and the public inputs, and run the foreign verifier.
   */
  method VerifyProof(data: seq<Byte>, vk: VerifyingKey, backend: Groth16Backend)
    returns (r: Outcome<Result<bool, Groth16Error>>)
    ensures r == VerifyProofOutcome(data, vk, backend)
  {
    if |data| < 64 {
      return Panic;
    }
    var reversed := ChangeEndianness(data[..64]);
    var decoded := DecodeG1Uncompressed(reversed + [0]);
    if decoded.None? {
      return Return(Err(DecompressingG1Failed));
    }
    var negA := Neg(decoded.value);
    var proofANeg := new Byte[65](_ => 0);
    var okX := SerializeFq(StoredX(negA), proofANeg, 0, 32);
    assert okX;
    var okY := SerializeFq(StoredY(negA), proofANeg, 32, 65);
    assert okY;
    WrittenCoordinates(proofANeg[..], negA);
    var proofA := ChangeEndianness(proofANeg[..64]);
    assert |proofA| == 64;
    if |data| < 256 {
      return Panic;
    }
    var signals := ChunkInstructionData(data[256..]);
    if |signals| != 1 {
      return Return(Err(InvalidPublicInputsLength));
    }
    assert |data[64..192]| == 128 && |data[192..256]| == 64;
    var inputs := VerifierInputs(proofA, data[64..192], data[192..256], signals);
    if !backend.accepts(inputs, vk) {
      return Return(Err(ProofVerificationFailed));
    }
    return Return(backend.check(inputs, vk));
  }

  /** After both writes, the first 64 bytes of the buffer are -A's stored coordinates. */
  lemma WrittenCoordinates(buf: seq<Byte>, pt: G1Point)
    requires |buf| == 65
    requires buf == ToLittleEndian(StoredX(pt), 32) + ToLittleEndian(StoredY(pt), 32) + buf[64..]
    ensures buf[..64] == EncodeG1Coordinates(pt)
  {
  }

  /**
   * Reference reading of A in the payload's own order: x and y as 32-byte big-endian
   * numbers, the arkworks flag bits in the top two bits of y's first byte (masked off
   * before y is read), x and y below p, and the curve equation unless the infinity flag is set.
   */
  function ReadG1BigEndian(d: seq<Byte>): Option<G1Point>
    requires |d| == 64
  {
    var x := BEValue(d[..32]);
    var y := BEValue([d[32] % 64] + d[33..]);
    var flags := FlagsOf(d[32]);
    if x >= P || flags.None? || y >= P then None
    else if flags.value == PointAtInfinity then Some(Infinity)
    else if OnCurve(x, y) then Some(Affine(x, y))
    else None
  }

  /** EIP-196 style bytes of a point: stored x then stored y, each 32 bytes big-endian. */
  function EncodeG1BigEndian(pt: G1Point): (r: seq<Byte>)
    ensures |r| == 64
  {
    ToBigEndian(StoredX(pt), 32) + ToBigEndian(StoredY(pt), 32)
  }

  /**
   * Decoding the chunk-reversed payload bytes with the little-endian arkworks decoder is
   * the same as reading them as big-endian x and y with the flags in y's first byte.
   */
  lemma DecodeProofAIsBigEndian(d: seq<Byte>)
    requires |d| == 64
    ensures DecodeProofA(d) == ReadG1BigEndian(d)
  {
    ProofABufferParts(d);
  }

  lemma ProofABufferParts(d: seq<Byte>)
    requires |d| == 64
    ensures var buf := ProofABuffer(d);
      && LEValue(buf[..32]) == BEValue(d[..32])
      && buf[63] == d[32]
      && LEValue(buf[32..63] + [buf[63] % 64]) == BEValue([d[32] % 64] + d[33..])
  {
    var buf := ProofABuffer(d);
    var hx, hy := d[..32], d[32..];
    ChunkReverseHalves(d);
    assert buf[..32] == Reverse(hx);
    LEValueOfReverse(hx);
    assert hy == [d[32]] + d[33..];
    ReverseAppend([d[32]], d[33..]);
    SingletonReverse(d[32]);
    SingletonReverse(d[32] % 64);
    assert buf[32..64] == Reverse(d[33..]) + [d[32]];
    ReverseAppend([d[32] % 64], d[33..]);
    assert buf[32..63] + [buf[63] % 64] == Reverse([d[32] % 64] + d[33..]);
    LEValueOfReverse([d[32] % 64] + d[33..]);
  }

  lemma SingletonReverse(b: Byte)
    ensures Reverse([b]) == [b]
  {
    assert Reverse([b]) == [b] + Reverse<Byte>([]);
  }

  /** The bytes handed on for -A are -A in the payload's big-endian format. */
  lemma NegatedProofAIsBigEndian(a: G1Point)
    ensures NegatedProofA(a) == EncodeG1BigEndian(Neg(a))
  {
    var n := Neg(a);
    var lx, ly := ToLittleEndian(StoredX(n), 32), ToLittleEndian(StoredY(n), 32);
    ChunkReverseHalves(lx + ly);
    assert (lx + ly)[..32] == lx && (lx + ly)[32..] == ly;
    ToLittleEndianIsReversed(StoredX(n), 32);
    ToLittleEndianIsReversed(StoredY(n), 32);
    ReverseInvolution(ToBigEndian(StoredX(n), 32));
    ReverseInvolution(ToBigEndian(StoredY(n), 32));
  }

  /**
   * For a decoded affine A, the bytes handed on keep the payload's 32 x bytes and replace
   * y with the big-endian encoding of (p - y) mod p.
   */
  lemma NegatedProofAKeepsX(d: seq<Byte>, x: nat, y: nat)
    requires |d| == 64 && DecodeProofA(d) == Some(Affine(x, y))
    ensures x == BEValue(d[..32]) && y == BEValue([d[32] % 64] + d[33..])
    ensures NegatedProofA(Affine(x, y)) == d[..32] + ToBigEndian((P - y) % P, 32)
  {
    DecodeProofAIsBigEndian(d);
    NegatedProofAIsBigEndian(Affine(x, y));
    ToBigEndianOfBEValue(d[..32]);
  }

  /** A payload A carrying the infinity flag is handed on as 64 zero bytes. */
  lemma NegatedProofAInfinity(d: seq<Byte>)
    requires |d| == 64 && DecodeProofA(d) == Some(Infinity)
    ensures 64 <= d[32] < 128
    ensures NegatedProofA(Infinity) == seq(64, _ => 0)
  {
    DecodeProofAIsBigEndian(d);
    assert FlagsOf(d[32]) == Some(PointAtInfinity);
    InfinityFlagByte(d[32]);
    NegatedProofAIsBigEndian(Infinity);
    ZeroEncodingBigEndian(32);
  }

  lemma InfinityFlagByte(b: Byte)
    requires FlagsOf(b) == Some(PointAtInfinity)
    ensures 64 <= b < 128
  {
  }

  lemma {:induction false} ZeroEncodingBigEndian(len: nat)
    ensures ToBigEndian(0, len) == seq(len, _ => 0)
  {
    if len > 0 {
      ZeroEncodingBigEndian(len - 1);
    }
  }

  /** The bytes handed on for -A decode, by the same route as A, to -A. */
  lemma NegatedProofARoundTrip(a: G1Point)
    requires a.Affine? && Valid(a)
    ensures DecodeProofA(NegatedProofA(a)) == Some(Neg(a))
  {
    var e := EncodeG1Coordinates(Neg(a));
    ChunkReverseInvolution(e);
    DecodeEncodedAffine(Neg(a), [0]);
  }

  /** verify_proof panics exactly when the payload is under 64 bytes, or A decodes and it is under 256. */
  lemma VerifyProofPanics(data: seq<Byte>, vk: VerifyingKey, backend: Groth16Backend)
    ensures VerifyProofOutcome(data, vk, backend).Panic? <==>
      |data| < 64 || (|data| < 256 && DecodeProofA(data[..64]).Some?)
  {
  }

  /** An A that does not decode gives DecompressingG1Failed whatever follows it. */
  lemma VerifyProofBadA(data: seq<Byte>, vk: VerifyingKey, backend: Groth16Backend)
    requires |data| >= 64 && DecodeProofA(data[..64]).None?
    ensures VerifyProofOutcome(data, vk, backend) == Return(Err(DecompressingG1Failed))
  {
  }

  /** A payload whose first 32 bytes, read big-endian, are not below p is refused at A. */
  lemma VerifyProofNonCanonicalX(data: seq<Byte>, vk: VerifyingKey, backend: Groth16Backend)
    requires |data| >= 64 && BEValue(data[..32]) >= P
    ensures VerifyProofOutcome(data, vk, backend) == Return(Err(DecompressingG1Failed))
  {
    assert data[..64][..32] == data[..32];
    DecodeProofAIsBigEndian(data[..64]);
  }

  /**
   * With a good A and at least 256 bytes: anything but 1 to 32 trailing bytes gives
   * InvalidPublicInputsLength, and 1 to 32 trailing bytes reach the verifier as one signal,
   * zero-padded at the end, with B and C passed on unchanged and verify()'s answer returned.
   */
  lemma VerifyProofDispatch(data: seq<Byte>, vk: VerifyingKey, backend: Groth16Backend, a: G1Point)
    requires |data| >= 256 && DecodeProofA(data[..64]) == Some(a)
    ensures !(257 <= |data| <= 288) ==>
      VerifyProofOutcome(data, vk, backend) == Return(Err(InvalidPublicInputsLength))
    ensures 257 <= |data| <= 288 ==>
      var inputs := VerifierInputs(NegatedProofA(a), data[64..192], data[192..256], [PadChunk(data[256..])]);
      VerifyProofOutcome(data, vk, backend) ==
        if backend.accepts(inputs, vk) then Return(backend.check(inputs, vk))
        else Return(Err(ProofVerificationFailed))
  {
    SingleChunk(data[256..]);
  }

  /**
   * Whatever reaches the verifier has the sizes the program's key expects: a 64-byte A
   * and C, a 128-byte B, and one public input per IC point beyond the first.
   */
  lemma DispatchMatchesKey(data: seq<Byte>, vk: VerifyingKey, a: G1Point)
    requires ProgramKeyShape(vk)
    requires 257 <= |data| <= 288 && DecodeProofA(data[..64]) == Some(a)
    ensures var inputs := VerifierInputs(NegatedProofA(a), data[64..192], data[192..256], ChunkInstructionData(data[256..]));
      && |inputs.proofA| == 64 && |inputs.proofB| == 128 && |inputs.proofC| == 64
      && |inputs.publicInputs| + 1 == |vk.ic| == vk.nrPubinputs
      && |inputs.publicInputs[0]| == 32
  {
    SingleChunk(data[256..]);
    assert |ChunkInstructionData(data[256..])| == 1;
    assert |NegatedProofA(a)| == 64;
  }
}
