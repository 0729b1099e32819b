/**
 * The script that writes the Rust test fixture: `proofData` concatenates pi_a, pi_b, pi_c
 * and the public signal into one flat byte list, and `generateRustProof` splits that list
 * at 256 and prints the two parts as Rust constants.  The helpers this script shares with
 * the other one (to32ByteBuffer, reverseEndianness, g1/g2Uncompressed,
 * negateAndSerializeG1) are the same code and are modelled once, in `ProofJs`.
 */
module ProofToRustJs {
  import opened Results
  import opened Bytes
  import opened Endianness
  import opened Bn254
  import opened Verifier
  import opened JsText
  import opened ProofJs

  /** The byte list proofData returns for one signal value: -A, B, C and the 32-byte signal. */
  function FlatPayload(curve: Bn128, proof: SnarkProof, signal: nat): seq<Byte>
  {
    ProofABytes(curve, proof.piA)
    + curve.g2ToRprUncompressed(curve.g2FromObject(proof.piB))
    + curve.g1ToRprUncompressed(curve.g1FromObject(proof.piC))
    + To32ByteBuffer(signal)
  }

  /** proofData: the four serialised parts, concatenated into one byte list. */
  method ProofDataFlat(curve: Bn128, proof: SnarkProof, publicSignals: seq<nat>)
    returns (r: Result<seq<Byte>, JsError>)
    requires RprWidths(curve)
    ensures r.Err? <==> |publicSignals| >= 2
    ensures r.Err? ==> r.error == SyntaxError
    ensures r.Ok? ==> r.value == FlatPayload(curve, proof, BigIntOfArray(publicSignals).value)
  {
    var parts := ProofData(curve, proof, publicSignals);
    if parts.Err? {
      return Err(parts.error);
    }
    var p := parts.value;
    return Ok(p[0] + p[1] + p[2] + p[3]);
  }

  /**
   * With one signal below 2^256 the flat list is 288 bytes: pi_a at 0..64, pi_b at
   * 64..192, pi_c at 192..256 and the big-endian signal at 256..288.
   */
  lemma ProofDataFlatLayout(curve: Bn128, proof: SnarkProof, signal: nat)
    requires RprWidths(curve) && signal < Pow256(32)
    ensures var a, b, c, s := ProofABytes(curve, proof.piA),
        curve.g2ToRprUncompressed(curve.g2FromObject(proof.piB)),
        curve.g1ToRprUncompressed(curve.g1FromObject(proof.piC)),
        To32ByteBuffer(signal);
      var data := a + b + c + s;
      && |data| == 288
      && data[..64] == a && data[64..192] == b && data[192..256] == c && data[256..] == s
      && BEValue(data[256..]) == signal
  {
    ProofDataWidths(curve, proof, signal);
    var a, b, c, s := ProofABytes(curve, proof.piA),
      curve.g2ToRprUncompressed(curve.g2FromObject(proof.piB)),
      curve.g1ToRprUncompressed(curve.g1FromObject(proof.piC)),
      To32ByteBuffer(signal);
    FourParts(a, b, c, s);
  }

  /** Where four parts of widths 64, 128, 64 and 32 sit in their concatenation. */
  lemma FourParts(a: seq<Byte>, b: seq<Byte>, c: seq<Byte>, s: seq<Byte>)
    requires |a| == 64 && |b| == 128 && |c| == 64 && |s| == 32
    ensures var data := a + b + c + s;
      && |data| == 288
      && data[..64] == a && data[64..192] == b && data[192..256] == c && data[256..] == s
  {
    var data := a + b + c + s;
    assert data[..64] == a;
    assert data[64..192] == b;
    assert data[192..256] == c;
    assert data[256..] == s;
  }

  /**
   * Such a payload, handed to `verify_proof`, reaches the verifier with the negated A,
   * pi_b and pi_c unchanged and the signal as the one public input.
   */
  lemma PayloadReachesVerifier(a: seq<Byte>, b: seq<Byte>, c: seq<Byte>, s: seq<Byte>,
                               vk: VerifyingKey, backend: Groth16Backend, pt: G1Point)
    requires |a| == 64 && |b| == 128 && |c| == 64 && |s| == 32
    requires DecodeProofA(a) == Some(pt)
    ensures var inputs := VerifierInputs(NegatedProofA(pt), b, c, [s]);
      VerifyProofOutcome(a + b + c + s, vk, backend) ==
        if backend.accepts(inputs, vk) then Return(backend.check(inputs, vk))
        else Return(Err(ProofVerificationFailed))
  {
    FourParts(a, b, c, s);
    var data := a + b + c + s;
    VerifyProofDispatch(data, vk, backend, pt);
    assert PadChunk(s) == s;
  }

  /** `data.slice(0, end)`: JavaScript clamps the end to the length. */
  function SliceTo(data: seq<nat>, end: nat): (r: seq<nat>)
    ensures |r| == if end <= |data| then end else |data|
  {
    if end <= |data| then data[..end] else data
  }

  /** `data.slice(start)`: empty when start is past the end. */
  function SliceFrom(data: seq<nat>, start: nat): (r: seq<nat>)
    ensures |r| == if start <= |data| then |data| - start else 0
  {
    if start <= |data| then data[start..] else []
  }

  /** The two slices put back together are the data, whatever its length. */
  lemma SlicesCover(data: seq<nat>, at: nat)
    ensures SliceTo(data, at) + SliceFrom(data, at) == data
    ensures |data| == 288 && at == 256 ==> |SliceTo(data, at)| == 256 && |SliceFrom(data, at)| == 32
  {
    if at <= |data| {
      assert data[..at] + data[at..] == data;
    }
  }

  const ProofHead := "pub const PROOF: [u8; 256] = ["
  const SignalsHead := "];" + "\n\npub const PUBLIC_SIGNALS: [[u8; 32]; 1] = [["
  const SignalsTail := "]];\n"

  /** The Rust source generateRustProof writes; an array in a template string is its elements joined by commas. */
  function RustProofText(data: seq<nat>): string
  {
    ProofHead + Join(SliceTo(data, 256), ",") + SignalsHead + Join(SliceFrom(data, 256), ",") + SignalsTail
  }

  /** A command-line argument is given when it is present and not the empty string. */
  predicate ArgGiven(arg: Option<string>)
  {
    arg.Some? && arg.value != ""
  }

  /**
   * generateRustProof: both input paths must be given; then proofData runs on the two
   * files' contents, and any error it throws (a SyntaxError for two or more public signals)
   * propagates; otherwise the text is the Rust source for the payload it produced.
   */
  method GenerateRustProof(inputPath1: Option<string>, inputPath2: Option<string>,
                           curve: Bn128, proof: SnarkProof, publicSignals: seq<nat>)
    returns (r: Result<string, JsError>)
    requires RprWidths(curve)
    ensures r.Err? <==> !ArgGiven(inputPath1) || !ArgGiven(inputPath2) || |publicSignals| >= 2
    ensures r.Err? && ArgGiven(inputPath1) && ArgGiven(inputPath2) ==> r.error == SyntaxError
    ensures r.Ok? ==> var data := FlatPayload(curve, proof, BigIntOfArray(publicSignals).value);
      && r.value == RustProofText(data)
      && ReadRustProof(r.value) == Some((SliceTo(data, 256), SliceFrom(data, 256)))
  {
    if !ArgGiven(inputPath1) || !ArgGiven(inputPath2) {
      return Err(Error("Input path not specified"));
    }
    var data := ProofDataFlat(curve, proof, publicSignals);
    if data.Err? {
      return Err(data.error);
    }
    RustProofTextReadsBack(data.value);
    return Ok(RustProofText(data.value));
  }

  /** A reader of the generated text: the two byte lists, or None if the text is not of that form. */
  function ReadRustProof(text: string): Option<(seq<nat>, seq<nat>)>
  {
    if !StartsWith(text, ProofHead) then None
    else
      var (proof, rest) := ParseList(text[|ProofHead|..], ",");
      if !StartsWith(rest, SignalsHead) then None
      else
        var (signals, rest2) := ParseList(rest[|SignalsHead|..], ",");
        if rest2 == SignalsTail then Some((proof, signals)) else None
  }

  /** The generated text reads back as the proof bytes and the signal bytes. */
  lemma RustProofTextReadsBack(data: seq<nat>)
    ensures ReadRustProof(RustProofText(data)) == Some((SliceTo(data, 256), SliceFrom(data, 256)))
  {
    var proof, signals := SliceTo(data, 256), SliceFrom(data, 256);
    var j1, j2 := Join(proof, ","), Join(signals, ",");
    var rest := SignalsHead + (j2 + SignalsTail);
    assert RustProofText(data) == ProofHead + (j1 + rest);
    AfterPrefix(ProofHead, j1 + rest);
    FirstOfAppend("];", "\n\npub const PUBLIC_SIGNALS: [[u8; 32]; 1] = [[" + (j2 + SignalsTail));
    assert rest[0] == ']';
    ParseJoin(proof, ",", rest);
    AfterPrefix(SignalsHead, j2 + SignalsTail);
    ParseJoin(signals, ",", SignalsTail);
  }
}
