/**
 * The bn.js serialiser: every coordinate of a snarkjs proof as 32 little-endian bytes, in
 * the order a.x, a.y, b.x1, b.x0, b.y1, b.y0, c.x, c.y (the G2 coefficients imaginary part
 * first), and the Rust array text it prints.
 */
module De {
  import opened Results
  import opened Bytes
  import opened JsText
  import opened ProofJs

  /** 2^256: the first number that needs more than 32 bytes. */
  const WordLimit: nat := 0x1_0000_0000_0000_0000_0000_0000_0000_0000_0000_0000_0000_0000_0000_0000_0000_0000

  lemma WordLimitIsPow256()
    ensures WordLimit == Pow256(32)
  {
    Pow256Of31();
    assert Pow256(32) == 256 * Pow256(31);
  }

  /**
   * to32ByteLE: `new BN(n).toArray("le", 32)` — the 32 low-order bytes, least significant
   * first; bn.js throws when the number needs more than 32 bytes.
   */
  function To32ByteLE(n: nat): (r: Result<seq<Byte>, JsError>)
    ensures r.Ok? <==> n < WordLimit
    ensures r.Ok? ==> |r.value| == 32 && LEValue(r.value) == n
  {
    if n < WordLimit then
      WordLimitIsPow256();
      LEValueOfToLittleEndian(n, 32);
      Ok(ToLittleEndian(n, 32))
    else Err(Error("byte array longer than desired length"))
  }

  /** The little-endian encoding is the big-endian to32ByteBuffer of the other scripts, reversed. */
  lemma To32ByteLEIsReversedBuffer(n: nat)
    requires n < WordLimit
    ensures To32ByteLE(n) == Ok(Reverse(To32ByteBuffer(n)))
  {
    WordLimitIsPow256();
    To32ByteBufferIsBigEndian(n);
    ToLittleEndianIsReversed(n, 32);
  }

  /** `xs[i]` handed to `new BN`: a missing entry is `undefined`, which bn.js reads as 0. */
  function Entry(xs: seq<nat>, i: nat): nat
  {
    if i < |xs| then xs[i] else 0
  }

  /** `pi_b[row][i]`: reading a coefficient of a missing row throws a TypeError. */
  function Coefficient(piB: seq<seq<nat>>, row: nat, i: nat): Result<nat, JsError>
  {
    if row < |piB| then Ok(Entry(piB[row], i)) else Err(TypeError)
  }

  /** The eight array elements of serializeProofAndPublicInputs, in the order they are evaluated. */
  function Slots(proof: SnarkProof): (r: seq<Result<nat, JsError>>)
    ensures |r| == 8
  {
    [ Ok(Entry(proof.piA, 0)), Ok(Entry(proof.piA, 1)),
      Coefficient(proof.piB, 0, 1), Coefficient(proof.piB, 0, 0),
      Coefficient(proof.piB, 1, 1), Coefficient(proof.piB, 1, 0),
      Ok(Entry(proof.piC, 0)), Ok(Entry(proof.piC, 1)) ]
  }

  /** A slot that yields 32 bytes: its access succeeds and its value fits. */
  predicate Fits(slot: Result<nat, JsError>)
  {
    slot.Ok? && slot.value < WordLimit
  }

  /**
   * The array literal under Buffer.concat: elements are evaluated left to right and the
   * first one that throws ends the evaluation; otherwise the 32-byte pieces are joined.
   */
  function EncodeSlots(slots: seq<Result<nat, JsError>>): (r: Result<seq<Byte>, JsError>)
    ensures r.Ok? <==> forall i :: 0 <= i < |slots| ==> Fits(slots[i])
    ensures r.Ok? ==> |r.value| == 32 * |slots|
    ensures r.Ok? ==> forall i :: 0 <= i < |slots| ==>
      LEValue(r.value[32 * i..32 * i + 32]) == slots[i].value
  {
    if slots == [] then Ok([])
    else if slots[0].Err? then Err(slots[0].error)
    else
      match To32ByteLE(slots[0].value)
      case Err(e) => Err(e)
      case Ok(first) =>
        match EncodeSlots(slots[1..])
        case Err(e) => Err(e)
        case Ok(rest) =>
          var r := first + rest;
          assert forall i :: 0 < i < |slots| ==> r[32 * i..32 * i + 32] == rest[32 * (i - 1)..32 * (i - 1) + 32];
          assert r[..32] == first;
          Ok(r)
  }

  /**
   * serializeProofAndPublicInputs: the eight coordinates as 32 little-endian bytes each;
   * the public inputs are not read.
   */
  function SerializeProofAndPublicInputs(proof: SnarkProof, publicInputs: seq<nat>): (r: Result<seq<Byte>, JsError>)
    ensures r.Ok? <==> forall i :: 0 <= i < 8 ==> Fits(Slots(proof)[i])
    ensures r.Ok? ==> |r.value| == 256
  {
    EncodeSlots(Slots(proof))
  }

  /** The output does not depend on the public inputs. */
  lemma SerializeIgnoresPublicInputs(proof: SnarkProof, publicInputs: seq<nat>, others: seq<nat>)
    ensures SerializeProofAndPublicInputs(proof, publicInputs) == SerializeProofAndPublicInputs(proof, others)
  {
  }

  /**
   * The 256-byte layout: A as given (not negated), then B with the imaginary coefficient of
   * each Fp2 coordinate before the real one, then C.
   */
  lemma SerializedLayout(proof: SnarkProof, publicInputs: seq<nat>)
    requires SerializeProofAndPublicInputs(proof, publicInputs).Ok?
    ensures var out := SerializeProofAndPublicInputs(proof, publicInputs).value;
      && |proof.piB| >= 2
      && LEValue(out[0..32]) == Entry(proof.piA, 0)
      && LEValue(out[32..64]) == Entry(proof.piA, 1)
      && LEValue(out[64..96]) == Entry(proof.piB[0], 1)
      && LEValue(out[96..128]) == Entry(proof.piB[0], 0)
      && LEValue(out[128..160]) == Entry(proof.piB[1], 1)
      && LEValue(out[160..192]) == Entry(proof.piB[1], 0)
      && LEValue(out[192..224]) == Entry(proof.piC, 0)
      && LEValue(out[224..256]) == Entry(proof.piC, 1)
  {
    var slots := Slots(proof);
    var out := EncodeSlots(slots).value;
    assert Fits(slots[2]) && Fits(slots[4]);
    assert LEValue(out[32 * 0..32 * 0 + 32]) == slots[0].value;
    assert LEValue(out[32 * 1..32 * 1 + 32]) == slots[1].value;
    assert LEValue(out[32 * 2..32 * 2 + 32]) == slots[2].value;
    assert LEValue(out[32 * 3..32 * 3 + 32]) == slots[3].value;
    assert LEValue(out[32 * 4..32 * 4 + 32]) == slots[4].value;
    assert LEValue(out[32 * 5..32 * 5 + 32]) == slots[5].value;
    assert LEValue(out[32 * 6..32 * 6 + 32]) == slots[6].value;
    assert LEValue(out[32 * 7..32 * 7 + 32]) == slots[7].value;
  }

  /** The error a failing element throws: its own, or bn.js's length error. */
  function SlotError(slot: Result<nat, JsError>): JsError
  {
    if slot.Err? then slot.error else Error("byte array longer than desired length")
  }

  /** The first element that fails decides what is thrown. */
  lemma {:induction false} FirstFailureThrows(slots: seq<Result<nat, JsError>>, k: nat)
    requires k < |slots| && !Fits(slots[k])
    requires forall i :: 0 <= i < k ==> Fits(slots[i])
    ensures EncodeSlots(slots) == Err(SlotError(slots[k]))
  {
    if k > 0 {
      assert Fits(slots[0]);
      FirstFailureThrows(slots[1..], k - 1);
    }
  }

  /** So a proof without a second pi_b row throws a TypeError unless an earlier coordinate is too large. */
  lemma MissingRowThrows(proof: SnarkProof, publicInputs: seq<nat>)
    requires |proof.piB| < 2 && Entry(proof.piA, 0) < WordLimit && Entry(proof.piA, 1) < WordLimit
    requires |proof.piB| == 1 ==> Entry(proof.piB[0], 1) < WordLimit && Entry(proof.piB[0], 0) < WordLimit
    ensures SerializeProofAndPublicInputs(proof, publicInputs) == Err(TypeError)
  {
    var slots := Slots(proof);
    if |proof.piB| == 0 {
      FirstFailureThrows(slots, 2);
    } else {
      FirstFailureThrows(slots, 4);
    }
  }

  /** What formatRustArray prints before the length, between the length and the bytes, and after them. */
  const ArrayHead := "pub const PROOF: [u8; "
  const ArrayOpen := "] = [" + "\n    "
  const ArrayClose := "\n];"

  /** formatRustArray: a Rust byte-array constant with the buffer's length and its bytes joined by ", ". */
  function FormatRustArray(buffer: seq<Byte>): string
  {
    ArrayHead + Decimal(|buffer|) + ArrayOpen + Join(buffer, ", ") + ArrayClose
  }

  /** A reader of that text: the declared length and the bytes. */
  function ReadRustArray(text: string): Option<(nat, seq<nat>)>
  {
    if !StartsWith(text, ArrayHead) then None
    else
      var afterHead := text[|ArrayHead|..];
      var digits := LeadingDigits(afterHead);
      var rest := afterHead[|digits|..];
      if digits == [] || !StartsWith(rest, ArrayOpen) then None
      else
        var (bytes, tail) := ParseList(rest[|ArrayOpen|..], ", ");
        if tail == ArrayClose then Some((DigitsValue(digits), bytes)) else None
  }

  /** The printed array reads back as its length and its bytes, and the length is the byte count. */
  lemma FormatRustArrayReadsBack(buffer: seq<Byte>)
    ensures ReadRustArray(FormatRustArray(buffer)) == Some((|buffer|, buffer))
  {
    var n := Decimal(|buffer|);
    var body := Join(buffer, ", ");
    var rest := ArrayOpen + (body + ArrayClose);
    assert FormatRustArray(buffer) == ArrayHead + (n + rest);
    AfterPrefix(ArrayHead, n + rest);
    FirstOfAppend("] = [", "\n    " + (body + ArrayClose));
    LeadingDigitsOfDigits(n, rest);
    AfterPrefix(n, rest);
    AfterPrefix(ArrayOpen, body + ArrayClose);
    FirstOfAppend("\n", "];");
    ParseJoin(buffer, ", ", ArrayClose);
  }
}
