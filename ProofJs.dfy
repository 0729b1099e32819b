/**
 * The Node script that builds a payload with ffjavascript: `to32ByteBuffer` (hex
 * text, padded, decoded back to bytes), `reverseEndianness` (in-place reversal of a
 * Buffer), `g1Uncompressed`/`g2Uncompressed` and `negateAndSerializeG1` (ffjavascript
 * serialisation into fresh Uint8Arrays), and `proofData`, which returns the four
 * arrays pi_a, pi_b, pi_c and the public signal.  The curve library is foreign: its
 * conversions are fields of a `Bn128` value; negation is `Bn254.Neg`.
 */
module ProofJs {
  import opened Results
  import opened Bytes
  import opened Endianness
  import opened Bn254
  import opened JsText

  /** What a JavaScript call throws. */
  datatype JsError = Error(message: string) | TypeError | SyntaxError

  // ---------------------------------------------------------------------------------
  // to32ByteBuffer: bigInt.toString(16).padStart(64, '0'), then Buffer.from(hex, "hex")
  // ---------------------------------------------------------------------------------

  predicate IsHexDigit(c: char)
  {
    ('0' <= c <= '9') || ('a' <= c <= 'f')
  }

  function HexChar(d: nat): (c: char)
    requires d < 16
    ensures IsHexDigit(c)
  {
    if d < 10 then (('0' as int) + d) as char else (('a' as int) + d - 10) as char
  }

  function HexValue(c: char): (d: nat)
    requires IsHexDigit(c)
    ensures d < 16
  {
    if c <= '9' then (c as int) - ('0' as int) else (c as int) - ('a' as int) + 10
  }

  /** `n.toString(16)`: lower-case hex digits without leading zeros ("0" for zero). */
  function HexString(n: nat): (s: string)
    ensures s != []
    decreases n
  {
    if n < 16 then [HexChar(n)] else HexString(n / 16) + [HexChar(n % 16)]
  }

  /** `s.padStart(width, '0')`. */
  function PadStart(s: string, width: nat): (r: string)
    ensures |r| == if |s| >= width then |s| else width
  {
    if |s| >= width then s else seq(width - |s|, _ => '0') + s
  }

  /**
   * `Buffer.from(s, "hex")`: one byte per pair of hex digits from the front, stopping at
   * the first pair that is not hex; an odd last digit is dropped.
   */
  function HexDecode(s: string): (r: seq<Byte>)
    ensures |r| <= |s| / 2
  {
    if |s| < 2 || !IsHexDigit(s[0]) || !IsHexDigit(s[1]) then []
    else [16 * HexValue(s[0]) + HexValue(s[1])] + HexDecode(s[2..])
  }

  /** to32ByteBuffer. */
  function To32ByteBuffer(n: nat): seq<Byte>
  {
    HexDecode(PadStart(HexString(n), 64))
  }

  /** The k low-order hex digits of n, most significant first. */
  function HexFixed(n: nat, k: nat): (s: string)
    ensures |s| == k && forall i :: 0 <= i < k ==> IsHexDigit(s[i])
  {
    if k == 0 then [] else HexFixed(n / 16, k - 1) + [HexChar(n % 16)]
  }

  function Pow16(k: nat): (r: nat)
    ensures r > 0
  {
    if k == 0 then 1 else 16 * Pow16(k - 1)
  }

  /** For 0 <= n < 2^256, to32ByteBuffer(n) is n as 32 big-endian bytes, zero-padded on the left. */
  lemma To32ByteBufferIsBigEndian(n: nat)
    requires n < Pow256(32)
    ensures To32ByteBuffer(n) == ToBigEndian(n, 32)
    ensures |To32ByteBuffer(n)| == 32 && BEValue(To32ByteBuffer(n)) == n
  {
    Pow16IsPow256(32);
    PadHexString(n, 64);
    HexDecodeFixed(n, 32);
    BEValueOfToBigEndian(n, 32);
  }

  lemma {:induction false} Pow16IsPow256(len: nat)
    ensures Pow16(2 * len) == Pow256(len)
  {
    if len > 0 {
      Pow16IsPow256(len - 1);
      assert Pow16(2 * len) == 16 * (16 * Pow16(2 * (len - 1)));
    }
  }

  lemma {:induction false} HexFixedZero(k: nat)
    ensures HexFixed(0, k) == seq(k, _ => '0')
  {
    if k > 0 {
      HexFixedZero(k - 1);
    }
  }

  /** The hex rendering fits in k digits when n < 16^k. */
  lemma {:induction false} HexStringLength(n: nat, k: nat)
    requires n < Pow16(k)
    ensures |HexString(n)| <= k || (n == 0 && k == 0)
    decreases n
  {
    if n >= 16 {
      HexStringLength(n / 16, k - 1);
    }
  }

  /** Padding the hex rendering of n < 16^k to k digits gives the k low-order digits. */
  lemma {:induction false} PadHexString(n: nat, k: nat)
    requires 1 <= k && n < Pow16(k)
    ensures PadStart(HexString(n), k) == HexFixed(n, k)
    decreases n
  {
    if n < 16 {
      HexFixedZero(k - 1);
      assert HexFixed(n, k) == HexFixed(0, k - 1) + [HexChar(n)];
    } else {
      var hi := HexString(n / 16);
      assert k >= 2 by {
        if k == 1 {
          assert false;
        }
      }
      PadHexString(n / 16, k - 1);
      HexStringLength(n / 16, k - 1);
      assert HexString(n) == hi + [HexChar(n % 16)];
      if |hi| < k - 1 {
        assert PadStart(HexString(n), k) == seq(k - 1 - |hi|, _ => '0') + hi + [HexChar(n % 16)];
      }
    }
  }

  /** Decoding 2·len low-order hex digits gives the len low-order bytes. */
  lemma {:induction false} HexDecodeFixed(n: nat, len: nat)
    ensures HexDecode(HexFixed(n, 2 * len)) == ToBigEndian(n, len)
  {
    if len > 0 {
      var hi := HexFixed(n / 256, 2 * (len - 1));
      var pair := [HexChar((n / 16) % 16), HexChar(n % 16)];
      HexFixedStep(n, 2 * len);
      HexDecodeFixed(n / 256, len - 1);
      HexDecodeAppend(hi, pair);
      PairValue(n);
      assert HexDecode(pair) == [n % 256] + HexDecode([]);
    }
  }

  lemma HexFixedStep(n: nat, k: nat)
    requires k >= 2
    ensures HexFixed(n, k) == HexFixed(n / 256, k - 2) + [HexChar((n / 16) % 16), HexChar(n % 16)]
  {
    var m: nat := n / 16;
    HexFixedUnfold(n, k);
    HexFixedUnfold(m, k - 1);
    DivTwice(n);
  }

  lemma HexFixedUnfold(n: nat, k: nat)
    requires k > 0
    ensures HexFixed(n, k) == HexFixed(n / 16, k - 1) + [HexChar(n % 16)]
  {
  }

  lemma DivTwice(n: nat)
    ensures n / 16 / 16 == n / 256
  {
    var q, r := n / 256, n % 256;
    assert n == 16 * (16 * q + r / 16) + r % 16;
  }

  lemma PairValue(n: nat)
    ensures 16 * HexValue(HexChar((n / 16) % 16)) + HexValue(HexChar(n % 16)) == n % 256
  {
    HexRoundTrip((n / 16) % 16);
    HexRoundTrip(n % 16);
    DigitPair(n);
  }

  /** The two low hex digits of n make up its low byte. */
  lemma DigitPair(n: nat)
    ensures 16 * ((n / 16) % 16) + n % 16 == n % 256
  {
    var q, r := n / 256, n % 256;
    var a, b := r / 16, r % 16;
    assert n == 16 * (16 * q + a) + b;
    assert n / 16 == 16 * q + a;
    assert n % 16 == b;
  }

  lemma HexRoundTrip(d: nat)
    requires d < 16
    ensures HexValue(HexChar(d)) == d
  {
  }

  lemma {:induction false} HexDecodeAppend(a: string, b: string)
    requires |a| % 2 == 0 && forall i :: 0 <= i < |a| ==> IsHexDigit(a[i])
    ensures HexDecode(a + b) == HexDecode(a) + HexDecode(b)
  {
    if a == [] {
      assert a + b == b;
    } else {
      assert (a + b)[2..] == a[2..] + b;
      HexDecodeAppend(a[2..], b);
    }
  }

  // ---------------------------------------------------------------------------------
  // reverseEndianness: Buffer.from(buffer.reverse())
  // ---------------------------------------------------------------------------------

  /**
   * reverseEndianness: `buffer.reverse()` reverses the caller's buffer in place, and
   * `Buffer.from` returns a fresh copy of the reversed contents.
   */
  method ReverseEndianness(buffer: array<Byte>) returns (copy: array<Byte>)
    modifies buffer
    ensures buffer[..] == Reverse(old(buffer[..]))
    ensures fresh(copy) && copy[..] == buffer[..]
  {
    var n := buffer.Length;
    var i := 0;
    while i < n / 2
      invariant 0 <= i <= n / 2
      invariant forall k :: 0 <= k < i ==> buffer[k] == old(buffer[n - 1 - k])
      invariant forall k :: n - i <= k < n ==> buffer[k] == old(buffer[n - 1 - k])
      invariant forall k :: i <= k < n - i ==> buffer[k] == old(buffer[k])
    {
      buffer[i], buffer[n - 1 - i] := buffer[n - 1 - i], buffer[i];
      i := i + 1;
    }
    ghost var before := old(buffer[..]);
    forall k | 0 <= k < n
      ensures buffer[..][k] == Reverse(before)[k]
    {
      ReverseAt(before, k);
    }
    copy := new Byte[n](k requires 0 <= k < n reads buffer => buffer[k]);
  }

  /**
   * On 64 bytes, reversing the whole buffer is chunk-wise reversal followed by swapping the
   * two halves: the y coordinate comes first.
   */
  lemma WholeReversalSwapsHalves(s: seq<Byte>)
    requires |s| == 64
    ensures Reverse(s) == ChunkReverse(s)[32..] + ChunkReverse(s)[..32]
  {
    ChunkReverseHalves(s);
    assert s == s[..32] + s[32..];
    ReverseAppend(s[..32], s[32..]);
  }

  /** So it is not the Rust program's change_endianness: a buffer on which the two differ. */
  lemma WholeReversalIsNotChunkReversal()
    ensures var s := [1] + seq(63, _ => 0);
      |s| == 64 && Reverse(s) != ChunkReverse(s)
  {
    var s: seq<Byte> := [1] + seq(63, _ => 0);
    ReverseAt(s, 63);
    ChunkReverseAt(s, 0, 31);
    assert Reverse(s)[63] == 1 && ChunkReverse(s)[63] == 0 by {
      ChunkReverseAt(s, 1, 31);
    }
  }

  // ---------------------------------------------------------------------------------
  // The input guard of negateAndSerializeG1
  // ---------------------------------------------------------------------------------

  /** The JavaScript values the guard can be handed. A Node Buffer is a Uint8Array subclass. */
  datatype JsValue =
    | Undefined
    | Null
    | Boolean(b: bool)
    | Number(n: int)
    | Str(s: string)
    | Uint8Array(bytes: seq<Byte>)
    | NodeBuffer(bytes: seq<Byte>)
    | PlainObject

  /** JavaScript truthiness. */
  predicate Truthy(v: JsValue)
  {
    match v
    case Undefined => false
    case Null => false
    case Boolean(b) => b
    case Number(n) => n != 0
    case Str(s) => s != ""
    case _ => true
  }

  predicate InstanceOfUint8Array(v: JsValue)
  {
    v.Uint8Array? || v.NodeBuffer?
  }

  predicate IsBuffer(v: JsValue)
  {
    v.NodeBuffer?
  }

  /** `!v || !(v instanceof Uint8Array || Buffer.isBuffer(v))`. */
  predicate GuardRejects(v: JsValue)
  {
    !Truthy(v) || !(InstanceOfUint8Array(v) || IsBuffer(v))
  }

  /** The guard throws exactly for values that are not byte arrays; an empty one passes. */
  lemma GuardRejectsNonBytes(v: JsValue)
    ensures GuardRejects(v) <==> !(v.Uint8Array? || v.NodeBuffer?)
  {
  }

  // ---------------------------------------------------------------------------------
  // ffjavascript, and the serialisers built on it
  // ---------------------------------------------------------------------------------

  /** A G2 point as ffjavascript holds it: two Fp2 coordinates, or the point at infinity. */
  datatype G2Point = G2Infinity | G2Affine(x0: nat, x1: nat, y0: nat, y1: nat)

  /**
   * The ffjavascript curve object: conversion from snarkjs JSON coordinates, and the
   * uncompressed byte representations (reading from offset 0; `toAffine` is folded into
   * `g1FromRprUncompressed`).
   */
  datatype Bn128 = Bn128(
    g1FromObject: seq<nat> -> G1Point,
    g1FromRprUncompressed: seq<Byte> -> G1Point,
    g1ToRprUncompressed: G1Point -> seq<Byte>,
    g2FromObject: seq<seq<nat>> -> G2Point,
    g2ToRprUncompressed: G2Point -> seq<Byte>)

  /** ffjavascript writes 64 bytes for a G1 point and 128 for a G2 point. */
  ghost predicate RprWidths(curve: Bn128)
  {
    && (forall p :: |curve.g1ToRprUncompressed(p)| == 64)
    && (forall q :: |curve.g2ToRprUncompressed(q)| == 128)
  }

  /** toRprUncompressed(buff, offset, p): copy the representation into buff from offset on. */
  method WriteAt(buff: array<Byte>, offset: nat, bytes: seq<Byte>)
    requires offset + |bytes| <= buff.Length
    modifies buff
    ensures buff[..] == old(buff[..offset]) + bytes + old(buff[offset + |bytes|..])
  {
    var i := 0;
    while i < |bytes|
      invariant 0 <= i <= |bytes|
      invariant forall k :: 0 <= k < offset ==> buff[k] == old(buff[k])
      invariant forall k :: offset <= k < offset + i ==> buff[k] == bytes[k - offset]
      invariant forall k :: offset + i <= k < buff.Length ==> buff[k] == old(buff[k])
    {
      buff[offset + i] := bytes[i];
      i := i + 1;
    }
    assert buff[..] == old(buff[..offset]) + bytes + old(buff[offset + |bytes|..]);
  }

  /** g1Uncompressed: the point's 64-byte representation, copied into a fresh Buffer. */
  method G1Uncompressed(curve: Bn128, raw: seq<nat>) returns (r: seq<Byte>)
    requires RprWidths(curve)
    ensures r == curve.g1ToRprUncompressed(curve.g1FromObject(raw)) && |r| == 64
  {
    var p1 := curve.g1FromObject(raw);
    var buff := new Byte[64](_ => 0);
    WriteAt(buff, 0, curve.g1ToRprUncompressed(p1));
    r := buff[..];
  }

  /** g2Uncompressed: the point's 128-byte representation, copied into a fresh Buffer. */
  method G2Uncompressed(curve: Bn128, raw: seq<seq<nat>>) returns (r: seq<Byte>)
    requires RprWidths(curve)
    ensures r == curve.g2ToRprUncompressed(curve.g2FromObject(raw)) && |r| == 128
  {
    var p2 := curve.g2FromObject(raw);
    var buff := new Byte[128](_ => 0);
    WriteAt(buff, 0, curve.g2ToRprUncompressed(p2));
    r := buff[..];
  }

  /** The representation of the negation of the point `bytes` represent. */
  function NegatedRpr(curve: Bn128, bytes: seq<Byte>): seq<Byte>
  {
    curve.g1ToRprUncompressed(Neg(curve.g1FromRprUncompressed(bytes)))
  }

  /** What negateAndSerializeG1 returns for byte input: the negated point's representation, reversed. */
  function NegatedG1Bytes(curve: Bn128, bytes: seq<Byte>): seq<Byte>
  {
    Reverse(NegatedRpr(curve, bytes))
  }

  /**
   * negateG1 (defined, never called): the negated point's 64-byte representation, without
   * the reversal negateAndSerializeG1 adds and without its input guard.
   */
  method NegateG1(curve: Bn128, buffer: seq<Byte>) returns (r: seq<Byte>)
    requires RprWidths(curve)
    ensures r == NegatedRpr(curve, buffer) && |r| == 64
    ensures Reverse(r) == NegatedG1Bytes(curve, buffer)
  {
    var p1 := curve.g1FromRprUncompressed(buffer);
    var negatedP1 := Neg(p1);
    var negatedBuffer := new Byte[64](_ => 0);
    WriteAt(negatedBuffer, 0, curve.g1ToRprUncompressed(negatedP1));
    r := negatedBuffer[..];
  }

  /**
   * negateAndSerializeG1: refuse anything but a byte array, read the point, negate it,
   * write it into a fresh 64-byte array and reverse that array.
   */
  method NegateAndSerializeG1(curve: Bn128, input: JsValue) returns (r: Result<seq<Byte>, JsError>)
    requires RprWidths(curve)
    ensures r.Err? <==> !(input.Uint8Array? || input.NodeBuffer?)
    ensures r.Ok? ==> r.value == NegatedG1Bytes(curve, input.bytes) && |r.value| == 64
  {
    GuardRejectsNonBytes(input);
    if GuardRejects(input) {
      return Err(Error("Invalid input to negateAndSerializeG1"));
    }
    var p1 := curve.g1FromRprUncompressed(input.bytes);
    var negated := Neg(p1);
    var serialized := new Byte[64](_ => 0);
    WriteAt(serialized, 0, curve.g1ToRprUncompressed(negated));
    assert serialized[..] == curve.g1ToRprUncompressed(negated);
    var proofA := ReverseEndianness(serialized);
    return Ok(proofA[..]);
  }

  // ---------------------------------------------------------------------------------
  // proofData
  // ---------------------------------------------------------------------------------

  /** A snarkjs proof after unstringifyBigInts: pi_a and pi_c are G1 JSON points, pi_b a G2 one. */
  datatype SnarkProof = SnarkProof(piA: seq<nat>, piB: seq<seq<nat>>, piC: seq<nat>)

  /**
   * `BigInt(s)` for the strings that arise here: the empty string is 0, a string of
   * decimal digits its value, anything else a SyntaxError.
   */
  function BigIntOfString(s: string): Result<nat, JsError>
  {
    if s == "" then Ok(0)
    else if AllDigits(s) then Ok(DigitsValue(s))
    else Err(SyntaxError)
  }

  /**
   * `BigInt(publicSignals)` on an array of numbers: the array becomes the text of its
   * elements joined by commas, and that text is parsed.
   */
  function BigIntOfArray(signals: seq<nat>): Result<nat, JsError>
  {
    BigIntOfString(Join(signals, ","))
  }

  /** So the conversion accepts no signal (giving 0) or exactly one, and throws on two or more. */
  lemma BigIntOfArrayCases(signals: seq<nat>)
    ensures |signals| == 0 ==> BigIntOfArray(signals) == Ok(0)
    ensures |signals| == 1 ==> BigIntOfArray(signals) == Ok(signals[0])
    ensures |signals| >= 2 ==> BigIntOfArray(signals) == Err(SyntaxError)
  {
    if |signals| >= 2 {
      var d := Decimal(signals[0]);
      var s := Join(signals, ",");
      assert s == d + "," + Join(signals[1..], ",");
      assert s[|d|] == ',';
      assert !IsDigit(s[|d|]);
    }
  }

  /** The pi_a bytes proofData produces: serialise, reverse, then negate-and-serialise. */
  function ProofABytes(curve: Bn128, piA: seq<nat>): seq<Byte>
  {
    NegatedG1Bytes(curve, Reverse(curve.g1ToRprUncompressed(curve.g1FromObject(piA))))
  }

  /**
   * proofData: the four arrays pi_a (reversed, negated, reversed), pi_b, pi_c and the
   * 32-byte public signal, in that order; it throws when there is more than one signal.
   * The curve calls are taken to return normally (see `Bn128`).
   */
  method ProofData(curve: Bn128, proof: SnarkProof, publicSignals: seq<nat>)
    returns (r: Result<seq<seq<Byte>>, JsError>)
    requires RprWidths(curve)
    ensures r.Err? <==> |publicSignals| >= 2
    ensures r.Err? ==> r.error == SyntaxError
    ensures r.Ok? ==> r.value == [
      ProofABytes(curve, proof.piA),
      curve.g2ToRprUncompressed(curve.g2FromObject(proof.piB)),
      curve.g1ToRprUncompressed(curve.g1FromObject(proof.piC)),
      To32ByteBuffer(BigIntOfArray(publicSignals).value)]
  {
    var serializedA := G1Uncompressed(curve, proof.piA);
    var buffA := new Byte[64](k requires 0 <= k < 64 => serializedA[k]);
    assert buffA[..] == serializedA;
    var reversedA := ReverseEndianness(buffA);
    var negatedA := NegateAndSerializeG1(curve, NodeBuffer(reversedA[..]));
    var piA := negatedA.value;
    var piB := G2Uncompressed(curve, proof.piB);
    var piC := G1Uncompressed(curve, proof.piC);
    BigIntOfArrayCases(publicSignals);
    var signal := BigIntOfArray(publicSignals);
    if signal.Err? {
      return Err(signal.error);
    }
    var signalBuffer := To32ByteBuffer(signal.value);
    return Ok([piA, piB, piC, signalBuffer]);
  }

  /**
   * The arrays have the widths 64, 128, 64 and 32 when the signal is below 2^256, and the
   * signal array is the signal in big-endian.
   */
  lemma ProofDataWidths(curve: Bn128, proof: SnarkProof, signal: nat)
    requires RprWidths(curve) && signal < Pow256(32)
    ensures |ProofABytes(curve, proof.piA)| == 64
    ensures |curve.g2ToRprUncompressed(curve.g2FromObject(proof.piB))| == 128
    ensures |curve.g1ToRprUncompressed(curve.g1FromObject(proof.piC))| == 64
    ensures |To32ByteBuffer(signal)| == 32 && BEValue(To32ByteBuffer(signal)) == signal
  {
    To32ByteBufferIsBigEndian(signal);
  }
}
