/**
 * The parts of the BN254 curve that the verifier's byte handling relies on: the
 * base-field prime, affine G1 points, point negation, and the arkworks
 * (ark-serialize 0.4) uncompressed encoding that `verify_proof` decodes A from
 * and writes -A back with.  Group arithmetic and pairings are not modelled here.
 */
module Bn254 {
  import opened Results
  import opened Bytes

  /** The BN254 base-field prime p. */
  const P: nat := 21888242871839275222246405745257275088696311157297823662689037894645226208583

  /**
   * A G1 point in arkworks' affine form: the point at infinity (stored with zero
   * coordinates), or a pair of base-field coordinates.
   */
  datatype G1Point = Infinity | Affine(x: nat, y: nat)

  /** A coordinate in canonical form: an integer below p. */
  predicate Canonical(v: nat)
  {
    v < P
  }

  /** The BN254 G1 curve equation y^2 = x^3 + 3 over the field of p elements. */
  predicate OnCurve(x: nat, y: nat)
  {
    (y * y) % P == (x * x * x + 3) % P
  }

  /** What arkworks' validating decoder accepts: infinity, or canonical coordinates on the curve. */
  predicate Valid(pt: G1Point)
  {
    pt.Infinity? || (Canonical(pt.x) && Canonical(pt.y) && OnCurve(pt.x, pt.y))
  }

  /** The x coordinate arkworks stores: zero for the point at infinity. */
  function StoredX(pt: G1Point): nat
  {
    if pt.Infinity? then 0 else pt.x
  }

  /** The y coordinate arkworks stores: zero for the point at infinity. */
  function StoredY(pt: G1Point): nat
  {
    if pt.Infinity? then 0 else pt.y
  }

  /**
   * Point negation: infinity stays infinity, and (x, y) becomes (x, (p - y) mod p),
   * the point whose y is the additive inverse of y in the field.
   */
  function Neg(pt: G1Point): (r: G1Point)
    ensures r.Infinity? <==> pt.Infinity?
    ensures pt.Affine? ==> r.x == pt.x && Canonical(r.y) && (pt.y + r.y) % P == 0
    ensures Valid(pt) ==> Valid(r)
  {
    match pt
    case Infinity => Infinity
    case Affine(x, y) =>
      var ny := (P - y) % P;
      NegatedYOnCurve(x, y);
      Affine(x, ny)
  }

  /** (p - y) mod p squares to the same field element as y. */
  lemma NegatedYOnCurve(x: nat, y: nat)
    ensures y < P && OnCurve(x, y) ==> OnCurve(x, (P - y) % P)
  {
    if 0 < y < P {
      assert (P - y) % P == P - y;
      NegatedSquare(y);
    }
  }

  /** In the field, p - y squares to the same value as y. */
  lemma NegatedSquare(y: nat)
    requires 0 < y < P
    ensures ((P - y) * (P - y)) % P == (y * y) % P
  {
    SquareOfDifference(P, y);
    ModMultipleShift(y * y, P - 2 * y);
  }

  lemma SquareOfDifference(m: int, y: int)
    ensures (m - y) * (m - y) == y * y + m * (m - 2 * y)
  {
  }

  lemma ModMultipleShift(a: int, k: int)
    ensures (a + P * k) % P == a % P
  {
  }

  /** Negating twice gives back any point with a canonical y. */
  lemma NegInvolution(pt: G1Point)
    requires pt.Affine? ==> Canonical(pt.y)
    ensures Neg(Neg(pt)) == pt
  {
  }

  /** The sign and infinity flags arkworks keeps in the top two bits of a G1 point's last byte. */
  datatype SwFlags = YIsPositive | YIsNegative | PointAtInfinity

  /** SWFlags::from_u8: bit 7 is the sign, bit 6 the infinity flag; both at once are refused. */
  function FlagsOf(b: Byte): Option<SwFlags>
  {
    var sign, infinity := b / 128 == 1, (b / 64) % 2 == 1;
    if sign && infinity then None
    else if infinity then Some(PointAtInfinity)
    else if sign then Some(YIsNegative)
    else Some(YIsPositive)
  }

  /** Fp::deserialize: 32 little-endian bytes, refused unless the value is below p. */
  function DecodeFq(bytes: seq<Byte>): Option<nat>
  {
    var v := LEValue(bytes);
    if v < P then Some(v) else None
  }

  /** The flag byte by ranges: below 64 no flag, 64..128 infinity, 128..192 negative y, 192 and up refused. */
  lemma FlagsOfRanges(b: Byte)
    ensures FlagsOf(b) == None <==> 192 <= b
    ensures FlagsOf(b) == Some(PointAtInfinity) <==> 64 <= b < 128
    ensures FlagsOf(b) == Some(YIsNegative) <==> 128 <= b < 192
    ensures FlagsOf(b) == Some(YIsPositive) <==> b < 64
  {
  }

  /**
   * The field decoder accepts exactly the canonical 32-byte encodings: what it accepts
   * re-encodes to the same bytes, and every value below p decodes from its encoding.
   */
  lemma DecodeFqCanonical(bytes: seq<Byte>, v: nat)
    requires |bytes| == 32
    ensures DecodeFq(bytes) == Some(v) ==> Canonical(v) && ToLittleEndian(v, 32) == bytes
    ensures Canonical(v) ==> DecodeFq(ToLittleEndian(v, 32)) == Some(v)
  {
    ToLittleEndianOfLEValue(bytes);
    if Canonical(v) {
      CanonicalFits(v);
      LEValueOfToLittleEndian(v, 32);
    }
  }

  /**
   * G1Affine::deserialize_with_mode(Compress::No, Validate::Yes) on a buffer of at least
   * 64 bytes: x from bytes 0..32, then y from bytes 32..64 with the flag bits of byte 63
   * masked off.  The infinity flag yields the point at infinity; otherwise the point must
   * lie on the curve (every such point of BN254 G1 is in the prime-order subgroup).
   * Bytes after the 64th are not read.
   */
  function DecodeG1Uncompressed(buf: seq<Byte>): (r: Option<G1Point>)
    requires |buf| >= 64
    ensures r.Some? ==> Valid(r.value)
    ensures r.Some? ==> DecodeFq(buf[..32]).Some?
  {
    var x := DecodeFq(buf[..32]);
    var flags := FlagsOf(buf[63]);
    var y := DecodeFq(buf[32..63] + [buf[63] % 64]);
    if x.None? || flags.None? || y.None? then None
    else if flags.value == PointAtInfinity then Some(Infinity)
    else if OnCurve(x.value, y.value) then Some(Affine(x.value, y.value))
    else None
  }

  /**
   * What `verify_proof` writes for a point: its stored x and y, each serialised by
   * Fp::serialize as 32 little-endian bytes, without flags.
   */
  function EncodeG1Coordinates(pt: G1Point): (r: seq<Byte>)
    ensures |r| == 64
  {
    ToLittleEndian(StoredX(pt), 32) + ToLittleEndian(StoredY(pt), 32)
  }

  /** p's top byte (of 32, little-endian last) is 0x30: p lies between 48 and 49 times 2^248, below 2^254. */
  lemma PrimeTopByte()
    ensures 48 * Pow256(31) <= P < 49 * Pow256(31)
  {
    Pow256Of31();
  }

  /** The last byte of a canonical value's 32-byte little-endian encoding has its two flag bits clear. */
  lemma CanonicalTopByte(v: nat)
    requires Canonical(v)
    ensures ToLittleEndian(v, 32)[31] < 64
  {
    var s := ToLittleEndian(v, 32);
    var k := Pow256(31);
    PrimeTopByte();
    assert Pow256(32) == 256 * k;
    LEValueOfToLittleEndian(v, 32);
    assert s == s[..31] + [s[31]];
    LEValueAppend(s[..31], [s[31]]);
    assert LEValue([s[31]]) == s[31] + 256 * LEValue([]);
    TopDigitBound(LEValue(s[..31]), k, s[31], v);
  }

  lemma TopDigitBound(low: nat, k: nat, top: nat, v: nat)
    requires v == low + k * top && v < 64 * k
    ensures top < 64
  {
  }

  /** Decoding what `verify_proof` writes for an affine point gives the point back. */
  lemma DecodeEncodedAffine(pt: G1Point, tail: seq<Byte>)
    requires pt.Affine? && Valid(pt)
    ensures DecodeG1Uncompressed(EncodeG1Coordinates(pt) + tail) == Some(pt)
  {
    var xs, ys := ToLittleEndian(pt.x, 32), ToLittleEndian(pt.y, 32);
    assert EncodeG1Coordinates(pt) + tail == xs + ys + tail;
    CanonicalFits(pt.x);
    CanonicalFits(pt.y);
    LEValueOfToLittleEndian(pt.x, 32);
    LEValueOfToLittleEndian(pt.y, 32);
    CanonicalTopByte(pt.y);
    ClearFlags(ys[31]);
    SplitCoordinates(xs, ys, tail);
    DecodeAffineParts(xs + ys + tail, pt.x, pt.y);
  }

  /** The decoder's happy path: both coordinates canonical, no flags, and on the curve. */
  lemma DecodeAffineParts(buf: seq<Byte>, x: nat, y: nat)
    requires |buf| >= 64 && OnCurve(x, y)
    requires DecodeFq(buf[..32]) == Some(x) && FlagsOf(buf[63]) == Some(YIsPositive)
    requires DecodeFq(buf[32..63] + [buf[63] % 64]) == Some(y)
    ensures DecodeG1Uncompressed(buf) == Some(Affine(x, y))
  {
  }

  /** Where the decoder finds x, the flag byte and y in 32 + 32 bytes followed by anything. */
  lemma SplitCoordinates(xs: seq<Byte>, ys: seq<Byte>, tail: seq<Byte>)
    requires |xs| == 32 && |ys| == 32 && ys[31] < 64
    ensures var buf := xs + ys + tail;
      buf[..32] == xs && buf[63] == ys[31] && buf[32..63] + [buf[63] % 64] == ys
  {
    var buf := xs + ys + tail;
    assert buf[..32] == xs;
    assert buf[32..63] == ys[..31];
    assert ys[..31] + [ys[31]] == ys;
  }

  lemma ClearFlags(b: Byte)
    requires b < 64
    ensures FlagsOf(b) == Some(YIsPositive) && b % 64 == b
  {
  }

  /** Canonical values fit in 32 bytes. */
  lemma CanonicalFits(v: nat)
    requires Canonical(v)
    ensures v < Pow256(32)
  {
    PrimeTopByte();
    assert Pow256(32) == 256 * Pow256(31);
  }

  /**
   * The point at infinity is written as 64 zero bytes (the EIP-196 encoding of the
   * point at infinity), which the same arkworks decoder refuses: (0, 0) is not on the curve.
   */
  lemma EncodedInfinityIsZeros(tail: seq<Byte>)
    ensures EncodeG1Coordinates(Infinity) == seq(64, _ => 0)
    ensures DecodeG1Uncompressed(EncodeG1Coordinates(Infinity) + tail) == None
  {
    ZeroEncoding(32);
    var zeros := EncodeG1Coordinates(Infinity);
    assert zeros == seq(64, _ => 0);
    PrefixOfAppend(zeros, tail, 64);
    DecodeZeros(zeros + tail);
  }

  /** 64 zero bytes decode to nothing: x = y = 0 with no flag, and 0 != 0^3 + 3. */
  lemma DecodeZeros(buf: seq<Byte>)
    requires |buf| >= 64 && buf[..64] == seq(64, _ => 0)
    ensures DecodeG1Uncompressed(buf) == None
  {
    assert buf[..32] == seq(32, _ => 0);
    assert buf[63] == 0;
    assert buf[32..63] + [buf[63] % 64] == seq(32, _ => 0);
    ZeroValue(32);
  }

  lemma {:induction false} ZeroEncoding(len: nat)
    ensures ToLittleEndian(0, len) == seq(len, _ => 0)
  {
    if len > 0 {
      ZeroEncoding(len - 1);
    }
  }

  lemma {:induction false} ZeroValue(len: nat)
    ensures LEValue(seq(len, _ => 0)) == 0
  {
    if len > 0 {
      ZeroValue(len - 1);
      assert seq(len, _ => 0)[1..] == seq(len - 1, _ => 0);
    }
  }
}
