/**
 * The verifying-key converter: it reads a snarkjs verification key (coordinates as decimal
 * strings) and restructures it into the field names and point objects of an arkworks
 * VerifyingKey.  Coordinates are copied as text; an entry the input lacks is `undefined`.
 */
module GenKey {
  import opened Results
  import opened ProofJs

  /** `point[i]` of a JSON array of strings: `undefined` (None) past its end. */
  function At(point: seq<string>, i: nat): Option<string>
  {
    if i < |point| then Some(point[i]) else None
  }

  /** An arkworks-style affine G1 point object. */
  datatype ArkG1 = ArkG1(x: Option<string>, y: Option<string>, infinity: bool)

  /** An arkworks-style affine G2 point object: each coordinate a pair of Fp coefficients. */
  datatype ArkG2 = ArkG2(x: seq<Option<string>>, y: seq<Option<string>>, infinity: bool)

  /**
   * convertG1: x and y from the first two entries, never the point at infinity; snarkjs's
   * third projective entry ("1") is dropped.
   */
  function ConvertG1(point: seq<string>): (r: ArkG1)
    ensures !r.infinity
    ensures |point| >= 2 ==> r.x == Some(point[0]) && r.y == Some(point[1])
    ensures |point| < 2 ==> r.y == None
  {
    ArkG1(At(point, 0), At(point, 1), false)
  }

  /** Entries after the second do not matter. */
  lemma ConvertG1DropsExtra(point: seq<string>, extra: seq<string>)
    requires |point| >= 2
    ensures ConvertG1(point + extra) == ConvertG1(point)
  {
    assert (point + extra)[0] == point[0] && (point + extra)[1] == point[1];
  }

  /**
   * convertG2: x = [p[0][0], p[0][1]] and y = [p[1][0], p[1][1]], coefficients in the order
   * given (real part first); reading a row the input lacks throws a TypeError.
   */
  function ConvertG2(point: seq<seq<string>>): (r: Result<ArkG2, JsError>)
    ensures r.Err? <==> |point| < 2
    ensures r.Err? ==> r.error == TypeError
    ensures r.Ok? ==> !r.value.infinity && |r.value.x| == 2 && |r.value.y| == 2
    ensures r.Ok? ==> forall j :: 0 <= j < 2 ==>
      r.value.x[j] == At(point[0], j) && r.value.y[j] == At(point[1], j)
  {
    if |point| < 2 then Err(TypeError)
    else Ok(ArkG2([At(point[0], 0), At(point[0], 1)], [At(point[1], 0), At(point[1], 1)], false))
  }

  /** `ic.map(convertG1)`. */
  function ConvertIc(ic: seq<seq<string>>): (r: seq<ArkG1>)
    ensures |r| == |ic|
    ensures forall i :: 0 <= i < |ic| ==> r[i] == ConvertG1(ic[i])
  {
    if ic == [] then [] else [ConvertG1(ic[0])] + ConvertIc(ic[1..])
  }

  /** The IC conversion takes the points one by one: it distributes over concatenation. */
  lemma {:induction false} ConvertIcAppend(a: seq<seq<string>>, b: seq<seq<string>>)
    ensures ConvertIc(a + b) == ConvertIc(a) + ConvertIc(b)
  {
    if a == [] {
      assert a + b == b;
    } else {
      assert (a + b)[1..] == a[1..] + b;
      ConvertIcAppend(a[1..], b);
    }
  }

  /** The fields of a snarkjs verification key that the converter reads. */
  datatype SnarkVerificationKey = SnarkVerificationKey(
    vkAlpha1: seq<string>,
    vkBeta2: seq<seq<string>>,
    vkGamma2: seq<seq<string>>,
    vkDelta2: seq<seq<string>>,
    ic: seq<seq<string>>)

  /** The object written out: arkworks' VerifyingKey field names. */
  datatype ArkVerifyingKey = ArkVerifyingKey(
    alphaG1: ArkG1,
    betaG2: ArkG2,
    gammaG2: ArkG2,
    deltaG2: ArkG2,
    gammaAbcG1: seq<ArkG1>)

  /**
   * The whole conversion: vk_alpha_1, vk_beta_2, vk_gamma_2, vk_delta_2 and IC become
   * alpha_g1, beta_g2, gamma_g2, delta_g2 and gamma_abc_g1.
   */
  function ConvertKey(vk: SnarkVerificationKey): (r: Result<ArkVerifyingKey, JsError>)
    ensures r.Ok? <==> |vk.vkBeta2| >= 2 && |vk.vkGamma2| >= 2 && |vk.vkDelta2| >= 2
    ensures r.Err? ==> r.error == TypeError
    ensures r.Ok? ==>
      && r.value.alphaG1 == ConvertG1(vk.vkAlpha1)
      && Ok(r.value.betaG2) == ConvertG2(vk.vkBeta2)
      && Ok(r.value.gammaG2) == ConvertG2(vk.vkGamma2)
      && Ok(r.value.deltaG2) == ConvertG2(vk.vkDelta2)
      && |r.value.gammaAbcG1| == |vk.ic|
      && forall i :: 0 <= i < |vk.ic| ==> r.value.gammaAbcG1[i] == ConvertG1(vk.ic[i])
  {
    var alpha := ConvertG1(vk.vkAlpha1);
    var beta := ConvertG2(vk.vkBeta2);
    if beta.Err? then Err(beta.error)
    else
      var gamma := ConvertG2(vk.vkGamma2);
      if gamma.Err? then Err(gamma.error)
      else
        var delta := ConvertG2(vk.vkDelta2);
        if delta.Err? then Err(delta.error)
        else Ok(ArkVerifyingKey(alpha, beta.value, gamma.value, delta.value, ConvertIc(vk.ic)))
  }
}
