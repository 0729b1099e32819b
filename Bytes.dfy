/**
 * Bytes and the fixed-width integer encodings every part of the codec uses:
 * big-endian and little-endian values of byte strings, the encoders that produce
 * them, and whole-string reversal.
 */
module Bytes {

  type Byte = b: int | 0 <= b < 256

  /** 256 to the power n: one more than the largest value n bytes can hold. */
  function Pow256(n: nat): (r: nat)
    ensures r > 0
  {
    if n == 0 then 1 else 256 * Pow256(n - 1)
  }

  lemma {:induction false} Pow256Add(a: nat, b: nat)
    ensures Pow256(a + b) == Pow256(a) * Pow256(b)
  {
    if a > 0 {
      Pow256Add(a - 1, b);
      assert Pow256(a + b) == 256 * Pow256(a - 1 + b);
    }
  }

  /** The unsigned value of `s` read most significant byte first. */
  function BEValue(s: seq<Byte>): nat
  {
    if s == [] then 0 else BEValue(s[..|s| - 1]) * 256 + s[|s| - 1]
  }

  /** The unsigned value of `s` read least significant byte first. */
  function LEValue(s: seq<Byte>): nat
  {
    if s == [] then 0 else s[0] + 256 * LEValue(s[1..])
  }

  /** The `len` low-order bytes of `n`, most significant first. */
  function ToBigEndian(n: nat, len: nat): (r: seq<Byte>)
    ensures |r| == len
  {
    if len == 0 then [] else ToBigEndian(n / 256, len - 1) + [n % 256]
  }

  /** The `len` low-order bytes of `n`, least significant first. */
  function ToLittleEndian(n: nat, len: nat): (r: seq<Byte>)
    ensures |r| == len
  {
    if len == 0 then [] else [n % 256] + ToLittleEndian(n / 256, len - 1)
  }

  /** `s` back to front. */
  function Reverse<T>(s: seq<T>): (r: seq<T>)
    ensures |r| == |s|
  {
    if s == [] then [] else [s[|s| - 1]] + Reverse(s[..|s| - 1])
  }

  lemma {:induction false} ReverseAt<T>(s: seq<T>, i: nat)
    requires i < |s|
    ensures Reverse(s)[i] == s[|s| - 1 - i]
  {
    if i > 0 {
      ReverseAt(s[..|s| - 1], i - 1);
    }
  }

  /** Reversing twice gives the input back. */
  lemma ReverseInvolution<T>(s: seq<T>)
    ensures Reverse(Reverse(s)) == s
  {
    forall i | 0 <= i < |s|
      ensures Reverse(Reverse(s))[i] == s[i]
    {
      ReverseAt(Reverse(s), i);
      ReverseAt(s, |s| - 1 - i);
    }
  }

  /** Reversal of a concatenation reverses the order of the parts. */
  lemma ReverseAppend<T>(a: seq<T>, b: seq<T>)
    ensures Reverse(a + b) == Reverse(b) + Reverse(a)
  {
    forall i | 0 <= i < |a| + |b|
      ensures Reverse(a + b)[i] == (Reverse(b) + Reverse(a))[i]
    {
      ReverseAt(a + b, i);
      if i < |b| {
        ReverseAt(b, i);
      } else {
        ReverseAt(a, i - |b|);
      }
    }
  }

  /** Every value of `s` fits in |s| bytes. */
  lemma {:induction false} BEValueBound(s: seq<Byte>)
    ensures BEValue(s) < Pow256(|s|)
  {
    if s != [] {
      BEValueBound(s[..|s| - 1]);
    }
  }

  /** Encoding a value that fits, then reading it back, gives the value. */
  lemma {:induction false} BEValueOfToBigEndian(n: nat, len: nat)
    requires n < Pow256(len)
    ensures BEValue(ToBigEndian(n, len)) == n
  {
    if len > 0 {
      BEValueOfToBigEndian(n / 256, len - 1);
      var r := ToBigEndian(n, len);
      assert r[..|r| - 1] == ToBigEndian(n / 256, len - 1);
    }
  }

  /** Reading a byte string, then encoding it over as many bytes, gives the string back. */
  lemma {:induction false} ToBigEndianOfBEValue(s: seq<Byte>)
    ensures ToBigEndian(BEValue(s), |s|) == s
  {
    if s != [] {
      var init := s[..|s| - 1];
      ToBigEndianOfBEValue(init);
      assert BEValue(s) / 256 == BEValue(init);
      assert s == init + [s[|s| - 1]];
    }
  }

  /** The little-endian reading of the reversed string is the big-endian reading. */
  lemma {:induction false} LEValueOfReverse(s: seq<Byte>)
    ensures LEValue(Reverse(s)) == BEValue(s)
  {
    if s != [] {
      LEValueOfReverse(s[..|s| - 1]);
      assert Reverse(s)[1..] == Reverse(s[..|s| - 1]);
    }
  }

  /** The little-endian encoding is the reversed big-endian encoding. */
  lemma {:induction false} ToLittleEndianIsReversed(n: nat, len: nat)
    ensures ToLittleEndian(n, len) == Reverse(ToBigEndian(n, len))
  {
    if len > 0 {
      ToLittleEndianIsReversed(n / 256, len - 1);
      var b := ToBigEndian(n, len);
      assert b[..|b| - 1] == ToBigEndian(n / 256, len - 1);
    }
  }

  lemma LEValueOfToLittleEndian(n: nat, len: nat)
    requires n < Pow256(len)
    ensures LEValue(ToLittleEndian(n, len)) == n
  {
    ToLittleEndianIsReversed(n, len);
    LEValueOfReverse(ToBigEndian(n, len));
    BEValueOfToBigEndian(n, len);
  }

  lemma ToLittleEndianOfLEValue(s: seq<Byte>)
    ensures ToLittleEndian(LEValue(s), |s|) == s
  {
    var r := Reverse(s);
    ReverseInvolution(s);
    LEValueOfReverse(r);
    ToLittleEndianIsReversed(LEValue(s), |s|);
    ToBigEndianOfBEValue(r);
  }

  /** The little-endian value of a concatenation: the low part, plus the high part shifted. */
  lemma {:induction false} LEValueAppend(a: seq<Byte>, b: seq<Byte>)
    ensures LEValue(a + b) == LEValue(a) + Pow256(|a|) * LEValue(b)
  {
    if a == [] {
      assert a + b == b;
    } else {
      LEValueAppend(a[1..], b);
      assert (a + b)[1..] == a[1..] + b;
      ShiftDistributes(LEValue(a[1..]), Pow256(|a| - 1), LEValue(b));
    }
  }

  lemma ShiftDistributes(low: nat, scale: nat, high: nat)
    ensures 256 * (low + scale * high) == 256 * low + (256 * scale) * high
  {
  }

  lemma LEValueBound(s: seq<Byte>)
    ensures LEValue(s) < Pow256(|s|)
  {
    LEValueOfReverse(Reverse(s));
    ReverseInvolution(s);
    BEValueBound(Reverse(s));
  }

  /** The value of 31 bytes' worth: 2^248. */
  lemma Pow256Of31()
    ensures Pow256(31) == 0x100_0000_0000_0000_0000_0000_0000_0000_0000_0000_0000_0000_0000_0000_0000_0000
  {
    Pow256Add(1, 1);
    Pow256Add(2, 2);
    Pow256Add(4, 4);
    Pow256Add(8, 8);
    Pow256Add(16, 8);
    Pow256Add(24, 4);
    Pow256Add(28, 2);
    Pow256Add(30, 1);
    assert Pow256(1) == 0x100;
  }

  /** A big-endian value is at least its leading byte times the weight of that byte. */
  lemma {:induction false} BEValueLeadingByte(s: seq<Byte>)
    requires s != []
    ensures BEValue(s) >= s[0] * Pow256(|s| - 1)
  {
    if |s| > 1 {
      var init := s[..|s| - 1];
      BEValueLeadingByte(init);
      assert init[0] == s[0];
      ScaleLowerBound(BEValue(init), s[0] * Pow256(|init| - 1));
    }
  }

  lemma ScaleLowerBound(v: nat, w: nat)
    requires v >= w
    ensures v * 256 >= w * 256
  {
  }

  /** A little-endian value is below its last byte plus one, times the weight of that byte. */
  lemma LEValueTopByte(s: seq<Byte>)
    requires s != []
    ensures LEValue(s) < (s[|s| - 1] + 1) * Pow256(|s| - 1)
  {
    var low, top := s[..|s| - 1], s[|s| - 1];
    assert s == low + [top];
    LEValueAppend(low, [top]);
    assert LEValue([top]) == top + 256 * LEValue([]);
    LEValueBound(low);
    TopWeightBound(LEValue(low), Pow256(|low|), top);
  }

  lemma TopWeightBound(low: nat, k: nat, top: nat)
    requires low < k
    ensures low + k * top < (top + 1) * k
  {
    assert (top + 1) * k == top * k + k;
  }

  lemma PrefixOfAppend<T>(a: seq<T>, b: seq<T>, n: nat)
    requires n <= |a|
    ensures (a + b)[..n] == a[..n]
  {
  }
}
