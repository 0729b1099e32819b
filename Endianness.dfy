/**
 * The Rust program's two byte-shuffling helpers: `change_endianness`, which reverses
 * the bytes inside every 32-byte chunk of a slice, and `chunk_instruction_data`,
 * which cuts a slice into zero-padded 32-byte arrays.  `program/src/lib.rs` carries
 * a copy of `change_endianness` identical to the one in `program/src/verifier.rs`;
 * both are this one method.
 */
module Endianness {
  import opened Bytes

  /** Specification: each 32-byte chunk reversed in place; a shorter last chunk reversed within itself. */
  function ChunkReverse(s: seq<Byte>): (r: seq<Byte>)
    ensures |r| == |s|
    decreases |s|
  {
    if |s| <= 32 then Reverse(s) else Reverse(s[..32]) + ChunkReverse(s[32..])
  }

  /** Length of the chunk that starts at offset `start` of a slice of length `len`. */
  function ChunkLength(len: nat, start: nat): nat
    requires start <= len
  {
    if len - start < 32 then len - start else 32
  }

  /**
   * Byte j of chunk k of the output is byte m-1-j of chunk k of the input, where m is that
   * chunk's length: chunk order is kept and only the bytes inside a chunk move.
   */
  lemma {:induction false} ChunkReverseAt(s: seq<Byte>, k: nat, j: nat)
    requires 32 * k + j < |s| && j < 32
    ensures var m := ChunkLength(|s|, 32 * k);
      j < m && ChunkReverse(s)[32 * k + j] == s[32 * k + m - 1 - j]
  {
    if |s| <= 32 {
      assert k == 0;
      ReverseAt(s, j);
    } else if k == 0 {
      ReverseAt(s[..32], j);
      assert ChunkReverse(s) == Reverse(s[..32]) + ChunkReverse(s[32..]);
    } else {
      var t := s[32..];
      var head := Reverse(s[..32]);
      var at := 32 * (k - 1) + j;
      ChunkReverseAt(t, k - 1, j);
      var m := ChunkLength(|t|, 32 * (k - 1));
      assert m == ChunkLength(|s|, 32 * k);
      assert ChunkReverse(s) == head + ChunkReverse(t);
      assert ChunkReverse(s)[32 + at] == ChunkReverse(t)[at];
      assert t[32 * (k - 1) + m - 1 - j] == s[32 * k + m - 1 - j];
    }
  }

  /** Unfolding one full chunk off the front. */
  lemma ChunkReverseCons(a: seq<Byte>, b: seq<Byte>)
    requires |a| == 32
    ensures ChunkReverse(a + b) == Reverse(a) + ChunkReverse(b)
  {
    if b == [] {
      assert a + b == a;
    } else {
      assert (a + b)[..32] == a && (a + b)[32..] == b;
    }
  }

  /** On 64 bytes the transform reverses each 32-byte half where it stands. */
  lemma ChunkReverseHalves(s: seq<Byte>)
    requires |s| == 64
    ensures ChunkReverse(s) == Reverse(s[..32]) + Reverse(s[32..])
  {
    ChunkReverseCons(s[..32], s[32..]);
    assert s[..32] + s[32..] == s;
  }

  /** Applying the transform twice gives the input back. */
  lemma {:induction false} ChunkReverseInvolution(s: seq<Byte>)
    ensures ChunkReverse(ChunkReverse(s)) == s
    decreases |s|
  {
    if |s| <= 32 {
      ReverseInvolution(s);
    } else {
      var head, tail := s[..32], s[32..];
      ChunkReverseInvolution(tail);
      ChunkReverseCons(Reverse(head), ChunkReverse(tail));
      ReverseInvolution(head);
      assert s == head + tail;
    }
  }

  /**
   * change_endianness: for each chunk of `bytes`, push the chunk's bytes last to first
   * onto a growing vector.
   */
  method ChangeEndianness(bytes: seq<Byte>) returns (vec: seq<Byte>)
    ensures vec == ChunkReverse(bytes)
  {
    vec := [];
    var start := 0;
    while start < |bytes|
      invariant 0 <= start <= |bytes|
      invariant vec + ChunkReverse(bytes[start..]) == ChunkReverse(bytes)
      decreases |bytes| - start
    {
      var end := start + ChunkLength(|bytes|, start);
      ChunkReverseStep(bytes, start, end);
      ghost var before := vec;
      vec := PushReversed(vec, bytes[start..end]);
      assert vec + ChunkReverse(bytes[end..]) == before + ChunkReverse(bytes[start..]);
      start := end;
    }
  }

  /** The inner loop of change_endianness: walk the chunk from its end and push each byte. */
  method PushReversed(vec: seq<Byte>, chunk: seq<Byte>) returns (out: seq<Byte>)
    ensures out == vec + Reverse(chunk)
  {
    out := vec;
    var j := |chunk|;
    while j > 0
      invariant 0 <= j <= |chunk|
      invariant out == vec + Reverse(chunk[j..])
    {
      ReverseSuffixGrows(chunk, j - 1);
      out := out + [chunk[j - 1]];
      j := j - 1;
    }
    assert chunk[0..] == chunk;
  }

  lemma ReverseSuffixGrows(chunk: seq<Byte>, i: nat)
    requires i < |chunk|
    ensures Reverse(chunk[i..]) == Reverse(chunk[i + 1..]) + [chunk[i]]
  {
    assert chunk[i..] == [chunk[i]] + chunk[i + 1..];
    ReverseAppend([chunk[i]], chunk[i + 1..]);
    assert Reverse([chunk[i]]) == [chunk[i]] + Reverse<Byte>([]);
  }

  lemma ChunkReverseStep(bytes: seq<Byte>, start: nat, end: nat)
    requires start < |bytes| && end == start + ChunkLength(|bytes|, start)
    ensures ChunkReverse(bytes[start..]) == Reverse(bytes[start..end]) + ChunkReverse(bytes[end..])
  {
    var rest := bytes[start..];
    if |rest| > 32 {
      assert rest[..32] == bytes[start..end] && rest[32..] == bytes[end..];
    } else {
      assert rest == bytes[start..end] && bytes[end..] == [];
    }
  }

  /** One output array of chunk_instruction_data: a zeroed [u8; 32] with the chunk copied to its front. */
  function PadChunk(chunk: seq<Byte>): (a: seq<Byte>)
    requires |chunk| <= 32
    ensures |a| == 32 && a[..|chunk|] == chunk
    ensures forall i :: |chunk| <= i < 32 ==> a[i] == 0
  {
    chunk + seq(32 - |chunk|, _ => 0)
  }

  /**
   * chunk_instruction_data: ceil(|data| / 32) arrays of 32 bytes; array i holds
   * data[32i..32i+32], and the last one is zero-filled past the end of the data.
   */
  function ChunkInstructionData(data: seq<Byte>): (r: seq<seq<Byte>>)
    ensures |r| == (|data| + 31) / 32
    ensures forall i :: 0 <= i < |r| ==> |r[i]| == 32
    ensures forall i, j :: 0 <= i < |r| && 0 <= j < 32 ==>
      r[i][j] == if 32 * i + j < |data| then data[32 * i + j] else 0
    decreases |data|
  {
    if |data| <= 32 then
      (if data == [] then [] else [PadChunk(data)])
    else
      [PadChunk(data[..32])] + ChunkInstructionData(data[32..])
  }

  /** Exactly one array comes out precisely when 1 to 32 bytes go in. */
  lemma SingleChunk(data: seq<Byte>)
    ensures |ChunkInstructionData(data)| == 1 <==> 1 <= |data| <= 32
    ensures 1 <= |data| <= 32 ==> ChunkInstructionData(data) == [PadChunk(data)]
  {
  }
}
