/** Byte sequences, the file reads of Python's binary file objects, and the
    big- and little-endian integer assembly of `int.from_bytes`. */
module Bytes {

  type byte = b: int | 0 <= b < 256

  function Min(a: int, b: int): int { if a <= b then a else b }

  function Max(a: int, b: int): int { if a >= b then a else b }

  /** 256^n, the number of values an n-byte field can hold. */
  function Pow256(n: nat): (p: nat)
    ensures p >= 1
  {
    if n == 0 then 1 else 256 * Pow256(n - 1)
  }

  /** `fp.read(n)` with the file positioned at `pos`: at most `n` bytes, fewer
      (possibly none) near the end of the data, and none at all when a seek
      has left the position at or past the end. The same clamping is Python's
      slice `data[pos:pos + n]` for a non-negative `pos`. */
  function Read(data: seq<byte>, pos: nat, n: nat): (r: seq<byte>)
    ensures |r| == if pos >= |data| then 0 else Min(n, |data| - pos)
    ensures pos + n <= |data| ==> r == data[pos..pos + n]
    ensures pos < |data| < pos + n ==> r == data[pos..]
  {
    if pos >= |data| then [] else data[pos..pos + Min(n, |data| - pos)]
  }

  /** `int.from_bytes(s, 'big')`; the empty sequence reads as 0. */
  function BigEndian(s: seq<byte>): (v: nat)
    ensures v < Pow256(|s|)
  {
    if |s| == 0 then 0
    else
      var high := BigEndian(s[..|s| - 1]);
      assert high * 256 + s[|s| - 1] < Pow256(|s|) by {
        assert high <= Pow256(|s| - 1) - 1;
        assert high * 256 <= Pow256(|s| - 1) * 256 - 256;
      }
      high * 256 + s[|s| - 1]
  }

  /** `int.from_bytes(s, 'little')`; the empty sequence reads as 0. */
  function LittleEndian(s: seq<byte>): (v: nat)
    ensures v < Pow256(|s|)
  {
    if |s| == 0 then 0
    else
      var high := LittleEndian(s[1..]);
      assert s[0] + 256 * high < Pow256(|s|) by {
        assert high <= Pow256(|s| - 1) - 1;
        assert 256 * high <= 256 * Pow256(|s| - 1) - 256;
      }
      s[0] + 256 * high
  }

  /** `read_uint16_be(data, offset)`: the big-endian value of the (possibly
      short) two-byte slice at `offset`. */
  function ReadUint16Be(data: seq<byte>, offset: nat): (v: nat)
    ensures v < 0x1_0000
    ensures offset + 2 <= |data| ==> v == (data[offset] as int) * 256 + data[offset + 1]
    ensures offset + 1 == |data| ==> v == data[offset]
    ensures offset >= |data| ==> v == 0
  {
    var s := Read(data, offset, 2);
    assert Pow256(|s|) <= 0x1_0000 by { assert Pow256(2) == 0x1_0000; }
    assert offset + 2 <= |data| ==> BigEndian(s) == (data[offset] as int) * 256 + data[offset + 1] by {
      if offset + 2 <= |data| {
        assert BigEndian(s) == BigEndian(s[..1]) * 256 + s[1];
        assert BigEndian(s[..1]) == BigEndian(s[..0]) * 256 + s[0];
      }
    }
    BigEndian(s)
  }

  /** The n-byte big-endian encoding of `v`: the inverse of BigEndian. */
  function EncodeBigEndian(v: nat, n: nat): (s: seq<byte>)
    requires v < Pow256(n)
    ensures |s| == n
    ensures BigEndian(s) == v
  {
    if n == 0 then []
    else
      var high := EncodeBigEndian(v / 256, n - 1);
      var s := high + [v % 256];
      assert s[..|s| - 1] == high;
      s
  }

  /** The n-byte little-endian encoding of `v`: the inverse of LittleEndian. */
  function EncodeLittleEndian(v: nat, n: nat): (s: seq<byte>)
    requires v < Pow256(n)
    ensures |s| == n
    ensures LittleEndian(s) == v
  {
    if n == 0 then []
    else
      var high := EncodeLittleEndian(v / 256, n - 1);
      var s := [v % 256] + high;
      assert s[1..] == high;
      s
  }

  /** Decoding then re-encoding at the same width gives the bytes back. */
  lemma {:induction false} BigEndianRoundTrip(s: seq<byte>)
    ensures EncodeBigEndian(BigEndian(s), |s|) == s
  {
    if |s| > 0 {
      var init := s[..|s| - 1];
      BigEndianRoundTrip(init);
      assert BigEndian(s) / 256 == BigEndian(init);
      assert BigEndian(s) % 256 == s[|s| - 1];
      assert s == init + [s[|s| - 1]];
    }
  }

  /** Decoding then re-encoding at the same width gives the bytes back. */
  lemma {:induction false} LittleEndianRoundTrip(s: seq<byte>)
    ensures EncodeLittleEndian(LittleEndian(s), |s|) == s
  {
    if |s| > 0 {
      LittleEndianRoundTrip(s[1..]);
      assert LittleEndian(s) / 256 == LittleEndian(s[1..]);
      assert LittleEndian(s) % 256 == s[0];
      assert s == [s[0]] + s[1..];
    }
  }

  /** The widths of the fixed-size fields the parsers read. */
  lemma Pow256Values()
    ensures Pow256(2) == 0x1_0000
    ensures Pow256(3) == 0x100_0000
    ensures Pow256(4) == 0x1_0000_0000
  {
    assert Pow256(1) == 256;
  }

  /** A shorter field holds fewer values. */
  lemma {:induction false} Pow256Monotone(a: nat, b: nat)
    requires a <= b
    ensures Pow256(a) <= Pow256(b)
    decreases b
  {
    if a < b {
      Pow256Monotone(a, b - 1);
    }
  }

  /** Reading a prefix of `n` bytes and then slicing it inside that prefix
      reads the same bytes as reading the data there directly. */
  lemma ReadWithin(data: seq<byte>, n: nat, p: nat, k: nat)
    requires p + k <= n
    ensures Read(Read(data, 0, n), p, k) == Read(data, p, k)
  {
    var prefix := Read(data, 0, n);
    if p < |data| {
      assert |prefix| == Min(n, |data|);
      assert forall i :: 0 <= i < |prefix| ==> prefix[i] == data[i];
    }
  }

  /** The two-byte big-endian field holding `v`. */
  function EncodeUint16Be(v: nat): (s: seq<byte>)
    requires v < 0x1_0000
    ensures |s| == 2 && BigEndian(s) == v
  {
    Pow256Values();
    EncodeBigEndian(v, 2)
  }

  /** A 16-bit field written anywhere in the data is read back by
      `read_uint16_be` at its offset. */
  lemma ReadUint16BeRoundTrip(prefix: seq<byte>, v: nat, rest: seq<byte>)
    requires v < 0x1_0000
    ensures ReadUint16Be(prefix + EncodeUint16Be(v) + rest, |prefix|) == v
  {
    var s := EncodeUint16Be(v);
    var data := prefix + s + rest;
    assert data[|prefix|] == s[0] && data[|prefix| + 1] == s[1];
    assert BigEndian(s) == BigEndian(s[..1]) * 256 + s[1];
    assert BigEndian(s[..1]) == BigEndian(s[..0]) * 256 + s[0];
  }

  /** n copies of the byte `b`. */
  function Repeat(b: byte, n: nat): (s: seq<byte>)
    ensures |s| == n
    ensures forall i :: 0 <= i < n ==> s[i] == b
  {
    if n == 0 then [] else [b] + Repeat(b, n - 1)
  }

  /** Where `a + b` lies at `p`, `a` lies at `p` and `b` right after it. */
  lemma SplitSlice(data: seq<byte>, p: nat, a: seq<byte>, b: seq<byte>)
    requires p + |a| + |b| <= |data|
    requires data[p..p + |a| + |b|] == a + b
    ensures data[p..p + |a|] == a
    ensures data[p + |a|..p + |a| + |b|] == b
  {
    assert data[p..p + |a|] == data[p..p + |a| + |b|][..|a|];
    assert data[p + |a|..p + |a| + |b|] == data[p..p + |a| + |b|][|a|..];
  }

  /** The bytes of a sequence written at `p`. */
  lemma BytesAt(data: seq<byte>, p: nat, a: seq<byte>)
    requires p + |a| <= |data|
    requires data[p..p + |a|] == a
    ensures forall k :: p <= k < p + |a| ==> data[k] == a[k - p]
  {
    forall k | p <= k < p + |a|
      ensures data[k] == a[k - p]
    {
      assert data[k] == data[p..p + |a|][k - p];
    }
  }
}
