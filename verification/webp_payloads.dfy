/** Writers for the start of the three WebP image payloads, and what the
    dimension readers of `read_image_size` make of them: the same image
    written as `VP8X`, `VP8 ` or `VP8L` in the layout read here reads back
    as the same size; the
    lossy header's scale bits stay in the result; and a lossless bitstream
    laid out with its signature byte first is misread. */
module WebPPayloads {
  import opened Wrappers
  import opened Bytes
  import opened ImageTypes
  import opened WebP
  import opened WebPChunks

  /** The start of a `VP8X` payload: the flags byte and three reserved bytes,
      then canvas width and height minus one as 24-bit little-endian fields. */
  function Vp8xPayload(flags: seq<byte>, width: nat, height: nat): (p: seq<byte>)
    requires |flags| == 4
    requires 1 <= width <= 0x100_0000 && 1 <= height <= 0x100_0000
    ensures |p| == 10
  {
    Pow256Values();
    flags + EncodeLittleEndian(width - 1, 3) + EncodeLittleEndian(height - 1, 3)
  }

  /** Every canvas size a `VP8X` header can hold is read back. */
  lemma Vp8xRoundTrip(flags: seq<byte>, width: nat, height: nat, more: seq<byte>)
    requires |flags| == 4
    requires 1 <= width <= 0x100_0000 && 1 <= height <= 0x100_0000
    ensures Vp8xSize(Vp8xPayload(flags, width, height) + more) == Size(width, height)
  {
    Pow256Values();
    var p := Vp8xPayload(flags, width, height) + more;
    assert p[4..7] == EncodeLittleEndian(width - 1, 3);
    assert p[7..10] == EncodeLittleEndian(height - 1, 3);
  }

  /** The start of a `VP8 ` payload: six bytes of frame tag and start code
      (an encoder writes `9D 01 2A` at bytes 3-5, which the reader never
      checks, so any six bytes are allowed), then width and height as 16-bit
      little-endian fields. */
  function Vp8Payload(frameStart: seq<byte>, width: nat, height: nat): (p: seq<byte>)
    requires |frameStart| == 6
    requires width < 0x1_0000 && height < 0x1_0000
    ensures |p| == 10
  {
    Pow256Values();
    frameStart + EncodeLittleEndian(width, 2) + EncodeLittleEndian(height, 2)
  }

  /** Every 16-bit width and height field of a `VP8 ` header is read back
      whole. */
  lemma Vp8RoundTrip(frameStart: seq<byte>, width: nat, height: nat, more: seq<byte>)
    requires |frameStart| == 6
    requires width < 0x1_0000 && height < 0x1_0000
    ensures Vp8Size(Vp8Payload(frameStart, width, height) + more) == Size(width, height)
  {
    Pow256Values();
    var p := Vp8Payload(frameStart, width, height) + more;
    var w := EncodeLittleEndian(width, 2);
    var h := EncodeLittleEndian(height, 2);
    assert p[6] == w[0] && p[7] == w[1] && p[8] == h[0] && p[9] == h[1];
    assert LittleEndian(w) == w[0] + 256 * LittleEndian(w[1..]);
    assert LittleEndian(h) == h[0] + 256 * LittleEndian(h[1..]);
  }

  /** The two top bits of the lossy width field, which RFC 6386 section 9.1
      makes a scale factor, are part of the width reported. */
  lemma Vp8KeepsScaleBits(payload: seq<byte>)
    requires |payload| >= 10
    ensures Vp8Size(payload).width / 0x4000 == payload[7] / 64
    ensures Vp8Size(payload).height / 0x4000 == payload[9] / 64
  {
  }

  /** The 32-bit field of a `VP8L` payload as it is read here, from offset 0:
      width minus one in the low 14 bits, height minus one in the next 14,
      four more bits on top; at least one byte follows. */
  function Vp8lPayload(width: nat, height: nat, top: nat, tail: seq<byte>): (p: seq<byte>)
    requires 1 <= width <= 0x4000 && 1 <= height <= 0x4000 && top < 16
    requires |tail| >= 1
    ensures |p| >= 5
  {
    Pow256Values();
    EncodeLittleEndian((width - 1) + 0x4000 * (height - 1) + 0x1000_0000 * top, 4) + tail
  }

  /** Every size the 14-bit fields can hold is read back, whatever the top
      bits and the bytes after the field. */
  lemma Vp8lRoundTrip(width: nat, height: nat, top: nat, tail: seq<byte>)
    requires 1 <= width <= 0x4000 && 1 <= height <= 0x4000 && top < 16
    requires |tail| >= 1
    ensures Vp8lSize(Vp8lPayload(width, height, top, tail)) == Size(width, height)
  {
    Pow256Values();
    var rest := (height - 1) + 0x4000 * top;
    var bits := (width - 1) + 0x4000 * rest;
    assert bits == (width - 1) + 0x4000 * (height - 1) + 0x1000_0000 * top;
    assert Vp8lPayload(width, height, top, tail)[..4] == EncodeLittleEndian(bits, 4);
    FieldSplit(width - 1, rest);
    FieldSplit(height - 1, top);
  }

  /** A 14-bit field below higher bits is recovered by `& 0x3FFF`, and the
      higher bits by `>> 14`. */
  lemma FieldSplit(low: nat, high: nat)
    requires low < 0x4000
    ensures (low + 0x4000 * high) % 0x4000 == low
    ensures (low + 0x4000 * high) / 0x4000 == high
  {
  }

  /** The field `0x00130063` holds width minus one 99 and height minus one
      76. */
  lemma Vp8lFieldExample(tail: seq<byte>)
    requires |tail| >= 1
    ensures Vp8lSize([0x63, 0x00, 0x13, 0x00] + tail) == Size(100, 77)
  {
    var p := [0x63, 0x00, 0x13, 0x00] + tail;
    assert p[..4] == [0x63, 0x00, 0x13, 0x00];
    assert LittleEndian(p[..4]) == 0x0013_0063 by {
      var f: seq<byte> := [0x63, 0x00, 0x13, 0x00];
      assert f[1..][1..][1..][1..] == [];
    }
  }

  /** A lossless bitstream as RFC 9649 section 3 lays it out: the signature
      byte `2F`, then width and height minus one in 14 bits each, the alpha
      bit and the 3-bit version. */
  function StandardVp8lPayload(width: nat, height: nat, alpha: nat, version: nat): (p: seq<byte>)
    requires 1 <= width <= 0x4000 && 1 <= height <= 0x4000 && alpha < 2 && version < 8
    ensures |p| == 5 && p[0] == 0x2F
  {
    Pow256Values();
    [0x2F] + EncodeLittleEndian((width - 1) + 0x4000 * (height - 1) + 0x1000_0000 * alpha + 0x2000_0000 * version, 4)
  }

  /** Because the field is read from offset 0, the signature byte becomes the
      low byte of the width: any payload that starts with `2F` reports a
      width whose low byte is `30`, whatever the real width. */
  lemma SignatureByteInWidth(payload: seq<byte>)
    requires |payload| >= 5 && payload[0] == 0x2F
    ensures Vp8lSize(payload).width % 256 == 0x30
  {
    var field := payload[..4];
    var high := LittleEndian(field[1..]);
    assert LittleEndian(field) == 0x2F + 256 * high;
    LowByteOfField(0x2F, high);
  }

  /** The low byte of a value survives `& 0x3FFF`, and adding one to the
      field adds one to that byte when it is below `FF`. */
  lemma LowByteOfField(low: nat, high: nat)
    requires low < 255
    ensures ((low + 256 * high) % 0x4000 + 1) % 256 == low + 1
  {
    var v := low + 256 * high;
    var m := high % 64;
    assert v % 0x4000 == low + 256 * m by {
      assert v == low + 256 * m + 0x4000 * (high / 64);
    }
    assert low + 256 * m + 1 == (low + 1) + 256 * m;
  }

  /** A 1 x 1 lossless image in the standard layout is reported as 48 x 1. */
  lemma OneByOneLosslessMisread()
    ensures Vp8lSize(StandardVp8lPayload(1, 1, 0, 0)) == Size(48, 1)
  {
    var p := StandardVp8lPayload(1, 1, 0, 0);
    assert EncodeLittleEndian(0, 4) == [0, 0, 0, 0];
    assert p[..4] == [0x2F, 0, 0, 0];
    assert LittleEndian(p[..4]) == 0x2F;
  }

  /** The chunk a WebP encoder writes for an image payload: the size field
      holds the payload's length, and an odd-sized payload gets a zero pad. */
  function ImageChunk(kind: seq<byte>, payload: seq<byte>): (c: Chunk)
    requires |kind| == 4 && |payload| < 0x1_0000_0000
    ensures WellFormed(c)
  {
    Pow256Values();
    Chunk(kind, EncodeLittleEndian(|payload|, 4), payload, Repeat(0, |payload| % 2))
  }

  /** A file whose first image chunk is an extended header reads back the
      canvas size. */
  lemma ReadsVp8xFile(riffSize: seq<byte>, cs: seq<Chunk>, rest: seq<byte>, flags: seq<byte>, width: nat, height: nat)
    requires |riffSize| == 4 && AllInert(cs) && |flags| == 4
    requires 1 <= width <= 0x100_0000 && 1 <= height <= 0x100_0000
    ensures ReadWebp(EncodeFile(riffSize, EncodeChunks(cs) + EncodeChunk(ImageChunk(Vp8xTag, Vp8xPayload(flags, width, height))) + rest))
      == Success(Size(width, height))
  {
    var c := ImageChunk(Vp8xTag, Vp8xPayload(flags, width, height));
    Vp8xRoundTrip(flags, width, height, c.pad);
    RoundTrip(riffSize, cs, c, rest);
  }

  /** A file whose first image chunk is a lossy bitstream reads back its
      width and height fields. */
  lemma ReadsVp8File(riffSize: seq<byte>, cs: seq<Chunk>, rest: seq<byte>, frameStart: seq<byte>, width: nat, height: nat)
    requires |riffSize| == 4 && AllInert(cs) && |frameStart| == 6
    requires width < 0x1_0000 && height < 0x1_0000
    ensures ReadWebp(EncodeFile(riffSize, EncodeChunks(cs) + EncodeChunk(ImageChunk(Vp8Tag, Vp8Payload(frameStart, width, height))) + rest))
      == Success(Size(width, height))
  {
    var c := ImageChunk(Vp8Tag, Vp8Payload(frameStart, width, height));
    Vp8RoundTrip(frameStart, width, height, c.pad);
    RoundTrip(riffSize, cs, c, rest);
  }

  /** A file whose first image chunk is a lossless bitstream, in the layout
      read here, reads back its width and height. */
  lemma ReadsVp8lFile(riffSize: seq<byte>, cs: seq<Chunk>, rest: seq<byte>, top: nat, tail: seq<byte>, width: nat, height: nat)
    requires |riffSize| == 4 && AllInert(cs) && top < 16 && 1 <= |tail| && 4 + |tail| < 0x1_0000_0000
    requires 1 <= width <= 0x4000 && 1 <= height <= 0x4000
    ensures ReadWebp(EncodeFile(riffSize, EncodeChunks(cs) + EncodeChunk(ImageChunk(Vp8lTag, Vp8lPayload(width, height, top, tail))) + rest))
      == Success(Size(width, height))
  {
    var c := ImageChunk(Vp8lTag, Vp8lPayload(width, height, top, tail));
    Vp8lRoundTrip(width, height, top, tail + c.pad);
    assert Vp8lPayload(width, height, top, tail) + c.pad == Vp8lPayload(width, height, top, tail + c.pad);
    RoundTrip(riffSize, cs, c, rest);
  }

  /** The same image written as an extended chunk, a lossy chunk or a
      lossless chunk in the layout read here (field at offset 0), after any
      inert chunks and before anything at all, is read as the same width and
      height. A lossless chunk in the standard layout does not agree:
      `OneByOneLosslessMisread`. */
  lemma CrossFormat(
    riffSize: seq<byte>, cs: seq<Chunk>, rest: seq<byte>, width: nat, height: nat,
    flags: seq<byte>, frameStart: seq<byte>, top: nat, tail: seq<byte>)
    requires |riffSize| == 4 && AllInert(cs)
    requires 1 <= width <= 0x4000 && 1 <= height <= 0x4000
    requires |flags| == 4 && |frameStart| == 6 && top < 16 && 1 <= |tail| && 4 + |tail| < 0x1_0000_0000
    ensures
      var x := ReadWebp(EncodeFile(riffSize, EncodeChunks(cs) + EncodeChunk(ImageChunk(Vp8xTag, Vp8xPayload(flags, width, height))) + rest));
      var v := ReadWebp(EncodeFile(riffSize, EncodeChunks(cs) + EncodeChunk(ImageChunk(Vp8Tag, Vp8Payload(frameStart, width, height))) + rest));
      var l := ReadWebp(EncodeFile(riffSize, EncodeChunks(cs) + EncodeChunk(ImageChunk(Vp8lTag, Vp8lPayload(width, height, top, tail))) + rest));
      x == v == l == Success(Size(width, height))
  {
    ReadsVp8xFile(riffSize, cs, rest, flags, width, height);
    ReadsVp8File(riffSize, cs, rest, frameStart, width, height);
    ReadsVp8lFile(riffSize, cs, rest, top, tail, width, height);
  }
}
