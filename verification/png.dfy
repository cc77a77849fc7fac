/** The PNG branch of `read_image_size`: the first 24 bytes hold the
    signature and, in the IHDR chunk, the big-endian width and height. */
module Png {
  import opened Wrappers
  import opened Bytes
  import opened ImageTypes

  /** The eight-byte PNG signature `89 50 4E 47 0D 0A 1A 0A`. */
  const Signature: seq<byte> := [0x89, 0x50, 0x4E, 0x47, 0x0D, 0x0A, 0x1A, 0x0A]

  /** Reads at most 24 bytes; the signature decides between 'Not a PNG file'
      and a size read from offsets 16 and 20. A header cut short is not an
      error: the slices are whatever bytes exist, so missing dimension bytes
      shrink (or zero) the value. */
  function ReadPng(data: seq<byte>): (r: SizeResult)
    ensures r.Success? <==> |data| >= 8 && data[..8] == Signature
    ensures r.Failure? ==> r.error == NotPng
    ensures r.Success? ==> r.value.width < 0x1_0000_0000 && r.value.height < 0x1_0000_0000
    ensures r.Success? && |data| >= 24 ==>
      r.value == Size(BigEndian(data[16..20]), BigEndian(data[20..24]))
  {
    var header := Read(data, 0, 24);
    assert |data| >= 8 ==> Read(header, 0, 8) == data[..8];
    if Read(header, 0, 8) != Signature then Failure(NotPng)
    else
      var widthBytes := Read(header, 16, 4);
      var heightBytes := Read(header, 20, 4);
      Pow256Values();
      Pow256Monotone(|widthBytes|, 4);
      Pow256Monotone(|heightBytes|, 4);
      assert |data| >= 24 ==> widthBytes == data[16..20] && heightBytes == data[20..24];
      Success(Size(BigEndian(widthBytes), BigEndian(heightBytes)))
  }

  /** Whatever the length of the data, a PNG with a valid signature reports
      the big-endian values of the (possibly short or empty) fields at
      offsets 16 and 20 of the file. */
  lemma ReadsFieldsAsTheyExist(data: seq<byte>)
    ensures ReadPng(data).Success? ==>
      ReadPng(data).value == Size(BigEndian(Read(data, 16, 4)), BigEndian(Read(data, 20, 4)))
  {
    ReadWithin(data, 24, 16, 4);
    ReadWithin(data, 24, 20, 4);
  }

  /** A PNG stream starting the way every PNG encoder writes it: the
      signature, the IHDR chunk length and type, then width and height as
      four-byte big-endian fields. */
  function EncodeHeader(lengthAndType: seq<byte>, width: nat, height: nat): (e: seq<byte>)
    requires |lengthAndType| == 8
    requires width < 0x1_0000_0000 && height < 0x1_0000_0000
    ensures |e| == 24
  {
    Pow256Values();
    Signature + lengthAndType + EncodeBigEndian(width, 4) + EncodeBigEndian(height, 4)
  }

  /** Any 32-bit width and height written after the signature are read back,
      whatever the chunk length and type bytes and whatever follows. */
  lemma RoundTrip(lengthAndType: seq<byte>, width: nat, height: nat, rest: seq<byte>)
    requires |lengthAndType| == 8
    requires width < 0x1_0000_0000 && height < 0x1_0000_0000
    ensures ReadPng(EncodeHeader(lengthAndType, width, height) + rest) == Success(Size(width, height))
  {
    Pow256Values();
    var data := EncodeHeader(lengthAndType, width, height) + rest;
    assert data[..8] == Signature;
    assert data[16..20] == EncodeBigEndian(width, 4);
    assert data[20..24] == EncodeBigEndian(height, 4);
  }

  /** A signature with at most eight further bytes carries no dimension bytes
      at all and reads as a 0 x 0 image rather than an error. */
  lemma TruncatedReadsAsEmpty(data: seq<byte>)
    requires 8 <= |data| <= 16 && data[..8] == Signature
    ensures ReadPng(data) == Success(Size(0, 0))
  {
    assert Read(Read(data, 0, 24), 16, 4) == [];
    assert Read(Read(data, 0, 24), 20, 4) == [];
  }

  /** A header cut after the width field reads as height 0 with the width
      intact. */
  lemma TruncatedAfterWidth(data: seq<byte>)
    requires |data| == 20 && data[..8] == Signature
    ensures ReadPng(data) == Success(Size(BigEndian(data[16..20]), 0))
  {
    assert Read(Read(data, 0, 24), 16, 4) == data[16..20];
    assert Read(Read(data, 0, 24), 20, 4) == [];
  }
}
