/** A writer for WebP files and the proofs that the chunk walk of
    `read_image_size` reads back what it writes: chunks that carry no
    dimensions are stepped over by their padded size, and the first image
    chunk yields its width and height. */
module WebPChunks {
  import opened Wrappers
  import opened Bytes
  import opened ImageTypes
  import opened WebP

  /** A RIFF chunk: four-character type, four-byte little-endian size field,
      payload, and the pad byte an odd-sized payload is followed by. */
  datatype Chunk = Chunk(kind: seq<byte>, sizeField: seq<byte>, payload: seq<byte>, pad: seq<byte>)

  /** A chunk laid out as RIFF requires: the size field counts the payload,
      and one pad byte follows exactly the odd-sized payloads. */
  predicate WellFormed(c: Chunk)
  {
    && |c.kind| == 4
    && |c.sizeField| == 4
    && LittleEndian(c.sizeField) == |c.payload|
    && |c.pad| == |c.payload| % 2
  }

  function EncodeChunk(c: Chunk): (e: seq<byte>)
    ensures |e| == |c.kind| + |c.sizeField| + |c.payload| + |c.pad|
  {
    c.kind + (c.sizeField + (c.payload + c.pad))
  }

  /** A well-formed chunk the walk does not stop at. The pad byte is read with
      the payload, so it counts towards the length test. */
  predicate Inert(c: Chunk)
  {
    WellFormed(c) && !CarriesDimensions(c.kind, |c.payload| + |c.pad|)
  }

  /** Every chunk of the list is inert. */
  predicate AllInert(cs: seq<Chunk>)
  {
    cs == [] || (Inert(cs[0]) && AllInert(cs[1..]))
  }

  function EncodeChunks(cs: seq<Chunk>): seq<byte>
  {
    if cs == [] then [] else EncodeChunk(cs[0]) + EncodeChunks(cs[1..])
  }

  /** A WebP file: `RIFF`, the (ignored) size field, `WEBP`, the chunks. */
  function EncodeFile(riffSize: seq<byte>, body: seq<byte>): (e: seq<byte>)
    ensures |e| == 8 + |riffSize| + |body|
  {
    RiffTag + (riffSize + (WebpTag + body))
  }

  /** Where the header fields and the padded payload of a chunk lie. */
  lemma ChunkLayout(data: seq<byte>, p: nat, c: Chunk, r: nat)
    requires WellFormed(c)
    requires r == p + |EncodeChunk(c)| && r <= |data|
    requires data[p..r] == EncodeChunk(c)
    ensures r == p + 8 + Padded(|c.payload|)
    ensures data[p..p + 4] == c.kind
    ensures LittleEndian(data[p + 4..p + 8]) == |c.payload|
    ensures Read(data, p + 8, Padded(|c.payload|)) == c.payload + c.pad
  {
    SplitSlice(data, p, c.kind, c.sizeField + (c.payload + c.pad));
    SplitSlice(data, p + 4, c.sizeField, c.payload + c.pad);
  }

  /** A turn that continues at `q` leaves the walk's outcome unchanged. */
  lemma WalkContinues(data: seq<byte>, p: nat, q: nat)
    requires ChunkStep(data, p) == Next(q)
    ensures Scan(data, p) == Scan(data, q)
  {
  }

  /** An inert chunk, from `p` to `r`, is stepped over as a whole. */
  lemma SkipsChunk(data: seq<byte>, p: nat, c: Chunk, r: nat)
    requires Inert(c)
    requires r == p + |EncodeChunk(c)| && r <= |data|
    requires data[p..r] == EncodeChunk(c)
    ensures Scan(data, p) == Scan(data, r)
  {
    ChunkLayout(data, p, c, r);
    WalkContinues(data, p, r);
  }

  /** Where the first chunk and the rest of an encoded list lie. */
  lemma ChunksLayout(data: seq<byte>, p: nat, cs: seq<Chunk>, r: nat) returns (q: nat)
    requires cs != [] && AllInert(cs)
    requires r == p + |EncodeChunks(cs)| && r <= |data|
    requires data[p..r] == EncodeChunks(cs)
    ensures Inert(cs[0]) && AllInert(cs[1..])
    ensures q == p + |EncodeChunk(cs[0])| && q + |EncodeChunks(cs[1..])| == r
    ensures data[p..q] == EncodeChunk(cs[0])
    ensures data[q..r] == EncodeChunks(cs[1..])
  {
    q := p + |EncodeChunk(cs[0])|;
    SplitSlice(data, p, EncodeChunk(cs[0]), EncodeChunks(cs[1..]));
  }

  /** A list of inert chunks, from `p` to `r`, is stepped over. */
  lemma {:induction false} SkipsChunks(data: seq<byte>, p: nat, cs: seq<Chunk>, r: nat)
    requires AllInert(cs)
    requires r == p + |EncodeChunks(cs)| && r <= |data|
    requires data[p..r] == EncodeChunks(cs)
    ensures Scan(data, p) == Scan(data, r)
    decreases |cs|
  {
    if cs != [] {
      var q := ChunksLayout(data, p, cs, r);
      SkipsChunk(data, p, cs[0], q);
      SkipsChunks(data, q, cs[1..], r);
    }
  }

  /** A well-formed image chunk at `p` ends the walk with its dimensions. */
  lemma ReadsChunk(data: seq<byte>, p: nat, c: Chunk, r: nat)
    requires WellFormed(c) && Dimensions(c.kind, c.payload + c.pad).Some?
    requires r == p + |EncodeChunk(c)| && r <= |data|
    requires data[p..r] == EncodeChunk(c)
    ensures Scan(data, p) == Success(Dimensions(c.kind, c.payload + c.pad).value)
  {
    ChunkLayout(data, p, c, r);
  }

  /** Past the container header the walk begins at offset 12. */
  lemma StartsWalk(riffSize: seq<byte>, body: seq<byte>)
    requires |riffSize| == 4
    ensures ReadWebp(EncodeFile(riffSize, body)) == Scan(EncodeFile(riffSize, body), 12)
  {
    var data := EncodeFile(riffSize, body);
    assert data[..4] == RiffTag && data[8..12] == WebpTag;
  }

  /** `data` has a valid container header, `chunks` from offset 12 and
      `image` right after them. */
  predicate FileLaidOut(data: seq<byte>, chunks: seq<byte>, image: seq<byte>)
  {
    && 12 + |chunks| + |image| <= |data|
    && data[..4] == RiffTag && data[8..12] == WebpTag
    && data[12..12 + |chunks|] == chunks
    && data[12 + |chunks|..12 + |chunks| + |image|] == image
  }

  /** Where the header, the inert chunks and the image chunk of a file lie. */
  lemma FileLayout(riffSize: seq<byte>, chunks: seq<byte>, image: seq<byte>, rest: seq<byte>)
    requires |riffSize| == 4
    ensures FileLaidOut(EncodeFile(riffSize, chunks + image + rest), chunks, image)
  {
    var data := EncodeFile(riffSize, chunks + image + rest);
    HeaderAt(riffSize, chunks + image + rest);
    assert data[12..] == chunks + image + rest;
    assert data[12..12 + |chunks|] == data[12..][..|chunks|];
    assert data[12 + |chunks|..12 + |chunks| + |image|] == data[12..][|chunks|..|chunks| + |image|];
  }

  /** `data` is laid out as `FileLaidOut` says and ends with `present` right
      after `head`. */
  predicate CutFileLaidOut(data: seq<byte>, chunks: seq<byte>, head: seq<byte>, present: seq<byte>)
  {
    && FileLaidOut(data, chunks, head)
    && 12 + |chunks| + |head| + |present| == |data|
    && data[12 + |chunks| + |head|..] == present
  }

  /** Where the header, the inert chunks, a chunk header and the bytes after
      it lie in a file that ends with those bytes. */
  lemma CutFileLayout(riffSize: seq<byte>, chunks: seq<byte>, head: seq<byte>, present: seq<byte>)
    requires |riffSize| == 4
    ensures CutFileLaidOut(EncodeFile(riffSize, chunks + head + present), chunks, head, present)
  {
    var data := EncodeFile(riffSize, chunks + head + present);
    FileLayout(riffSize, chunks, head, present);
    assert data[12..] == chunks + head + present;
    assert data[12 + |chunks| + |head|..] == data[12..][|chunks| + |head|..];
  }

  /** Writing inert chunks and then an image chunk, and reading the file,
      returns the image chunk's dimensions, whatever the RIFF size field says
      and whatever follows the image chunk. */
  lemma RoundTrip(riffSize: seq<byte>, cs: seq<Chunk>, c: Chunk, rest: seq<byte>)
    requires |riffSize| == 4
    requires AllInert(cs)
    requires WellFormed(c) && Dimensions(c.kind, c.payload + c.pad).Some?
    ensures ReadWebp(EncodeFile(riffSize, EncodeChunks(cs) + EncodeChunk(c) + rest))
      == Success(Dimensions(c.kind, c.payload + c.pad).value)
  {
    var chunks := EncodeChunks(cs);
    var image := EncodeChunk(c);
    var data := EncodeFile(riffSize, chunks + image + rest);
    FileLayout(riffSize, chunks, image, rest);
    ReadsLaidOutFile(data, cs, c);
  }

  /** The container header of a file. */
  lemma HeaderAt(riffSize: seq<byte>, body: seq<byte>)
    requires |riffSize| == 4
    ensures EncodeFile(riffSize, body)[..4] == RiffTag
    ensures EncodeFile(riffSize, body)[8..12] == WebpTag
  {
  }

  /** Data with a valid container header is walked from offset 12. */
  lemma WalksFrom12(data: seq<byte>)
    requires |data| >= 12 && data[..4] == RiffTag && data[8..12] == WebpTag
    ensures ReadWebp(data) == Scan(data, 12)
  {
  }

  /** Data with a valid container header, inert chunks from offset 12 and
      then a well-formed image chunk reads as that chunk's dimensions. */
  lemma ReadsLaidOutFile(data: seq<byte>, cs: seq<Chunk>, c: Chunk)
    requires FileLaidOut(data, EncodeChunks(cs), EncodeChunk(c))
    requires AllInert(cs)
    requires WellFormed(c) && Dimensions(c.kind, c.payload + c.pad).Some?
    ensures ReadWebp(data) == Success(Dimensions(c.kind, c.payload + c.pad).value)
  {
    var p := 12 + |EncodeChunks(cs)|;
    WalksFrom12(data);
    SkipsChunks(data, 12, cs, p);
    ReadsChunk(data, p, c, p + |EncodeChunk(c)|);
  }

  /** A file of inert chunks only ends in 'Could not determine WebP
      dimensions'. */
  lemma NoImageChunk(riffSize: seq<byte>, cs: seq<Chunk>)
    requires |riffSize| == 4
    requires AllInert(cs)
    ensures ReadWebp(EncodeFile(riffSize, EncodeChunks(cs))) == Failure(WebpDimensionsNotFound)
  {
    var chunks := EncodeChunks(cs);
    var data := EncodeFile(riffSize, chunks);
    StartsWalk(riffSize, chunks);
    BodyAt(riffSize, chunks);
    SkipsChunks(data, 12, cs, |data|);
    WalkEnds(data);
  }

  /** The body of a file starts at offset 12 and runs to the end. */
  lemma BodyAt(riffSize: seq<byte>, body: seq<byte>)
    requires |riffSize| == 4
    ensures |EncodeFile(riffSize, body)| == 12 + |body|
    ensures EncodeFile(riffSize, body)[12..12 + |body|] == body
  {
    assert EncodeFile(riffSize, body)[12..] == body;
  }

  /** At the end of the data the walk has found nothing. */
  lemma WalkEnds(data: seq<byte>)
    ensures Scan(data, |data|) == Failure(WebpDimensionsNotFound)
  {
    assert ChunkStep(data, |data|) == End;
  }

  /** An image chunk whose size field runs past the end of the file is read
      over the bytes that are left: when they are enough for the tag's
      dimensions, the walk ends with them rather than with an error. */
  lemma TruncatedImageChunk(riffSize: seq<byte>, cs: seq<Chunk>, kind: seq<byte>, sizeField: seq<byte>, present: seq<byte>)
    requires |riffSize| == 4 && AllInert(cs)
    requires |kind| == 4 && |sizeField| == 4
    requires |present| < Padded(LittleEndian(sizeField))
    requires Dimensions(kind, present).Some?
    ensures ReadWebp(EncodeFile(riffSize, EncodeChunks(cs) + (kind + sizeField) + present))
      == Success(Dimensions(kind, present).value)
  {
    var chunks := EncodeChunks(cs);
    var head := kind + sizeField;
    var data := EncodeFile(riffSize, chunks + head + present);
    CutFileLayout(riffSize, chunks, head, present);
    ReadsCutFile(data, cs, kind, sizeField, present);
  }

  /** Data with a valid container header, inert chunks from offset 12, then a
      chunk header and the last bytes of the data, fewer than its padded size
      field claims, reads as the dimensions those bytes carry. */
  lemma ReadsCutFile(data: seq<byte>, cs: seq<Chunk>, kind: seq<byte>, sizeField: seq<byte>, present: seq<byte>)
    requires CutFileLaidOut(data, EncodeChunks(cs), kind + sizeField, present)
    requires AllInert(cs) && |kind| == 4 && |sizeField| == 4
    requires |present| < Padded(LittleEndian(sizeField))
    requires Dimensions(kind, present).Some?
    ensures ReadWebp(data) == Success(Dimensions(kind, present).value)
  {
    var p := 12 + |EncodeChunks(cs)|;
    WalksFrom12(data);
    SkipsChunks(data, 12, cs, p);
    ReadsCutChunk(data, p, kind, sizeField, present);
  }

  /** A chunk header at `p` followed by the last bytes of the data, fewer
      than its padded size field claims: the payload read is those bytes. */
  lemma ReadsCutChunk(data: seq<byte>, p: nat, kind: seq<byte>, sizeField: seq<byte>, present: seq<byte>)
    requires |kind| == 4 && |sizeField| == 4
    requires p + 8 + |present| == |data|
    requires data[p..p + 8] == kind + sizeField
    requires data[p + 8..] == present
    requires |present| < Padded(LittleEndian(sizeField))
    ensures ChunkStep(data, p) == match Dimensions(kind, present)
      case Some(size) => Found(size)
      case None => Next(|data|)
  {
    assert data[p..p + 4] == data[p..p + 8][..4] == kind;
    assert data[p + 4..p + 8] == data[p..p + 8][4..] == sizeField;
    assert Read(data, p + 8, Padded(LittleEndian(sizeField))) == present;
  }

  /** An image chunk cut short by the end of the file below its tag's length
      test (10 bytes for `VP8X` and `VP8 `, 5 for `VP8L`) is stepped over,
      and the walk fails with 'Could not determine WebP dimensions'. */
  lemma ShortImageChunk(riffSize: seq<byte>, cs: seq<Chunk>, kind: seq<byte>, sizeField: seq<byte>, present: seq<byte>)
    requires |riffSize| == 4 && AllInert(cs)
    requires |kind| == 4 && |sizeField| == 4
    requires |present| < Padded(LittleEndian(sizeField))
    requires Dimensions(kind, present).None?
    ensures ReadWebp(EncodeFile(riffSize, EncodeChunks(cs) + (kind + sizeField) + present))
      == Failure(WebpDimensionsNotFound)
  {
    var chunks := EncodeChunks(cs);
    var head := kind + sizeField;
    var data := EncodeFile(riffSize, chunks + head + present);
    CutFileLayout(riffSize, chunks, head, present);
    ReadsShortFile(data, cs, kind, sizeField, present);
  }

  /** Data laid out as for `ReadsCutFile`, but whose last bytes do not carry
      dimensions, fails with 'Could not determine WebP dimensions'. */
  lemma ReadsShortFile(data: seq<byte>, cs: seq<Chunk>, kind: seq<byte>, sizeField: seq<byte>, present: seq<byte>)
    requires CutFileLaidOut(data, EncodeChunks(cs), kind + sizeField, present)
    requires AllInert(cs) && |kind| == 4 && |sizeField| == 4
    requires |present| < Padded(LittleEndian(sizeField))
    requires Dimensions(kind, present).None?
    ensures ReadWebp(data) == Failure(WebpDimensionsNotFound)
  {
    var p := 12 + |EncodeChunks(cs)|;
    WalksFrom12(data);
    SkipsChunks(data, 12, cs, p);
    ReadsCutChunk(data, p, kind, sizeField, present);
    WalkContinues(data, p, |data|);
    WalkEnds(data);
  }

  /** A `VP8X` chunk that declares 10 payload bytes, in a file that ends
      after 9 of them, is not read as a size: the walk fails. */
  lemma ShortVp8xExample(riffSize: seq<byte>)
    requires |riffSize| == 4
    ensures ReadWebp(EncodeFile(riffSize, Vp8xTag + [10, 0, 0, 0] + [0, 0, 0, 0, 9, 0, 0, 4, 0]))
      == Failure(WebpDimensionsNotFound)
  {
    var sizeField: seq<byte> := [10, 0, 0, 0];
    var present: seq<byte> := [0, 0, 0, 0, 9, 0, 0, 4, 0];
    var head := Vp8xTag + sizeField;
    assert EncodeChunks([]) + head + present == head + present by {
      assert EncodeChunks([]) == [];
    }
    assert LittleEndian(sizeField) == 10 by {
      assert sizeField[1..][1..][1..][1..] == [];
    }
    ShortImageChunk(riffSize, [], Vp8xTag, sizeField, present);
  }

  /** A `VP8X` chunk that declares 18 payload bytes, in a file that ends
      after 10 of them, gives the canvas size 10 x 5. */
  lemma TruncatedVp8xExample(riffSize: seq<byte>)
    requires |riffSize| == 4
    ensures ReadWebp(EncodeFile(riffSize, Vp8xTag + [18, 0, 0, 0] + [0, 0, 0, 0, 9, 0, 0, 4, 0, 0]))
      == Success(Size(10, 5))
  {
    var sizeField: seq<byte> := [18, 0, 0, 0];
    var present: seq<byte> := [0, 0, 0, 0, 9, 0, 0, 4, 0, 0];
    var head := Vp8xTag + sizeField;
    assert EncodeChunks([]) + head + present == head + present by {
      assert EncodeChunks([]) == [];
    }
    Vp8xExampleFields(sizeField, present);
    TruncatedImageChunk(riffSize, [], Vp8xTag, sizeField, present);
  }

  /** The size field and the canvas fields of the example. */
  lemma Vp8xExampleFields(sizeField: seq<byte>, present: seq<byte>)
    requires sizeField == [18, 0, 0, 0] && present == [0, 0, 0, 0, 9, 0, 0, 4, 0, 0]
    ensures LittleEndian(sizeField) == 18
    ensures Dimensions(Vp8xTag, present) == Some(Size(10, 5))
  {
    assert sizeField[1..][1..][1..][1..] == [];
    var w: seq<byte> := [9, 0, 0];
    var h: seq<byte> := [4, 0, 0];
    assert present[4..7] == w && present[7..10] == h;
    assert LittleEndian(w) == 9 by { assert w[1..][1..][1..] == []; }
    assert LittleEndian(h) == 4 by { assert h[1..][1..][1..] == []; }
  }
}
