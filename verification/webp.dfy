/** The WebP branch of `read_image_size`: check the RIFF container and the
    `WEBP` form type, then walk the RIFF chunks until the first `VP8X`,
    `VP8 ` or `VP8L` chunk whose payload is long enough to hold dimensions. */
module WebP {
  import opened Wrappers
  import opened Bytes
  import opened ImageTypes

  /** The four-character codes, as ASCII bytes. */
  const RiffTag: seq<byte> := [0x52, 0x49, 0x46, 0x46]   // "RIFF"
  const WebpTag: seq<byte> := [0x57, 0x45, 0x42, 0x50]   // "WEBP"
  const Vp8xTag: seq<byte> := [0x56, 0x50, 0x38, 0x58]   // "VP8X"
  const Vp8Tag: seq<byte> := [0x56, 0x50, 0x38, 0x20]    // "VP8 "
  const Vp8lTag: seq<byte> := [0x56, 0x50, 0x38, 0x4C]   // "VP8L"

  /** The extended-format header: canvas width and height minus one, as
      24-bit little-endian fields at payload offsets 4 and 7. */
  function Vp8xSize(payload: seq<byte>): (s: Size)
    requires |payload| >= 10
    ensures 1 <= s.width <= 0x100_0000 && 1 <= s.height <= 0x100_0000
  {
    Pow256Values();
    Size(1 + LittleEndian(payload[4..7]), 1 + LittleEndian(payload[7..10]))
  }

  /** The lossy bitstream header: width and height as 16-bit little-endian
      fields at payload offsets 6 and 8, taken whole. `b0 | (b1 << 8)` of two
      bytes is `b0 + 256 * b1`; the two top (scale) bits are not masked. */
  function Vp8Size(payload: seq<byte>): (s: Size)
    requires |payload| >= 10
    ensures s.width < 0x1_0000 && s.height < 0x1_0000
  {
    Size(payload[6] + 256 * (payload[7] as int), payload[8] + 256 * (payload[9] as int))
  }

  /** The lossless header as read here: a 32-bit little-endian field from
      payload offset 0, width minus one in its low 14 bits and height minus
      one in the next 14. `bits & 0x3FFF` is `bits % 0x4000` and `bits >> 14`
      is `bits / 0x4000` for the non-negative `bits`. */
  function Vp8lSize(payload: seq<byte>): (s: Size)
    requires |payload| >= 5
    ensures 1 <= s.width <= 0x4000 && 1 <= s.height <= 0x4000
  {
    var bits := LittleEndian(payload[..4]);
    Size(bits % 0x4000 + 1, (bits / 0x4000) % 0x4000 + 1)
  }

  /** A chunk of type `kind` with `n` payload bytes read carries dimensions:
      it is `VP8X` or `VP8 ` with at least 10 bytes, or `VP8L` with at least
      5. */
  predicate CarriesDimensions(kind: seq<byte>, n: nat)
  {
    || (kind == Vp8xTag && n >= 10)
    || (kind == Vp8Tag && n >= 10)
    || (kind == Vp8lTag && n >= 5)
  }

  /** The dimensions a chunk of type `kind` carries in the `payload` read for
      it, tested in the order `VP8X`, `VP8 `, `VP8L`; `None` for any other
      chunk and for one whose payload is too short. */
  function Dimensions(kind: seq<byte>, payload: seq<byte>): (d: Option<Size>)
    ensures d.Some? <==> CarriesDimensions(kind, |payload|)
  {
    if kind == Vp8xTag && |payload| >= 10 then Some(Vp8xSize(payload))
    else if kind == Vp8Tag && |payload| >= 10 then Some(Vp8Size(payload))
    else if kind == Vp8lTag && |payload| >= 5 then Some(Vp8lSize(payload))
    else None
  }

  /** A chunk's payload plus the pad byte that keeps chunks at even offsets. */
  function Padded(size: nat): (n: nat)
    ensures n % 2 == 0 && size <= n <= size + 1
  {
    size + size % 2
  }

  /** One turn of the chunk loop: dimensions found, the next chunk header's
      position, or the end of the walk. */
  datatype Step = Found(size: Size) | Next(pos: nat) | End

  /** One turn of the chunk loop with the file cursor at `pos`. The padded
      payload is read over whatever bytes exist; a short read leaves the
      cursor at the end, where the next header read comes back short. */
  function ChunkStep(data: seq<byte>, pos: nat): (s: Step)
    ensures s.End? <==> pos + 8 > |data|
    ensures s.Next? ==> pos + 8 <= s.pos <= |data|
    ensures s.Next? ==> s.pos == Min(pos + 8 + Padded(LittleEndian(data[pos + 4..pos + 8])), |data|)
    ensures s.Found? ==> Some(s.size) == Dimensions(data[pos..pos + 4],
      Read(data, pos + 8, Padded(LittleEndian(data[pos + 4..pos + 8]))))
    ensures s.Next? ==> Dimensions(data[pos..pos + 4],
      Read(data, pos + 8, Padded(LittleEndian(data[pos + 4..pos + 8])))) == None
  {
    var header := Read(data, pos, 8);
    if |header| < 8 then End
    else
      assert header[..4] == data[pos..pos + 4] && header[4..] == data[pos + 4..pos + 8];
      var payload := Read(data, pos + 8, Padded(LittleEndian(header[4..])));
      match Dimensions(header[..4], payload)
      case Some(size) => Found(size)
      case None => Next(pos + 8 + |payload|)
  }

  /** The chunk walk from cursor `pos`: it ends, failing with 'Could not
      determine WebP dimensions', when fewer than eight bytes remain. */
  function Scan(data: seq<byte>, pos: nat): (r: SizeResult)
    ensures r.Failure? ==> r.error == WebpDimensionsNotFound
    ensures r.Success? ==> r.value.width <= 0x100_0000 && r.value.height <= 0x100_0000
    decreases if pos <= |data| then |data| - pos else 0
  {
    match ChunkStep(data, pos)
    case Found(size) => Success(size)
    case End => Failure(WebpDimensionsNotFound)
    case Next(p) => Scan(data, p)
  }

  /** The WebP branch of `read_image_size`: `RIFF` at offset 0 and `WEBP` at
      offset 8 (the RIFF size field between them is ignored) decide between
      'Not a WebP file' and the chunk walk from offset 12. */
  function ReadWebp(data: seq<byte>): (r: SizeResult)
    ensures r == Failure(NotWebp) <==>
      !(|data| >= 12 && data[..4] == RiffTag && data[8..12] == WebpTag)
    ensures r.Failure? ==> r.error == NotWebp || r.error == WebpDimensionsNotFound
  {
    var header := Read(data, 0, 12);
    assert |data| >= 12 ==> Read(header, 0, 4) == data[..4] && Read(header, 8, 4) == data[8..12];
    if Read(header, 0, 4) != RiffTag || Read(header, 8, 4) != WebpTag then Failure(NotWebp)
    else Scan(data, |header|)
  }
}
