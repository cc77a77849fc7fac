# Image dimensions and manifest entries of the gallery builder

The gallery builder (`zenryukyo/tools/build_gallery.py`) scans a directory
of photos and writes `gallery.json`. For each photo it needs the width and
height. It asks Pillow first. When Pillow is missing or fails, it falls back
to `read_image_size`, a hand-written header parser. That parser picks a
format by the lower-cased file suffix:

- **JPEG**: it checks the start-of-image marker `FF D8`, then walks marker
  segments with a file cursor until the first start-of-frame marker. That
  marker's header gives the height and then the width.
- **PNG**: it checks the 8-byte signature and reads the two 32-bit
  big-endian fields at offsets 16 and 20.
- **WebP**: it checks `RIFF` and `WEBP`, then walks the RIFF chunks until the
  first `VP8X`, `VP8 ` or `VP8L` chunk whose payload is long enough.

Each photo then becomes a manifest entry: `GalleryItem.to_dict`, with alt
text from `describe_alt`.

This project models that core in Dafny as pure functions.

- File contents are byte sequences, and Python's `fp.read(n)` at a cursor is
  the clamped slice `Bytes.Read`.
- Each `ValueError` is one `ParseError` constructor inside a `Result`.
- Pillow is a parameter.

The model follows the code where the code departs from the format
standards:

- The `VP8L` field is read from payload offset 0. In the lossless layout of
  RFC 9649 section 3, offset 0 holds the signature byte `2F`, so the width is
  misread.
- The two scale bits of a `VP8 ` width or height field (RFC 6386 section
  9.1) are not masked off.
- A short read of a PNG dimension field, or of the height and width of a
  JPEG start-of-frame header cut after its length field, is not an error:
  a missing field reads as 0.
- A WebP image chunk whose size field runs past the end of the file is
  read over the bytes that are left. The chunk size is never checked
  against the file length, so such a file is not rejected as reading out of
  bounds. When the bytes left meet the tag's length test (10 for `VP8X` and
  `VP8 `, 5 for `VP8L`), the walk returns their dimensions. When they fall
  short, the chunk is stepped over and the walk ends in 'Could not determine
  WebP dimensions'.
- Short reads of structure end the parse with 'Could not determine ...
  dimensions': `FF` padding that runs to the end of a JPEG, a JPEG length
  field cut short (of a start-of-frame marker too), or a WebP chunk header of fewer than 8 bytes.
- A JPEG segment length below 2 moves the cursor by 0 bytes past the length
  field. A seek past the end of the file is legal.

Modules, one per file:

- `Wrappers`: `Option` and `Result`.
- `ImageTypes`: `Size`, `ParseError`.
- `Bytes`: bytes, clamped reads, big- and little-endian fields,
  `read_uint16_be`.
- `Paths`: `PurePath.suffix`, `PurePath.stem`, ASCII `str.lower`.
- `Jpeg`: the JPEG branch.
- `JpegSegments`: a JPEG writer and the proofs that the scan reads back what
  it writes.
- `Png`: the PNG branch.
- `WebP`: the WebP branch.
- `WebPChunks`: a RIFF chunk writer and the proofs that the chunk walk reads
  back what it writes.
- `WebPPayloads`: the three image payload layouts, and the same image in all
  three (the lossless one in the layout read here).
- `ImageSize`: `read_image_size` and `get_image_dimensions`.
- `Gallery`: `GalleryItem.to_dict`, its read-back, and `describe_alt`.

## Model

| member | source | states |
|---|---|---|
| Bytes.Read | zenryukyo/tools/build_gallery.py:141-165 | A read of n bytes at the cursor returns the n bytes there when they all exist, the rest of the file when fewer remain, and nothing past the end. |
| Bytes.BigEndian | zenryukyo/tools/build_gallery.py:156-159 | `int.from_bytes(..., 'big')` of n bytes is below 256^n, and `EncodeBigEndian` is its inverse (`BigEndianRoundTrip`). |
| Bytes.LittleEndian | zenryukyo/tools/build_gallery.py:185-189 | `int.from_bytes(..., 'little')` of n bytes is below 256^n, and `EncodeLittleEndian` is its inverse (`LittleEndianRoundTrip`). |
| Bytes.BigEndianRoundTrip | zenryukyo/tools/build_gallery.py:156-159 | Decoding a big-endian field and encoding the value back at the same width gives the same bytes. |
| Bytes.LittleEndianRoundTrip | zenryukyo/tools/build_gallery.py:185-196 | Decoding a little-endian field and encoding the value back at the same width gives the same bytes. |
| Bytes.EncodeBigEndian | zenryukyo/tools/build_gallery.py:156-159 | Every value below 256^n has an n-byte big-endian field that decodes to it. |
| Bytes.EncodeLittleEndian | zenryukyo/tools/build_gallery.py:185-196 | Every value below 256^n has an n-byte little-endian field that decodes to it. |
| Bytes.ReadUint16Be | zenryukyo/tools/build_gallery.py:121-122 | `read_uint16_be` is below 65536. It is high byte × 256 + low byte when both bytes exist, the single byte when only one remains, and 0 at or past the end. |
| Bytes.ReadWithin | zenryukyo/tools/build_gallery.py:169-173 | Slicing a header of n bytes read from the start finds the same bytes as reading the file at that offset, for any slice inside the header. |
| Bytes.ReadUint16BeRoundTrip | zenryukyo/tools/build_gallery.py:121-122 | A 16-bit field written at any offset is read back at that offset. |
| Jpeg.StartOfFrameCodes | zenryukyo/tools/build_gallery.py:127-130 | The frame test accepts exactly the thirteen listed start-of-frame codes. |
| Jpeg.SkipFill | zenryukyo/tools/build_gallery.py:146-148 | Skipping `FF` padding stops at the first byte that is not `FF`, or at the end of the data. |
| Jpeg.SkipFillPassesPadding | zenryukyo/tools/build_gallery.py:146-148 | Every byte the padding loop passes over is `FF`. |
| Jpeg.SkipFillStopsAt | zenryukyo/tools/build_gallery.py:146-148 | The padding loop stops at the first non-`FF` byte after a run of `FF`. |
| Jpeg.ScanStep | zenryukyo/tools/build_gallery.py:140-165 | A byte other than `FF` moves the cursor on by one. The loop breaks exactly at the end of the data, or at an `FF` whose padding and marker code leave fewer than two length bytes: padding that runs to the end, or a length field cut short. A turn that continues moves the cursor forward, and a frame it finds is after the cursor. |
| Jpeg.MarkerTurn | zenryukyo/tools/build_gallery.py:149-165 | The loop breaks exactly when the two length bytes after the marker code are missing, padding that runs to the end included. Otherwise a start-of-frame code gives a frame at that code, and any other code moves the cursor past it. |
| Jpeg.FrameTurn | zenryukyo/tools/build_gallery.py:152-160 | A start-of-frame marker never continues the loop. It returns a frame at its code exactly when both length bytes exist, however few header bytes follow, and breaks otherwise. |
| Jpeg.SegmentTurn | zenryukyo/tools/build_gallery.py:161-165 | Any other marker never returns a frame. The loop breaks exactly when the length field is cut short. Otherwise it resumes `max(length - 2, 0)` bytes past the field, strictly forward even for a length below 2. |
| Jpeg.FrameTurnReadsHeader | zenryukyo/tools/build_gallery.py:153-160 | The cursor threaded through the precision, height and width reads lands on offsets 4 and 6 past the code, even when the data runs out. The result is (width, height). |
| Jpeg.StepFindsFrame | zenryukyo/tools/build_gallery.py:140-160 | A frame found by one turn sits after an `FF` and is a start-of-frame code. Its header is read at the fixed offsets. |
| Jpeg.Scan | zenryukyo/tools/build_gallery.py:140-166 | The marker loop terminates. Its only failure is 'Could not determine JPEG dimensions'. |
| Jpeg.ScanFindsFrame | zenryukyo/tools/build_gallery.py:140-166 | A successful scan returns the header of a start-of-frame marker after the cursor. |
| Jpeg.ReadJpeg | zenryukyo/tools/build_gallery.py:136-166 | The result is 'Not a JPEG file' exactly when the data does not start with `FF D8`. Any other failure is 'Could not determine JPEG dimensions'. |
| Jpeg.ReadJpegFindsFrame | zenryukyo/tools/build_gallery.py:136-166 | A JPEG read successfully yields (width, height) from a start-of-frame header after the start-of-image marker. |
| Jpeg.NoFrameCodeNoDimensions | zenryukyo/tools/build_gallery.py:152-166 | Data with no start-of-frame code after the start marker is rejected, whatever its segments. |
| JpegSegments.SkipsStrayBytes | zenryukyo/tools/build_gallery.py:141-145 | Bytes other than `FF` between markers are stepped over without changing the outcome. |
| JpegSegments.MarkerStep | zenryukyo/tools/build_gallery.py:146-165 | A non-frame marker after any padding resumes `length - 2` bytes past its length field. |
| JpegSegments.SkipsSegment | zenryukyo/tools/build_gallery.py:141-165 | A well-formed non-frame segment is stepped over as a whole. |
| JpegSegments.SkipsSegments | zenryukyo/tools/build_gallery.py:140-165 | Any sequence of well-formed non-frame segments is stepped over. |
| JpegSegments.FrameStep | zenryukyo/tools/build_gallery.py:146-160 | At a frame marker after any padding, with both length bytes present, the turn returns (width, height) read over whatever bytes exist at offsets 6 and 4 past the code. |
| JpegSegments.ReadsFrame | zenryukyo/tools/build_gallery.py:141-160 | Stray bytes other than `FF`, then a complete frame header: the scan yields its width and height fields. |
| JpegSegments.ReadsFrameAt | zenryukyo/tools/build_gallery.py:146-160 | A complete frame header at the cursor yields its width and height fields. |
| JpegSegments.RoundTrip | zenryukyo/tools/build_gallery.py:136-166 | Start marker, any non-frame segments, a frame header, each possibly preceded by stray bytes other than `FF`, then anything at all: reading returns the frame's (width, height). |
| JpegSegments.TruncatedFrame | zenryukyo/tools/build_gallery.py:153-160 | Start marker, non-frame segments, a frame marker and its length field, then fewer than five bytes: reading succeeds with height and width read from the bytes left, a missing field being 0. |
| JpegSegments.ReadsCutFrame | zenryukyo/tools/build_gallery.py:153-160 | A frame marker and length field followed by the end of the data yield the fields read over the bytes left. |
| JpegSegments.CutAfterFrameLength | zenryukyo/tools/build_gallery.py:153-160 | `FF D8 FF C0 00 11` reads as 0 × 0, not as an error. |
| JpegSegments.CutLengthStep | zenryukyo/tools/build_gallery.py:152-163 | At any marker after padding, frame or not, a length field cut short by the end of the data breaks the loop. |
| JpegSegments.PaddingStep | zenryukyo/tools/build_gallery.py:146-150 | `FF` padding that runs to the end of the data breaks the loop. |
| JpegSegments.TruncatedSegment | zenryukyo/tools/build_gallery.py:161-166 | Start marker, non-frame segments, then a non-frame marker whose length field is cut short: 'Could not determine JPEG dimensions'. |
| JpegSegments.TruncatedFrameLength | zenryukyo/tools/build_gallery.py:152-166 | Start marker, non-frame segments, then a start-of-frame marker whose length field is cut short: the frame is never read, and the result is 'Could not determine JPEG dimensions'. |
| JpegSegments.TruncatedLength | zenryukyo/tools/build_gallery.py:146-166 | Start marker, non-frame segments, then any marker whose length field is cut short: 'Could not determine JPEG dimensions'. |
| JpegSegments.CutInFrameLength | zenryukyo/tools/build_gallery.py:152-166 | `FF D8 FF C0 00` is rejected with 'Could not determine JPEG dimensions'. |
| JpegSegments.PaddingToEnd | zenryukyo/tools/build_gallery.py:146-150 | Start marker, non-frame segments, then `FF` padding to the end: 'Could not determine JPEG dimensions'. |
| JpegSegments.NoFrame | zenryukyo/tools/build_gallery.py:140-166 | Start marker and non-frame segments only: reading fails with 'Could not determine JPEG dimensions'. |
| Png.ReadPng | zenryukyo/tools/build_gallery.py:167-174 | Success exactly when the 8-byte signature is present, else 'Not a PNG file'. The size is (field at 16, field at 20), big-endian, each below 2^32. |
| Png.RoundTrip | zenryukyo/tools/build_gallery.py:169-174 | Signature, any 8 bytes, width, height, anything after: reading returns that width and height. |
| Png.ReadsFieldsAsTheyExist | zenryukyo/tools/build_gallery.py:169-174 | For a file of any length with a valid signature, the size is the big-endian value of whatever bytes of the file lie at 16..20 and 20..24, so a missing field reads as 0. |
| Png.TruncatedReadsAsEmpty | zenryukyo/tools/build_gallery.py:169-174 | A valid signature with at most 16 bytes in all reads as 0 × 0, not as an error. |
| Png.TruncatedAfterWidth | zenryukyo/tools/build_gallery.py:172-173 | A 20-byte file reads its width and a height of 0. |
| WebP.Vp8xSize | zenryukyo/tools/build_gallery.py:187-190 | The extended header's canvas size is 1 to 2^24 in each dimension. |
| WebP.Vp8Size | zenryukyo/tools/build_gallery.py:191-194 | The lossy header's width and height are full 16-bit values. |
| WebP.Vp8lSize | zenryukyo/tools/build_gallery.py:195-199 | The lossless field gives width and height of 1 to 16384. |
| WebP.Dimensions | zenryukyo/tools/build_gallery.py:187-199 | A chunk carries dimensions exactly when it is `VP8X` or `VP8 ` with at least 10 payload bytes, or `VP8L` with at least 5 (`CarriesDimensions`). |
| WebP.Padded | zenryukyo/tools/build_gallery.py:186 | The bytes read for a payload are its size rounded up to even. |
| WebP.ChunkStep | zenryukyo/tools/build_gallery.py:181-199 | A turn ends exactly when fewer than 8 header bytes remain. Otherwise it returns dimensions exactly when the tag and the payload read (the padded size, clamped to the end, however short) carry them, and returns those; else it moves past that payload. |
| WebP.Scan | zenryukyo/tools/build_gallery.py:180-200 | The chunk loop terminates. Its only failure is 'Could not determine WebP dimensions'. Any size is at most 2^24. |
| WebP.ReadWebp | zenryukyo/tools/build_gallery.py:176-200 | 'Not a WebP file' exactly when `RIFF` at 0 and `WEBP` at 8 are not both present. Any other failure is 'Could not determine WebP dimensions'. |
| WebPChunks.ChunkLayout | zenryukyo/tools/build_gallery.py:181-186 | A well-formed chunk's tag, size field and padded payload are where the loop reads them. The next header follows the pad byte. |
| WebPChunks.SkipsChunk | zenryukyo/tools/build_gallery.py:181-186 | A well-formed chunk without dimensions is stepped over as a whole. |
| WebPChunks.SkipsChunks | zenryukyo/tools/build_gallery.py:180-186 | Any sequence of such chunks is stepped over. |
| WebPChunks.ReadsChunk | zenryukyo/tools/build_gallery.py:187-199 | A well-formed image chunk at the cursor ends the walk with its dimensions. |
| WebPChunks.ReadsCutChunk | zenryukyo/tools/build_gallery.py:181-199 | A chunk header followed by fewer bytes than its padded size field claims (a missing pad byte included), up to the end: the payload read is those bytes, and the turn returns their dimensions or moves to the end. |
| WebPChunks.ReadsCutFile | zenryukyo/tools/build_gallery.py:176-200 | Any data with a valid container header, inert chunks from offset 12, then a chunk header and fewer bytes than its padded size claims, reads as the dimensions those bytes carry. |
| WebPChunks.TruncatedImageChunk | zenryukyo/tools/build_gallery.py:176-200 | Container header, inert chunks, then an image chunk cut short by the end of the file: when the bytes left carry dimensions, reading returns them rather than an error. |
| WebPChunks.ShortImageChunk | zenryukyo/tools/build_gallery.py:186-200 | Container header, inert chunks, then an image chunk cut short below its tag's length test: reading fails with 'Could not determine WebP dimensions'. |
| WebPChunks.ReadsShortFile | zenryukyo/tools/build_gallery.py:176-200 | Any data laid out that way, with last bytes that carry no dimensions, fails with 'Could not determine WebP dimensions'. |
| WebPChunks.ShortVp8xExample | zenryukyo/tools/build_gallery.py:186-187 | A `VP8X` chunk declaring 10 bytes with 9 present is not read as a size, and the walk fails. |
| WebPChunks.TruncatedVp8xExample | zenryukyo/tools/build_gallery.py:186-189 | A `VP8X` chunk declaring 18 bytes with 10 present reads as 10 × 5. |
| WebPChunks.StartsWalk | zenryukyo/tools/build_gallery.py:177-180 | After a valid container header, whatever its RIFF size field, the walk starts at offset 12. |
| WebPChunks.ReadsLaidOutFile | zenryukyo/tools/build_gallery.py:176-200 | Any data with a valid container header, inert chunks from offset 12 and then a well-formed image chunk reads as that chunk's dimensions. |
| WebPChunks.RoundTrip | zenryukyo/tools/build_gallery.py:176-200 | Container header, inert chunks, an image chunk, anything after: reading returns the image chunk's dimensions. |
| WebPChunks.NoImageChunk | zenryukyo/tools/build_gallery.py:180-200 | A file of inert chunks only fails with 'Could not determine WebP dimensions'. |
| WebPPayloads.Vp8xRoundTrip | zenryukyo/tools/build_gallery.py:187-190 | Every canvas size from 1 to 2^24 written as 24-bit "minus one" fields is read back. |
| WebPPayloads.Vp8RoundTrip | zenryukyo/tools/build_gallery.py:191-194 | Every 16-bit width and height written at payload bytes 6-9 is read back, whatever the six bytes before them (the start code is not checked). |
| WebPPayloads.Vp8KeepsScaleBits | zenryukyo/tools/build_gallery.py:192-193 | The top two bits of each lossy field stay in the reported width and height. |
| WebPPayloads.Vp8lRoundTrip | zenryukyo/tools/build_gallery.py:195-199 | Every size up to 16384 × 16384 packed into the field at offset 0 is read back, whatever the top bits and following bytes. |
| WebPPayloads.Vp8lFieldExample | zenryukyo/tools/build_gallery.py:196-198 | The field `0x00130063` reads as 100 × 77. |
| WebPPayloads.SignatureByteInWidth | zenryukyo/tools/build_gallery.py:196-197 | Any lossless payload starting with `2F` reports a width whose low byte is `30`. |
| WebPPayloads.OneByOneLosslessMisread | zenryukyo/tools/build_gallery.py:195-199 | A 1 × 1 lossless image in the standard layout is reported as 48 × 1. |
| WebPPayloads.ImageChunk | zenryukyo/tools/build_gallery.py:185-186 | An encoder's chunk for any payload is laid out as the loop expects. |
| WebPPayloads.ReadsVp8xFile | zenryukyo/tools/build_gallery.py:175-200 | A file whose first image chunk is `VP8X` reads back its canvas size. |
| WebPPayloads.ReadsVp8File | zenryukyo/tools/build_gallery.py:175-200 | A file whose first image chunk is `VP8 ` reads back its width and height. |
| WebPPayloads.ReadsVp8lFile | zenryukyo/tools/build_gallery.py:175-200 | A file whose first image chunk is `VP8L`, in the layout read here, reads back its width and height. |
| WebPPayloads.CrossFormat | zenryukyo/tools/build_gallery.py:187-199 | The same image written as `VP8X`, as `VP8 `, or as `VP8L` in the layout read here (field at offset 0) reads as the same width and height. For a `VP8L` payload in the standard layout this fails (`OneByOneLosslessMisread`). |
| Paths.LastDot | zenryukyo/tools/build_gallery.py:135 | The index found is the last `.` in the name, and `None` means there is no dot. |
| Paths.Suffix | zenryukyo/tools/build_gallery.py:135 | `PurePath.suffix` is no longer than the name. `StemAndSuffix` pins it: empty, or the last dot and what follows it. |
| Paths.Stem | zenryukyo/tools/build_gallery.py:117 | `PurePath.stem` is no longer than the name. `StemAndSuffix` pins it: the name without its suffix, non-empty for a non-empty name. |
| Paths.StemAndSuffix | zenryukyo/tools/build_gallery.py:117 | Stem then suffix is the name. A suffix is empty, or a dot and at least one more character with no further dot. The stem of a non-empty name is non-empty. |
| Paths.SplitsAtExtension | zenryukyo/tools/build_gallery.py:116-118 | `stem.ext`, with a non-empty stem and a dot-free extension, splits back into `stem` and `.ext`. |
| Paths.Lower | zenryukyo/tools/build_gallery.py:135 | Lower-casing keeps the length and lower-cases each character. |
| Paths.LowerForgetsCase | zenryukyo/tools/build_gallery.py:135 | Lower-casing is idempotent and ignores the case the text was written in. |
| Paths.UpperKeepsSuffix | zenryukyo/tools/build_gallery.py:135 | Changing the case of a name changes the case of its suffix and nothing else. |
| ImageSize.FormatOf | zenryukyo/tools/build_gallery.py:16 | A suffix names a parser exactly when it is in the supported extension set. |
| ImageSize.ReadBySuffix | zenryukyo/tools/build_gallery.py:136-201 | 'Unsupported format' exactly for a suffix outside the supported set, and it carries that suffix. |
| ImageSize.ReadImageSize | zenryukyo/tools/build_gallery.py:134-201 | 'Unsupported format' with the lower-cased suffix exactly when that suffix is not supported. |
| ImageSize.Dispatch | zenryukyo/tools/build_gallery.py:134-201 | `.jpg` and `.jpeg` reach the JPEG parser, `.png` the PNG parser and `.webp` the WebP parser, in any case. A failure is one of that format's own errors: 'Not a JPEG file' or 'Could not determine JPEG dimensions', 'Not a PNG file', 'Not a WebP file' or 'Could not determine WebP dimensions'. |
| ImageSize.CaseInsensitive | zenryukyo/tools/build_gallery.py:135 | Upper-casing the file name does not change the result. |
| ImageSize.HiddenFileUnsupported | zenryukyo/tools/build_gallery.py:135 | A file named `.png` has no suffix and is unsupported. |
| ImageSize.GetImageDimensions | zenryukyo/tools/build_gallery.py:206-213 | Pillow's size wins when it decodes the file. Otherwise, whether Pillow is absent or failed, the result is the manual parser's. |
| ImageSize.FallbackSucceeds | zenryukyo/tools/build_gallery.py:206-213 | Dimensions are found exactly when Pillow decodes the file or the parser succeeds. Without Pillow, an unsupported suffix is an error. |
| Gallery.KeyNamesDistinct | zenryukyo/tools/build_gallery.py:36-48 | The eight manifest keys have pairwise different JSON names. |
| Gallery.Lookup | zenryukyo/tools/build_gallery.py:36-48 | Reading a key of the dict `to_dict` builds. Its contract is stated by `LookupFindsFirst`, `LookupMissing` and `LookupAppend`. |
| Gallery.LookupFindsFirst | zenryukyo/tools/build_gallery.py:36-48 | Looking up a key in a dict gives the value of its first entry with that key. |
| Gallery.LookupMissing | zenryukyo/tools/build_gallery.py:36-48 | A lookup finds nothing exactly when no entry has the key. |
| Gallery.LookupAppend | zenryukyo/tools/build_gallery.py:36-48 | Adding keys to a dict after others finds an earlier key first. |
| Gallery.ToDict | zenryukyo/tools/build_gallery.py:35-49 | `GalleryItem.to_dict`. Its contract is stated by `ToDictFields`, `ToDictOrder` and `ToDictRequiredFirst`. |
| Gallery.ToDictFields | zenryukyo/tools/build_gallery.py:35-49 | Each key maps to its field. The required ones are always present. `thumb` and `caption` appear only when non-empty. The thumbnail size appears only when both numbers are non-zero. |
| Gallery.ToDictRequiredFirst | zenryukyo/tools/build_gallery.py:35-49 | The entry starts with `src`, `w`, `h`, `alt`, and ends with the caption exactly when the caption is non-empty. |
| Gallery.ToDictOrder | zenryukyo/tools/build_gallery.py:35-49 | Keys appear in the canonical order, none twice. |
| Gallery.ToDictNamesDistinct | zenryukyo/tools/build_gallery.py:35-49 | No JSON name appears twice in the entry, so the dict is written as one JSON member per key. |
| Gallery.FromDict | zenryukyo/tools/build_gallery.py:36-41 | A manifest entry reads back exactly when the four required keys have values of the right kind. |
| Gallery.DictRoundTrip | zenryukyo/tools/build_gallery.py:35-49 | Writing an entry and reading it back gives the item with unset or empty optional fields cleared. Nothing set is lost. |
| Gallery.NormalizeKeepsDict | zenryukyo/tools/build_gallery.py:42-48 | Clearing unset optional fields first writes the same entry, and clearing is idempotent. |
| Gallery.ReplaceChar | zenryukyo/tools/build_gallery.py:117 | Replacing one character keeps the length, changes every occurrence and nothing else. |
| Gallery.DescribeAlt | zenryukyo/tools/build_gallery.py:116-118 | The alt text is the stem with each `_` and `-` turned into a space, position by position. |
| Gallery.DescribeAltClean | zenryukyo/tools/build_gallery.py:116-118 | The alt text has no `_` or `-` left, and describing it again changes nothing. |
| Gallery.DescribeAltExample | zenryukyo/tools/build_gallery.py:116-118 | `a_b-c.jpg` is described as `a b c`. |

## Left out

- Pillow is the `Decoder` parameter of `GetImageDimensions`: absent, decoded to a size, or raised. Its image decoding is not modelled.
- The warning that `get_image_dimensions` prints when Pillow fails is not modelled.
- Files are byte sequences given as parameters. Opening, closing and `fp.seek` are the cursor arithmetic of the scans.
- A path is its last component. Directories play no part in `suffix`, `stem` or the parsers.
- Paths.Lower: models `str.lower` on ASCII only. No other character lower-cases into a letter of `jpg`, `jpeg`, `png` or `webp`, so the parser chosen is the same as Python's. Only the suffix text carried by 'Unsupported format' can differ, where Python would lower a non-ASCII letter that the model leaves as written.
- Paths.Suffix: follows the `pathlib` rule of Python 3.8 to 3.13. A trailing dot, or a dot only at the start, gives an empty suffix.
- Manifest keys are the `Key` datatype. `KeyName` gives their JSON spelling. A Python `dict` is a sequence of key/value pairs in insertion order.
- Gallery.FromDict: the reader a manifest consumer would use. It is not in the builder. It is the partner of `to_dict` in the round trip.
- Jpeg.ScanFindsFrame: states that the size comes from some start-of-frame header after the cursor. It does not state that this is the first one in scan order. `JpegSegments.RoundTrip` pins the first frame for well-formed streams.
- Jpeg.ReadJpegFindsFrame: states that the size comes from some start-of-frame header after the start marker. It does not state that this is the first one. `JpegSegments.RoundTrip` pins the first frame for well-formed streams.
- The RIFF size field at offsets 4-8 of a WebP file is never read, and the model ignores it too.
- The `SUPPORTED_EXTENSIONS` filter in `collect_source_images` and `build_gallery_items` is not modelled. The set itself is `ImageSize.SupportedExtensions`.
- Not modelled, being file-system and process plumbing outside the dimension core: `parse_args`, the copying of photos and the logo, thumbnail generation, `build_gallery_items`, JSON and HTML writing, `main`, and the logging prints.
