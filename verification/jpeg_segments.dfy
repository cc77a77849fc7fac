/** A writer for JPEG marker segments, and the proofs that the marker scan of
    `read_image_size` reads back what it writes: padding and stray bytes are
    skipped, every non-frame segment is jumped over by its length field, and
    the first start-of-frame header yields its width and height. */
module JpegSegments {
  import opened Wrappers
  import opened Bytes
  import opened ImageTypes
  import opened Jpeg

  /** A non-frame marker segment: stray bytes, `1 + fill` bytes of `FF`, the
      marker code, a two-byte big-endian length field, the payload. */
  datatype Segment = Segment(stray: seq<byte>, fill: nat, code: byte, lengthField: seq<byte>, payload: seq<byte>)

  /** A segment the scan must step over: no `FF` among the stray bytes, a
      marker code that is neither padding nor a frame, a length field that
      counts itself and the payload. */
  predicate Skippable(s: Segment)
  {
    && (forall i :: 0 <= i < |s.stray| ==> s.stray[i] != 0xFF)
    && s.code != 0xFF
    && !IsStartOfFrame(s.code)
    && |s.lengthField| == 2
    && BigEndian(s.lengthField) == |s.payload| + 2
  }

  /** `1 + fill` bytes of `FF` and the marker code. */
  function Marker(fill: nat, code: byte): (e: seq<byte>)
    ensures |e| == fill + 2
  {
    Repeat(0xFF, 1 + fill) + [code]
  }

  function EncodeSegment(s: Segment): (e: seq<byte>)
    ensures |e| == |s.stray| + s.fill + 2 + |s.lengthField| + |s.payload|
  {
    s.stray + (Marker(s.fill, s.code) + (s.lengthField + s.payload))
  }

  predicate AllSkippable(ss: seq<Segment>)
  {
    forall i :: 0 <= i < |ss| ==> Skippable(ss[i])
  }

  function EncodeSegments(ss: seq<Segment>): seq<byte>
  {
    if ss == [] then [] else EncodeSegment(ss[0]) + EncodeSegments(ss[1..])
  }

  /** A start-of-frame header: stray bytes, padding, the marker code, the
      (unused) length field, the sample precision, then the height field
      before the width field on the wire. */
  datatype FrameHeader = FrameHeader(
    stray: seq<byte>, fill: nat, code: byte, lengthField: seq<byte>, precision: byte,
    heightField: seq<byte>, widthField: seq<byte>)

  /** A header with no `FF` among its stray bytes, a start-of-frame code and
      two-byte fields. */
  predicate ValidFrame(f: FrameHeader)
  {
    && (forall i :: 0 <= i < |f.stray| ==> f.stray[i] != 0xFF)
    && IsStartOfFrame(f.code)
    && |f.lengthField| == 2 && |f.heightField| == 2 && |f.widthField| == 2
  }

  /** The header from its marker on, without the stray bytes before it. */
  function FrameBytes(f: FrameHeader): (e: seq<byte>)
    ensures |e| == f.fill + 3 + |f.lengthField| + |f.heightField| + |f.widthField|
  {
    Marker(f.fill, f.code) + (f.lengthField + ([f.precision] + (f.heightField + f.widthField)))
  }

  function EncodeFrame(f: FrameHeader): (e: seq<byte>)
    ensures |e| == |f.stray| + |FrameBytes(f)|
  {
    f.stray + FrameBytes(f)
  }

  /** The bytes of a marker written at `q`. */
  lemma MarkerAt(data: seq<byte>, q: nat, fill: nat, code: byte)
    requires q + fill + 2 <= |data|
    requires data[q..q + fill + 2] == Marker(fill, code)
    ensures forall k :: q <= k <= q + fill ==> data[k] == 0xFF
    ensures data[q + 1 + fill] == code
  {
    forall k | q <= k <= q + fill
      ensures data[k] == 0xFF
    {
      assert data[k] == data[q..q + fill + 2][k - q];
    }
    assert data[q + 1 + fill] == data[q..q + fill + 2][fill + 1];
  }

  /** A turn that continues at `q` leaves the scan's outcome unchanged. */
  lemma ScanContinues(data: seq<byte>, p: nat, q: nat)
    requires ScanStep(data, p) == Next(q)
    ensures Scan(data, p) == Scan(data, q)
  {
  }

  /** No byte from `p` up to `q` is `FF`. */
  predicate NoMarkerPrefix(data: seq<byte>, p: nat, q: nat)
    requires p <= q <= |data|
    decreases q - p
  {
    p == q || (data[p] != 0xFF && NoMarkerPrefix(data, p + 1, q))
  }

  /** The bytes of a run without `FF` satisfy `NoMarkerPrefix`. */
  lemma {:induction false} NoMarkerPrefixHolds(data: seq<byte>, p: nat, q: nat)
    requires p <= q <= |data|
    requires forall k :: p <= k < q ==> data[k] != 0xFF
    ensures NoMarkerPrefix(data, p, q)
    decreases q - p
  {
    if p < q {
      NoMarkerPrefixHolds(data, p + 1, q);
    }
  }

  /** Stray bytes other than `FF` between `p` and `q` are consumed one at a
      time. */
  lemma {:induction false} SkipsStrayBytes(data: seq<byte>, p: nat, q: nat)
    requires p <= q <= |data|
    requires NoMarkerPrefix(data, p, q)
    ensures Scan(data, p) == Scan(data, q)
    decreases q - p
  {
    if p < q {
      SkipsStrayByte(data, p);
      SkipsStrayBytes(data, p + 1, q);
      assert Scan(data, p) == Scan(data, p + 1) == Scan(data, q);
    }
  }

  /** One stray byte is stepped over without changing the outcome. */
  lemma SkipsStrayByte(data: seq<byte>, p: nat)
    requires p < |data| && data[p] != 0xFF
    ensures Scan(data, p) == Scan(data, p + 1)
  {
    StrayStep(data, p);
    ScanContinues(data, p, p + 1);
  }

  /** A byte other than `FF` outside a marker is stepped over. */
  lemma StrayStep(data: seq<byte>, p: nat)
    requires p < |data| && data[p] != 0xFF
    ensures ScanStep(data, p) == Next(p + 1)
  {
  }

  /** The turn at a marker whose code is not a frame code: it reads the
      big-endian length `len` and resumes `len - 2` bytes after the field. */
  lemma MarkerStep(data: seq<byte>, q: nat, fill: nat, len: nat)
    requires q + fill + 4 <= |data|
    requires forall k :: q <= k <= q + fill ==> data[k] == 0xFF
    requires data[q + 1 + fill] != 0xFF && !IsStartOfFrame(data[q + 1 + fill])
    requires BigEndian(data[q + fill + 2..q + fill + 4]) == len
    ensures ScanStep(data, q) == Next(q + fill + 4 + Max(len - 2, 0))
  {
    var m := q + 1 + fill;
    SkipFillStopsAt(data, q + 1, m);
    assert Read(data, m + 1, 2) == data[m + 1..m + 3];
  }

  /** Stray bytes from `p`, then at `q` a non-frame marker and its payload
      ending at `r`: the scan steps over all of it. */
  lemma SkipsSegmentAt(data: seq<byte>, p: nat, q: nat, fill: nat, len: nat, r: nat)
    requires p <= q && 2 <= len && r == q + fill + 2 + len && r <= |data|
    requires forall k :: p <= k < q ==> data[k] != 0xFF
    requires forall k :: q <= k <= q + fill ==> data[k] == 0xFF
    requires data[q + 1 + fill] != 0xFF && !IsStartOfFrame(data[q + 1 + fill])
    requires BigEndian(data[q + fill + 2..q + fill + 4]) == len
    ensures Scan(data, p) == Scan(data, r)
  {
    NoMarkerPrefixHolds(data, p, q);
    SkipsStrayBytes(data, p, q);
    MarkerStep(data, q, fill, len);
    ScanContinues(data, q, r);
  }

  /** Where a marker, its length field and the payload lie. */
  lemma MarkerSegmentLayout(data: seq<byte>, q: nat, fill: nat, code: byte, lengthField: seq<byte>, payload: seq<byte>)
    requires q + fill + 2 + |lengthField| + |payload| <= |data|
    requires data[q..q + fill + 2 + |lengthField| + |payload|] == Marker(fill, code) + (lengthField + payload)
    ensures forall k :: q <= k <= q + fill ==> data[k] == 0xFF
    ensures data[q + 1 + fill] == code
    ensures data[q + fill + 2..q + fill + 2 + |lengthField|] == lengthField
  {
    var marker := Marker(fill, code);
    SplitSlice(data, q, marker, lengthField + payload);
    SplitSlice(data, q + |marker|, lengthField, payload);
    MarkerAt(data, q, fill, code);
  }

  /** Where the parts of an encoded segment lie. */
  lemma SegmentLayout(data: seq<byte>, p: nat, s: Segment)
    requires Skippable(s)
    requires p + |EncodeSegment(s)| <= |data|
    requires data[p..p + |EncodeSegment(s)|] == EncodeSegment(s)
    ensures forall k :: p <= k < p + |s.stray| ==> data[k] != 0xFF
    ensures forall k :: p + |s.stray| <= k <= p + |s.stray| + s.fill ==> data[k] == 0xFF
    ensures data[p + |s.stray| + 1 + s.fill] == s.code
    ensures data[p + |s.stray| + s.fill + 2..p + |s.stray| + s.fill + 4] == s.lengthField
  {
    SplitSlice(data, p, s.stray, Marker(s.fill, s.code) + (s.lengthField + s.payload));
    BytesAt(data, p, s.stray);
    MarkerSegmentLayout(data, p + |s.stray|, s.fill, s.code, s.lengthField, s.payload);
  }

  /** One non-frame segment, from `p` to `r`, is stepped over as a whole. */
  lemma SkipsSegment(data: seq<byte>, p: nat, s: Segment, r: nat)
    requires Skippable(s)
    requires r == p + |EncodeSegment(s)| && r <= |data|
    requires data[p..r] == EncodeSegment(s)
    ensures Scan(data, p) == Scan(data, r)
  {
    SegmentLayout(data, p, s);
    SkipsSegmentAt(data, p, p + |s.stray|, s.fill, |s.payload| + 2, r);
  }

  /** Where the first segment and the rest of an encoded list lie. */
  lemma SegmentsLayout(data: seq<byte>, p: nat, ss: seq<Segment>, r: nat) returns (q: nat)
    requires ss != [] && AllSkippable(ss)
    requires r == p + |EncodeSegments(ss)| && r <= |data|
    requires data[p..r] == EncodeSegments(ss)
    ensures Skippable(ss[0]) && AllSkippable(ss[1..])
    ensures q == p + |EncodeSegment(ss[0])| && q + |EncodeSegments(ss[1..])| == r
    ensures data[p..q] == EncodeSegment(ss[0])
    ensures data[q..r] == EncodeSegments(ss[1..])
  {
    q := p + |EncodeSegment(ss[0])|;
    SplitSlice(data, p, EncodeSegment(ss[0]), EncodeSegments(ss[1..]));
    assert Skippable(ss[0]);
    assert forall i :: 0 <= i < |ss[1..]| ==> ss[1..][i] == ss[i + 1];
  }

  /** A list of non-frame segments, from `p` to `r`, is stepped over. */
  lemma {:induction false} SkipsSegments(data: seq<byte>, p: nat, ss: seq<Segment>, r: nat)
    requires AllSkippable(ss)
    requires r == p + |EncodeSegments(ss)| && r <= |data|
    requires data[p..r] == EncodeSegments(ss)
    ensures Scan(data, p) == Scan(data, r)
    decreases |ss|
  {
    if ss != [] {
      var q := SegmentsLayout(data, p, ss, r);
      SkipsSegment(data, p, ss[0], q);
      SkipsSegments(data, q, ss[1..], r);
    }
  }

  /** The turn at a frame marker with two complete length bytes reads
      (width, height) from the wire order height, width, each field over
      whatever bytes of it exist. */
  lemma FrameStep(data: seq<byte>, q: nat, fill: nat)
    requires q + fill + 4 <= |data|
    requires forall k :: q <= k <= q + fill ==> data[k] == 0xFF
    requires IsStartOfFrame(data[q + 1 + fill])
    ensures ScanStep(data, q) ==
      Frame(Size(BigEndian(Read(data, q + fill + 7, 2)), BigEndian(Read(data, q + fill + 5, 2))), q + 1 + fill)
  {
    var m := q + 1 + fill;
    SkipFillStopsAt(data, q + 1, m);
    FrameTurnReadsHeader(data, m);
  }

  /** A frame header, stray bytes first, is read as (width, height),
      although height comes first. */
  lemma ReadsFrame(data: seq<byte>, p: nat, f: FrameHeader)
    requires ValidFrame(f)
    requires p + |EncodeFrame(f)| <= |data|
    requires data[p..p + |EncodeFrame(f)|] == EncodeFrame(f)
    ensures Scan(data, p) == Success(Size(BigEndian(f.widthField), BigEndian(f.heightField)))
  {
    var q := p + |f.stray|;
    SplitSlice(data, p, f.stray, FrameBytes(f));
    BytesAt(data, p, f.stray);
    NoMarkerPrefixHolds(data, p, q);
    SkipsStrayBytes(data, p, q);
    ReadsFrameAt(data, q, f);
  }

  /** The header from its marker on, at the cursor, is read as its fields. */
  lemma ReadsFrameAt(data: seq<byte>, p: nat, f: FrameHeader)
    requires ValidFrame(f)
    requires p + |FrameBytes(f)| <= |data|
    requires data[p..p + |FrameBytes(f)|] == FrameBytes(f)
    ensures Scan(data, p) == Success(Size(BigEndian(f.widthField), BigEndian(f.heightField)))
  {
    var marker := Marker(f.fill, f.code);
    var lengthField := f.lengthField;
    var heightField := f.heightField;
    var widthField := f.widthField;
    var dims := heightField + widthField;
    var afterLength := [f.precision] + dims;
    var body := lengthField + afterLength;
    var h := p + f.fill + 2;
    SplitSlice(data, p, marker, body);
    SplitSlice(data, h, lengthField, afterLength);
    SplitSlice(data, h + 2, [f.precision], dims);
    SplitSlice(data, h + 3, heightField, widthField);
    MarkerAt(data, p, f.fill, f.code);
    FrameStep(data, p, f.fill);
  }

  /** After the start-of-image marker the scan begins at offset 2. */
  lemma StartsScan(data: seq<byte>)
    requires |data| >= 2 && data[..2] == StartOfImage
    ensures ReadJpeg(data) == Scan(data, 2)
  {
    assert Read(data, 0, 2) == StartOfImage;
  }

  /** Writing non-frame segments and a frame header, then scanning, returns the
      frame's width and height, whatever follows the frame. */
  lemma RoundTrip(ss: seq<Segment>, f: FrameHeader, rest: seq<byte>)
    requires AllSkippable(ss)
    requires ValidFrame(f)
    ensures ReadJpeg(StartOfImage + EncodeSegments(ss) + EncodeFrame(f) + rest) == Success(Size(BigEndian(f.widthField), BigEndian(f.heightField)))
  {
    var segs := EncodeSegments(ss);
    var frame := EncodeFrame(f);
    var data := StartOfImage + segs + frame + rest;
    StreamLayout(segs, frame, rest);
    StartsScan(data);
    SkipsSegments(data, 2, ss, 2 + |segs|);
    ReadsFrame(data, 2 + |segs|, f);
  }

  /** Where the start of image, the segments and the frame of a stream lie. */
  lemma StreamLayout(segs: seq<byte>, frame: seq<byte>, rest: seq<byte>)
    ensures |StartOfImage + segs + frame + rest| == 2 + |segs| + |frame| + |rest|
    ensures (StartOfImage + segs + frame + rest)[..2] == StartOfImage
    ensures (StartOfImage + segs + frame + rest)[2..2 + |segs|] == segs
    ensures (StartOfImage + segs + frame + rest)[2 + |segs|..2 + |segs| + |frame|] == frame
  {
    var data := StartOfImage + segs + frame + rest;
    assert data[..2] == StartOfImage;
    assert data[2..2 + |segs|] == segs;
    assert data[2 + |segs|..2 + |segs| + |frame|] == frame;
  }

  /** A stream cut inside its first start-of-frame header, after the length
      field, still reads as a size: the height and width fields are read over
      the fewer than five bytes that are left (after the precision byte), and
      a missing field reads as 0. */
  lemma TruncatedFrame(ss: seq<Segment>, fill: nat, code: byte, lengthField: seq<byte>, tail: seq<byte>)
    requires AllSkippable(ss)
    requires IsStartOfFrame(code) && |lengthField| == 2 && |tail| < 5
    ensures ReadJpeg(StartOfImage + EncodeSegments(ss) + (Marker(fill, code) + lengthField) + tail)
      == Success(Size(BigEndian(Read(tail, 3, 2)), BigEndian(Read(tail, 1, 2))))
  {
    var segs := EncodeSegments(ss);
    var head := Marker(fill, code) + lengthField;
    var data := StartOfImage + segs + head + tail;
    var p := 2 + |segs|;
    StreamLayout(segs, head, tail);
    assert data[p + |head|..] == tail;
    StartsScan(data);
    SkipsSegments(data, 2, ss, p);
    ReadsCutFrame(data, p, fill, code, lengthField, tail);
  }

  /** A frame marker and length field at `p`, followed by the last bytes of
      the data: the scan reads the fields over those bytes. */
  lemma ReadsCutFrame(data: seq<byte>, p: nat, fill: nat, code: byte, lengthField: seq<byte>, tail: seq<byte>)
    requires IsStartOfFrame(code) && |lengthField| == 2
    requires p + fill + 4 + |tail| == |data|
    requires data[p..p + fill + 4] == Marker(fill, code) + lengthField
    requires data[p + fill + 4..] == tail
    ensures Scan(data, p) == Success(Size(BigEndian(Read(tail, 3, 2)), BigEndian(Read(tail, 1, 2))))
  {
    CutMarkerAt(data, p, fill, code, lengthField);
    FrameStep(data, p, fill);
    ReadsTail(data, p + fill + 4, 1);
    ReadsTail(data, p + fill + 4, 3);
  }

  /** The padding and the code of a marker written, with its length field,
      at `p`. */
  lemma CutMarkerAt(data: seq<byte>, p: nat, fill: nat, code: byte, lengthField: seq<byte>)
    requires |lengthField| == 2 && p + fill + 4 <= |data|
    requires data[p..p + fill + 4] == Marker(fill, code) + lengthField
    ensures forall k :: p <= k <= p + fill ==> data[k] == 0xFF
    ensures data[p + 1 + fill] == code
  {
    assert data[p..p + fill + 2] == data[p..p + fill + 4][..fill + 2] == Marker(fill, code);
    MarkerAt(data, p, fill, code);
  }

  /** Reading at offset `k` of the last bytes of the data, from `start` on,
      reads the data at `start + k`. */
  lemma ReadsTail(data: seq<byte>, start: nat, k: nat)
    requires start <= |data|
    ensures Read(data, start + k, 2) == Read(data[start..], k, 2)
  {
  }

  /** The six-byte stream `FF D8 FF C0 00 11`, cut right after the length
      field of its frame header, reads as 0 x 0. */
  lemma CutAfterFrameLength()
    ensures ReadJpeg([0xFF, 0xD8, 0xFF, 0xC0, 0x00, 0x11]) == Success(Size(0, 0))
  {
    TruncatedFrame([], 0, 0xC0, [0x00, 0x11], []);
    assert StartOfImage + EncodeSegments([]) + (Marker(0, 0xC0) + [0x00, 0x11]) + [] == [0xFF, 0xD8, 0xFF, 0xC0, 0x00, 0x11];
  }

  /** A stream of only non-frame segments ends in 'Could not determine JPEG
      dimensions'. */
  lemma NoFrame(ss: seq<Segment>)
    requires AllSkippable(ss)
    ensures ReadJpeg(StartOfImage + EncodeSegments(ss)) == Failure(JpegDimensionsNotFound)
  {
    var segs := EncodeSegments(ss);
    var data := StartOfImage + segs;
    StartsScan(data);
    assert data[2..2 + |segs|] == segs;
    SkipsSegments(data, 2, ss, |data|);
  }

  /** The turn at a marker, frame or not, whose length field is cut short by
      the end of the data breaks the loop. */
  lemma CutLengthStep(data: seq<byte>, q: nat, fill: nat)
    requires q + fill + 2 <= |data| < q + fill + 4
    requires forall k :: q <= k <= q + fill ==> data[k] == 0xFF
    requires data[q + 1 + fill] != 0xFF
    ensures ScanStep(data, q) == Stop
  {
    SkipFillStopsAt(data, q + 1, q + 1 + fill);
  }

  /** The turn at `FF` padding that runs to the end of the data breaks the
      loop: no marker code is left to read. */
  lemma PaddingStep(data: seq<byte>, q: nat)
    requires q < |data|
    requires forall k :: q <= k < |data| ==> data[k] == 0xFF
    ensures ScanStep(data, q) == Stop
  {
    assert SkipFill(data, q + 1) == |data|;
  }

  /** Non-frame segments, then a non-frame marker whose length field is cut
      short by the end of the stream: 'Could not determine JPEG dimensions'. */
  lemma TruncatedSegment(ss: seq<Segment>, fill: nat, code: byte, cut: seq<byte>)
    requires AllSkippable(ss)
    requires code != 0xFF && !IsStartOfFrame(code) && |cut| < 2
    ensures ReadJpeg(StartOfImage + EncodeSegments(ss) + (Marker(fill, code) + cut))
      == Failure(JpegDimensionsNotFound)
  {
    TruncatedLength(ss, fill, code, cut);
  }

  /** Non-frame segments, then a start-of-frame marker whose length field is
      cut short by the end of the stream: the frame is never read, and the
      result is 'Could not determine JPEG dimensions'. */
  lemma TruncatedFrameLength(ss: seq<Segment>, fill: nat, code: byte, cut: seq<byte>)
    requires AllSkippable(ss)
    requires IsStartOfFrame(code) && |cut| < 2
    ensures ReadJpeg(StartOfImage + EncodeSegments(ss) + (Marker(fill, code) + cut))
      == Failure(JpegDimensionsNotFound)
  {
    TruncatedLength(ss, fill, code, cut);
  }

  /** The five-byte stream `FF D8 FF C0 00`, cut inside the length field of
      its frame header, fails. */
  lemma CutInFrameLength()
    ensures ReadJpeg([0xFF, 0xD8, 0xFF, 0xC0, 0x00]) == Failure(JpegDimensionsNotFound)
  {
    TruncatedFrameLength([], 0, 0xC0, [0x00]);
    assert StartOfImage + EncodeSegments([]) + (Marker(0, 0xC0) + [0x00]) == [0xFF, 0xD8, 0xFF, 0xC0, 0x00];
  }

  /** Non-frame segments, then any marker whose length field is cut short by
      the end of the stream: 'Could not determine JPEG dimensions'. */
  lemma TruncatedLength(ss: seq<Segment>, fill: nat, code: byte, cut: seq<byte>)
    requires AllSkippable(ss)
    requires code != 0xFF && |cut| < 2
    ensures ReadJpeg(StartOfImage + EncodeSegments(ss) + (Marker(fill, code) + cut))
      == Failure(JpegDimensionsNotFound)
  {
    var segs := EncodeSegments(ss);
    var head := Marker(fill, code) + cut;
    var data := StartOfImage + segs + head;
    var p := 2 + |segs|;
    assert data[..2] == StartOfImage;
    assert data[2..p] == segs;
    assert data[p..] == head;
    assert data[p..p + fill + 2] == Marker(fill, code) by {
      assert data[p..p + fill + 2] == head[..fill + 2];
    }
    MarkerAt(data, p, fill, code);
    StartsScan(data);
    SkipsSegments(data, 2, ss, p);
    CutLengthStep(data, p, fill);
  }

  /** Non-frame segments, then `FF` padding to the end of the stream:
      'Could not determine JPEG dimensions'. */
  lemma PaddingToEnd(ss: seq<Segment>, fill: nat)
    requires AllSkippable(ss)
    ensures ReadJpeg(StartOfImage + EncodeSegments(ss) + Repeat(0xFF, 1 + fill))
      == Failure(JpegDimensionsNotFound)
  {
    var segs := EncodeSegments(ss);
    var pad := Repeat(0xFF, 1 + fill);
    var data := StartOfImage + segs + pad;
    var p := 2 + |segs|;
    assert data[..2] == StartOfImage;
    assert data[2..p] == segs;
    assert forall k :: p <= k < |data| ==> data[k] == pad[k - p];
    StartsScan(data);
    SkipsSegments(data, 2, ss, p);
    PaddingStep(data, p);
  }
}
