/** The JPEG branch of `read_image_size`: check the start-of-image marker,
    then scan marker segments with a file cursor until the first
    start-of-frame marker, whose header carries height then width. */
module Jpeg {
  import opened Wrappers
  import opened Bytes
  import opened ImageTypes

  /** The start-of-image marker `FF D8`. */
  const StartOfImage: seq<byte> := [0xFF, 0xD8]

  /** The start-of-frame marker codes, as the source lists them. */
  const StartOfFrameMarkers: set<int> :=
    {0xC0, 0xC1, 0xC2, 0xC3, 0xC5, 0xC6, 0xC7, 0xC9, 0xCA, 0xCB, 0xCD, 0xCE, 0xCF}

  /** Membership in the thirteen start-of-frame codes SOF0-SOF3, SOF5-SOF7,
      SOF9-SOF11 and SOF13-SOF15 (ITU-T T.81 Table B.1); 0xC4, 0xC8 and 0xCC
      in the same range are not frames. */
  predicate IsStartOfFrame(code: int)
  {
    0xC0 <= code <= 0xCF && code != 0xC4 && code != 0xC8 && code != 0xCC
  }

  /** The range test agrees with the listed codes. */
  lemma StartOfFrameCodes(code: int)
    ensures IsStartOfFrame(code) <==> code in StartOfFrameMarkers
  {
  }

  /** The inner `while marker and marker[0] == 0xFF` loop: the position of the
      first byte at or after `i` that is not `FF` padding, or the end. */
  function SkipFill(data: seq<byte>, i: nat): (m: nat)
    requires i <= |data|
    ensures i <= m <= |data|
    ensures m < |data| ==> data[m] != 0xFF
    decreases |data| - i
  {
    if i == |data| then i
    else if data[i] == 0xFF then SkipFill(data, i + 1)
    else i
  }

  /** Every byte `SkipFill` passes over is padding, and it stops at the first
      byte that is not. */
  lemma {:induction false} SkipFillPassesPadding(data: seq<byte>, i: nat)
    requires i <= |data|
    ensures forall k :: i <= k < SkipFill(data, i) ==> data[k] == 0xFF
    decreases |data| - i
  {
    if i < |data| && data[i] == 0xFF {
      SkipFillPassesPadding(data, i + 1);
    }
  }

  /** Over a run of padding from `i` to a byte that is not padding at `m`,
      `SkipFill` stops exactly at `m`. */
  lemma {:induction false} SkipFillStopsAt(data: seq<byte>, i: nat, m: nat)
    requires i <= m < |data|
    requires forall k :: i <= k < m ==> data[k] == 0xFF
    requires data[m] != 0xFF
    ensures SkipFill(data, i) == m
    decreases m - i
  {
    if i < m {
      SkipFillStopsAt(data, i + 1, m);
    }
  }

  /** The start-of-frame header whose marker code sits at index `m`: an `FF`
      before it, two complete length bytes after it, then one precision byte
      and the two-byte big-endian height and width fields, each read over
      whatever bytes exist. The result is (width, height). */
  ghost predicate FrameAt(data: seq<byte>, m: nat, size: Size)
  {
    && 1 <= m
    && m + 3 <= |data|
    && data[m - 1] == 0xFF
    && IsStartOfFrame(data[m])
    && size == Size(BigEndian(Read(data, m + 6, 2)), BigEndian(Read(data, m + 4, 2)))
  }

  /** One turn of the `while True` loop: a frame was found (with the index of
      its marker code), the loop continues at a new cursor, or it breaks. */
  datatype Step = Frame(size: Size, marker: nat) | Next(pos: nat) | Stop

  /** One loop turn with the file cursor at `pos`: a byte other than `FF` is
      stepped over, otherwise the fill bytes after it are skipped and the
      marker code decides. The loop breaks at the end of the data, at padding
      that runs to the end and at a length field cut short. */
  function ScanStep(data: seq<byte>, pos: nat): (s: Step)
    ensures pos >= |data| ==> s.Stop?
    ensures pos < |data| && data[pos] != 0xFF ==> s == Next(pos + 1)
    ensures s.Stop? <==> pos >= |data| || (data[pos] == 0xFF && SkipFill(data, pos + 1) + 3 > |data|)
    ensures s.Next? ==> pos < s.pos
    ensures s.Frame? ==> pos < s.marker
  {
    if pos >= |data| then Stop                 // marker_prefix is empty
    else if data[pos] != 0xFF then Next(pos + 1)
    else MarkerTurn(data, SkipFill(data, pos + 1))
  }

  /** The turn at the marker code index `m` (or the end of the data, where
      padding that runs to the end breaks the loop). It breaks exactly when
      the two length bytes after the code are missing; otherwise a frame code
      gives a frame and any other code moves the cursor on. */
  function MarkerTurn(data: seq<byte>, m: nat): (s: Step)
    requires 0 < m <= |data|
    ensures m == |data| ==> s.Stop?
    ensures s.Stop? <==> m + 3 > |data|
    ensures m < |data| && IsStartOfFrame(data[m]) ==> !s.Next?
    ensures m < |data| && !IsStartOfFrame(data[m]) ==> !s.Frame?
    ensures s.Next? ==> m < s.pos
    ensures s.Frame? ==> s.marker == m
  {
    if m == |data| then Stop                   // marker is empty
    else if IsStartOfFrame(data[m]) then FrameTurn(data, m)
    else SegmentTurn(data, m)
  }

  /** A start-of-frame marker: with two complete length bytes, the cursor is
      threaded through the precision, height and width reads, and a frame is
      reported however few of those bytes exist; without them the loop
      breaks. */
  function FrameTurn(data: seq<byte>, m: nat): (s: Step)
    requires m < |data|
    ensures s.Frame? <==> m + 3 <= |data|
    ensures s.Frame? ==> s.marker == m
    ensures !s.Next?
  {
    var lengthBytes := Read(data, m + 1, 2);
    if |lengthBytes| != 2 then Stop
    else
      var precision := Read(data, m + 3, 1);
      var heightAt := m + 3 + |precision|;
      var heightBytes := Read(data, heightAt, 2);
      var widthBytes := Read(data, heightAt + |heightBytes|, 2);
      Frame(Size(BigEndian(widthBytes), BigEndian(heightBytes)), m)
  }

  /** Any other marker: with two complete length bytes, the cursor moves past
      the segment, `length - 2` bytes (never backwards) after the field; a
      length field cut short breaks the loop. */
  function SegmentTurn(data: seq<byte>, m: nat): (s: Step)
    requires m < |data|
    ensures s.Stop? <==> m + 3 > |data|
    ensures s.Next? ==> s.pos == m + 3 + Max(BigEndian(data[m + 1..m + 3]) - 2, 0)
    ensures s.Next? ==> m < s.pos
    ensures !s.Frame?
  {
    var lengthBytes := Read(data, m + 1, 2);
    if |lengthBytes| != 2 then Stop
    else Next(m + 3 + Max(BigEndian(lengthBytes) - 2, 0))
  }

  /** A turn that finds a frame reports the header at its marker: the cursor
      threaded through the length, precision and height reads lands on the
      fixed offsets 4 and 6 past the marker code, even when the data runs out. */
  lemma StepFindsFrame(data: seq<byte>, pos: nat)
    ensures ScanStep(data, pos).Frame? ==> FrameAt(data, ScanStep(data, pos).marker, ScanStep(data, pos).size)
  {
    if ScanStep(data, pos).Frame? {
      var m := SkipFill(data, pos + 1);
      SkipFillPassesPadding(data, pos + 1);
      assert data[m - 1] == 0xFF;
      FrameTurnReadsHeader(data, m);
    }
  }

  /** A frame turn at `m` reads the height at offset 4 and the width at
      offset 6 past the marker code. */
  lemma FrameTurnReadsHeader(data: seq<byte>, m: nat)
    requires m < |data|
    ensures FrameTurn(data, m).Frame? ==> m + 3 <= |data|
    ensures FrameTurn(data, m).Frame? ==>
      FrameTurn(data, m).size == Size(BigEndian(Read(data, m + 6, 2)), BigEndian(Read(data, m + 4, 2)))
  {
    if |Read(data, m + 1, 2)| == 2 {
      var precision := Read(data, m + 3, 1);
      var heightAt := m + 3 + |precision|;
      var heightBytes := Read(data, heightAt, 2);
      assert heightAt == m + 4 || (heightAt == |data| && Read(data, m + 4, 2) == [] == heightBytes);
      assert heightAt + |heightBytes| == m + 6 || Read(data, m + 6, 2) == [] == Read(data, heightAt + |heightBytes|, 2);
    }
  }

  /** The marker scan from cursor `pos` to the first start-of-frame marker. It
      terminates because every turn that continues moves the cursor forward,
      and it fails only with 'Could not determine JPEG dimensions'. */
  function Scan(data: seq<byte>, pos: nat): (r: SizeResult)
    ensures r.Failure? ==> r.error == JpegDimensionsNotFound
    decreases if pos < |data| then |data| - pos else 0
  {
    match ScanStep(data, pos)
    case Frame(size, _) => Success(size)
    case Stop => Failure(JpegDimensionsNotFound)
    case Next(p) => Scan(data, p)
  }

  /** A successful scan from `pos` returns the frame header at some marker
      after `pos`: (width, height) read from the wire order height, width. */
  lemma {:induction false} ScanFindsFrame(data: seq<byte>, pos: nat)
    ensures Scan(data, pos).Success? ==> exists m :: pos < m && FrameAt(data, m, Scan(data, pos).value)
    decreases if pos < |data| then |data| - pos else 0
  {
    StepFindsFrame(data, pos);
    match ScanStep(data, pos)
    case Frame(size, m) =>
    case Stop =>
    case Next(p) =>
      ScanFindsFrame(data, p);
  }

  /** The JPEG branch of `read_image_size`: the start-of-image marker decides
      between 'Not a JPEG file' and the marker scan. */
  function ReadJpeg(data: seq<byte>): (r: SizeResult)
    ensures r == Failure(NotJpeg) <==> !(|data| >= 2 && data[0] == 0xFF && data[1] == 0xD8)
    ensures r.Failure? ==> r.error == NotJpeg || r.error == JpegDimensionsNotFound
  {
    var soi := Read(data, 0, 2);
    if soi != StartOfImage then Failure(NotJpeg)
    else Scan(data, |soi|)
  }

  /** A JPEG that is read successfully yields (width, height) from a
      start-of-frame header after the start-of-image marker. */
  lemma ReadJpegFindsFrame(data: seq<byte>)
    ensures ReadJpeg(data).Success? ==> exists m :: 2 < m && FrameAt(data, m, ReadJpeg(data).value)
  {
    ScanFindsFrame(data, 2);
  }

  /** Data with no start-of-frame code anywhere after the start-of-image
      marker is rejected, whatever its segments look like. */
  lemma NoFrameCodeNoDimensions(data: seq<byte>)
    requires forall i :: 2 <= i < |data| ==> !IsStartOfFrame(data[i])
    ensures ReadJpeg(data).Failure?
  {
    ReadJpegFindsFrame(data);
  }
}
