/** `read_image_size` and `get_image_dimensions`: the lower-cased suffix of
    the file name picks the parser, and an optional image library, when it
    decodes the file, takes precedence over the parsers. */
module ImageSize {
  import opened Wrappers
  import opened Bytes
  import opened ImageTypes
  import opened Paths
  import Jpeg
  import Png
  import WebP

  /** The extensions the gallery builder collects images by. */
  const SupportedExtensions: set<string> := {".jpg", ".jpeg", ".png", ".webp"}

  /** The image formats with a parser. */
  datatype Format = JpegFormat | PngFormat | WebpFormat

  /** The format a lower-cased suffix names, if it names one. */
  function FormatOf(suffix: string): (f: Option<Format>)
    ensures f.None? <==> suffix !in SupportedExtensions
  {
    if suffix == ".jpg" || suffix == ".jpeg" then Some(JpegFormat)
    else if suffix == ".png" then Some(PngFormat)
    else if suffix == ".webp" then Some(WebpFormat)
    else None
  }

  /** The parser a lower-cased suffix selects, or 'Unsupported format' with
      that suffix. */
  function ReadBySuffix(suffix: string, data: seq<byte>): (r: SizeResult)
    ensures r.Failure? && r.error.Unsupported? <==> suffix !in SupportedExtensions
    ensures r.Failure? && r.error.Unsupported? ==> r.error.suffix == suffix
  {
    match FormatOf(suffix)
    case Some(JpegFormat) => Jpeg.ReadJpeg(data)
    case Some(PngFormat) => Png.ReadPng(data)
    case Some(WebpFormat) => WebP.ReadWebp(data)
    case None => Failure(Unsupported(suffix))
  }

  /** `read_image_size` on a file whose last path component is `name` and
      whose content is `data` (opened only for a supported suffix). */
  function ReadImageSize(name: string, data: seq<byte>): (r: SizeResult)
    ensures r.Failure? && r.error.Unsupported? <==> Lower(Suffix(name)) !in SupportedExtensions
    ensures r.Failure? && r.error.Unsupported? ==> r.error.suffix == Lower(Suffix(name))
  {
    ReadBySuffix(Lower(Suffix(name)), data)
  }

  /** Each supported suffix, in any case, reaches its own parser, and every
      error the parsers raise belongs to the format the suffix names. */
  lemma Dispatch(name: string, data: seq<byte>)
    ensures Lower(Suffix(name)) in {".jpg", ".jpeg"} ==> ReadImageSize(name, data) == Jpeg.ReadJpeg(data)
    ensures Lower(Suffix(name)) == ".png" ==> ReadImageSize(name, data) == Png.ReadPng(data)
    ensures Lower(Suffix(name)) == ".webp" ==> ReadImageSize(name, data) == WebP.ReadWebp(data)
    ensures ReadImageSize(name, data).Failure? && Lower(Suffix(name)) in {".jpg", ".jpeg"} ==>
      ReadImageSize(name, data).error in {NotJpeg, JpegDimensionsNotFound}
    ensures ReadImageSize(name, data).Failure? && Lower(Suffix(name)) == ".png" ==>
      ReadImageSize(name, data).error == NotPng
    ensures ReadImageSize(name, data).Failure? && Lower(Suffix(name)) == ".webp" ==>
      ReadImageSize(name, data).error in {NotWebp, WebpDimensionsNotFound}
  {
  }

  /** The parser does not depend on the case the suffix is written in. */
  lemma CaseInsensitive(name: string, data: seq<byte>)
    ensures ReadImageSize(Upper(name), data) == ReadImageSize(name, data)
  {
    UpperKeepsSuffix(name);
    LowerForgetsCase(Suffix(name));
    assert Lower(Suffix(Upper(name))) == Lower(Suffix(name));
  }

  /** A hidden file such as `.png` has no suffix and is unsupported. */
  lemma HiddenFileUnsupported(data: seq<byte>)
    ensures ReadImageSize(".png", data) == Failure(Unsupported(""))
  {
    assert LastDot(".png") == Some(0) by {
      assert ".png"[..3] == ".pn";
      assert ".pn"[..2] == ".p";
      assert ".p"[..1] == ".";
    }
  }

  /** What an optional image library makes of the file: it is not installed,
      it decoded the file to a size, or it raised while opening it. */
  datatype Decoder = Absent | Decoded(size: Size) | DecodeFailed

  /** `get_image_dimensions`: the library's size when it decodes the file,
      otherwise the parser's result (after a warning when the library
      failed). */
  function GetImageDimensions(decoder: Decoder, name: string, data: seq<byte>): (r: SizeResult)
    ensures decoder.Decoded? ==> r == Success(decoder.size)
    ensures !decoder.Decoded? ==> r == ReadImageSize(name, data)
  {
    match decoder
    case Decoded(size) => Success(size)
    case _ => ReadImageSize(name, data)
  }

  /** Dimensions are found exactly when the library decodes the file or the
      parser succeeds; without the library, an unsupported suffix is an error
      even for a file the library could have read. */
  lemma FallbackSucceeds(decoder: Decoder, name: string, data: seq<byte>)
    ensures GetImageDimensions(decoder, name, data).Success? <==>
      decoder.Decoded? || ReadImageSize(name, data).Success?
    ensures decoder.Absent? && Lower(Suffix(name)) !in SupportedExtensions ==>
      GetImageDimensions(decoder, name, data).Failure?
  {
  }
}
