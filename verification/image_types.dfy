/** The vocabulary shared by the dimension parsers. */
module ImageTypes {
  import opened Wrappers

  /** Pixel dimensions, returned as the Python tuple `(width, height)`. */
  datatype Size = Size(width: nat, height: nat)

  /** One constructor per distinct `ValueError` raised by `read_image_size`. */
  datatype ParseError =
    | NotJpeg                  // 'Not a JPEG file'
    | JpegDimensionsNotFound   // 'Could not determine JPEG dimensions'
    | NotPng                   // 'Not a PNG file'
    | NotWebp                  // 'Not a WebP file'
    | WebpDimensionsNotFound   // 'Could not determine WebP dimensions'
    | Unsupported(suffix: string)  // f'Unsupported format: {suffix}'

  type SizeResult = Result<Size, ParseError>
}
