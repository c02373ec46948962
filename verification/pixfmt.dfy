/** Source pixel formats handed to the colour converter. */
module PixelFormats {

  /** The planar YUV formats the correction distinguishes; the `J` variants
      are the deprecated full-range spellings. Every other format is opaque. */
  datatype PixelFormat =
    | YUV420P | YUV422P | YUV444P | YUV440P
    | YUVJ420P | YUVJ422P | YUVJ444P | YUVJ440P
    | OtherFormat(code: int)

  predicate IsDeprecated(f: PixelFormat)
  {
    f.YUVJ420P? || f.YUVJ422P? || f.YUVJ444P? || f.YUVJ440P?
  }

  /** Chroma subsampling of a planar YUV format, independent of range. */
  datatype Chroma = Chroma420 | Chroma422 | Chroma444 | Chroma440 | NotPlanarYuv

  function ChromaOf(f: PixelFormat): Chroma
  {
    match f
    case YUV420P | YUVJ420P => Chroma420
    case YUV422P | YUVJ422P => Chroma422
    case YUV444P | YUVJ444P => Chroma444
    case YUV440P | YUVJ440P => Chroma440
    case OtherFormat(_) => NotPlanarYuv
  }

  /** Replaces a deprecated full-range format by the regular format with the
      same chroma layout; every other format is kept. */
  function CorrectForDeprecatedPixelFormat(f: PixelFormat): (g: PixelFormat)
    ensures !IsDeprecated(g)
    ensures ChromaOf(g) == ChromaOf(f)
    ensures !IsDeprecated(f) ==> g == f
  {
    match f
    case YUVJ420P => YUV420P
    case YUVJ422P => YUV422P
    case YUVJ444P => YUV444P
    case YUVJ440P => YUV440P
    case _ => f
  }

  /** The correction is determined by its contract: any format that is not
      deprecated and has the input's chroma layout, and that equals the input
      when the input is not deprecated, is the corrected format. Applying the
      correction twice is the same as applying it once. */
  lemma CorrectionIsUnique(f: PixelFormat, g: PixelFormat)
    requires !IsDeprecated(g) && ChromaOf(g) == ChromaOf(f)
    requires !IsDeprecated(f) ==> g == f
    ensures g == CorrectForDeprecatedPixelFormat(f)
    ensures CorrectForDeprecatedPixelFormat(g) == g
  {
  }
}
