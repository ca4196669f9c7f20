/**
 * The nine `_compress_*` / `_decompress_*` methods of DHC. The libraries they call
 * (zlib, bz2, lzma, PIL, pydub) are not part of this model; they come in as the
 * fields of a `Libraries` value.
 */
module Codecs {
  import opened Wrappers
  import opened Errors
  import opened Bytes
  import opened Header
  import opened Classifier
  import opened Registry

  /** A general-purpose byte compressor: `compress` is total, `decompress` may raise. */
  datatype ByteCompressor = ByteCompressor(compress: Bytes -> Bytes, decompress: Bytes -> Option<Bytes>)

  datatype ImageFormat = JpegFormat | PngFormat | WebpFormat
  datatype AudioFormat = Mp3Format | FlacFormat | AacFormat | WavFormat

  datatype Libraries = Libraries(
    zlib: ByteCompressor,
    bz2: ByteCompressor,
    lzma: ByteCompressor,
    // Image.open(BytesIO(data)).save(out, format=...); None when PIL raises
    saveImage: (Bytes, ImageFormat) -> Option<Bytes>,
    // AudioSegment.from_file(BytesIO(data), format=source).export(out, format=target)
    exportAudio: (Bytes, Option<AudioFormat>, AudioFormat) -> Option<Bytes>)

  ghost predicate Lossless(c: ByteCompressor) {
    forall d :: c.decompress(c.compress(d)) == Some(d)
  }

  ghost predicate LosslessLibraries(libs: Libraries) {
    Lossless(libs.zlib) && Lossless(libs.bz2) && Lossless(libs.lzma)
  }

  /** The metadata every compressor returns: `{'algorithm': <its own name>}`. */
  function Tag(a: Algorithm): (r: Json)
    ensures r.JObject? && Lookup(r.fields, "algorithm") == Some(JString(Name(a)))
  {
    JObject([Field("algorithm", JString(Name(a)))])
  }

  /**
   * `meta['algorithm']` followed by `decompression_methods[...]`: the decompressor a header
   * entry selects, or the exception the lookup raises.
   */
  function AlgorithmOf(meta: Json): (r: Result<Algorithm, Error>)
    ensures r.Success? <==>
      meta.JObject? && var v := Lookup(meta.fields, "algorithm");
      v.Some? && v.value.JString? && v.value.s in DecompressionMethods
    ensures r.Success? ==> Lookup(meta.fields, "algorithm") == Some(JString(Name(r.value)))
    ensures meta.JString? ==> r == Failure(MetaNotMapping)
    ensures meta.JObject? && Lookup(meta.fields, "algorithm").None? ==> r == Failure(MissingAlgorithm)
  {
    match meta
    case JString(_) => Failure(MetaNotMapping)
    case JObject(fields) =>
      match Lookup(fields, "algorithm")
      case None => Failure(MissingAlgorithm)
      case Some(JObject(_)) => Failure(UnknownAlgorithm)
      case Some(JString(name)) =>
        match LookupDecompressor(name)
        case None => Failure(UnknownAlgorithm)
        case Some(a) => Success(a)
  }

  function Lift(r: Option<Bytes>): (res: Result<Bytes, Error>)
    ensures res.Success? <==> r.Some?
    ensures r.Some? ==> res.value == r.value
    ensures res.Failure? ==> res.error == CodecFailure
  {
    match r
    case Some(b) => Success(b)
    case None => Failure(CodecFailure)
  }

  /** `compression_methods[a](data)`: the payload and its metadata. */
  function Compress(libs: Libraries, a: Algorithm, data: Bytes): (r: Result<(Bytes, Json), Error>)
    ensures r.Success? ==> r.value.1 == Tag(a) && AlgorithmOf(r.value.1) == Success(a)
    ensures Family(a) == Text ==> r.Success?
    ensures r.Failure? ==> r.error == CodecFailure
  {
    var payload :- match a
      case Lz77 => Success(libs.zlib.compress(data))
      case Lz78 => Success(libs.bz2.compress(data))
      case Lzma => Success(libs.lzma.compress(data))
      case Jpeg => Lift(libs.saveImage(data, JpegFormat))
      case Png => Lift(libs.saveImage(data, PngFormat))
      case Webp => Lift(libs.saveImage(data, WebpFormat))
      // from_file without a format: pydub probes the container itself
      case Mp3 => Lift(libs.exportAudio(data, None, Mp3Format))
      case Flac => Lift(libs.exportAudio(data, None, FlacFormat))
      case Aac => Lift(libs.exportAudio(data, None, AacFormat));
    TagNamesItsAlgorithm(a);
    Success((payload, Tag(a)))
  }

  /** `decompression_methods[a](payload)`. */
  function Decompress(libs: Libraries, a: Algorithm, payload: Bytes): (r: Result<Bytes, Error>)
    ensures Family(a) == Image ==> r == Success(payload)
    ensures r.Failure? ==> r.error == CodecFailure
  {
    match a
    case Lz77 => Lift(libs.zlib.decompress(payload))
    case Lz78 => Lift(libs.bz2.decompress(payload))
    case Lzma => Lift(libs.lzma.decompress(payload))
    // images are stored in a natively viewable format and come back unchanged
    case Jpeg | Png | Webp => Success(payload)
    // audio is transcoded to WAV
    case Mp3 => Lift(libs.exportAudio(payload, Some(Mp3Format), WavFormat))
    case Flac => Lift(libs.exportAudio(payload, Some(FlacFormat), WavFormat))
    case Aac => Lift(libs.exportAudio(payload, Some(AacFormat), WavFormat))
  }

  /** The metadata a compressor writes selects that same compressor's decompressor on reading. */
  lemma TagNamesItsAlgorithm(a: Algorithm)
    ensures WellFormed(Tag(a))
    ensures AlgorithmOf(Tag(a)) == Success(a)
  {
    assert Lookup(Tag(a).fields, "algorithm") == Some(JString(Name(a)));
  }

  /** With lossless libraries, the three text codecs give back the original bytes. */
  lemma TextCodecsRoundTrip(libs: Libraries, a: Algorithm, data: Bytes)
    requires LosslessLibraries(libs)
    requires Family(a) == Text
    ensures Compress(libs, a, data).Success?
    ensures Decompress(libs, a, Compress(libs, a, data).value.0) == Success(data)
  {
  }
}
