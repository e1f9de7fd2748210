/**
 * The conversion decision: convertOne (src/index.ts:124-159). The image codec
 * is a function from the encode request to its reply; the filesystem is the
 * set of paths for which the existence check succeeds.
 */
module Converter {
  import opened Wrappers
  import opened Formats
  import opened Paths
  import opened Args

  /** One call of the codec: decode src, encode to dest in format with the given quality (none for png). */
  datatype EncodeRequest = EncodeRequest(src: FilePath, dest: FilePath, format: Format, quality: Option<int>)

  datatype CodecReply = Written | Failed(message: string)

  /** The record convertOne resolves to. */
  datatype ConversionResult = ConversionResult(src: FilePath, dest: FilePath, ok: bool, reason: Option<string>)

  /** The result, the codec call made (if any) and the set of existing paths afterwards. */
  datatype ConvertStep = ConvertStep(result: ConversionResult, encoded: Option<EncodeRequest>, existing: set<FilePath>)

  const ExistsReason := "destino ya existe (usa --force para sobrescribir)"

  /** The per-format quality default; png takes no quality. */
  function DefaultQuality(f: Format): Option<int> {
    match f
    case Jpeg => Some(80)
    case Webp => Some(80)
    case Avif => Some(50)
    case Tiff => Some(80)
    case Png => None
  }

  /** The quality handed to the encoder: the user's value when given, else the format's default; png never gets one. */
  function EncoderQuality(f: Format, user: Option<int>): (q: Option<int>)
    ensures f == Png <==> q.None?
    ensures f != Png && user.Some? ==> q == user
    ensures f != Png && user.None? ==> q == Some(if f == Avif then 50 else 80)
  {
    if f == Png then None
    else Some(user.GetOr(DefaultQuality(f).value))
  }

  /**
   * convertOne: the destination check, then the codec call (src/index.ts:124-159).
   * The result names the source and its destination; only the destination can
   * appear, and only on success, when the codec was called; ok holds exactly
   * when there is no reason.
   */
  function ConvertOne(src: FilePath, f: Format, opts: Options, existing: set<FilePath>,
                      codec: EncodeRequest -> CodecReply): (s: ConvertStep)
    ensures s.result.src == src && s.result.dest == DestPathFor(src, f)
    ensures existing <= s.existing && s.existing - existing <= {DestPathFor(src, f)}
    ensures s.result.ok ==> DestPathFor(src, f) in s.existing && s.encoded.Some?
    ensures s.result.ok <==> s.result.reason.None?
    ensures !s.result.ok ==> s.existing == existing
    ensures !opts.force && DestPathFor(src, f) in existing ==>
              !s.result.ok && s.result.reason == Some(ExistsReason) && s.encoded.None?
  {
    var dest := DestPathFor(src, f);
    if !opts.force && dest in existing then
      ConvertStep(ConversionResult(src, dest, false, Some(ExistsReason)), None, existing)
    else
      var request := EncodeRequest(src, dest, f, EncoderQuality(f, opts.quality));
      match codec(request)
      case Written => ConvertStep(ConversionResult(src, dest, true, None), Some(request), existing + {dest})
      case Failed(message) => ConvertStep(ConversionResult(src, dest, false, Some(message)), Some(request), existing)
  }

  /**
   * Without --force an existing destination fails at once with the exists
   * reason and the codec is not called; otherwise the codec is asked to write
   * the destination with the encoder quality, and any error it raises becomes
   * a failed result carrying its message.
   */
  lemma ConvertOneOutcome(src: FilePath, f: Format, opts: Options, existing: set<FilePath>,
                          codec: EncodeRequest -> CodecReply)
    ensures var s := ConvertOne(src, f, opts, existing, codec);
            var dest := DestPathFor(src, f);
            && s.result.src == src && s.result.dest == dest
            && (!opts.force && dest in existing ==>
                  s == ConvertStep(ConversionResult(src, dest, false, Some(ExistsReason)), None, existing))
            && (opts.force || dest !in existing ==>
                  && s.encoded == Some(EncodeRequest(src, dest, f, EncoderQuality(f, opts.quality)))
                  && (s.result.ok <==> codec(s.encoded.value).Written?)
                  && (s.result.ok ==> s.result.reason.None? && s.existing == existing + {dest})
                  && (!s.result.ok ==> s.result.reason == Some(codec(s.encoded.value).message) && s.existing == existing))
  {
  }

  /**
   * convertOne looks at the existing paths only to ask whether the
   * destination is one of them: two sets that agree on that give the same
   * result.
   */
  lemma ConvertOneSeesOnlyDest(src: FilePath, f: Format, opts: Options, existing1: set<FilePath>,
                               existing2: set<FilePath>, codec: EncodeRequest -> CodecReply)
    requires DestPathFor(src, f) in existing1 <==> DestPathFor(src, f) in existing2
    ensures ConvertOne(src, f, opts, existing1, codec).result == ConvertOne(src, f, opts, existing2, codec).result
  {
  }

  /**
   * Running convertOne again without --force on a source it already converted
   * fails with the exists reason, calls no codec and changes no file.
   */
  lemma {:induction false} SecondRunIsNoOp(src: FilePath, f: Format, opts: Options, existing: set<FilePath>,
                                            codec: EncodeRequest -> CodecReply, codec2: EncodeRequest -> CodecReply)
    requires !opts.force
    requires ConvertOne(src, f, opts, existing, codec).result.ok
    ensures var first := ConvertOne(src, f, opts, existing, codec);
            var second := ConvertOne(src, f, opts, first.existing, codec2);
            && !second.result.ok && second.result.reason == Some(ExistsReason)
            && second.encoded.None? && second.existing == first.existing
  {
    var first := ConvertOne(src, f, opts, existing, codec);
    assert DestPathFor(src, f) in first.existing;
  }

  /** With --force an existing destination does not stop the codec, which writes it afresh. */
  lemma ForceOverwrites(src: FilePath, f: Format, opts: Options, existing: set<FilePath>,
                        codec: EncodeRequest -> CodecReply)
    requires opts.force && DestPathFor(src, f) in existing
    ensures var s := ConvertOne(src, f, opts, existing, codec);
            && s.encoded == Some(EncodeRequest(src, DestPathFor(src, f), f, EncoderQuality(f, opts.quality)))
            && (s.result.ok <==> codec(s.encoded.value).Written?)
  {
  }
}
