/**
 * The stand-alone `write` of `packages/writer/src/write.ts`: options merged
 * over `DEFAULT_WRITER_PROPS` of `packages/writer/src/constants.ts`, the
 * payload split by the shared `split` (not part of this model, so a
 * parameter), and every frame rendered at the highest version any of them
 * needed.
 */
module WriteFunction {
  import opened Wrappers
  import opened QrOptions

  /** `WriterProps` as `DEFAULT_WRITER_PROPS` fills it. */
  datatype Props = Props(logLevel: string, qrOptions: Options, size: int, splitLength: int)

  /** `Partial<WriterProps>`: `None` is a field left out. */
  datatype PartialProps = PartialProps(logLevel: Option<string>, qrOptions: Option<Options>, size: Option<int>, splitLength: Option<int>)

  /** `DEFAULT_WRITER_PROPS`. */
  const DefaultProps := Props("silent", DefaultQrOptions, 512, 100)

  /** `{ ...DEFAULT_WRITER_PROPS, ...opts }`. */
  function Merge(base: Props, over: PartialProps): (r: Props)
    ensures over.logLevel.Some? ==> r.logLevel == over.logLevel.value
    ensures over.logLevel.None? ==> r.logLevel == base.logLevel
    ensures over.qrOptions.Some? ==> r.qrOptions == over.qrOptions.value
    ensures over.qrOptions.None? ==> r.qrOptions == base.qrOptions
    ensures over.size.Some? ==> r.size == over.size.value
    ensures over.size.None? ==> r.size == base.size
    ensures over.splitLength.Some? ==> r.splitLength == over.splitLength.value
    ensures over.splitLength.None? ==> r.splitLength == base.splitLength
  {
    Props(
      Pick(Some(base.logLevel), over.logLevel).value,
      Pick(Some(base.qrOptions), over.qrOptions).value,
      Pick(Some(base.size), over.size).value,
      Pick(Some(base.splitLength), over.splitLength).value)
  }

  /** `write(code, opts)` with the shared `split` passed in. */
  function Write<I>(code: string, over: PartialProps, split: (string, Props) -> seq<string>,
                    create: (string, Options) -> int, toDataURL: (string, Options) -> I): seq<Output<I>>
  {
    var merged := Merge(DefaultProps, over);
    Render(split(code, merged), merged.qrOptions, create, toDataURL)
  }

  /**
   * The result has one entry per code of `split`, in order and unchanged;
   * every image is drawn with the merged `qrOptions` at one version that is
   * at least every first-pass version and one of them unless it is 0; with
   * no `qrOptions` given, those are `{ errorCorrectionLevel: 'M', type: 'image/png' }`.
   */
  lemma WriteSpec<I>(code: string, over: PartialProps, split: (string, Props) -> seq<string>,
                     create: (string, Options) -> int, toDataURL: (string, Options) -> I)
    ensures var merged := Merge(DefaultProps, over);
      var codes := split(code, merged);
      var r := Write(code, over, split, create, toDataURL);
      && |r| == |codes|
      && (forall i :: 0 <= i < |r| ==> r[i].code == codes[i])
      && (over.qrOptions.None? ==> merged.qrOptions == DefaultQrOptions)
      && exists v :: DrawnAt(r, merged.qrOptions, create, toDataURL, v)
  {
    var merged := Merge(DefaultProps, over);
    RenderOneVersion(split(code, merged), merged.qrOptions, create, toDataURL);
  }
}
