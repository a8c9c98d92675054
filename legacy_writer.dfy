/**
 * The `Writer` class of `packages/writer/src/index.ts`: options merged over
 * its defaults at construction, and `write`, which splits the payload into
 * tagged frames and renders them all at the highest QR version any of them
 * needed.
 */
module LegacyWriter {
  import opened Wrappers
  import opened Js
  import opened Splitter
  import opened QrOptions

  /** `WriterProps`. */
  datatype Props = Props(fps: int, logLevel: string, qrOptions: Options, size: int, splitLength: int)

  /** `Partial<WriterProps>`: `None` is a field left out. */
  datatype PartialProps = PartialProps(
    fps: Option<int>, logLevel: Option<string>, qrOptions: Option<Options>, size: Option<int>, splitLength: Option<int>)

  /** `DEFAULT_WRITER_PROPS`. */
  const DefaultProps := Props(10, "silent", DefaultQrOptions, 512, 100)

  /** `{ ...base, ...over }`: a nested `qrOptions` replaces the default one as a whole. */
  function Merge(base: Props, over: PartialProps): (r: Props)
    ensures over.fps.Some? ==> r.fps == over.fps.value
    ensures over.fps.None? ==> r.fps == base.fps
    ensures over.logLevel.Some? ==> r.logLevel == over.logLevel.value
    ensures over.logLevel.None? ==> r.logLevel == base.logLevel
    ensures over.qrOptions.Some? ==> r.qrOptions == over.qrOptions.value
    ensures over.qrOptions.None? ==> r.qrOptions == base.qrOptions
    ensures over.size.Some? ==> r.size == over.size.value
    ensures over.size.None? ==> r.size == base.size
    ensures over.splitLength.Some? ==> r.splitLength == over.splitLength.value
    ensures over.splitLength.None? ==> r.splitLength == base.splitLength
  {
    Props(
      Pick(Some(base.fps), over.fps).value,
      Pick(Some(base.logLevel), over.logLevel).value,
      Pick(Some(base.qrOptions), over.qrOptions).value,
      Pick(Some(base.size), over.size).value,
      Pick(Some(base.splitLength), over.splitLength).value)
  }

  /** Merging an empty override keeps the defaults; merging a full one ignores them. */
  lemma MergeExtremes(base: Props, full: Props)
    ensures Merge(base, PartialProps(None, None, None, None, None)) == base
    ensures Merge(base, PartialProps(Some(full.fps), Some(full.logLevel), Some(full.qrOptions), Some(full.size), Some(full.splitLength))) == full
  {
  }

  class Writer {
    var opts: Props

    /** `new Writer(opts)`: the options over the defaults. */
    constructor(over: PartialProps)
      ensures opts == Merge(DefaultProps, over)
    {
      opts := Merge(DefaultProps, over);
    }

    /**
     * `write(code)`: one output per tagged frame of `split`, in order and
     * unchanged, every image drawn with `qrOptions` at one version that is
     * at least every version the library chose for a frame on the first
     * pass, and one of them unless it is 0. A `splitLength` below 1 never
     * leaves the split loop, so it is excluded.
     */
    method Write<I>(code: string, create: (string, Options) -> int, toDataURL: (string, Options) -> I)
      returns (r: seq<Output<I>>)
      requires opts.splitLength >= 1
      ensures r == Render(Tagged(code, opts.splitLength), opts.qrOptions, create, toDataURL)
      ensures |r| == |Tagged(code, opts.splitLength)|
      ensures forall i :: 0 <= i < |r| ==> r[i].code == Tagged(code, opts.splitLength)[i]
      ensures exists v :: DrawnAt(r, opts.qrOptions, create, toDataURL, v)
    {
      var codes := Split(code, opts.splitLength);
      r := Render(codes, opts.qrOptions, create, toDataURL);
      RenderOneVersion(codes, opts.qrOptions, create, toDataURL);
    }
  }

  /** Example of the unit tests: `TEST_CODE` is written as the single frame `>>>HEAD1 >>>IDX0 TEST_CODE`. */
  lemma WriteSingleExample<I>(create: (string, Options) -> int, toDataURL: (string, Options) -> I)
    ensures var r := Render(Tagged("TEST_CODE", DefaultProps.splitLength), DefaultQrOptions, create, toDataURL);
      |r| == 1 && r[0].code == ">>>HEAD1 >>>IDX0 TEST_CODE"
  {
    SplitSingleExample();
  }
}
