/**
 * The options handed to the `qrcode` library by the writers of
 * `packages/writer/index.ts`, `packages/writer/src/index.ts` and
 * `packages/writer/src/write.ts`, and the object spread `{ ...a, ...b }`
 * that merges them: a field that `b` sets wins, every other field keeps
 * `a`'s value. Also the two-pass rendering the three writers share: every
 * text is encoded once with the library choosing the version (`create`
 * gives the version chosen), then drawn again (`toDataURL`) at the highest
 * of those versions.
 */
module QrOptions {
  import opened Wrappers
  import opened Versions

  /** `QRCodeToDataURLOptions`, reduced to the fields the writers set; `None` is an absent field. */
  datatype Options = Options(errorCorrectionLevel: Option<string>, imageType: Option<string>, version: Option<int>)

  function Pick<T>(base: Option<T>, over: Option<T>): (r: Option<T>)
    ensures over.Some? ==> r == over
    ensures over.None? ==> r == base
  {
    if over.Some? then over else base
  }

  /** `{ ...base, ...over }`. */
  function Spread(base: Options, over: Options): Options {
    Options(
      Pick(base.errorCorrectionLevel, over.errorCorrectionLevel),
      Pick(base.imageType, over.imageType),
      Pick(base.version, over.version))
  }

  /** `{ errorCorrectionLevel: 'M', type: 'image/png' }`, the default of the writers. */
  const DefaultQrOptions := Options(Some("M"), Some("image/png"), None)

  /** `{ ...opts, version: v }`. */
  function AtVersion(opts: Options, v: int): Options {
    Spread(opts, Options(None, None, Some(v)))
  }

  /**
   * Merging keeps every field the override sets and every default the
   * override leaves out; merging nothing changes nothing, and merging twice
   * is merging once.
   */
  lemma SpreadLaws(base: Options, over: Options)
    ensures over.errorCorrectionLevel.Some? ==> Spread(base, over).errorCorrectionLevel == over.errorCorrectionLevel
    ensures over.errorCorrectionLevel.None? ==> Spread(base, over).errorCorrectionLevel == base.errorCorrectionLevel
    ensures over.imageType.Some? ==> Spread(base, over).imageType == over.imageType
    ensures over.imageType.None? ==> Spread(base, over).imageType == base.imageType
    ensures over.version.Some? ==> Spread(base, over).version == over.version
    ensures over.version.None? ==> Spread(base, over).version == base.version
    ensures Spread(base, Options(None, None, None)) == base
    ensures Spread(Spread(base, over), over) == Spread(base, over)
  {
  }

  /** Setting the version touches the version only. */
  lemma AtVersionOnlyVersion(opts: Options, v: int)
    ensures AtVersion(opts, v) == opts.(version := Some(v))
  {
  }

  /** One rendered frame: the text and its image. */
  datatype Output<I> = Output(code: string, image: I)

  /**
   * `codes.map(v => create(v, opts))`, the highest `version` of the
   * results, and `codes.map(v => ({ code: v, image: toDataURL(v, { ...opts, version }) }))`.
   */
  function Render<I>(codes: seq<string>, opts: Options, create: (string, Options) -> int, toDataURL: (string, Options) -> I): seq<Output<I>> {
    var highest := HighestVersion(seq(|codes|, i requires 0 <= i < |codes| => create(codes[i], opts)));
    seq(|codes|, i requires 0 <= i < |codes| => Output(codes[i], toDataURL(codes[i], AtVersion(opts, highest))))
  }

  /**
   * Every image of `out` is its text drawn with `opts` at version `v`, and
   * `v` is at least every version the library chose for a text on the first
   * pass, and one of them unless it is 0.
   */
  ghost predicate DrawnAt<I>(out: seq<Output<I>>, opts: Options, create: (string, Options) -> int, toDataURL: (string, Options) -> I, v: int) {
    && (forall i :: 0 <= i < |out| ==> out[i].image == toDataURL(out[i].code, opts.(version := Some(v))))
    && (forall i :: 0 <= i < |out| ==> create(out[i].code, opts) <= v)
    && (v == 0 || exists i :: 0 <= i < |out| && v == create(out[i].code, opts))
  }

  /**
   * One output per text, in order and unchanged; every image drawn with the
   * given options at one common version that is at least every version the
   * library chose on the first pass, and one of them unless it is 0.
   */
  lemma RenderOneVersion<I>(codes: seq<string>, opts: Options, create: (string, Options) -> int, toDataURL: (string, Options) -> I)
    ensures var r := Render(codes, opts, create, toDataURL);
      && |r| == |codes|
      && (forall i :: 0 <= i < |r| ==> r[i].code == codes[i])
      && exists v :: DrawnAt(r, opts, create, toDataURL, v)
  {
    var r := Render(codes, opts, create, toDataURL);
    var versions := seq(|codes|, i requires 0 <= i < |codes| => create(codes[i], opts));
    var v := HighestVersion(versions);
    forall i | 0 <= i < |r|
      ensures create(r[i].code, opts) <= v
    {
      assert versions[i] == create(codes[i], opts);
    }
    AtVersionOnlyVersion(opts, v);
    assert forall i :: 0 <= i < |r| ==> r[i].image == toDataURL(r[i].code, opts.(version := Some(v)));
    if v != 0 {
      var i :| 0 <= i < |versions| && v == versions[i];
      assert v == create(r[i].code, opts);
    }
    assert DrawnAt(r, opts, create, toDataURL, v);
  }
}
