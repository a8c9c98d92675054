/**
 * `packages/writer/index.ts`: the untagged `splitCode` (in the splitter
 * module) and `writer`, which renders every 100-character chunk as a QR
 * image at the highest version the library chose for any chunk, and numbers
 * the results.
 */
module WriterFn {
  import opened Wrappers
  import opened Js
  import opened Splitter
  import opened QrOptions

  /** One result of `writer`: its position, its chunk and its image. */
  datatype Frame<I> = Frame(index: nat, code: string, image: I)

  /**
   * `writer(code, options)`: the chunks of `splitCode`, rendered in two
   * passes with the default options overridden by `options`, numbered from 0.
   */
  function Writer<I>(code: string, options: Options, create: (string, Options) -> int, toDataURL: (string, Options) -> I): seq<Frame<I>> {
    var out := Render(Shards(code, DefaultSplitLength), Spread(DefaultQrOptions, options), create, toDataURL);
    seq(|out|, i requires 0 <= i < |out| => Frame(i, out[i].code, out[i].image))
  }

  /**
   * Result `i` has index `i` and carries chunk `i`, unchanged: there are
   * ceil(|code| / 100) results, none for the empty input, and their chunks
   * concatenate back to the input. Every image is drawn with the merged
   * options at one version no smaller than any first-pass version.
   */
  lemma WriterSpec<I>(code: string, options: Options, create: (string, Options) -> int, toDataURL: (string, Options) -> I)
    ensures var r := Writer(code, options, create, toDataURL);
      var opts := Spread(DefaultQrOptions, options);
      && |r| == (|code| + 99) / 100
      && (|r| == 0 <==> |code| == 0)
      && (forall i :: 0 <= i < |r| ==> r[i].index == i)
      && seq(|r|, i requires 0 <= i < |r| => r[i].code) == Shards(code, DefaultSplitLength)
      && Join(seq(|r|, i requires 0 <= i < |r| => r[i].code), "") == code
      && exists v :: FramesDrawnAt(r, opts, create, toDataURL, v)
  {
    var r := Writer(code, options, create, toDataURL);
    var codes := Shards(code, DefaultSplitLength);
    var opts := Spread(DefaultQrOptions, options);
    var out := Render(codes, opts, create, toDataURL);
    ShardCount(code, DefaultSplitLength);
    ShardsJoin(code, DefaultSplitLength);
    RenderOneVersion(codes, opts, create, toDataURL);
    assert seq(|r|, i requires 0 <= i < |r| => r[i].code) == codes;
    var v :| DrawnAt(out, opts, create, toDataURL, v);
    FramesInherit(r, out, opts, create, toDataURL, v);
  }

  /**
   * Every frame's image is its chunk drawn with `opts` at version `v`, and
   * `v` is at least every first-pass version of a chunk, and one of them
   * unless it is 0.
   */
  ghost predicate FramesDrawnAt<I>(r: seq<Frame<I>>, opts: Options, create: (string, Options) -> int, toDataURL: (string, Options) -> I, v: int) {
    && (forall i :: 0 <= i < |r| ==> r[i].image == toDataURL(r[i].code, opts.(version := Some(v))))
    && (forall i :: 0 <= i < |r| ==> create(r[i].code, opts) <= v)
    && (v == 0 || exists i :: 0 <= i < |r| && v == create(r[i].code, opts))
  }

  /** Frames that copy the outputs' texts and images inherit their common version. */
  lemma FramesInherit<I>(r: seq<Frame<I>>, out: seq<Output<I>>, opts: Options,
                         create: (string, Options) -> int, toDataURL: (string, Options) -> I, v: int)
    requires |r| == |out| && forall i :: 0 <= i < |r| ==> r[i].code == out[i].code && r[i].image == out[i].image
    requires DrawnAt(out, opts, create, toDataURL, v)
    ensures FramesDrawnAt(r, opts, create, toDataURL, v)
  {
    if v != 0 {
      var i :| 0 <= i < |out| && v == create(out[i].code, opts);
      assert v == create(r[i].code, opts);
    }
  }
}
