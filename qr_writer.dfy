/**
 * The `Writer` class of `packages/writer/src/writer.ts`: options merged over
 * its defaults, `write`, which splits the payload into tagged frames,
 * encodes the first one with the configured version, pins that version for
 * the rest and records the image side and frame count, the conversion of an
 * encoder's module matrix into a 0/1 pixel image with a margin, and the
 * guards of `toCanvas` and `toGif`. The `@nuintun/qrcode` encoder is a
 * function parameter.
 */
module QrWriter {
  import opened Wrappers
  import opened Js
  import opened Splitter

  /** `WriterProps`; `version` is `None` while undefined. */
  datatype Props = Props(
    logLevel: string, errorCorrectionLevel: string, encodingHint: bool, version: Option<int>,
    moduleSize: int, margin: int, delay: int, splitLength: int)

  /** `Partial<WriterProps>`: `None` is a field left out. */
  datatype PartialProps = PartialProps(
    logLevel: Option<string>, errorCorrectionLevel: Option<string>, encodingHint: Option<bool>, version: Option<int>,
    moduleSize: Option<int>, margin: Option<int>, delay: Option<int>, splitLength: Option<int>)

  /** `DEFAULT_WRITER_PROPS` of the constructor. */
  const DefaultProps := Props("silent", "M", true, None, 4, 8, 100, 100)

  function Over<T>(base: T, over: Option<T>): (r: T)
    ensures over.Some? ==> r == over.value
    ensures over.None? ==> r == base
  {
    if over.Some? then over.value else base
  }

  /** `{ ...DEFAULT_WRITER_PROPS, ...opts }`. */
  function Merge(base: Props, over: PartialProps): (r: Props)
    ensures r.logLevel == Over(base.logLevel, over.logLevel)
    ensures r.errorCorrectionLevel == Over(base.errorCorrectionLevel, over.errorCorrectionLevel)
    ensures r.encodingHint == Over(base.encodingHint, over.encodingHint)
    ensures r.version == (if over.version.Some? then over.version else base.version)
    ensures r.moduleSize == Over(base.moduleSize, over.moduleSize)
    ensures r.margin == Over(base.margin, over.margin)
    ensures r.delay == Over(base.delay, over.delay)
    ensures r.splitLength == Over(base.splitLength, over.splitLength)
  {
    Props(
      Over(base.logLevel, over.logLevel),
      Over(base.errorCorrectionLevel, over.errorCorrectionLevel),
      Over(base.encodingHint, over.encodingHint),
      if over.version.Some? then over.version else base.version,
      Over(base.moduleSize, over.moduleSize),
      Over(base.margin, over.margin),
      Over(base.delay, over.delay),
      Over(base.splitLength, over.splitLength))
  }

  /**
   * What an encoder holds after `make()`: the version it used, the matrix
   * side and the module matrix, `None` for a `null` module.
   */
  datatype Symbol = Symbol(version: int, matrixSize: int, matrix: seq<seq<Option<bool>>>)

  /**
   * The encoder: content, the version forced by `setVersion` (`None` when
   * it chooses), the encoding hint and the error correction level. `Err`
   * is `make()` throwing, as it does for content that does not fit the
   * forced version.
   */
  type Encode = (string, Option<int>, bool, string) -> Result<Symbol>

  /** `if (version) encoder.setVersion(version)`: `undefined` and 0 are falsy and leave the choice to the encoder. */
  function Forced(version: Option<int>): (r: Option<int>)
    ensures r.Some? <==> version.Some? && version.value != 0
    ensures r.Some? ==> r == version
  {
    if version.Some? && version.value != 0 then version else None
  }

  /** `createEncoder(content, version)`. */
  function CreateEncoder(content: string, version: Option<int>, opts: Props, encode: Encode): Result<Symbol> {
    encode(content, Forced(version), opts.encodingHint, opts.errorCorrectionLevel)
  }

  /**
   * The encoders of the frames from `i` on, each created at version `v`:
   * all of them when none throws, otherwise the error of the first that
   * throws.
   */
  function LaterSymbols(codes: seq<string>, v: int, opts: Props, encode: Encode, i: nat): (r: Result<seq<Symbol>>)
    requires i <= |codes|
    ensures r.Ok? <==> forall k :: i <= k < |codes| ==> CreateEncoder(codes[k], Some(v), opts, encode).Ok?
    ensures r.Ok? ==> |r.value| == |codes| - i
    ensures r.Ok? ==> forall k :: 0 <= k < |r.value| ==> CreateEncoder(codes[i + k], Some(v), opts, encode) == Ok(r.value[k])
    ensures r.Err? ==> exists k :: (i <= k < |codes| && CreateEncoder(codes[k], Some(v), opts, encode) == Err(r.message)
      && forall j :: i <= j < k ==> CreateEncoder(codes[j], Some(v), opts, encode).Ok?)
    decreases |codes| - i
  {
    if i == |codes| then Ok([])
    else
      var sym := CreateEncoder(codes[i], Some(v), opts, encode);
      if sym.Err? then Err(sym.message)
      else
        var rest := LaterSymbols(codes, v, opts, encode, i + 1);
        if rest.Err? then rest else Ok([sym.value] + rest.value)
  }

  /** When encoder `k` is the first from `i` on to throw, its error is the result. */
  lemma {:induction false} LaterFirstErr(codes: seq<string>, v: int, opts: Props, encode: Encode, i: nat, k: nat)
    requires i <= k < |codes|
    requires forall j :: i <= j < k ==> CreateEncoder(codes[j], Some(v), opts, encode).Ok?
    requires CreateEncoder(codes[k], Some(v), opts, encode).Err?
    ensures LaterSymbols(codes, v, opts, encode, i) == Err(CreateEncoder(codes[k], Some(v), opts, encode).message)
    decreases k - i
  {
    if i < k {
      LaterFirstErr(codes, v, opts, encode, i + 1, k);
    }
  }

  /**
   * The encoders of `write`: the first frame's at the configured version,
   * every later one at the version the first encoder ended up with; the
   * first error thrown ends `write`.
   */
  function Symbols(codes: seq<string>, opts: Props, encode: Encode): (r: Result<seq<Symbol>>)
    requires |codes| >= 1
    ensures r.Ok? ==> |r.value| == |codes|
  {
    var first := CreateEncoder(codes[0], opts.version, opts, encode);
    if first.Err? then Err(first.message)
    else
      var later := LaterSymbols(codes, first.value.version, opts, encode, 1);
      if later.Err? then Err(later.message) else Ok([first.value] + later.value)
  }

  /** Encoder `i` of a `write` that did not throw, first or later. */
  lemma SymbolAt(codes: seq<string>, opts: Props, encode: Encode, i: nat)
    requires i < |codes| && Symbols(codes, opts, encode).Ok?
    ensures var syms := Symbols(codes, opts, encode).value;
      Ok(syms[i]) == if i == 0 then CreateEncoder(codes[0], opts.version, opts, encode)
                     else CreateEncoder(codes[i], Some(syms[0].version), opts, encode)
  {
    var syms := Symbols(codes, opts, encode).value;
    var first := CreateEncoder(codes[0], opts.version, opts, encode);
    if i > 0 {
      assert syms[i] == LaterSymbols(codes, first.value.version, opts, encode, 1).value[i - 1];
    }
  }

  /**
   * `write` throws exactly when some encoder throws: the first one at the
   * configured version, or a later one at the first one's version.
   */
  lemma SymbolsErr(codes: seq<string>, opts: Props, encode: Encode)
    requires |codes| >= 1
    ensures var first := CreateEncoder(codes[0], opts.version, opts, encode);
      Symbols(codes, opts, encode).Err? <==>
        first.Err? || exists k :: 1 <= k < |codes| && CreateEncoder(codes[k], Some(first.value.version), opts, encode).Err?
  {
  }

  /** An encoder that uses the version it is given whenever one is forced and it does not throw. */
  ghost predicate HonoursVersion(encode: Encode) {
    forall content, v, hint, level :: encode(content, Some(v), hint, level).Ok? ==> encode(content, Some(v), hint, level).value.version == v
  }

  /**
   * In a `write` that does not throw, every encoder after the first is
   * forced at the first one's version unless that is 0; with an encoder
   * that honours a forced version, all symbols then share one version, and
   * a configured non-zero version (the one a previous `write` stored) is
   * the version of all of them.
   */
  lemma SymbolsOneVersion(codes: seq<string>, opts: Props, encode: Encode)
    requires |codes| >= 1 && Symbols(codes, opts, encode).Ok?
    ensures var syms := Symbols(codes, opts, encode).value;
      forall i :: 1 <= i < |codes| && syms[0].version != 0 ==>
        Ok(syms[i]) == encode(codes[i], Some(syms[0].version), opts.encodingHint, opts.errorCorrectionLevel)
    ensures var syms := Symbols(codes, opts, encode).value;
      HonoursVersion(encode) && syms[0].version != 0 ==> forall i :: 0 <= i < |codes| ==> syms[i].version == syms[0].version
    ensures var syms := Symbols(codes, opts, encode).value;
      HonoursVersion(encode) && opts.version.Some? && opts.version.value != 0 ==>
        forall i :: 0 <= i < |codes| ==> syms[i].version == opts.version.value
  {
    var syms := Symbols(codes, opts, encode).value;
    var v := syms[0].version;
    forall i | 1 <= i < |codes| && v != 0
      ensures Ok(syms[i]) == encode(codes[i], Some(v), opts.encodingHint, opts.errorCorrectionLevel)
    {
      SymbolAt(codes, opts, encode, i);
    }
    SymbolAt(codes, opts, encode, 0);
  }

  /**
   * `isDark(matrix, row, col)`: a missing row is light; a present row with a
   * `null` module is light; a column past the row's end reads `undefined`,
   * which is not `null` but is falsy, so it is light too.
   */
  function IsDark(matrix: seq<seq<Option<bool>>>, row: int, col: int): (r: bool)
    ensures r <==> 0 <= row < |matrix| && 0 <= col < |matrix[row]| && matrix[row][col] == Some(true)
  {
    if 0 <= row < |matrix| && !(0 <= col < |matrix[row]| && matrix[row][col].None?) then
      0 <= col < |matrix[row]| && matrix[row][col].value
    else
      false
  }

  function Abs(a: int): nat {
    if a < 0 then -a else a
  }

  /**
   * `(a / m) >> 0` on integers: the quotient truncated toward zero; a zero
   * divisor gives an infinity or NaN, which `>> 0` turns into 0.
   */
  function TruncDiv(a: int, m: int): (r: int)
    ensures m == 0 ==> r == 0
    ensures m != 0 ==> Abs(r) == Abs(a) / Abs(m)
    ensures r < 0 ==> (a < 0) != (m < 0)
  {
    if m == 0 then 0
    else if (a >= 0) == (m > 0) then Abs(a) / Abs(m)
    else -(Abs(a) / Abs(m))
  }

  /** The pixel at column `x`, row `y`: 0 (dark) inside the margin over a dark module, 1 otherwise. */
  function Pixel(side: int, margin: int, moduleSize: int, matrix: seq<seq<Option<bool>>>, x: int, y: int): int {
    if margin <= x && x < side - margin && margin <= y && y < side - margin
       && IsDark(matrix, TruncDiv(y - margin, moduleSize), TruncDiv(x - margin, moduleSize))
    then 0 else 1
  }

  function Nat(n: int): nat {
    if n < 0 then 0 else n
  }

  function Row(side: int, margin: int, moduleSize: int, matrix: seq<seq<Option<bool>>>, y: int): (row: seq<int>)
    ensures |row| == Nat(side)
  {
    seq(Nat(side), x requires 0 <= x < Nat(side) => Pixel(side, margin, moduleSize, matrix, x, y))
  }

  /** The image `encoderTo2dBinaryArray` builds: `side` rows of `side` pixels, each 0 or 1. */
  function Image(side: int, margin: int, moduleSize: int, matrix: seq<seq<Option<bool>>>): (img: seq<seq<int>>)
    ensures |img| == Nat(side)
    ensures forall y :: 0 <= y < |img| ==> |img[y]| == Nat(side)
    ensures forall y, x :: 0 <= y < |img| && 0 <= x < |img[y]| ==> img[y][x] == 0 || img[y][x] == 1
  {
    seq(Nat(side), y requires 0 <= y < Nat(side) => Row(side, margin, moduleSize, matrix, y))
  }

  /**
   * With a positive module size, a non-negative margin and the side
   * `moduleSize * n + margin * 2` that `write` computes for an `n`-module
   * symbol, every pixel of the `moduleSize`-square of module `(r, c)` is
   * dark exactly when that module is.
   */
  lemma ImageScalesModules(n: nat, margin: nat, m: int, matrix: seq<seq<Option<bool>>>, r: nat, c: nat, dx: nat, dy: nat)
    requires m >= 1 && r < n && c < n && dx < m && dy < m
    ensures var side := m * n + margin * 2;
      var img := Image(side, margin, m, matrix);
      var x := margin + c * m + dx;
      var y := margin + r * m + dy;
      && 0 <= y < |img| && 0 <= x < |img[y]|
      && (img[y][x] == 0 <==> IsDark(matrix, r, c))
  {
    var side := m * n + margin * 2;
    var x := margin + c * m + dx;
    var y := margin + r * m + dy;
    MulMono(c + 1, n, m);
    MulMono(r + 1, n, m);
    MulStep(c, m);
    MulStep(r, m);
    assert n * m == m * n;
    DivUnique(c * m + dx, m, c);
    DivUnique(r * m + dy, m, r);
    assert TruncDiv(x - margin, m) == c;
    assert TruncDiv(y - margin, m) == r;
    assert Image(side, margin, m, matrix)[y][x] == Pixel(side, margin, m, matrix, x, y);
  }

  /** Everything outside the margin frame is light. */
  lemma ImageMarginLight(side: int, margin: int, m: int, matrix: seq<seq<Option<bool>>>, x: nat, y: nat)
    requires y < Nat(side) && x < Nat(side)
    requires x < margin || y < margin || x >= side - margin || y >= side - margin
    ensures Image(side, margin, m, matrix)[y][x] == 1
  {
    assert Image(side, margin, m, matrix)[y] == Row(side, margin, m, matrix, y);
  }

  /**
   * The loop of `write` over the later frames, each encoder forced at the
   * first one's version `v`; the first that throws ends it with its error.
   */
  method EncodeLater(codes: seq<string>, v: int, opts: Props, encode: Encode) returns (r: Result<seq<Symbol>>)
    requires |codes| >= 1
    ensures r == LaterSymbols(codes, v, opts, encode, 1)
  {
    var syms: seq<Symbol> := [];
    var i := 1;
    while i < |codes|
      invariant 1 <= i <= |codes|
      invariant |syms| == i - 1
      invariant forall k :: 0 <= k < |syms| ==> CreateEncoder(codes[1 + k], Some(v), opts, encode) == Ok(syms[k])
    {
      var sym := CreateEncoder(codes[i], Some(v), opts, encode);
      if sym.Err? {
        forall j | 1 <= j < i
          ensures CreateEncoder(codes[j], Some(v), opts, encode).Ok?
        {
          assert CreateEncoder(codes[1 + (j - 1)], Some(v), opts, encode) == Ok(syms[j - 1]);
        }
        LaterFirstErr(codes, v, opts, encode, 1, i);
        return Err(sym.message);
      }
      syms := syms + [sym.value];
      i := i + 1;
    }
    forall j | 1 <= j < |codes|
      ensures CreateEncoder(codes[j], Some(v), opts, encode).Ok?
    {
      assert CreateEncoder(codes[1 + (j - 1)], Some(v), opts, encode) == Ok(syms[j - 1]);
    }
    var all := LaterSymbols(codes, v, opts, encode, 1);
    assert all.Ok? && |all.value| == |syms|;
    forall k | 0 <= k < |syms|
      ensures all.value[k] == syms[k]
    {
      assert CreateEncoder(codes[1 + k], Some(v), opts, encode) == Ok(all.value[k]);
    }
    assert all.value == syms;
    return Ok(syms);
  }

  /** One element of `write`'s result. */
  datatype Frame = Frame(code: string, image: seq<seq<int>>)

  const CanvasError := "Run writer.write() before running writer.toCanvas()"
  const GifError := "Run writer.write() before running writer.toGif()"

  class Writer {
    var opts: Props
    var size: Option<int>
    var numFrames: Option<int>

    /** `new Writer(opts)`: the options over the defaults; size and frame count unset. */
    constructor(over: PartialProps)
      ensures opts == Merge(DefaultProps, over)
      ensures size == None && numFrames == None
    {
      opts := Merge(DefaultProps, over);
      size := None;
      numFrames := None;
    }

    /** `this.size && this.numFrames`: both set and non-zero. */
    predicate Ready()
      reads this
    {
      size.Some? && size.value != 0 && numFrames.Some? && numFrames.value != 0
    }

    /** `this.size!`, where an unset size makes the loops run zero times. */
    function Side(): int
      reads this
    {
      if size.Some? then size.value else 0
    }

    /** `encoderTo2dBinaryArray(encoder)`: the two nested loops over rows and columns. */
    method EncoderTo2dBinaryArray(symbol: Symbol) returns (image: seq<seq<int>>)
      ensures image == Image(Side(), opts.margin, opts.moduleSize, symbol.matrix)
    {
      var side := if size.Some? then size.value else 0;
      var margin, moduleSize := opts.margin, opts.moduleSize;
      var matrix := symbol.matrix;
      image := [];
      var y := 0;
      while y < side
        invariant 0 <= y <= Nat(side)
        invariant |image| == y
        invariant forall j :: 0 <= j < y ==> image[j] == Row(side, margin, moduleSize, matrix, j)
      {
        var row: seq<int> := [];
        var x := 0;
        while x < side
          invariant 0 <= x <= side
          invariant |row| == x
          invariant forall i :: 0 <= i < x ==> row[i] == Pixel(side, margin, moduleSize, matrix, i, y)
        {
          if margin <= x && x < side - margin && margin <= y && y < side - margin
             && IsDark(matrix, TruncDiv(y - margin, moduleSize), TruncDiv(x - margin, moduleSize)) {
            row := row + [0];
          } else {
            row := row + [1];
          }
          x := x + 1;
        }
        image := image + [row];
        y := y + 1;
      }
    }

    /**
     * `write(code)`. When the first encoder throws, nothing is stored and
     * `write` throws. Otherwise the stored version becomes the first
     * encoder's, the side becomes `moduleSize * matrixSize + margin * 2` of
     * that encoder and the frame count the number of tagged frames; then a
     * later encoder that throws ends `write` with that state kept, and
     * otherwise the result pairs every tagged frame, in order, with the
     * image of its encoder. A `splitLength` below 1 never leaves the split
     * loop on a non-empty payload, so it is excluded.
     */
    method Write(code: string, encode: Encode) returns (r: Result<seq<Frame>>)
      requires opts.splitLength >= 1
      modifies this
      ensures var codes := Tagged(code, old(opts).splitLength);
        var first := CreateEncoder(codes[0], old(opts).version, old(opts), encode);
        first.Err? ==> r == Err(first.message) && opts == old(opts) && size == old(size) && numFrames == old(numFrames)
      ensures var codes := Tagged(code, old(opts).splitLength);
        var first := CreateEncoder(codes[0], old(opts).version, old(opts), encode);
        first.Ok? ==>
          && opts == old(opts).(version := Some(first.value.version))
          && size == Some(opts.moduleSize * first.value.matrixSize + opts.margin * 2)
          && numFrames == Some(|codes|)
          && (Ready() <==> size.value != 0)
      ensures var codes := Tagged(code, old(opts).splitLength);
        var syms := Symbols(codes, old(opts), encode);
        && (syms.Err? ==> r == Err(syms.message))
        && (syms.Ok? ==> (r.Ok? && |r.value| == |codes|
            && forall i :: 0 <= i < |codes| ==> r.value[i] == Frame(codes[i], Image(size.value, opts.margin, opts.moduleSize, syms.value[i].matrix))))
    {
      var props := opts;
      var codes := Split(code, props.splitLength);
      TaggedNonEmpty(code, props.splitLength);
      var first := CreateEncoder(codes[0], props.version, props, encode);
      if first.Err? {
        return Err(first.message);
      }
      opts := opts.(version := Some(first.value.version));
      size := Some(opts.moduleSize * first.value.matrixSize + opts.margin * 2);
      numFrames := Some(|codes|);
      var later := EncodeLater(codes, first.value.version, props, encode);
      if later.Err? {
        return Err(later.message);
      }
      var frames := Draw(codes, [first.value] + later.value);
      r := Ok(frames);
    }

    /** The second loop of `write`: every frame paired with the image of its encoder. */
    method Draw(codes: seq<string>, syms: seq<Symbol>) returns (r: seq<Frame>)
      requires |syms| == |codes|
      ensures |r| == |codes|
      ensures forall i :: 0 <= i < |r| ==> r[i] == Frame(codes[i], Image(Side(), opts.margin, opts.moduleSize, syms[i].matrix))
    {
      r := [];
      var i := 0;
      while i < |codes|
        invariant 0 <= i <= |codes|
        invariant |r| == i
        invariant forall j :: 0 <= j < i ==> r[j] == Frame(codes[j], Image(Side(), opts.margin, opts.moduleSize, syms[j].matrix))
      {
        var image := EncoderTo2dBinaryArray(syms[i]);
        r := r + [Frame(codes[i], image)];
        i := i + 1;
      }
    }

    /** The guard of `toCanvas`; when it passes, the canvas becomes `size` pixels square. */
    method ToCanvas(qrs: seq<Frame>) returns (r: Result<int>)
      ensures !Ready() ==> r == Err(CanvasError)
      ensures Ready() ==> r == Ok(size.value)
    {
      if size.None? || size.value == 0 || numFrames.None? || numFrames.value == 0 {
        return Err(CanvasError);
      }
      return Ok(size.value);
    }

    /** The guard of `toGif`; when it passes, the GIF frames are `size` pixels square. */
    method ToGif(qrs: seq<Frame>) returns (r: Result<int>)
      ensures !Ready() ==> r == Err(GifError)
      ensures Ready() ==> r == Ok(size.value)
    {
      if size.None? || size.value == 0 || numFrames.None? || numFrames.value == 0 {
        return Err(GifError);
      }
      return Ok(size.value);
    }
  }
}
