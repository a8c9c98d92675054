/**
 * `FileProcessor` of `packages/reader/src/processors/file-processor.ts`:
 * `isGIF`, the empty-string fallback of `processSingleFrame`, the per-frame
 * decoding of `processAllFrames`, and `read`. A GIF's frames are all decoded
 * and reassembled with no deduplication and no check against the head
 * count; any other file is decoded once and returned raw. Reading the file,
 * splitting the GIF into images and QR decoding are outside the model: the
 * decoder's answer per image is given, `None` when it found no symbol.
 */
module FileReader {
  import opened Js
  import opened Wrappers
  import opened Tags
  import opened Frames
  import opened Splitter
  import opened Reassembly

  /**
   * `name.split('.').pop()`: the text after the last `.`, or the whole name
   * when it has none.
   */
  function Extension(name: string): (r: string)
    ensures '.' !in r
    ensures |r| <= |name| && name[|name| - |r|..] == r
    ensures |r| < |name| ==> name[|name| - |r| - 1] == '.'
  {
    if |name| == 0 || name[|name| - 1] == '.' then ""
    else Extension(name[..|name| - 1]) + [name[|name| - 1]]
  }

  /** `toLowerCase` on one character, for the ASCII letters. */
  function LowerChar(c: char): char {
    if 'A' <= c <= 'Z' then (c as int + 32) as char else c
  }

  function Lower(s: string): string {
    seq(|s|, k requires 0 <= k < |s| => LowerChar(s[k]))
  }

  /** `isGIF`: the extension is `gif` in any case, or the MIME type starts with `image/gif`. */
  predicate IsGif(name: string, mime: string) {
    Lower(Extension(name)) == "gif" || StartsWith(mime, "image/gif")
  }

  /** `toLowerCase` gives `gif` exactly for the eight spellings `gif`, `GIF`, `Gif`, ... */
  lemma LowerIsGif(e: string)
    ensures Lower(e) == "gif" <==>
      |e| == 3 && e[0] in {'g', 'G'} && e[1] in {'i', 'I'} && e[2] in {'f', 'F'}
  {
    if |e| == 3 {
      var l := Lower(e);
      assert l[0] == LowerChar(e[0]) && l[1] == LowerChar(e[1]) && l[2] == LowerChar(e[2]);
      if l == "gif" {
        assert LowerChar(e[0]) == 'g' && LowerChar(e[1]) == 'i' && LowerChar(e[2]) == 'f';
      }
      if e[0] in {'g', 'G'} && e[1] in {'i', 'I'} && e[2] in {'f', 'F'} {
        assert l == [l[0], l[1], l[2]];
      }
    }
  }

  /** The extension of `a.b` is `b` when `b` has no dot. */
  lemma {:induction false} ExtensionAfterDot(a: string, b: string)
    requires '.' !in b
    ensures Extension(a + "." + b) == b
  {
    if |b| > 0 {
      var n := a + "." + b;
      var b' := b[..|b| - 1];
      assert n[..|n| - 1] == a + "." + b';
      ExtensionAfterDot(a, b');
      assert b' + [b[|b| - 1]] == b;
    } else {
      assert (a + "." + b)[|a + "." + b| - 1] == '.';
    }
  }

  lemma MimeFacts()
    ensures StartsWith("image/gif", "image/gif")
    ensures !StartsWith("image/png", "image/gif")
  {
    assert "image/png"[6] != "image/gif"[6];
  }

  /** The unit test's files: `dummy.gif` of type `image/gif` is a GIF, `dummy.png` of type `image/png` is not. */
  lemma IsGifExamples()
    ensures IsGif("dummy.gif", "image/gif")
    ensures !IsGif("dummy.png", "image/png")
  {
    assert "dummy.png" == "dummy" + "." + "png";
    ExtensionAfterDot("dummy", "png");
    LowerIsGif("png");
    MimeFacts();
  }

  /** `frameData?.data || ''`: the decoded text, or `''` when no symbol was found. */
  function SingleFrame(decoded: Option<string>): (r: string)
    ensures decoded.Some? ==> r == decoded.value
    ensures decoded.None? ==> r == ""
  {
    if decoded.Some? then decoded.value else ""
  }

  /** `processAllFrames`: one string per GIF image, in GIF order (`Promise.all` keeps the order). */
  function AllFrames(decoded: seq<Option<string>>): (r: seq<string>)
    ensures |r| == |decoded|
    ensures forall k :: 0 <= k < |r| ==> r[k] == SingleFrame(decoded[k])
  {
    seq(|decoded|, k requires 0 <= k < |decoded| => SingleFrame(decoded[k]))
  }

  /** `read`: reassemble every GIF frame, or return the single decoded string raw. */
  function Read(name: string, mime: string, gifImages: seq<Option<string>>, single: Option<string>): string {
    if IsGif(name, mime) then Assemble(AllFrames(gifImages)) else SingleFrame(single)
  }

  /** A GIF holding the writer's frames, one per image in any order, reads back as the payload. */
  lemma GifRoundTrip(name: string, mime: string, code: string, L: nat, gifImages: seq<Option<string>>, single: Option<string>)
    requires IsGif(name, mime) && L >= 1 && |code| > 0
    requires multiset(AllFrames(gifImages)) == multiset(Tagged(code, L))
    ensures Read(name, mime, gifImages, single) == code
  {
    RoundTrip(code, L, AllFrames(gifImages));
  }

  /**
   * A non-GIF file returns its one decoded string as it is: the writer's
   * frame for a one-frame payload comes back with its tags.
   */
  lemma NonGifKeepsTags(name: string, mime: string, code: string, L: nat, gifImages: seq<Option<string>>)
    requires !IsGif(name, mime) && 0 < |code| <= L
    ensures Read(name, mime, gifImages, Some(Tagged(code, L)[0])) == Tagged(code, L)[0] != code
  {
    var f := Tagged(code, L)[0];
    TaggedShape(code, L);
    ShardCount(code, L);
    ShardContent(code, L, 0);
    assert |f| > |code|;
  }

  lemma InsertHeadBeforeCopy(f: string)
    requires IsHead(f)
    ensures Insert(f, [f], SortFrames) == [f, f]
  {
    assert SortFrames(f, f) == -1;
  }

  lemma SortTwoCopies(f: string)
    requires IsHead(f)
    ensures Sort([f, f], SortFrames) == [f, f]
  {
    assert Sort([f], SortFrames) == [f];
    InsertHeadBeforeCopy(f);
  }

  /** A payload no longer than the split length is its own single window. */
  lemma OneShard(code: string, L: nat)
    requires 0 < |code| <= L
    ensures |Tagged(code, L)| == 1 && Shards(code, L)[0] == code
  {
    SingleWindow(code, L);
    TaggedShape(code, L);
  }

  /** Two copies of one head frame stay two copies through the sort. */
  lemma AssembleTwice(f: string)
    requires IsHead(f)
    ensures Assemble([f, f]) == SliceFrames(f) + SliceFrames(f)
  {
    SortTwoCopies(f);
    var p := SliceFrames(f);
    assert SliceAll([f, f]) == [p, p];
    JoinTwo(p, p);
  }

  lemma JoinTwo(a: string, b: string)
    ensures Join([a, b], "") == a + b
  {
    assert [a, b][1..] == [b];
  }

  /**
   * The GIF path does not deduplicate: a payload that fits one frame, shown
   * in two images, reads back twice.
   */
  lemma GifRepeatsDuplicates(code: string, L: nat)
    requires 0 < |code| <= L
    ensures var f := Tagged(code, L)[0]; Assemble([f, f]) == code + code
  {
    OneShard(code, L);
    var f := Tagged(code, L)[0];
    assert SliceFrames(f) == code by {
      SliceTagged(code, L, 0);
    }
    assert IsHead(f) by {
      TaggedHead(code, L);
    }
    AssembleTwice(f);
  }

  /** Frames with no head prefix and no space read as index -1 and compare equal. */
  lemma PlainFrame(f: string)
    requires ' ' !in f && !IsHead(f)
    ensures GetIndex(f) == Int(-1) && SliceFrames(f) == f
  {
    IndexOfAbsent(f, ' ');
  }

  /** Frames with no tags and no spaces come out of the sort in arrival order. */
  lemma SortPlain(s: seq<string>)
    requires forall f :: f in s ==> ' ' !in f && !IsHead(f)
    ensures Sort(s, SortFrames) == s
  {
    forall a, b | a in s && b in s
      ensures SortFrames(a, b) >= 0
    {
      PlainCompare(a, b);
    }
    SortNoneBefore(s, SortFrames);
  }

  /** Two untagged frames without spaces compare equal. */
  lemma PlainCompare(a: string, b: string)
    requires ' ' !in a && !IsHead(a) && ' ' !in b && !IsHead(b)
    ensures SortFrames(a, b) == 0
  {
    PlainFrame(a);
    PlainFrame(b);
  }

  /**
   * Frames with no tags and no spaces keep their order and their text: the
   * GIF path then simply concatenates them.
   */
  lemma PlainFramesConcatenate(frames: seq<string>)
    requires forall f :: f in frames ==> ' ' !in f && !IsHead(f)
    ensures Assemble(frames) == Join(frames, "")
  {
    SortPlain(frames);
    forall k | 0 <= k < |frames|
      ensures SliceFrames(frames[k]) == frames[k]
    {
      PlainFrame(frames[k]);
    }
    assert SliceAll(frames) == frames;
  }

  lemma QRDataFacts()
    ensures ' ' !in "QRData1" && !IsHead("QRData1")
    ensures ' ' !in "QRData2" && !IsHead("QRData2")
  {
    assert "QRData1"[0] != HeadPrefix[0];
    assert "QRData2"[0] != HeadPrefix[0];
  }

  lemma QRDataFrames()
    ensures AllFrames([Some("QRData1"), Some("QRData2")]) == ["QRData1", "QRData2"]
  {
  }

  lemma QRDataJoin()
    ensures Join(["QRData1", "QRData2"], "") == "QRData1QRData2"
  {
    assert Join(["QRData2"], "") == "QRData2";
  }

  lemma QRDataAssemble()
    ensures Assemble(["QRData1", "QRData2"]) == "QRData1QRData2"
  {
    QRDataFacts();
    PlainFramesConcatenate(["QRData1", "QRData2"]);
    QRDataJoin();
  }

  /** The unit test's GIF with the frames `QRData1` and `QRData2` reads as `QRData1QRData2`. */
  lemma GifPlainExample(name: string, mime: string)
    requires IsGif(name, mime)
    ensures Read(name, mime, [Some("QRData1"), Some("QRData2")], None) == "QRData1QRData2"
  {
    QRDataFrames();
    QRDataAssemble();
  }
}
