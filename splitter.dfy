/**
 * The splitter: `Writer.split` of `packages/writer/src/writer.ts` (repeated
 * word for word in `packages/writer/src/index.ts`) and the untagged
 * `splitCode` of `packages/writer/index.ts`. The payload is cut into
 * non-overlapping windows of `splitLength` characters; the tagged variant
 * puts `>>>IDX<i> ` before window `i` and `>>>HEAD<count> ` before the first.
 */
module Splitter {
  import opened Js
  import opened Tags

  /** `DEFAULT_SPLIT_LENGTH` of `packages/writer/index.ts`. */
  const DefaultSplitLength: nat := 100

  /** The windows `code.slice(i, i + L)` for i, i + L, i + 2L, ... below `|code|`. */
  function ShardsFrom(code: string, L: nat, i: nat): seq<string>
    requires L >= 1
    decreases |code| - i
  {
    if i >= |code| then [] else [Slice(code, i, i + L)] + ShardsFrom(code, L, i + L)
  }

  function Shards(code: string, L: nat): seq<string>
    requires L >= 1
  {
    ShardsFrom(code, L, 0)
  }

  /**
   * The tagged frames: window `i` behind its index tag and a space, and the
   * head tag with the window count in front of the first. With no window at
   * all the head assignment lands on an empty array, so the count is 0 and
   * the frame is the stringified `undefined`.
   */
  function Tagged(code: string, L: nat): seq<string>
    requires L >= 1
  {
    var shards := Shards(code, L);
    var indexed := seq(|shards|, k requires 0 <= k < |shards| => IndexFrame(k, shards[k]));
    if |indexed| == 0 then [CreateHeadTag(Int(0)) + " undefined"]
    else indexed[0 := HeadFrame(|indexed|, indexed[0])]
  }

  /** There is always a first frame for `write` to encode, even for the empty payload. */
  lemma TaggedNonEmpty(code: string, L: nat)
    requires L >= 1
    ensures |Tagged(code, L)| >= 1
  {
  }

  /** The `while (i < length)` loop that pushes `code.slice(i, i + L)` and advances by `L`. */
  method Chunk(code: string, L: nat) returns (codes: seq<string>)
    requires L >= 1
    ensures codes == Shards(code, L)
  {
    codes := [];
    var i: nat := 0;
    while i < |code|
      invariant codes + ShardsFrom(code, L, i) == Shards(code, L)
      decreases |code| - i
    {
      codes := codes + [Slice(code, i, i + L)];
      i := i + L;
    }
  }

  /** `Writer.split`: the windows, tagged with their index, the first also with the count. */
  method Split(code: string, L: nat) returns (frames: seq<string>)
    requires L >= 1
    ensures frames == Tagged(code, L)
  {
    var codes := Chunk(code, L);
    frames := seq(|codes|, k requires 0 <= k < |codes| => IndexFrame(k, codes[k]));
    if |frames| == 0 {
      frames := [CreateHeadTag(Int(0)) + " undefined"];
    } else {
      frames := frames[0 := HeadFrame(|frames|, frames[0])];
    }
  }

  /** `splitCode`: the untagged windows of the default length. */
  method SplitCode(code: string) returns (codes: seq<string>)
    ensures codes == Shards(code, DefaultSplitLength)
  {
    codes := Chunk(code, DefaultSplitLength);
  }

  lemma MulStep(k: nat, L: nat)
    ensures (k + 1) * L == k * L + L
  {
  }

  lemma {:induction false} ShardsFromCount(code: string, L: nat, i: nat)
    requires L >= 1 && i < |code|
    ensures var n := |ShardsFrom(code, L, i)|; n >= 1 && i + (n - 1) * L < |code| <= i + n * L
    decreases |code| - i
  {
    if i + L < |code| {
      ShardsFromCount(code, L, i + L);
      MulStep(|ShardsFrom(code, L, i + L)| - 1, L);
      MulStep(|ShardsFrom(code, L, i + L)|, L);
    }
  }

  /** `q` is the quotient of `x` by `L` when `q * L <= x < (q + 1) * L`. */
  lemma DivUnique(x: nat, L: nat, q: nat)
    requires L >= 1 && q * L <= x < q * L + L
    ensures x / L == q
  {
    var d := x / L;
    assert x == d * L + x % L;
    if d < q {
      MulMono(d + 1, q, L);
      MulStep(d, L);
      assert false;
    } else if d > q {
      MulMono(q + 1, d, L);
      MulStep(q, L);
      assert false;
    }
  }

  lemma MulMono(a: nat, b: nat, L: nat)
    requires a <= b
    ensures a * L <= b * L
  {
    assert b * L == a * L + (b - a) * L;
  }

  /**
   * The number of windows is the length divided by `L`, rounded up: none for
   * the empty payload, otherwise the least `n` with `|code| <= n * L`.
   */
  lemma ShardCount(code: string, L: nat)
    requires L >= 1
    ensures var n := |Shards(code, L)|; n == 0 <==> |code| == 0
    ensures var n := |Shards(code, L)|; |code| > 0 ==> (n - 1) * L < |code| <= n * L
    ensures |Shards(code, L)| == (|code| + L - 1) / L
  {
    if |code| == 0 {
      assert (L - 1) / L == 0 by { DivUnique(L - 1, L, 0); }
    } else {
      ShardsFromCount(code, L, 0);
      var n := |Shards(code, L)|;
      MulStep(n - 1, L);
      DivUnique(|code| + L - 1, L, n);
    }
  }

  /** Window `k` of the windows from `i` starts at offset `o = i + k*L`. */
  lemma {:induction false} ShardsFromContent(code: string, L: nat, i: nat, k: nat, o: nat)
    requires L >= 1 && k < |ShardsFrom(code, L, i)| && o == i + k * L
    ensures o < |code|
    ensures ShardsFrom(code, L, i)[k] == Slice(code, o, o + L)
    decreases k
  {
    if k > 0 {
      MulStep(k - 1, L);
      assert o == (i + L) + (k - 1) * L;
      ShardsFromContent(code, L, i + L, k - 1, o);
    }
  }

  /**
   * Window `k` is `code[k*L .. min((k+1)*L, |code|)]`: non-empty, at most `L`
   * long, and starting at `k*L`.
   */
  lemma ShardContent(code: string, L: nat, k: nat)
    requires L >= 1 && k < |Shards(code, L)|
    ensures k * L < |code|
    ensures Shards(code, L)[k] == code[k * L .. Min((k + 1) * L, |code|)]
    ensures 1 <= |Shards(code, L)[k]| <= L
  {
    MulStep(k, L);
    ShardAt(code, L, k, k * L);
  }

  /** Window `k`, with its offset `a = k*L` named. */
  lemma ShardAt(code: string, L: nat, k: nat, a: nat)
    requires L >= 1 && k < |Shards(code, L)| && a == k * L
    ensures a < |code|
    ensures Shards(code, L)[k] == code[a .. Min(a + L, |code|)]
    ensures 1 <= |Shards(code, L)[k]| <= L
  {
    ShardsFromContent(code, L, 0, k, a);
    SliceWindow(code, a, L);
  }

  /** A window that starts inside the string is non-empty and at most `L` long. */
  lemma SliceWindow(s: string, a: nat, L: nat)
    requires L >= 1 && a < |s|
    ensures Slice(s, a, a + L) == s[a .. Min(a + L, |s|)]
    ensures 1 <= |Slice(s, a, a + L)| <= L
  {
  }

  lemma {:induction false} ShardsFromJoin(code: string, L: nat, i: nat)
    requires L >= 1
    ensures Join(ShardsFrom(code, L, i), "") == SliceFrom(code, i)
    decreases |code| - i
  {
    if i < |code| {
      ShardsFromJoin(code, L, i + L);
      JoinEmptyCons(Slice(code, i, i + L), ShardsFrom(code, L, i + L));
      assert Slice(code, i, i + L) + SliceFrom(code, i + L) == SliceFrom(code, i);
    }
  }

  /** Concatenating the windows gives back the payload. */
  lemma ShardsJoin(code: string, L: nat)
    requires L >= 1
    ensures Join(Shards(code, L), "") == code
  {
    ShardsFromJoin(code, L, 0);
  }

  /**
   * The tagged frames of a non-empty payload: one per window, frame `k`
   * ending in window `k` after its index tag, and only frame 0 prefixed with
   * the head tag carrying the frame count.
   */
  lemma TaggedShape(code: string, L: nat)
    requires L >= 1 && |code| > 0
    ensures |Tagged(code, L)| == |Shards(code, L)| >= 1
    ensures Tagged(code, L)[0] == HeadFrame(|Shards(code, L)|, IndexFrame(0, Shards(code, L)[0]))
    ensures forall k :: 1 <= k < |Shards(code, L)| ==> Tagged(code, L)[k] == IndexFrame(k, Shards(code, L)[k])
  {
  }

  /** The head frame of a non-empty payload carries index 0 and the frame count. */
  lemma TaggedHead(code: string, L: nat)
    requires L >= 1 && |code| > 0
    ensures IsHead(Tagged(code, L)[0])
    ensures GetIndex(Tagged(code, L)[0]) == Int(0)
    ensures GetHeadLength(Tagged(code, L)[0]) == Int(|Tagged(code, L)|)
  {
    var shards := Shards(code, L);
    TaggedShape(code, L);
    GetHeadLengthOfHeadFrame(|shards|, IndexFrame(0, shards[0]));
    GetIndexOfHeadFrame(|shards|, 0, shards[0]);
    HeadTagShape(|shards|);
  }

  /** Every later frame carries its own position as index and is not a head. */
  lemma TaggedRest(code: string, L: nat, k: nat)
    requires L >= 1 && |code| > 0 && 1 <= k < |Tagged(code, L)|
    ensures GetIndex(Tagged(code, L)[k]) == Int(k)
    ensures !IsHead(Tagged(code, L)[k])
  {
    var shards := Shards(code, L);
    TaggedShape(code, L);
    assert Tagged(code, L)[k] == IndexFrame(k, shards[k]);
    GetIndexOfIndexFrame(k, shards[k]);
  }

  /** Frame `k` of a non-empty payload carries index `k`; only frame 0 is a head. */
  lemma TaggedIndex(code: string, L: nat, k: nat)
    requires L >= 1 && |code| > 0 && k < |Tagged(code, L)|
    ensures GetIndex(Tagged(code, L)[k]) == Int(k)
    ensures IsHead(Tagged(code, L)[k]) <==> k == 0
  {
    if k == 0 {
      TaggedHead(code, L);
    } else {
      TaggedRest(code, L, k);
    }
  }

  /** The empty payload yields the single frame `>>>HEAD0 undefined`. */
  lemma TaggedEmpty(L: nat)
    requires L >= 1
    ensures Tagged("", L) == [">>>HEAD0 undefined"]
  {
    assert Shards("", L) == [];
    assert DecimalDigits(0) == "0";
    assert CreateHeadTag(Int(0)) == ">>>HEAD0";
    assert CreateHeadTag(Int(0)) + " undefined" == ">>>HEAD0 undefined";
  }

  /** Example of the unit tests: a 144-character string gives 2 frames at length 100 and 15 at length 10. */
  lemma SplitCountExamples(code: string)
    requires |code| == 144
    ensures |Tagged(code, 100)| == 2 && |Tagged(code, 10)| == 15
    ensures IsHead(Tagged(code, 100)[0]) && IsHead(Tagged(code, 10)[0])
  {
    ShardCount(code, 100);
    ShardCount(code, 10);
    TaggedHead(code, 100);
    TaggedHead(code, 10);
  }

  /** A payload no longer than `L` is a single window. */
  lemma SingleWindow(code: string, L: nat)
    requires L >= 1 && 0 < |code| <= L
    ensures Shards(code, L) == [code]
  {
    assert ShardsFrom(code, L, L) == [];
    assert Slice(code, 0, L) == code[0..|code|] == code;
  }

  lemma TagsZeroOne()
    ensures CreateIndexTag(Int(0)) == ">>>IDX0" && CreateHeadTag(Int(1)) == ">>>HEAD1"
  {
    assert DecimalDigits(0) == "0" && DecimalDigits(1) == "1";
  }

  lemma TestCodeLiteral()
    ensures ">>>HEAD1" + " " + (">>>IDX0" + " " + "TEST_CODE") == ">>>HEAD1 >>>IDX0 TEST_CODE"
  {
  }

  lemma TestCodeFrame()
    ensures HeadFrame(1, IndexFrame(0, "TEST_CODE")) == ">>>HEAD1 >>>IDX0 TEST_CODE"
  {
    TagsZeroOne();
    TestCodeLiteral();
  }

  /** Example of the unit tests: `TEST_CODE` fits in one frame. */
  lemma SplitSingleExample()
    ensures Tagged("TEST_CODE", 100) == [">>>HEAD1 >>>IDX0 TEST_CODE"]
  {
    SingleWindow("TEST_CODE", 100);
    TestCodeFrame();
  }
}
