/**
 * The tag codec of `packages/shared/src/index.ts`: the textual markers
 * `>>>IDX<n>` (frame ordinal) and `>>>HEAD<total>` (frame count) that prefix
 * every frame string, and the functions that build and read them.
 */
module Tags {
  import opened Js

  const IndexPrefix := ">>>IDX"
  const HeadPrefix := ">>>HEAD"

  /** `isHead`: the string starts with the head prefix. */
  predicate IsHead(s: string) {
    StartsWith(s, HeadPrefix)
  }

  /** `createIndexTag`: the index prefix followed by `${n}`. */
  function CreateIndexTag(n: Number): string {
    IndexPrefix + NumberToString(n)
  }

  /** `createHeadTag`: the head prefix followed by `${n}`. */
  function CreateHeadTag(n: Number): string {
    HeadPrefix + NumberToString(n)
  }

  /**
   * `getIndex`: skip through the first space when the string is head-tagged,
   * then parse the characters from position 6 up to the next space; -1 when
   * no space is left. The index prefix itself is never checked.
   */
  function GetIndex(s: string): Number {
    var rest := if IsHead(s) then SliceFrom(s, IndexOf(s, " ") + 1) else s;
    var nextSpace := IndexOf(rest, " ");
    if nextSpace == -1 then Int(-1) else ParseInt(Slice(rest, |IndexPrefix|, nextSpace))
  }

  /**
   * `getHeadLength`: -1 unless the string is head-tagged and has a space;
   * otherwise the characters from position 7 up to the first space, parsed.
   */
  function GetHeadLength(s: string): Number {
    var nextSpace := IndexOf(s, " ");
    if nextSpace == -1 || !IsHead(s) then Int(-1) else ParseInt(Slice(s, |HeadPrefix|, nextSpace))
  }

  /** The frame the splitter builds for shard `i`: `>>>IDX<i> <shard>`. */
  function IndexFrame(i: nat, shard: string): string {
    CreateIndexTag(Int(i)) + " " + shard
  }

  /** The head prefix `>>>HEAD<total> ` put before the first frame. */
  function HeadFrame(total: nat, frame: string): string {
    CreateHeadTag(Int(total)) + " " + frame
  }

  lemma IndexTagShape(i: nat)
    ensures CreateIndexTag(Int(i)) == IndexPrefix + DecimalDigits(i)
    ensures ' ' !in CreateIndexTag(Int(i)) && '>' !in DecimalDigits(i)
    ensures |CreateIndexTag(Int(i))| == 6 + |DecimalDigits(i)|
  {
    var d := DecimalDigits(i);
    assert forall k :: 0 <= k < |d| ==> '0' <= d[k] <= '9';
  }

  lemma HeadTagShape(t: nat)
    ensures CreateHeadTag(Int(t)) == HeadPrefix + DecimalDigits(t)
    ensures ' ' !in CreateHeadTag(Int(t))
    ensures |CreateHeadTag(Int(t))| == 7 + |DecimalDigits(t)|
  {
    var d := DecimalDigits(t);
    assert forall k :: 0 <= k < |d| ==> '0' <= d[k] <= '9';
  }

  /** A string that starts with an index tag is never head-tagged. */
  lemma IndexFrameIsNotHead(i: nat, rest: string)
    ensures !IsHead(CreateIndexTag(Int(i)) + rest)
  {
    var s := CreateIndexTag(Int(i)) + rest;
    IndexTagShape(i);
    if |s| >= |HeadPrefix| {
      assert s[..|HeadPrefix|][3] == s[3] == 'I';
    }
  }

  /** An index frame: its first space ends the tag and its number reads back. */
  lemma IndexSegment(i: nat, p: string)
    ensures IndexOf(IndexFrame(i, p), " ") == |CreateIndexTag(Int(i))|
    ensures ParseInt(Slice(IndexFrame(i, p), |IndexPrefix|, |CreateIndexTag(Int(i))|)) == Int(i)
  {
    var tag := CreateIndexTag(Int(i));
    IndexTagShape(i);
    IndexOfSeparator(tag, ' ', p);
    assert Slice(IndexFrame(i, p), |IndexPrefix|, |tag|) == DecimalDigits(i);
    ParseDecimal(i);
  }

  /** Round trip: the index written by `createIndexTag` is the one `getIndex` reads. */
  lemma GetIndexOfIndexFrame(i: nat, p: string)
    ensures GetIndex(IndexFrame(i, p)) == Int(i)
    ensures !IsHead(IndexFrame(i, p))
  {
    IndexFrameIsNotHead(i, " " + p);
    assert IndexFrame(i, p) == CreateIndexTag(Int(i)) + (" " + p);
    IndexSegment(i, p);
  }

  /** A head frame starts with the head prefix. */
  lemma HeadFrameIsHead(t: nat, rest: string)
    ensures IsHead(HeadFrame(t, rest))
  {
    var h := CreateHeadTag(Int(t));
    HeadTagShape(t);
    assert HeadFrame(t, rest)[..|HeadPrefix|] == h[..|HeadPrefix|];
  }

  /** Behind a head segment without spaces, `getIndex` reads the rest as if it stood alone. */
  lemma GetIndexSkipsHeadSegment(h: string, f: string)
    requires ' ' !in h && IsHead(h + " " + f) && !IsHead(f)
    ensures GetIndex(h + " " + f) == GetIndex(f)
  {
    var s := h + " " + f;
    IndexOfSeparator(h, ' ', f);
    assert SliceFrom(s, |h| + 1) == f by { assert s[|h| + 1..] == f; }
  }

  /** Round trip through a head prefix: `getIndex` skips the head segment. */
  lemma GetIndexOfHeadFrame(t: nat, i: nat, p: string)
    ensures GetIndex(HeadFrame(t, IndexFrame(i, p))) == Int(i)
  {
    HeadTagShape(t);
    HeadFrameIsHead(t, IndexFrame(i, p));
    GetIndexOfIndexFrame(i, p);
    GetIndexSkipsHeadSegment(CreateHeadTag(Int(t)), IndexFrame(i, p));
  }

  /** Without any space, `getIndex` gives -1 (head-tagged or not). */
  lemma GetIndexWithoutSpace(s: string)
    requires ' ' !in s
    ensures GetIndex(s) == Int(-1)
  {
    IndexOfAbsent(s, ' ');
    if IsHead(s) {
      assert SliceFrom(s, 0) == s;
    }
  }

  /**
   * `getIndex` never looks at the first six characters of a string that is
   * not head-tagged: two such strings that differ only there (and have no
   * space there) get the same result.
   */
  lemma GetIndexIgnoresPrefix(a: string, b: string, rest: string)
    requires |a| == |b| == |IndexPrefix|
    requires ' ' !in a && ' ' !in b
    requires !IsHead(a + rest) && !IsHead(b + rest)
    ensures GetIndex(a + rest) == GetIndex(b + rest)
  {
    IndexOfAfterPrefix(a, rest, ' ');
    IndexOfAfterPrefix(b, rest, ' ');
    var k := IndexOf(rest, " ");
    if k != -1 {
      assert Slice(a + rest, 6, 6 + k) == rest[..k] == Slice(b + rest, 6, 6 + k);
    }
  }

  /** Round trip: the count written by `createHeadTag` is the one `getHeadLength` reads. */
  lemma GetHeadLengthOfHeadFrame(t: nat, rest: string)
    ensures GetHeadLength(HeadFrame(t, rest)) == Int(t)
  {
    var h := CreateHeadTag(Int(t));
    var s := HeadFrame(t, rest);
    HeadTagShape(t);
    assert s == h + [' '] + rest;
    assert IsHead(s) by { assert s[..|HeadPrefix|] == h[..|HeadPrefix|]; }
    IndexOfSeparator(h, ' ', rest);
    assert Slice(s, |HeadPrefix|, |h|) == DecimalDigits(t);
    ParseDecimal(t);
  }

  /** `getHeadLength` is -1 for a string with no space or without the head prefix. */
  lemma GetHeadLengthOfUntagged(s: string)
    requires ' ' !in s || !IsHead(s)
    ensures GetHeadLength(s) == Int(-1)
  {
    if ' ' !in s {
      IndexOfAbsent(s, ' ');
    }
  }

  /** Examples of the codec's unit tests: `isHead` and the two tag builders. */
  lemma TagExamples()
    ensures IsHead(">>>HEAD123") && !IsHead(">>>IDX123")
    ensures CreateIndexTag(Int(123)) == ">>>IDX123" && CreateHeadTag(Int(456)) == ">>>HEAD456"
  {
    DigitsAppend(1, 2);
    DigitsAppend(12, 3);
    DigitsAppend(4, 5);
    DigitsAppend(45, 6);
    assert ">>>IDX123"[..7][3] == 'I';
  }

  lemma IndexFrameFact()
    ensures IndexFrame(789, "some other text") == ">>>IDX789 some other text"
  {
    DigitsAppend(7, 8);
    DigitsAppend(78, 9);
  }

  /** Example of the unit tests: a plain index frame. */
  lemma GetIndexExample()
    ensures GetIndex(">>>IDX789 some other text") == Int(789)
  {
    GetIndexOfIndexFrame(789, "some other text");
    IndexFrameFact();
  }

  /** Example of the unit tests: no space gives -1. */
  lemma GetIndexNoSpaceExample()
    ensures GetIndex(">>>IDX") == Int(-1)
  {
    GetIndexWithoutSpace(">>>IDX");
  }

  /** Fewer than one character between position 6 and the first space reads as NaN. */
  lemma GetIndexOfShortSegment(s: string)
    requires !IsHead(s) && 0 <= IndexOf(s, " ") <= |IndexPrefix|
    ensures GetIndex(s) == NaN
  {
    assert Slice(s, |IndexPrefix|, IndexOf(s, " ")) == "";
  }

  /** The same after the head segment of a head-tagged string is skipped. */
  lemma GetIndexOfHeadWithShortSegment(s: string)
    requires IsHead(s) && IndexOf(s, " ") >= 0
    requires 0 <= IndexOf(SliceFrom(s, IndexOf(s, " ") + 1), " ") <= |IndexPrefix|
    ensures GetIndex(s) == NaN
  {
    var rest := SliceFrom(s, IndexOf(s, " ") + 1);
    assert Slice(rest, |IndexPrefix|, IndexOf(rest, " ")) == "";
  }

  lemma UntaggedExampleFacts()
    ensures !IsHead("some text without index tag")
    ensures IndexOf("some text without index tag", " ") == 4
  {
    var s := "some text without index tag";
    assert s[..7][0] == 's';
    assert s == "some" + [' '] + "text without index tag";
    IndexOfSeparator("some", ' ', "text without index tag");
  }

  /** Example of the unit tests: no digits after position 6 gives NaN. */
  lemma GetIndexUntaggedExample()
    ensures GetIndex("some text without index tag") == NaN
  {
    UntaggedExampleFacts();
    GetIndexOfShortSegment("some text without index tag");
  }

  lemma HeadOnlyIsHead()
    ensures IsHead(">>>HEAD987 some other text")
  {
    assert ">>>HEAD987 some other text"[..7] == ">>>HEAD";
  }

  lemma HeadOnlyFirstSpace()
    ensures IndexOf(">>>HEAD987 some other text", " ") == 10
  {
    assert ">>>HEAD987 some other text" == ">>>HEAD987" + [' '] + "some other text";
    IndexOfSeparator(">>>HEAD987", ' ', "some other text");
  }

  lemma HeadOnlyRest()
    ensures SliceFrom(">>>HEAD987 some other text", 11) == "some other text"
  {
    assert ">>>HEAD987 some other text"[11..] == "some other text";
  }

  lemma HeadOnlyRestSpace()
    ensures IndexOf("some other text", " ") == 4
  {
    var a := "some";
    assert ' ' !in a;
    assert "some other text" == a + [' '] + "other text";
    IndexOfSeparator(a, ' ', "other text");
  }

  lemma HeadOnlyExampleFacts()
    ensures IsHead(">>>HEAD987 some other text")
    ensures IndexOf(">>>HEAD987 some other text", " ") == 10
    ensures SliceFrom(">>>HEAD987 some other text", 11) == "some other text"
    ensures IndexOf("some other text", " ") == 4
  {
    HeadOnlyIsHead();
    HeadOnlyFirstSpace();
    HeadOnlyRest();
    HeadOnlyRestSpace();
  }

  /** Example of the unit tests: a head frame without an index sub-tag gives NaN. */
  lemma GetIndexHeadOnlyExample()
    ensures GetIndex(">>>HEAD987 some other text") == NaN
  {
    HeadOnlyExampleFacts();
    GetIndexOfHeadWithShortSegment(">>>HEAD987 some other text");
  }

  /** A head prefix with no digits before the first space reads as NaN. */
  lemma GetHeadLengthOfEmptyCount(s: string)
    requires IsHead(s) && IndexOf(s, " ") == |HeadPrefix|
    ensures GetHeadLength(s) == NaN
  {
    assert Slice(s, |HeadPrefix|, |HeadPrefix|) == "";
  }

  lemma HeadLengthFrameFact()
    ensures HeadFrame(654, "some other text") == ">>>HEAD654 some other text"
  {
    DigitsAppend(6, 5);
    DigitsAppend(65, 4);
  }

  lemma HeadLengthUntaggedFact()
    ensures !IsHead("some text without head tag")
  {
    assert "some text without head tag"[..7][0] == 's';
  }

  lemma HeadLengthEmptyCountFact()
    ensures IsHead(">>>HEAD some other text") && IndexOf(">>>HEAD some other text", " ") == 7
  {
    assert ">>>HEAD some other text" == ">>>HEAD" + [' '] + "some other text";
    IndexOfSeparator(">>>HEAD", ' ', "some other text");
  }

  lemma HeadLengthExampleFacts()
    ensures HeadFrame(654, "some other text") == ">>>HEAD654 some other text"
    ensures !IsHead("some text without head tag")
    ensures IsHead(">>>HEAD some other text") && IndexOf(">>>HEAD some other text", " ") == 7
  {
    HeadLengthFrameFact();
    HeadLengthUntaggedFact();
    HeadLengthEmptyCountFact();
  }

  /** Examples of the unit tests for `getHeadLength`, including the pinned -1 and NaN. */
  lemma GetHeadLengthExamples()
    ensures GetHeadLength(">>>HEAD654 some other text") == Int(654)
    ensures GetHeadLength("some text without head tag") == Int(-1)
    ensures GetHeadLength(">>>HEAD some other text") == NaN
  {
    HeadLengthExampleFacts();
    GetHeadLengthOfHeadFrame(654, "some other text");
    GetHeadLengthOfUntagged("some text without head tag");
    GetHeadLengthOfEmptyCount(">>>HEAD some other text");
  }
}
