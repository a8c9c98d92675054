/**
 * The protocol's central promise: the reader's
 * `frames.sort(sortFrames).map(sliceFrames).join('')`, applied to the
 * writer's tagged frames in any arrival order, gives back the payload.
 */
module Reassembly {
  import opened Js
  import opened Tags
  import opened Frames
  import opened Splitter

  /** `sliceFrames` strips exactly the index tag and its space from an index frame. */
  lemma SliceIndexFrame(i: nat, p: string)
    ensures SliceFrames(IndexFrame(i, p)) == p
  {
    var tag := CreateIndexTag(Int(i));
    var s := IndexFrame(i, p);
    GetIndexOfIndexFrame(i, p);
    SliceFramesOfIndexed(s, i);
    assert OccursAt(s, tag, 0);
    assert IndexOf(s, tag) == 0;
  }

  /**
   * A string whose position 3 holds `H` and whose positions 3..n hold no `>`
   * has no occurrence of a tag starting `>>>I` at or before `n`.
   */
  lemma NoTagBefore(s: string, tag: string, n: nat, k: nat)
    requires |tag| >= 4 && tag[0] == '>' && tag[1] == '>' && tag[2] == '>' && tag[3] == 'I'
    requires 3 < n < |s| && s[3] == 'H'
    requires forall m :: 3 <= m <= n ==> s[m] != '>'
    requires k <= n
    ensures !OccursAt(s, tag, k)
  {
    if 3 <= k && k + |tag| <= |s| {
      assert s[k..k + |tag|][0] == s[k];
    }
  }

  /** After its three `>`, a head segment `>>>HEAD<t> ` holds no `>` up to and including its space. */
  lemma HeadSegmentChars(t: nat, rest: string)
    ensures var h := CreateHeadTag(Int(t)); var s := h + " " + rest;
      |h| < |s| && s[3] == 'H' && forall m :: 3 <= m <= |h| ==> s[m] != '>'
  {
    var h := CreateHeadTag(Int(t));
    var s := h + " " + rest;
    HeadTagShape(t);
    var d := DecimalDigits(t);
    assert h == HeadPrefix + d;
    forall m | 3 <= m <= |h|
      ensures s[m] != '>'
    {
      if m < 7 {
        assert s[m] == HeadPrefix[m];
      } else if m < |h| {
        assert s[m] == d[m - 7];
        assert d[m - 7] in d;
      }
    }
  }

  /**
   * No index tag starts inside the head segment `>>>HEAD<t> `: the three
   * `>` of the head prefix are followed by `H`, and nothing after them is a
   * `>`.
   */
  lemma NoTagInHeadSegment(t: nat, i: nat, p: string, k: nat)
    requires k <= |CreateHeadTag(Int(t))|
    ensures !OccursAt(HeadFrame(t, IndexFrame(i, p)), CreateIndexTag(Int(i)), k)
  {
    var tag := CreateIndexTag(Int(i));
    IndexTagShape(i);
    assert tag[..6] == IndexPrefix;
    HeadSegmentChars(t, IndexFrame(i, p));
    NoTagBefore(HeadFrame(t, IndexFrame(i, p)), tag, |CreateHeadTag(Int(t))|, k);
  }

  /** In a head frame the index tag is first found right after the head segment. */
  lemma IndexOfTagInHeadFrame(t: nat, i: nat, p: string)
    ensures IndexOf(HeadFrame(t, IndexFrame(i, p)), CreateIndexTag(Int(i))) == |CreateHeadTag(Int(t))| + 1
  {
    var h := CreateHeadTag(Int(t));
    var tag := CreateIndexTag(Int(i));
    var s := HeadFrame(t, IndexFrame(i, p));
    var m := |h| + 1;
    assert s == h + " " + tag + " " + p;
    assert OccursAt(s, tag, m) by { assert s[m..m + |tag|] == tag; }
    var r := IndexOf(s, tag);
    assert r != -1;
    if r < m {
      NoTagInHeadSegment(t, i, p, r);
    }
  }

  /** Cutting just past a tag found right after the first segment leaves the payload. */
  lemma DropTwoSegments(a: string, b: string, p: string, s: string)
    requires s == a + " " + b + " " + p
    requires IndexOf(s, b) == |a| + 1
    ensures SliceFrom(s, IndexOf(s, b) + |b| + 1) == p
  {
    assert s[|a| + 1 + |b| + 1..] == p;
  }

  /** A head frame is its head tag, a space, the index frame's tag, a space and the payload. */
  lemma HeadFrameSegments(t: nat, i: nat, p: string)
    ensures HeadFrame(t, IndexFrame(i, p)) == CreateHeadTag(Int(t)) + " " + CreateIndexTag(Int(i)) + " " + p
  {
  }

  /**
   * A frame made of a segment, a space, index tag `i`, a space and a
   * payload, whose index reads as `i` and whose tag is first found right
   * after the segment, is cut down to the payload.
   */
  lemma SliceSegmentedFrame(s: string, h: string, i: nat, p: string)
    requires s == h + " " + CreateIndexTag(Int(i)) + " " + p
    requires GetIndex(s) == Int(i)
    requires IndexOf(s, CreateIndexTag(Int(i))) == |h| + 1
    ensures SliceFrames(s) == p
  {
    SliceFramesOfIndexed(s, i);
    DropTwoSegments(h, CreateIndexTag(Int(i)), p, s);
  }

  /** `sliceFrames` strips both the head segment and the index tag from the head frame. */
  lemma SliceHeadFrame(t: nat, i: nat, p: string)
    ensures SliceFrames(HeadFrame(t, IndexFrame(i, p))) == p
  {
    GetIndexOfHeadFrame(t, i, p);
    IndexOfTagInHeadFrame(t, i, p);
    HeadFrameSegments(t, i, p);
    SliceSegmentedFrame(HeadFrame(t, IndexFrame(i, p)), CreateHeadTag(Int(t)), i, p);
  }

  /** Frame `k` of the splitter, stripped by `sliceFrames`, is window `k`. */
  lemma SliceTagged(code: string, L: nat, k: nat)
    requires L >= 1 && |code| > 0 && k < |Tagged(code, L)|
    ensures SliceFrames(Tagged(code, L)[k]) == Shards(code, L)[k]
  {
    var shards := Shards(code, L);
    TaggedShape(code, L);
    if k == 0 {
      SliceHeadFrame(|shards|, 0, shards[0]);
    } else {
      SliceIndexFrame(k, shards[k]);
    }
  }

  /** On the splitter's frames, `sortFrames(F[i], F[j]) < 0` exactly when `i` is the head or `i < j`. */
  lemma CompareTagged(code: string, L: nat, i: nat, j: nat)
    requires L >= 1 && |code| > 0 && i < |Tagged(code, L)| && j < |Tagged(code, L)|
    ensures SortFrames(Tagged(code, L)[i], Tagged(code, L)[j]) < 0 <==> (i == 0 || i < j)
  {
    TaggedIndex(code, L, i);
    TaggedIndex(code, L, j);
  }

  /** The splitter's frames are distinct and already in `sortFrames` order. */
  lemma TaggedDistinctOrdered(code: string, L: nat)
    requires L >= 1 && |code| > 0
    ensures Distinct(Tagged(code, L)) && Ordered(Tagged(code, L), SortFrames)
  {
    var F := Tagged(code, L);
    forall i, j | 0 <= i < j < |F|
      ensures F[i] != F[j] && SortFrames(F[i], F[j]) < 0
    {
      TaggedIndex(code, L, i);
      TaggedIndex(code, L, j);
      CompareTagged(code, L, i, j);
    }
  }

  /** `sortFrames` says "before" for exactly one of two distinct positions of the splitter's frames. */
  lemma TotalAt(code: string, L: nat, i: nat, j: nat)
    requires L >= 1 && |code| > 0 && i < |Tagged(code, L)| && j < |Tagged(code, L)| && i != j
    ensures var F := Tagged(code, L); SortFrames(F[i], F[j]) < 0 <==> !(SortFrames(F[j], F[i]) < 0)
  {
    CompareTagged(code, L, i, j);
    CompareTagged(code, L, j, i);
  }

  /** `sortFrames` says "before" for exactly one of two distinct splitter frames. */
  lemma TaggedTotal(code: string, L: nat)
    requires L >= 1 && |code| > 0
    ensures Total((set x | x in Tagged(code, L)), SortFrames)
  {
    var F := Tagged(code, L);
    var S := set x | x in F;
    forall x, y | x in S && y in S && x != y
      ensures SortFrames(x, y) < 0 <==> !(SortFrames(y, x) < 0)
    {
      var i :| 0 <= i < |F| && F[i] == x;
      var j :| 0 <= j < |F| && F[j] == y;
      TotalAt(code, L, i, j);
    }
  }

  /** `sortFrames` is transitive on three positions of the splitter's frames. */
  lemma TransitiveAt(code: string, L: nat, i: nat, j: nat, l: nat)
    requires L >= 1 && |code| > 0 && i < |Tagged(code, L)| && j < |Tagged(code, L)| && l < |Tagged(code, L)|
    ensures var F := Tagged(code, L);
      SortFrames(F[i], F[j]) < 0 && SortFrames(F[j], F[l]) < 0 ==> SortFrames(F[i], F[l]) < 0
  {
    CompareTagged(code, L, i, j);
    CompareTagged(code, L, j, l);
    CompareTagged(code, L, i, l);
  }

  /** `sortFrames` is transitive on the splitter's frames. */
  lemma TaggedTransitive(code: string, L: nat)
    requires L >= 1 && |code| > 0
    ensures Transitive((set x | x in Tagged(code, L)), SortFrames)
  {
    var F := Tagged(code, L);
    var S := set x | x in F;
    forall x, y, z | x in S && y in S && z in S && SortFrames(x, y) < 0 && SortFrames(y, z) < 0
      ensures SortFrames(x, z) < 0
    {
      var i :| 0 <= i < |F| && F[i] == x;
      var j :| 0 <= j < |F| && F[j] == y;
      var l :| 0 <= l < |F| && F[l] == z;
      TransitiveAt(code, L, i, j, l);
    }
  }

  /** Sorting any arrival order of the splitter's frames restores the splitter's order. */
  lemma SortRestoresOrder(code: string, L: nat, arrived: seq<string>)
    requires L >= 1 && |code| > 0
    requires multiset(arrived) == multiset(Tagged(code, L))
    ensures Sort(arrived, SortFrames) == Tagged(code, L)
  {
    var F := Tagged(code, L);
    var S := set x | x in F;
    TaggedDistinctOrdered(code, L);
    TaggedTotal(code, L);
    TaggedTransitive(code, L);
    DistinctPermutation(F, arrived);
    forall e | e in arrived
      ensures e in S
    {
      assert e in multiset(arrived);
    }
    SortOrdered(arrived, S, SortFrames);
    OrderedUnique(F, Sort(arrived, SortFrames), S, SortFrames);
  }

  /**
   * Round trip: assembling any permutation of the frames the splitter made
   * from a non-empty payload gives back the payload.
   */
  lemma RoundTrip(code: string, L: nat, arrived: seq<string>)
    requires L >= 1 && |code| > 0
    requires multiset(arrived) == multiset(Tagged(code, L))
    ensures Assemble(arrived) == code
  {
    var F := Tagged(code, L);
    SortRestoresOrder(code, L, arrived);
    TaggedShape(code, L);
    var sliced := SliceAll(F);
    forall k | 0 <= k < |F|
      ensures sliced[k] == Shards(code, L)[k]
    {
      SliceTagged(code, L, k);
    }
    assert sliced == Shards(code, L);
    ShardsJoin(code, L);
  }

  lemma EmptyPayloadIsHead()
    ensures IsHead(">>>HEAD0 undefined")
  {
    assert ">>>HEAD0 undefined"[..7] == ">>>HEAD";
  }

  lemma EmptyPayloadFirstSpace()
    ensures IndexOf(">>>HEAD0 undefined", " ") == 8
  {
    assert ">>>HEAD0 undefined" == ">>>HEAD0" + [' '] + "undefined";
    IndexOfSeparator(">>>HEAD0", ' ', "undefined");
  }

  lemma EmptyPayloadRest()
    ensures SliceFrom(">>>HEAD0 undefined", 9) == "undefined"
    ensures IndexOf("undefined", " ") == -1
  {
    IndexOfAbsent("undefined", ' ');
  }

  /** A head-tagged string with no second space reads as index -1. */
  lemma GetIndexWithoutSecondSpace(s: string)
    requires IsHead(s) && IndexOf(s, " ") >= 0
    requires IndexOf(SliceFrom(s, IndexOf(s, " ") + 1), " ") == -1
    ensures GetIndex(s) == Int(-1)
  {
  }

  /**
   * The empty payload does not round-trip: its single frame
   * `>>>HEAD0 undefined` has no index after the head segment, so
   * `sliceFrames` leaves it whole.
   */
  lemma EmptyPayload(L: nat)
    requires L >= 1
    ensures Assemble(Tagged("", L)) == ">>>HEAD0 undefined"
  {
    TaggedEmpty(L);
    EmptyPayloadIsHead();
    EmptyPayloadFirstSpace();
    EmptyPayloadRest();
    GetIndexWithoutSecondSpace(">>>HEAD0 undefined");
    assert Sort([">>>HEAD0 undefined"], SortFrames) == [">>>HEAD0 undefined"];
  }
}
