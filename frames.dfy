/**
 * The reassembly helpers of `packages/reader/src/helpers.ts`: the comparator
 * `sortFrames`, the tag stripper `sliceFrames`, and the pipeline
 * `frames.sort(sortFrames).map(sliceFrames).join('')` every reader ends with.
 */
module Frames {
  import opened Js
  import opened Tags

  /**
   * `sortFrames(a, b)`: -1 whenever `a` is head-tagged; otherwise -1, 1 or 0
   * as `getIndex(a)` is below, above or neither of `getIndex(b)` (a NaN
   * index is neither).
   */
  function SortFrames(a: string, b: string): int {
    if IsHead(a) then -1
    else if Less(GetIndex(a), GetIndex(b)) then -1
    else if Less(GetIndex(b), GetIndex(a)) then 1
    else 0
  }

  /**
   * A head-tagged `a` is placed first whatever `b` is; between two frames
   * without the head tag the comparator is antisymmetric, says "equal" of a
   * frame and itself, and only ever answers -1, 0 or 1.
   */
  lemma SortFramesLaws(a: string, b: string)
    ensures IsHead(a) ==> SortFrames(a, b) == -1
    ensures !IsHead(a) && !IsHead(b) ==> SortFrames(a, b) == -SortFrames(b, a)
    ensures !IsHead(a) ==> SortFrames(a, a) == 0
    ensures SortFrames(a, b) in {-1, 0, 1}
  {
  }

  /**
   * `sliceFrames(frame)`: unless the index reads as -1, drop everything up to
   * the first occurrence of the index tag, the tag itself and one more
   * character.
   */
  function SliceFrames(frame: string): string {
    var idx := GetIndex(frame);
    var tag := CreateIndexTag(idx);
    if idx != Int(-1) then SliceFrom(frame, IndexOf(frame, tag) + |tag| + 1) else frame
  }

  /** A comparator in the sense of `Array.prototype.sort`: below 0 puts the first argument first. */
  type Comparator = (string, string) -> int

  /**
   * `Array.prototype.sort` with the comparator `cmp`, as a stable insertion sort:
   * `x` goes before the first element it compares below.
   */
  function Insert(x: string, s: seq<string>, cmp: Comparator): (r: seq<string>)
    ensures multiset(r) == multiset(s) + multiset{x}
  {
    if |s| == 0 then [x]
    else if cmp(x, s[0]) < 0 then [x] + s
    else
      assert s == [s[0]] + s[1..];
      [s[0]] + Insert(x, s[1..], cmp)
  }

  /** The sorted array is a permutation of the input. */
  function Sort(s: seq<string>, cmp: Comparator): (r: seq<string>)
    ensures multiset(r) == multiset(s)
  {
    if |s| == 0 then []
    else
      assert s == s[..|s| - 1] + [s[|s| - 1]];
      Insert(s[|s| - 1], Sort(s[..|s| - 1], cmp), cmp)
  }

  /** `frames.map(sliceFrames)`. */
  function SliceAll(frames: seq<string>): (r: seq<string>)
    ensures |r| == |frames| && forall k :: 0 <= k < |frames| ==> r[k] == SliceFrames(frames[k])
  {
    seq(|frames|, k requires 0 <= k < |frames| => SliceFrames(frames[k]))
  }

  /** `frames.sort(sortFrames).map(sliceFrames).join('')` */
  function Assemble(frames: seq<string>): string {
    Join(SliceAll(Sort(frames, SortFrames)), "")
  }

  /** The insertion sort is stable: a sequence in which nothing goes before anything stays as it is. */
  lemma {:induction false} SortNoneBefore(s: seq<string>, cmp: Comparator)
    requires forall a, b :: a in s && b in s ==> cmp(a, b) >= 0
    ensures Sort(s, cmp) == s
  {
    if |s| > 0 {
      var p := s[..|s| - 1];
      var x := s[|s| - 1];
      assert s == p + [x] && x in s;
      assert forall e :: e in p ==> e in s;
      SortNoneBefore(p, cmp);
      InsertAfterAll(x, p, cmp);
    }
  }

  /** An element that goes before nothing is inserted at the end. */
  lemma {:induction false} InsertAfterAll(x: string, s: seq<string>, cmp: Comparator)
    requires forall e :: e in s ==> cmp(x, e) >= 0
    ensures Insert(x, s, cmp) == s + [x]
  {
    if |s| > 0 {
      assert s[0] in s;
      assert forall e :: e in s[1..] ==> e in s;
      InsertAfterAll(x, s[1..], cmp);
      assert [s[0]] + (s[1..] + [x]) == s + [x];
    }
  }

  predicate Distinct(s: seq<string>) {
    forall i, j :: 0 <= i < j < |s| ==> s[i] != s[j]
  }

  /** Every element precedes every later one under `sortFrames`. */
  predicate Ordered(s: seq<string>, cmp: Comparator) {
    forall i, j :: 0 <= i < j < |s| ==> cmp(s[i], s[j]) < 0
  }

  /** On distinct members of `S`, exactly one of the two orders says "before". */
  predicate Total(S: set<string>, cmp: Comparator) {
    forall x, y :: x in S && y in S && x != y ==> (cmp(x, y) < 0 <==> !(cmp(y, x) < 0))
  }

  predicate Transitive(S: set<string>, cmp: Comparator) {
    forall x, y, z :: x in S && y in S && z in S && cmp(x, y) < 0 && cmp(y, z) < 0 ==> cmp(x, z) < 0
  }

  /** A distinct sequence holds each element once. */
  lemma {:induction false} DistinctMultiplicity(s: seq<string>, x: string)
    requires Distinct(s)
    ensures multiset(s)[x] <= 1
  {
    if |s| > 0 {
      var p := s[..|s| - 1];
      assert s == p + [s[|s| - 1]];
      assert s[|s| - 1] !in p;
      DistinctMultiplicity(p, x);
    }
  }

  /** A permutation of a distinct sequence is distinct. */
  lemma DistinctPermutation(a: seq<string>, b: seq<string>)
    requires Distinct(a) && multiset(a) == multiset(b)
    ensures Distinct(b)
  {
    forall i, j | 0 <= i < j < |b|
      ensures b[i] != b[j]
    {
      DistinctMultiplicity(a, b[i]);
      assert b == b[..i] + [b[i]] + b[i + 1..j] + [b[j]] + b[j + 1..];
      assert multiset([b[i]]) + multiset([b[j]]) <= multiset(b);
    }
  }

  lemma OrderedCons(a: string, t: seq<string>, cmp: Comparator)
    requires Ordered(t, cmp)
    requires forall e :: e in t ==> cmp(a, e) < 0
    ensures Ordered([a] + t, cmp)
  {
    var r := [a] + t;
    forall i, j | 0 <= i < j < |r|
      ensures cmp(r[i], r[j]) < 0
    {
      assert r[j] == t[j - 1];
      if i > 0 {
        assert r[i] == t[i - 1];
      }
    }
  }

  /** Inserting a new member of a totally ordered set keeps a sequence ordered. */
  lemma {:induction false} InsertOrdered(x: string, s: seq<string>, S: set<string>, cmp: Comparator)
    requires Total(S, cmp) && Transitive(S, cmp)
    requires x in S && x !in s && forall e :: e in s ==> e in S
    requires Ordered(s, cmp)
    ensures Ordered(Insert(x, s, cmp), cmp)
    decreases |s|
  {
    if |s| == 0 {
    } else if cmp(x, s[0]) < 0 {
      BeforeAll(x, s, S, cmp);
      OrderedCons(x, s, cmp);
    } else {
      assert s[0] in s;
      assert cmp(s[0], x) < 0;
      OrderedTail(s, cmp);
      assert forall e :: e in s[1..] ==> e in s;
      InsertOrdered(x, s[1..], S, cmp);
      AfterHead(x, s, cmp);
      OrderedCons(s[0], Insert(x, s[1..], cmp), cmp);
    }
  }

  /** What goes before the first element of an ordered sequence goes before all of it. */
  lemma BeforeAll(x: string, s: seq<string>, S: set<string>, cmp: Comparator)
    requires Transitive(S, cmp) && x in S && forall e :: e in s ==> e in S
    requires Ordered(s, cmp) && |s| > 0 && cmp(x, s[0]) < 0
    ensures forall e :: e in s ==> cmp(x, e) < 0
  {
    forall e | e in s
      ensures cmp(x, e) < 0
    {
      var j :| 0 <= j < |s| && s[j] == e;
      if j > 0 {
        assert cmp(s[0], s[j]) < 0;
      }
    }
  }

  /** The first element of an ordered sequence goes before everything inserted behind it. */
  lemma AfterHead(x: string, s: seq<string>, cmp: Comparator)
    requires Ordered(s, cmp) && |s| > 0 && cmp(s[0], x) < 0
    ensures forall e :: e in Insert(x, s[1..], cmp) ==> cmp(s[0], e) < 0
  {
    var t := Insert(x, s[1..], cmp);
    forall e | e in t
      ensures cmp(s[0], e) < 0
    {
      assert e in multiset(t);
      if e != x {
        assert e in multiset(s[1..]);
        var j :| 0 <= j < |s[1..]| && s[1..][j] == e;
        assert s[j + 1] == e;
      }
    }
  }

  /** Sorting keeps exactly the elements it was given. */
  lemma SortMembers(s: seq<string>, cmp: Comparator)
    ensures forall e :: e in Sort(s, cmp) <==> e in s
  {
    forall e
      ensures e in Sort(s, cmp) <==> e in s
    {
      assert e in Sort(s, cmp) <==> e in multiset(Sort(s, cmp));
      assert e in s <==> e in multiset(s);
    }
  }

  /** Dropping the last element of a distinct sequence leaves a distinct prefix without it. */
  lemma DistinctLast(s: seq<string>)
    requires Distinct(s) && |s| > 0
    ensures Distinct(s[..|s| - 1]) && s[|s| - 1] !in s[..|s| - 1]
  {
    var p := s[..|s| - 1];
    forall j | 0 <= j < |p|
      ensures p[j] != s[|s| - 1]
    {
      assert p[j] == s[j];
    }
  }

  /** Sorting distinct members of a totally ordered set orders them. */
  lemma {:induction false} SortOrdered(s: seq<string>, S: set<string>, cmp: Comparator)
    requires Total(S, cmp) && Transitive(S, cmp)
    requires Distinct(s) && forall e :: e in s ==> e in S
    ensures Ordered(Sort(s, cmp), cmp)
  {
    if |s| > 0 {
      var p := s[..|s| - 1];
      var x := s[|s| - 1];
      assert s == p + [x];
      DistinctLast(s);
      assert forall e :: e in p ==> e in s;
      SortOrdered(p, S, cmp);
      SortMembers(p, cmp);
      InsertOrdered(x, Sort(p, cmp), S, cmp);
    }
  }

  /** An element other than the first comes after the first. */
  lemma OrderedFirst(a: seq<string>, e: string, cmp: Comparator)
    requires Ordered(a, cmp) && e in a && e != a[0]
    ensures cmp(a[0], e) < 0
  {
    var k :| 0 <= k < |a| && a[k] == e;
  }

  lemma OrderedSameFirst(a: seq<string>, b: seq<string>, S: set<string>, cmp: Comparator)
    requires Total(S, cmp) && forall e :: e in a ==> e in S
    requires Ordered(a, cmp) && Ordered(b, cmp) && multiset(a) == multiset(b) && |a| > 0
    ensures |b| > 0 && a[0] == b[0]
  {
    assert a[0] in multiset(b);
    assert b[0] in multiset(a);
    if a[0] != b[0] {
      OrderedFirst(b, a[0], cmp);
      OrderedFirst(a, b[0], cmp);
      assert false;
    }
  }

  lemma MultisetTail(a: seq<string>, b: seq<string>)
    requires |a| > 0 && |b| > 0 && a[0] == b[0] && multiset(a) == multiset(b)
    ensures multiset(a[1..]) == multiset(b[1..])
  {
    assert a == [a[0]] + a[1..];
    assert b == [b[0]] + b[1..];
    assert multiset(a[1..]) == multiset(a) - multiset{a[0]};
    assert multiset(b[1..]) == multiset(b) - multiset{b[0]};
  }

  /** The tail of an ordered sequence is ordered. */
  lemma OrderedTail(a: seq<string>, cmp: Comparator)
    requires Ordered(a, cmp) && |a| > 0
    ensures Ordered(a[1..], cmp)
  {
    var t := a[1..];
    forall i, j | 0 <= i < j < |t|
      ensures cmp(t[i], t[j]) < 0
    {
      assert t[i] == a[i + 1] && t[j] == a[j + 1];
    }
  }

  /** Two ordered permutations of each other over a totally ordered set are equal. */
  lemma {:induction false} OrderedUnique(a: seq<string>, b: seq<string>, S: set<string>, cmp: Comparator)
    requires Total(S, cmp) && forall e :: e in a ==> e in S
    requires Ordered(a, cmp) && Ordered(b, cmp) && multiset(a) == multiset(b)
    ensures a == b
    decreases |a|
  {
    if |a| == 0 {
      assert |multiset(b)| == 0;
    } else {
      OrderedUniqueStep(a, b, S, cmp);
      OrderedUnique(a[1..], b[1..], S, cmp);
      SameHeadAndTail(a, b);
    }
  }

  /** Two ordered permutations agree on their first element, and their tails are again such a pair. */
  lemma OrderedUniqueStep(a: seq<string>, b: seq<string>, S: set<string>, cmp: Comparator)
    requires Total(S, cmp) && forall e :: e in a ==> e in S
    requires Ordered(a, cmp) && Ordered(b, cmp) && multiset(a) == multiset(b) && |a| > 0
    ensures |b| > 0 && a[0] == b[0]
    ensures Ordered(a[1..], cmp) && Ordered(b[1..], cmp) && multiset(a[1..]) == multiset(b[1..])
    ensures forall e :: e in a[1..] ==> e in S
  {
    OrderedSameFirst(a, b, S, cmp);
    MultisetTail(a, b);
    OrderedTail(a, cmp);
    OrderedTail(b, cmp);
    assert forall e :: e in a[1..] ==> e in a;
  }

  lemma SameHeadAndTail(a: seq<string>, b: seq<string>)
    requires |a| > 0 && |b| > 0 && a[0] == b[0] && a[1..] == b[1..]
    ensures a == b
  {
    assert a == [a[0]] + a[1..];
    assert b == [b[0]] + b[1..];
  }

  /** Example of the unit tests: a frame whose index reads as NaN loses its first nine characters. */
  lemma SliceFramesNaNExample()
    ensures SliceFrames("[INDEX:2]Some content") == "Some content"
  {
    NaNExampleIndex();
    NaNExampleNoTag();
    NaNExampleRest();
    SliceFramesOfNaN("[INDEX:2]Some content");
  }

  /**
   * The test for a frame "without an index" mocks `getIndex` to -1; unmocked,
   * the index of that string reads as NaN and the first nine characters go.
   */
  lemma SliceFramesUnmockedExample()
    ensures SliceFrames("No index here") == "here"
  {
    UnmockedExampleIndex();
    NoNaNTag("No index here");
    UnmockedExampleRest();
    SliceFramesOfNaN("No index here");
  }

  /** A NaN index searches for `>>>IDXNaN`; when it is absent, nine characters are dropped. */
  lemma SliceFramesOfNaN(f: string)
    requires GetIndex(f) == NaN && IndexOf(f, ">>>IDXNaN") == -1
    ensures SliceFrames(f) == SliceFrom(f, 9)
  {
    assert CreateIndexTag(NaN) == ">>>IDXNaN";
  }

  /** A frame whose index reads as a natural number loses everything through its tag and one more character. */
  lemma SliceFramesOfIndexed(f: string, i: nat)
    requires GetIndex(f) == Int(i)
    ensures var tag := CreateIndexTag(Int(i)); SliceFrames(f) == SliceFrom(f, IndexOf(f, tag) + |tag| + 1)
  {
    assert Int(i) != Int(-1);
  }

  /** A frame whose index reads as -1 comes back unchanged. */
  lemma SliceFramesUntagged(f: string)
    requires GetIndex(f) == Int(-1)
    ensures SliceFrames(f) == f
  {
  }

  /** Without any `>`, the string holds no index tag of any kind. */
  lemma NoNaNTag(f: string)
    requires '>' !in f
    ensures IndexOf(f, ">>>IDXNaN") == -1
  {
    forall k | 0 <= k
      ensures !OccursAt(f, ">>>IDXNaN", k)
    {
      if k + 9 <= |f| {
        assert f[k] in f;
        assert f[k..k + 9][0] == f[k];
      }
    }
  }

  /** An untagged string whose characters from position 6 start with a non-digit reads as NaN. */
  lemma GetIndexOfNonDigit(s: string)
    requires !IsHead(s) && IndexOf(s, " ") > |IndexPrefix|
    requires var c := s[|IndexPrefix|]; !IsStrWhiteSpace(c) && c != '-' && c != '+' && DigitValue(c) >= 10
    ensures GetIndex(s) == NaN
  {
    var t := Slice(s, |IndexPrefix|, IndexOf(s, " "));
    assert t[0] == s[|IndexPrefix|];
    ParseIntOfNonDigit(t);
  }

  lemma NaNExampleSpace()
    ensures IndexOf("[INDEX:2]Some content", " ") == 13
  {
    assert "[INDEX:2]Some content" == "[INDEX:2]Some" + [' '] + "content";
    IndexOfSeparator("[INDEX:2]Some", ' ', "content");
  }

  lemma NaNExampleIndex()
    ensures GetIndex("[INDEX:2]Some content") == NaN
  {
    NaNExampleSpace();
    assert "[INDEX:2]Some content"[..7][0] == '[';
    assert "[INDEX:2]Some content"[6] == ':';
    GetIndexOfNonDigit("[INDEX:2]Some content");
  }


  lemma UnmockedExampleIndex()
    ensures GetIndex("No index here") == NaN
  {
    assert "No index here" == "No" + [' '] + "index here";
    IndexOfSeparator("No", ' ', "index here");
    assert "No index here"[..7][0] == 'N';
    GetIndexOfShortSegment("No index here");
  }

  lemma NaNExampleRest()
    ensures SliceFrom("[INDEX:2]Some content", 9) == "Some content"
  {
    assert "[INDEX:2]Some content"[9..] == "Some content";
  }

  lemma UnmockedExampleRest()
    ensures SliceFrom("No index here", 9) == "here"
  {
    assert "No index here"[9..] == "here";
  }

  lemma NaNExampleNoTag()
    ensures IndexOf("[INDEX:2]Some content", ">>>IDXNaN") == -1
  {
    NoNaNTag("[INDEX:2]Some content");
  }
}
