/**
 * The capture state machine shared by the live readers: `processFrame` in
 * `WebRTCProcessor.processAllFrames`
 * (`packages/reader/src/processors/webrtc-processor.ts`) and the older
 * `process` in `packages/reader/src/index.ts`. Each step takes what the QR
 * decoder made of the current video frame; the state is the insertion-ordered,
 * duplicate-free collection of decoded strings plus the expected frame count,
 * unknown until a head frame is seen. The decoder and the frame clock are
 * outside the model: a capture is a finite sequence of ticks. The head-count
 * reader is a parameter `count`; the readers use `getHeadLength`, which is
 * `GetHeadLength` here, and the lemmas about a particular stream instantiate
 * it so.
 */
module Capture {
  import opened Wrappers
  import opened Js
  import opened Tags
  import opened Frames
  import opened Splitter
  import opened Reassembly

  /** What one scheduled step sees: a decoded symbol, no symbol, or an exception. */
  datatype Tick = Decoded(data: string) | NoSymbol | Failure(reason: string)

  /** `result && 'data' in result ? result.data : ''` */
  function Code(t: Tick): string
    requires !t.Failure?
  {
    if t.Decoded? then t.data else ""
  }

  /** The collection of decoded strings and the expected count (`undefined` is `None`). */
  datatype FrameSet = FrameSet(frames: seq<string>, expected: Option<Number>)

  const Empty := FrameSet([], None)

  /**
   * One step on a decoded string: a non-empty string not seen before is
   * appended, and if it has a head count that count becomes the expected one.
   */
  function Absorb(s: FrameSet, code: string, count: string -> Number): (r: FrameSet)
    ensures s.frames <= r.frames
    ensures Distinct(s.frames) ==> Distinct(r.frames)
    ensures forall x :: x in r.frames <==> x in s.frames || (x == code && code != "")
    ensures code == "" || code in s.frames ==> r == s
  {
    if code != "" && code !in s.frames then
      FrameSet(s.frames + [code], if count(code) != Int(-1) then Some(count(code)) else s.expected)
    else s
  }

  /** `allFrames.size !== numExpectedFrames` is false: the count is known and reached. */
  predicate Complete(s: FrameSet) {
    s.expected == Some(Int(|s.frames|))
  }

  /** The state after one tick; an exception leaves it as it was. */
  function Step(s: FrameSet, t: Tick, count: string -> Number): FrameSet {
    if t.Failure? then s else Absorb(s, Code(t), count)
  }

  /** The state after the ticks `ticks[i..j]`, starting from `s`. */
  function Steps(s: FrameSet, ticks: seq<Tick>, i: nat, j: nat, count: string -> Number): FrameSet
    requires i <= j <= |ticks|
    decreases j
  {
    if j == i then s else Step(Steps(s, ticks, i, j - 1, count), ticks[j - 1], count)
  }

  /**
   * How a capture ends: resolved with the collection after tick `at`, stopped
   * by an exception at tick `at` (the promise then never settles), or still
   * running when the ticks run out.
   */
  datatype Outcome = Done(frames: seq<string>, at: nat) | Crashed(reason: string, at: nat) | Exhausted(state: FrameSet)

  /** The scheduled steps from tick `i` on: stop on an exception or once complete. */
  function Run(s: FrameSet, ticks: seq<Tick>, i: nat, count: string -> Number): Outcome
    requires i <= |ticks|
    decreases |ticks| - i
  {
    if i == |ticks| then Exhausted(s)
    else if ticks[i].Failure? then Crashed(ticks[i].reason, i)
    else
      var next := Absorb(s, Code(ticks[i]), count);
      if Complete(next) then Done(next.frames, i) else Run(next, ticks, i + 1, count)
  }

  /** How a reader's promise ends: resolved, rejected, or never settled. */
  datatype Settled = Resolved(value: string) | Rejected(error: string) | Pending

  /**
   * The state a capture step updates in place: the collection of decoded
   * strings (`allFrames`) and the expected count (`numExpectedFrames`).
   */
  class Collector {
    var frames: seq<string>
    var expected: Option<Number>

    function State(): FrameSet
      reads this
    {
      FrameSet(frames, expected)
    }

    constructor()
      ensures State() == Empty
    {
      frames := [];
      expected := None;
    }

    /**
     * Take one decoded string: a non-empty string not yet collected is
     * appended, and if `getHeadLength` finds a count in it, that count
     * becomes the expected one.
     */
    method Add(code: string)
      modifies this
      ensures State() == Absorb(old(State()), code, GetHeadLength)
    {
      if code != "" && code !in frames {
        frames := frames + [code];
        if GetHeadLength(code) != Int(-1) {
          expected := Some(GetHeadLength(code));
        }
      }
    }
  }

  /** Absorbing the same string twice is absorbing it once. */
  lemma AbsorbIdempotent(s: FrameSet, code: string, count: string -> Number)
    ensures Absorb(Absorb(s, code, count), code, count) == Absorb(s, code, count)
  {
  }

  /** The count is set only by a newly added string with a head count, and then to that count. */
  lemma AbsorbExpected(s: FrameSet, code: string, count: string -> Number)
    ensures var r := Absorb(s, code, count);
      r.expected == if |r.frames| > |s.frames| && count(code) != Int(-1) then Some(count(code)) else s.expected
  {
  }

  /** A NaN count never matches the collection size. */
  lemma NaNNeverComplete(s: FrameSet)
    requires s.expected == Some(NaN)
    ensures !Complete(s)
  {
  }

  lemma {:induction false} StepsShift(s: FrameSet, ticks: seq<Tick>, i: nat, j: nat, count: string -> Number)
    requires i < j <= |ticks|
    ensures Steps(s, ticks, i, j, count) == Steps(Step(s, ticks[i], count), ticks, i + 1, j, count)
    decreases j
  {
    if j > i + 1 {
      StepsShift(s, ticks, i, j - 1, count);
    }
  }

  /** No tick in `ticks[i..at]`, both ends included, is an exception. */
  predicate NoFailure(ticks: seq<Tick>, i: nat, at: nat)
    requires at < |ticks|
  {
    forall j :: i <= j <= at ==> !ticks[j].Failure?
  }

  /** The collection is complete after tick `at` and after no earlier tick from `i` on. */
  predicate FirstComplete(s: FrameSet, ticks: seq<Tick>, i: nat, at: nat, count: string -> Number)
    requires i <= at < |ticks|
  {
    Complete(Steps(s, ticks, i, at + 1, count)) && forall j :: i < j <= at ==> !Complete(Steps(s, ticks, i, j, count))
  }

  /**
   * If no exception comes first, the loop resolves at the first tick after
   * which the collection size equals the expected count, with the collection
   * in insertion order.
   */
  lemma {:induction false} RunDoneAt(s: FrameSet, ticks: seq<Tick>, i: nat, at: nat, count: string -> Number)
    requires i <= at < |ticks|
    requires NoFailure(ticks, i, at) && FirstComplete(s, ticks, i, at, count)
    ensures Run(s, ticks, i, count) == Done(Steps(s, ticks, i, at + 1, count).frames, at)
    decreases at - i
  {
    assert Steps(s, ticks, i, i, count) == s;
    var next := Absorb(s, Code(ticks[i]), count);
    assert Steps(s, ticks, i, i + 1, count) == next;
    if at > i {
      assert !Complete(next);
      var i1 := i + 1;
      forall j | i1 < j <= at
        ensures !Complete(Steps(next, ticks, i1, j, count))
      {
        StepsShift(s, ticks, i, j, count);
      }
      StepsShift(s, ticks, i, at + 1, count);
      RunDoneAt(next, ticks, i1, at, count);
    }
  }

  /**
   * Conversely, whenever the loop resolves, it does so at such a first
   * complete tick with no exception before it: it resolves at most once.
   */
  lemma {:induction false} RunDoneOnlyAt(s: FrameSet, ticks: seq<Tick>, i: nat, count: string -> Number)
    requires i <= |ticks| && Run(s, ticks, i, count).Done?
    ensures var at := Run(s, ticks, i, count).at;
      && i <= at < |ticks|
      && NoFailure(ticks, i, at) && FirstComplete(s, ticks, i, at, count)
      && Run(s, ticks, i, count).frames == Steps(s, ticks, i, at + 1, count).frames
    decreases |ticks| - i
  {
    var at := Run(s, ticks, i, count).at;
    assert Steps(s, ticks, i, i, count) == s;
    var next := Absorb(s, Code(ticks[i]), count);
    assert Steps(s, ticks, i, i + 1, count) == next;
    if !Complete(next) {
      var i1 := i + 1;
      RunDoneOnlyAt(next, ticks, i1, count);
      forall j | i1 <= j <= at + 1
        ensures Steps(s, ticks, i, j, count) == Steps(next, ticks, i1, j, count)
      {
        StepsShift(s, ticks, i, j, count);
      }
    }
  }

  /** Collections stay duplicate-free and only grow along a capture. */
  lemma {:induction false} StepsGrow(s: FrameSet, ticks: seq<Tick>, i: nat, j: nat, count: string -> Number)
    requires i <= j <= |ticks|
    ensures s.frames <= Steps(s, ticks, i, j, count).frames
    ensures Distinct(s.frames) ==> Distinct(Steps(s, ticks, i, j, count).frames)
    decreases j
  {
    if j > i {
      StepsGrow(s, ticks, i, j - 1, count);
    }
  }

  /** Every decoded string reads as "no head" (-1) or as `bad`. */
  predicate HeadsOnly(ticks: seq<Tick>, count: string -> Number, bad: Number) {
    forall k :: 0 <= k < |ticks| && ticks[k].Decoded? ==> count(ticks[k].data) in {Int(-1), bad}
  }

  /**
   * Without a head frame, or when every head count is NaN, the count stays
   * undefined or NaN and the loop never resolves.
   */
  lemma {:induction false} NoUsableHeadNeverDone(s: FrameSet, ticks: seq<Tick>, i: nat, count: string -> Number)
    requires i <= |ticks| && s.expected in {None, Some(NaN)} && HeadsOnly(ticks, count, NaN)
    ensures !Run(s, ticks, i, count).Done?
    decreases |ticks| - i
  {
    if i < |ticks| && !ticks[i].Failure? {
      NoUsableHeadNeverDone(Absorb(s, Code(ticks[i]), count), ticks, i + 1, count);
    }
  }

  /** A distinct sequence has as many elements as its set. */
  lemma {:induction false} DistinctCard(s: seq<string>)
    requires Distinct(s)
    ensures |set x | x in s| == |s|
  {
    if |s| > 0 {
      var p := s[..|s| - 1];
      assert s == p + [s[|s| - 1]];
      DistinctCard(p);
      assert (set x | x in s) == (set x | x in p) + {s[|s| - 1]};
    }
  }

  /** Two distinct sequences with the same elements are permutations of each other. */
  lemma SameElements(a: seq<string>, b: seq<string>)
    requires Distinct(a) && Distinct(b)
    requires (forall x :: x in a ==> x in b) && (forall x :: x in b ==> x in a)
    ensures multiset(a) == multiset(b)
  {
    forall x
      ensures multiset(a)[x] == multiset(b)[x]
    {
      DistinctMultiplicity(a, x);
      DistinctMultiplicity(b, x);
      assert (x in multiset(a)) == (x in a);
      assert (x in multiset(b)) == (x in b);
    }
  }

  /**
   * A frame sequence as the splitter makes it, seen through the head-count
   * reader: distinct frames, the first announcing how many there are, none
   * of the others announcing anything.
   */
  predicate Announces(F: seq<string>, count: string -> Number) {
    && |F| > 0 && Distinct(F) && "" !in F
    && count(F[0]) == Int(|F|)
    && forall k :: 1 <= k < |F| ==> count(F[k]) == Int(-1)
  }

  /**
   * The invariant of a capture of the frames `F`: the collection holds
   * distinct frames of `F`, and the count is known exactly when the first
   * frame has been collected.
   */
  predicate Collecting(s: FrameSet, F: seq<string>) {
    && |F| > 0
    && Distinct(s.frames)
    && (forall x :: x in s.frames ==> x in F)
    && s.expected == if F[0] in s.frames then Some(Int(|F|)) else None
  }

  /** A stream that only ever shows frames of `F` (or nothing) and never fails. */
  predicate Clean(ticks: seq<Tick>, F: seq<string>) {
    forall k :: 0 <= k < |ticks| ==> !ticks[k].Failure? && (ticks[k].Decoded? ==> ticks[k].data == "" || ticks[k].data in F)
  }

  /** Absorbing one of the frames keeps the invariant. */
  lemma AbsorbCollecting(F: seq<string>, count: string -> Number, s: FrameSet, x: string)
    requires Announces(F, count) && Collecting(s, F) && (x == "" || x in F)
    ensures Collecting(Absorb(s, x, count), F)
  {
    if x != "" && x !in s.frames && x != F[0] {
      var k :| 0 <= k < |F| && F[k] == x;
    }
  }

  /** Under the invariant, the capture is complete exactly when every frame is collected. */
  lemma CompleteIffAll(F: seq<string>, count: string -> Number, s: FrameSet)
    requires Announces(F, count) && Collecting(s, F)
    ensures Complete(s) <==> multiset(s.frames) == multiset(F)
  {
    DistinctCard(s.frames);
    DistinctCard(F);
    var A := set x | x in s.frames;
    var B := set x | x in F;
    assert A <= B;
    if Complete(s) {
      assert |A| == |B|;
      assert B - A == {} by {
        assert |B - A| == |B| - |A|;
      }
      forall x | x in F
        ensures x in s.frames
      {
        assert x in B;
      }
      SameElements(s.frames, F);
    }
    if multiset(s.frames) == multiset(F) {
      assert F[0] in multiset(s.frames);
      assert |s.frames| == |multiset(s.frames)| == |F|;
    }
  }

  /** Every frame not yet collected is still to come in the ticks from `i` on. */
  predicate StillToCome(s: FrameSet, ticks: seq<Tick>, i: nat, F: seq<string>)
    requires i <= |ticks|
  {
    forall x :: x in F && x !in s.frames ==> exists k :: i <= k < |ticks| && ticks[k] == Decoded(x)
  }

  /**
   * A clean stream in which every missing frame is still to come resolves,
   * and with a permutation of the frames.
   */
  lemma {:induction false} CleanRunDone(F: seq<string>, count: string -> Number, s: FrameSet, ticks: seq<Tick>, i: nat)
    requires i <= |ticks| && Announces(F, count)
    requires Collecting(s, F) && !Complete(s)
    requires Clean(ticks, F) && StillToCome(s, ticks, i, F)
    ensures Run(s, ticks, i, count).Done?
    ensures multiset(Run(s, ticks, i, count).frames) == multiset(F)
    decreases |ticks| - i
  {
    if i == |ticks| {
      assert forall x :: x in F ==> x in s.frames;
      SameElements(s.frames, F);
      CompleteIffAll(F, count, s);
      assert false;
    } else {
      var next := Absorb(s, Code(ticks[i]), count);
      AbsorbCollecting(F, count, s, Code(ticks[i]));
      CompleteIffAll(F, count, next);
      if !Complete(next) {
        forall x | x in F && x !in next.frames
          ensures exists k :: i + 1 <= k < |ticks| && ticks[k] == Decoded(x)
        {
          var k :| i <= k < |ticks| && ticks[k] == Decoded(x);
          assert k != i;
        }
        CleanRunDone(F, count, next, ticks, i + 1);
      }
    }
  }

  /** The splitter's frames of a non-empty payload, read with `getHeadLength`, announce their number. */
  lemma TaggedAnnounces(code: string, L: nat)
    requires L >= 1 && |code| > 0
    ensures Announces(Tagged(code, L), GetHeadLength)
  {
    var F := Tagged(code, L);
    TaggedDistinctOrdered(code, L);
    TaggedHead(code, L);
    forall k | 1 <= k < |F|
      ensures GetHeadLength(F[k]) == Int(-1)
    {
      TaggedRest(code, L, k);
      GetHeadLengthOfUntagged(F[k]);
    }
    forall k | 0 <= k < |F|
      ensures F[k] != ""
    {
      TaggedIndex(code, L, k);
    }
  }

  /**
   * End to end: a capture that never fails, shows only the writer's frames
   * (or nothing), and shows each of them at least once, resolves; the reader
   * then reassembles the payload.
   */
  lemma CaptureRoundTrip(code: string, L: nat, ticks: seq<Tick>)
    requires L >= 1 && |code| > 0
    requires Clean(ticks, Tagged(code, L))
    requires forall x :: x in Tagged(code, L) ==> exists k :: 0 <= k < |ticks| && ticks[k] == Decoded(x)
    ensures Run(Empty, ticks, 0, GetHeadLength).Done?
    ensures Assemble(Run(Empty, ticks, 0, GetHeadLength).frames) == code
  {
    var F := Tagged(code, L);
    TaggedAnnounces(code, L);
    CleanRunDone(F, GetHeadLength, Empty, ticks, 0);
    RoundTrip(code, L, Run(Empty, ticks, 0, GetHeadLength).frames);
  }
}
