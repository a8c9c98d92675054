/**
 * The older screen reader of `packages/reader/src/index.ts`: the recursive
 * capture `process` over an array, and `reader`, which checks the track and
 * the canvas context, captures, stops the track and reassembles the
 * payload, stopping the track on the error path too. The display-media
 * request, frame grabbing and QR decoding are outside the model: the
 * request either fails with a reason or yields a track (or none), the
 * canvas context exists or not, and the decoded frames are the ticks.
 */
module DisplayReader {
  import opened Wrappers
  import opened Js
  import opened Tags
  import opened Frames
  import opened Capture

  /**
   * `process`: one step on tick `i`, then another step while the array
   * length differs from the expected count. A failing step rejects the
   * whole chain.
   */
  method Process(all: Collector, ticks: seq<Tick>, i: nat) returns (r: Outcome)
    requires i <= |ticks|
    modifies all
    ensures r == Run(old(all.State()), ticks, i, GetHeadLength)
    ensures r.Done? ==> i <= r.at < |ticks| && all.frames == r.frames
    ensures r.Done? ==> all.State() == Steps(old(all.State()), ticks, i, r.at + 1, GetHeadLength)
    ensures r.Crashed? ==> i <= r.at < |ticks|
    ensures r.Crashed? ==> all.State() == Steps(old(all.State()), ticks, i, r.at, GetHeadLength)
    ensures r.Exhausted? ==> all.State() == r.state
    decreases |ticks| - i
  {
    ghost var s0 := all.State();
    if i == |ticks| {
      return Exhausted(all.State());
    }
    if ticks[i].Failure? {
      return Crashed(ticks[i].reason, i);
    }
    all.Add(Code(ticks[i]));
    ghost var s1 := all.State();
    StepsOne(s0, ticks, i);
    if Complete(all.State()) {
      return Done(all.frames, i);
    }
    r := Process(all, ticks, i + 1);
    StepsLater(s0, s1, ticks, i, r, all.State());
  }

  /** One tick from `i` is one `Step`. */
  lemma StepsOne(s: FrameSet, ticks: seq<Tick>, i: nat)
    requires i < |ticks|
    ensures Steps(s, ticks, i, i + 1, GetHeadLength) == Step(s, ticks[i], GetHeadLength)
  {
    assert Steps(s, ticks, i, i, GetHeadLength) == s;
  }

  /** The array a later call of `process` leaves is the one the whole run from tick `i` leaves. */
  lemma StepsLater(s0: FrameSet, s1: FrameSet, ticks: seq<Tick>, i: nat, r: Outcome, final: FrameSet)
    requires i < |ticks| && s1 == Step(s0, ticks[i], GetHeadLength)
    requires r.Done? ==> i + 1 <= r.at < |ticks| && final == Steps(s1, ticks, i + 1, r.at + 1, GetHeadLength)
    requires r.Crashed? ==> i + 1 <= r.at < |ticks| && final == Steps(s1, ticks, i + 1, r.at, GetHeadLength)
    ensures r.Done? ==> final == Steps(s0, ticks, i, r.at + 1, GetHeadLength)
    ensures r.Crashed? ==> final == Steps(s0, ticks, i, r.at, GetHeadLength)
  {
    if r.Done? {
      StepsShift(s0, ticks, i, r.at + 1, GetHeadLength);
    } else if r.Crashed? {
      StepsShift(s0, ticks, i, r.at, GetHeadLength);
    }
  }

  /** `processAllFrames`: `process` on a fresh, empty array. */
  method ProcessAllFrames(ticks: seq<Tick>) returns (r: Outcome)
    ensures r == Run(Empty, ticks, 0, GetHeadLength)
  {
    var all := new Collector();
    r := Process(all, ticks, 0);
  }

  /**
   * `reader`, returning how the promise settles and whether the track was
   * stopped. No track: rejected, nothing to stop. No canvas context:
   * rejected after stopping the track. A capture that resolves: the track is
   * stopped and the frames are sorted, stripped and joined. A step that
   * throws: rejected with its reason after stopping the track. Ticks that
   * run out: still pending.
   */
  method Reader(mediaFailure: Option<string>, hasTrack: bool, hasContext: bool, ticks: seq<Tick>)
    returns (r: Settled, trackStopped: bool)
    ensures mediaFailure.Some? ==> r == Rejected(mediaFailure.value) && !trackStopped
    ensures mediaFailure.None? && !hasTrack ==> r == Rejected("Could not get video track") && !trackStopped
    ensures mediaFailure.None? && hasTrack && !hasContext ==> r == Rejected("Could not create canvas context") && trackStopped
    ensures mediaFailure.None? && hasTrack && hasContext ==>
      var run := Run(Empty, ticks, 0, GetHeadLength);
      match run
      case Done(frames, _) => r == Resolved(Assemble(frames)) && trackStopped
      case Crashed(reason, _) => r == Rejected(reason) && trackStopped
      case Exhausted(_) => r == Pending && !trackStopped
  {
    if mediaFailure.Some? {
      return Rejected(mediaFailure.value), false;
    }
    var error: Option<string> := None;
    trackStopped := false;
    if !hasTrack {
      error := Some("Could not get video track");
    } else if !hasContext {
      error := Some("Could not create canvas context");
    } else {
      var outcome := ProcessAllFrames(ticks);
      match outcome {
        case Done(frames, _) =>
          trackStopped := true;
          return Resolved(Assemble(frames)), trackStopped;
        case Crashed(reason, _) =>
          error := Some(reason);
        case Exhausted(_) =>
          return Pending, trackStopped;
      }
    }
    if hasTrack {
      trackStopped := true;
    }
    r := Rejected(error.value);
  }
}
