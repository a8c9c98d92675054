/**
 * `WebRTCProcessor` of `packages/reader/src/processors/webrtc-processor.ts`:
 * the capture loop `processAllFrames` and `read`, which starts the video if
 * needed, captures, stops the track, removes its elements and reassembles
 * the payload. Media capture, canvas drawing and QR decoding are outside the
 * model: how starting the video ends is a parameter, and the
 * frames the decoder sees are the ticks.
 */
module WebRtc {
  import opened Wrappers
  import opened Js
  import opened Tags
  import opened Frames
  import opened Capture

  /**
   * `processAllFrames`: with no video element, resolve with no frames before
   * any step; otherwise run `processFrame` once per tick on a fresh
   * collection, stopping after the first exception or once the collection
   * holds as many strings as the head count announced.
   */
  method ProcessAllFrames(hasVideo: bool, ticks: seq<Tick>) returns (r: Outcome)
    ensures r == if hasVideo then Run(Empty, ticks, 0, GetHeadLength) else Done([], 0)
  {
    if !hasVideo {
      return Done([], 0);
    }
    var all := new Collector();
    var i := 0;
    while i < |ticks|
      invariant 0 <= i <= |ticks|
      invariant Run(all.State(), ticks, i, GetHeadLength) == Run(Empty, ticks, 0, GetHeadLength)
      decreases |ticks| - i
    {
      if ticks[i].Failure? {
        return Crashed(ticks[i].reason, i);
      }
      all.Add(Code(ticks[i]));
      if Complete(all.State()) {
        return Done(all.frames, i);
      }
      i := i + 1;
    }
    return Exhausted(all.State());
  }

  /**
   * How `startVideo` ends: the video plays; it fails before `_video` is
   * assigned (the track request rejects); or `video.play()` rejects after
   * `_track` and `_video` have been set.
   */
  datatype Start = Plays | FailsBeforeVideo(reason: string) | FailsAtPlay(reason: string)

  class WebRTCProcessor {
    /** Whether `_track` and `_video` are set. */
    var hasTrack: bool
    var hasVideo: bool
    /** Whether `stop` was called on the track. */
    var trackStopped: bool
    /** Whether `destroy` removed the canvas and video elements. */
    var destroyed: bool

    constructor()
      ensures !hasTrack && !hasVideo && !trackStopped && !destroyed
    {
      hasTrack := false;
      hasVideo := false;
      trackStopped := false;
      destroyed := false;
    }

    /** `setStreamTrack`. */
    method SetStreamTrack()
      modifies this
      ensures hasTrack && hasVideo == old(hasVideo)
      ensures trackStopped == old(trackStopped) && destroyed == old(destroyed)
    {
      hasTrack := true;
    }

    /**
     * `read`. Without a track or video, `startVideo` runs first and its
     * failure rejects the read; a rejection of `video.play()` comes after
     * `_track` and `_video` are set, so a later read skips `startVideo`.
     * When the capture resolves, the track is stopped, the elements are
     * destroyed and the read resolves with the frames sorted by
     * `sortFrames`, stripped by `sliceFrames` and joined. When a step
     * throws, or the ticks run out, the capture promise never settles, so
     * neither does the read and nothing is stopped.
     */
    method Read(start: Start, ticks: seq<Tick>) returns (r: Settled)
      modifies this
      ensures var mustStart := !old(hasTrack) || !old(hasVideo);
        var run := Run(Empty, ticks, 0, GetHeadLength);
        if mustStart && !start.Plays? then
          && r == Rejected(start.reason)
          && trackStopped == old(trackStopped) && destroyed == old(destroyed)
          && (if start.FailsAtPlay? then hasTrack && hasVideo
              else hasTrack == old(hasTrack) && hasVideo == old(hasVideo))
        else
          && hasTrack && hasVideo
          && r == (if run.Done? then Resolved(Assemble(run.frames)) else Pending)
          && trackStopped == (old(trackStopped) || run.Done?)
          && destroyed == (old(destroyed) || run.Done?)
    {
      if !hasTrack || !hasVideo {
        if start.FailsBeforeVideo? {
          return Rejected(start.reason);
        }
        hasTrack := true;
        hasVideo := true;
        if start.FailsAtPlay? {
          return Rejected(start.reason);
        }
      }
      var outcome := ProcessAllFrames(hasVideo, ticks);
      if outcome.Done? {
        if hasTrack {
          trackStopped := true;
        }
        destroyed := true;
        r := Resolved(Assemble(outcome.frames));
      } else {
        r := Pending;
      }
    }
  }
}
