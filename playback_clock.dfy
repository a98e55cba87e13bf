/** The playback clock: how far one tick advances and when playback must stop. */
module PlaybackClock {
  import opened Wrappers
  import opened PoseTypes

  /** Drift between the clock and the video beyond which the video is re-seeked, in seconds. */
  const MAX_DRIFT: real := 0.1

  /** The clock after a tick of `deltaMs` milliseconds at speed `rate`. */
  function Advance(time: real, deltaMs: real, rate: real): (t: real)
    ensures (t - time) * 1000.0 == deltaMs * rate
    ensures deltaMs >= 0.0 && rate >= 0.0 ==> time <= t
  {
    time + (deltaMs / 1000.0) * rate
  }

  /** The duration the player stops at. A video surface reports an unknown duration as NaN;
      NaN, zero and an infinite duration all mean "no end" (None). */
  function EffectiveDuration(duration: Option<real>): (end: Option<real>)
    ensures end.Some? <==> duration.Some? && duration.value != 0.0
    ensures end.Some? ==> end == duration
  {
    if duration.Some? && duration.value != 0.0 then duration else None
  }

  /** The video end that applies to a tick: only a ready video is consulted. */
  function VideoEnd(videoReady: bool, duration: Option<real>): Option<real>
  {
    if videoReady then EffectiveDuration(duration) else None
  }

  /** Time `t` has reached the start of every frame of the index; true for an empty index,
      whose last frame is minus infinity. */
  predicate PastAllFrames(frames: set<int>, t: real)
  {
    forall k :: k in frames ==> k as real / FPS <= t
  }

  /** The tick that reaches `t` stops playback. */
  predicate Ends(t: real, videoEnd: Option<real>, frames: set<int>)
  {
    (videoEnd.Some? && t >= videoEnd.value) || PastAllFrames(frames, t)
  }

  /** Comparing against the largest frame number is the same as comparing against all frames. */
  lemma PastAllFramesIffLast(frames: set<int>, last: int, t: real)
    requires last in frames && forall k :: k in frames ==> k <= last
    ensures PastAllFrames(frames, t) <==> last as real / FPS <= t
  {
    if last as real / FPS <= t {
      forall k | k in frames ensures k as real / FPS <= t {
        assert k as real <= last as real;
      }
    }
  }

  /** A tick that keeps playing stays inside both the video and the pose data. */
  lemma NoOverrun(t: real, videoEnd: Option<real>, frames: set<int>)
    requires !Ends(t, videoEnd, frames)
    ensures videoEnd.Some? ==> t < videoEnd.value
    ensures exists k :: k in frames && t < k as real / FPS
  {
  }

  /** Time 0 at double speed over a 100 ms tick reaches 0.2 s, which shows frame 6. */
  lemma AdvanceExample()
    ensures Advance(0.0, 100.0, 2.0) == 0.2 && FrameAt(0.2) == 6
  {
  }

  /** Frames 0..299 at 30 Hz and an 8 s video: a tick reaching [8 s, 299/30 s) stops because
      of the video, while the pose data alone would keep playing. */
  lemma VideoEndsFirst(t: real)
    requires 8.0 <= t < 299.0 / FPS
    ensures var frames := Slots(300);
            Ends(t, Some(8.0), frames) && !PastAllFrames(frames, t)
  {
    assert 299 in Slots(300);
  }
}
