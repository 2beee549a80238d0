/** The two renderings of a TGS (Lottie) sticker: `render_tgs_to_webm`,
    which renders at most three seconds of frames and hands them to the
    encoder, and `render_tgs_to_png`, which renders frame 0 only. Parsing,
    rasterising and encoding are outcomes recorded in the sticker's
    `TgsPayload`; whether the encoder is installed is a parameter. */
module Animation {
  import opened Wrappers
  import opened Stickers
  import opened Canvas

  /** Longest animated emoji the platform accepts, in seconds. */
  const MaxDuration: real := 3.0
  /** Side of the frames both renderings ask for (`size=100`). */
  const RenderSize: nat := 100

  /** Python's `int()` of a float: truncation toward zero. */
  function Trunc(x: real): (r: int)
    ensures 0.0 <= x ==> 0 <= r && r as real <= x < r as real + 1.0
    ensures x < 0.0 ==> r <= 0 && x <= r as real < x + 1.0
  {
    if 0.0 <= x then x.Floor else -((-x).Floor)
  }

  /** `frames_to_render = min(total_frames, int(fps * 3.0))` */
  function FrameBudget(totalFrames: nat, fps: real): int
  {
    var maxFrames := Trunc(fps * MaxDuration);
    if totalFrames <= maxFrames then totalFrames else maxFrames
  }

  /** For a positive frame rate the budget is the longest prefix of the
      animation that lasts at most three seconds: never more frames than the
      animation has, never more than fit in three seconds, and either the
      whole animation or as many frames as fit. */
  lemma FrameBudgetBounds(totalFrames: nat, fps: real)
    requires 0.0 < fps
    ensures var n := FrameBudget(totalFrames, fps);
      0 <= n <= totalFrames &&
      n as real <= fps * MaxDuration &&
      (n == totalFrames || fps * MaxDuration < n as real + 1.0)
  {
  }

  /** An animation of at most three seconds is rendered whole. */
  lemma ShortAnimationWhole(totalFrames: nat, fps: real)
    requires 0.0 < fps && totalFrames as real <= fps * MaxDuration
    ensures FrameBudget(totalFrames, fps) == totalFrames
  {
  }

  /** `duration = frames_to_render / fps` never exceeds three seconds. */
  lemma DurationBound(n: int, fps: real)
    requires 0.0 < fps && n as real <= fps * MaxDuration
    ensures n as real / fps <= MaxDuration
  {
  }

  /** The frame numbers 0, 1, ..., n - 1, in order (empty when n <= 0,
      as Python's `range(n)`). */
  function Range(n: int): (r: seq<nat>)
    ensures |r| == if n <= 0 then 0 else n
    ensures forall k :: 0 <= k < |r| ==> r[k] == k
  {
    if n <= 0 then [] else seq(n, k requires 0 <= k => k)
  }

  /** An encoded WEBM clip: the frames it was made from, the frame rate
      given to the encoder and the duration cap it was given. */
  datatype Clip = Clip(frames: seq<nat>, fps: real, duration: real)

  /** No frame among the first `n` raises when rendered. */
  predicate FramesRender(p: TgsPayload, n: int) {
    forall k: nat :: k < n ==> k !in p.badFrames
  }

  /** The animation's metadata passes the guard at the top of the WEBM
      path: it parses, and neither its frame count nor its rate is zero. */
  predicate Renderable(p: TgsPayload) {
    p.parses && p.totalFrames != 0 && p.fps != 0.0
  }

  /** What `render_tgs_to_webm` yields: `None` for `False`. A clip is made
      exactly when the metadata guard passes, every frame of the budget
      renders, the encoder is installed and succeeds, and the budget is not
      empty (the encoder is taken to fail when it is given no frames at all);
      it holds the whole budget and is capped at `frames / fps` seconds. */
  function WebmOutcome(p: TgsPayload, encoderPresent: bool): (r: Option<Clip>)
    ensures r.Some? ==> Renderable(p) && 0.0 < r.value.fps == p.fps
    ensures r.Some? ==> 0 < |r.value.frames| <= p.totalFrames && r.value.frames == Range(|r.value.frames|)
    ensures r.Some? ==> r.value.duration <= MaxDuration && |r.value.frames| as real <= p.fps * MaxDuration
    ensures r.Some? <==>
      && Renderable(p) && encoderPresent && p.encodeOk
      && 0 < FrameBudget(p.totalFrames, p.fps)
      && FramesRender(p, FrameBudget(p.totalFrames, p.fps))
    ensures r.Some? ==>
      && r.value.frames == Range(FrameBudget(p.totalFrames, p.fps))
      && r.value.duration == |r.value.frames| as real / p.fps
  {
    if !Renderable(p) then None
    else
      var n := FrameBudget(p.totalFrames, p.fps);
      if !FramesRender(p, n) || !encoderPresent || n <= 0 || !p.encodeOk then None
      else
        FrameBudgetBounds(p.totalFrames, p.fps);
        DurationBound(n, p.fps);
        Some(Clip(Range(n), p.fps, n as real / p.fps))
  }

  /** `render_tgs_to_webm`: renders frames 0 .. frames_to_render - 1 in
      order into a scratch directory (`written` lists the frames saved
      there), then checks for the encoder and runs it. */
  method RenderWebm(p: TgsPayload, encoderPresent: bool) returns (clip: Option<Clip>, written: seq<nat>)
    ensures clip == WebmOutcome(p, encoderPresent)
    ensures written == Range(|written|)
    ensures forall k :: k in written ==> k !in p.badFrames
    ensures !Renderable(p) ==> written == []
    ensures Renderable(p) ==>
      var n := FrameBudget(p.totalFrames, p.fps);
      if FramesRender(p, n) then written == Range(n)
      else |written| < n && |written| in p.badFrames
  {
    written := [];
    if !p.parses || p.totalFrames == 0 || p.fps == 0.0 {
      return None, written;
    }
    var n := FrameBudget(p.totalFrames, p.fps);
    var frame := 0;
    while frame < n
      invariant 0 <= frame && (frame <= n || frame == 0)
      invariant written == Range(frame)
      invariant FramesRender(p, frame)
    {
      if frame in p.badFrames {
        // rendering this frame raises; the exception handler returns False
        return None, written;
      }
      written := written + [frame];
      frame := frame + 1;
    }
    if !encoderPresent {
      return None, written;
    }
    var duration := n as real / p.fps;
    if n <= 0 || !p.encodeOk {
      return None, written;
    }
    clip := Some(Clip(written, p.fps, duration));
  }

  /** What `render_tgs_to_png` yields: frame 0 pasted at the origin of a
      transparent canvas, or `None` when parsing or rendering fails. */
  function FirstFramePng(p: TgsPayload): (r: Option<Layer>)
    ensures r.Some? ==> r.value.canvas == RenderSize && Inside(r.value) && Centred(r.value)
    ensures r.Some? ==> r.value.x == 0 && r.value.y == 0 && r.value.width == r.value.height == RenderSize
    ensures r.Some? <==> p.parses && 0 !in p.badFrames
  {
    if p.parses && 0 !in p.badFrames then Some(FirstFrameLayer(RenderSize)) else None
  }
}
