/** The per-frame capture decision of capture_scores_from_video
    (main.py:53-94). Each frame read from the video is first checked
    against the frame window, then its region of interest goes through
    the boundary detector, and the left edge found (start_rect) decides
    whether the frame is saved as a new score image.

    The transition is given once as pure functions (Next, folded by Run),
    and the class Scanner holds the same state in fields and updates it
    in place the way the loop does. */
module Capture {
  import opened Pixels
  import opened Boundary
  import opened Normalizer

  /** prev_rect before any frame has been compared. */
  const Unset: int := -999
  /** A stall that has lasted more than this many frames forces a capture. */
  const StallLimit: int := 400
  /** A left edge that moves left by more than this many columns is a new page. */
  const JumpThreshold: int := 100

  /** The frame indices [startFrame, endFrame] that are considered. */
  datatype Window = Window(startFrame: int, endFrame: int)

  /** What the loop body does with one frame: leave the loop (Ended),
      skip a frame before the window (Early), skip an empty detection
      (Stalled), save the frame (Captured) or keep the current page (Held). */
  datatype Outcome = Ended | Early | Stalled | Captured | Held

  /** One frame as the decision sees it: its index (CAP_PROP_POS_FRAMES),
      the left edge the detector found in its region of interest, and
      the frame width (CAP_PROP_FRAME_WIDTH). */
  datatype Frame = Frame(index: int, startRect: int, width: int)

  /** prev_rect, interval, the frames saved so far (in order) and whether
      the loop has been left. */
  datatype ScanState = ScanState(prevRect: int, interval: int, captured: seq<int>, stopped: bool)

  const Initial: ScanState := ScanState(Unset, 0, [], false)

  /** The frame-window test of main.py:69-73. */
  datatype Gate = Closed | Before | Open

  function GateOf(stopped: bool, index: int, window: Window): Gate {
    if stopped || index > window.endFrame then Closed
    else if index < window.startFrame then Before
    else Open
  }

  /** The detector found no column (or whatever reads as the frame width)
      and the stall budget is not used up (main.py:80). */
  predicate IsStall(s: ScanState, startRect: int, w: int) {
    startRect == w && s.interval <= StallLimit
  }

  /** The capture condition of main.py:84. */
  predicate Triggers(s: ScanState, startRect: int) {
    s.prevRect < 0 || startRect + JumpThreshold < s.prevRect || s.interval > StallLimit
  }

  /** main.py:78-91 for an admitted frame. A stall counts the frame and
      goes on to the next one without touching prev_rect; otherwise the
      frame is saved when Triggers holds (interval reset to 0, so it is 1
      after the increment), interval then grows by one and prev_rect takes
      the new edge. */
  function Detected(s: ScanState, index: int, startRect: int, w: int): (r: (ScanState, Outcome))
    ensures r.1 == Stalled || r.1 == Captured || r.1 == Held
    ensures r.0.stopped == s.stopped
    ensures r.0.captured == if r.1 == Captured then s.captured + [index] else s.captured
    ensures r.0.interval == if r.1 == Captured then 1 else s.interval + 1
    ensures r.0.prevRect == if r.1 == Stalled then s.prevRect else startRect
  {
    if IsStall(s, startRect, w) then
      (s.(interval := s.interval + 1), Stalled)
    else if Triggers(s, startRect) then
      (s.(prevRect := startRect, interval := 1, captured := s.captured + [index]), Captured)
    else
      (s.(prevRect := startRect, interval := s.interval + 1), Held)
  }

  /** One pass of the loop body: after the loop has been left, or at the
      first frame past the window, nothing but the stop flag changes; a
      frame before the window changes nothing; a saved frame lies in the
      window and is appended to the saved list, which otherwise stays. */
  function Next(s: ScanState, f: Frame, window: Window): (r: (ScanState, Outcome))
    ensures s.stopped ==> r == (s, Ended)
    ensures r.1 == Ended <==> s.stopped || f.index > window.endFrame
    ensures r.1 == Ended ==> r.0 == s.(stopped := true)
    ensures r.1 == Early ==> r.0 == s
    ensures r.0.captured == if r.1 == Captured then s.captured + [f.index] else s.captured
    ensures r.1 == Captured ==> window.startFrame <= f.index <= window.endFrame
  {
    match GateOf(s.stopped, f.index, window)
    case Closed => (s.(stopped := true), Ended)
    case Before => (s, Early)
    case Open => Detected(s, f.index, f.startRect, f.width)
  }

  /** The state after the frames fs, in order: the saved list only grows,
      by at most one frame per frame read, and a stopped loop stays as it
      is. */
  function Run(s: ScanState, fs: seq<Frame>, window: Window): (t: ScanState)
    ensures |s.captured| <= |t.captured| <= |s.captured| + |fs|
    ensures t.captured[..|s.captured|] == s.captured
    ensures s.stopped ==> t == s
    decreases |fs|
  {
    if fs == [] then s else Next(Run(s, fs[..|fs| - 1], window), fs[|fs| - 1], window).0
  }

  // ---------------------------------------------------------------------
  // The rules, one frame at a time

  /** Stall rule: no capture, interval up by exactly one, prev_rect kept. */
  lemma StallRule(s: ScanState, index: int, startRect: int, w: int)
    requires startRect == w && s.interval <= StallLimit
    ensures var (t, o) := Detected(s, index, startRect, w);
      o == Stalled && t.interval == s.interval + 1 && t.prevRect == s.prevRect && t.captured == s.captured
  {
  }

  /** Capture rule: outside a stall a frame is saved exactly when the
      previous edge is unset, the edge jumped left by more than 100
      columns, or the stall budget is exceeded; interval is then 1, and
      otherwise one more than before; prev_rect becomes the new edge. */
  lemma CaptureRule(s: ScanState, index: int, startRect: int, w: int)
    requires !IsStall(s, startRect, w)
    ensures var (t, o) := Detected(s, index, startRect, w);
      (o == Captured <==> s.prevRect < 0 || startRect + JumpThreshold < s.prevRect || s.interval > StallLimit) &&
      (o == Captured || o == Held) &&
      t.prevRect == startRect &&
      t.interval == (if o == Captured then 1 else s.interval + 1) &&
      t.captured == (if o == Captured then s.captured + [index] else s.captured)
  {
  }

  /** The first frame that is not a stall is always saved. */
  lemma FirstDetectionCaptures(s: ScanState, index: int, startRect: int, w: int)
    requires s.prevRect == Unset && !IsStall(s, startRect, w)
    ensures Detected(s, index, startRect, w).1 == Captured
  {
  }

  /** Frames before the window leave the state as it is. */
  lemma EarlyFrameIgnored(s: ScanState, f: Frame, window: Window)
    requires !s.stopped && f.index <= window.endFrame && f.index < window.startFrame
    ensures Next(s, f, window) == (s, Early)
  {
  }

  /** The stall test compares with the frame width, while an empty
      detection reports the width of the region of interest: when the two
      differ, an empty detection is never a stall. */
  lemma SentinelStallsOnlyAtFrameWidth(s: ScanState, index: int, roiWidth: int, w: int)
    requires roiWidth != w
    ensures Detected(s, index, roiWidth, w).1 != Stalled
  {
  }

  // ---------------------------------------------------------------------
  // Properties of whole runs

  predicate IntervalBounded(s: ScanState) {
    0 <= s.interval <= StallLimit + 1
  }

  /** interval never exceeds 401. */
  lemma {:induction false} RunKeepsIntervalBounded(s: ScanState, fs: seq<Frame>, window: Window)
    requires IntervalBounded(s)
    ensures IntervalBounded(Run(s, fs, window))
    decreases |fs|
  {
    if fs != [] {
      RunKeepsIntervalBounded(s, fs[..|fs| - 1], window);
    }
  }

  /** Once the loop is left, later frames change nothing. */
  lemma {:induction false} RunAfterStop(s: ScanState, fs: seq<Frame>, k: nat, window: Window)
    requires k <= |fs| && Run(s, fs[..k], window).stopped
    ensures Run(s, fs, window) == Run(s, fs[..k], window)
    decreases |fs| - k
  {
    if k < |fs| {
      var init := fs[..|fs| - 1];
      assert init[..k] == fs[..k];
      RunAfterStop(s, init, k, window);
    } else {
      assert fs[..k] == fs;
    }
  }

  predicate Increasing(xs: seq<int>) {
    forall a, b :: 0 <= a < b < |xs| ==> xs[a] < xs[b]
  }

  predicate FramesIncreasing(fs: seq<Frame>) {
    forall a, b :: 0 <= a < b < |fs| ==> fs[a].index < fs[b].index
  }

  /** Every saved frame is one of the frames read, inside the window. */
  ghost predicate CapturedFrom(captured: seq<int>, fs: seq<Frame>, window: Window) {
    forall c :: c in captured ==>
      window.startFrame <= c <= window.endFrame && exists k :: 0 <= k < |fs| && fs[k].index == c
  }

  /** From the initial state, the saved frames are frames of the run that
      lie in the window, and they are saved in strictly increasing order
      when the video delivers increasing frame indices. */
  lemma {:induction false} RunCaptures(fs: seq<Frame>, window: Window)
    ensures CapturedFrom(Run(Initial, fs, window).captured, fs, window)
    ensures FramesIncreasing(fs) ==> Increasing(Run(Initial, fs, window).captured)
    decreases |fs|
  {
    if fs != [] {
      var init := fs[..|fs| - 1];
      var last := fs[|fs| - 1];
      RunCaptures(init, window);
      var before := Run(Initial, init, window);
      var after := Run(Initial, fs, window);
      assert after == Next(before, last, window).0;
      forall c | c in before.captured
        ensures window.startFrame <= c <= window.endFrame && exists k :: 0 <= k < |fs| && fs[k].index == c
      {
        var k :| 0 <= k < |init| && init[k].index == c;
        assert fs[k].index == c;
      }
      if after.captured != before.captured {
        assert after.captured == before.captured + [last.index];
        assert fs[|fs| - 1].index == last.index;
        if FramesIncreasing(fs) {
          assert FramesIncreasing(init);
          forall a | 0 <= a < |before.captured|
            ensures before.captured[a] < last.index
          {
            var c := before.captured[a];
            assert c in before.captured;
            var k :| 0 <= k < |init| && init[k].index == c;
            assert fs[k].index == c;
          }
        }
      }
    }
  }

  // ---------------------------------------------------------------------
  // Example frame sequences

  /** A constant edge of 150 in a 640-wide frame: only the first frame is
      saved. */
  lemma ConstantEdgeCapturesOnce()
    ensures Run(Initial, [Frame(1, 150, 640), Frame(2, 150, 640), Frame(3, 150, 640), Frame(4, 150, 640)],
                Window(0, 100)).captured == [1]
  {
    var fs := [Frame(1, 150, 640), Frame(2, 150, 640), Frame(3, 150, 640), Frame(4, 150, 640)];
    var win := Window(0, 100);
    assert fs[..1][..0] == [] && fs[..2][..1] == fs[..1] && fs[..3][..2] == fs[..2] && fs[..4] == fs;
    var s1 := Run(Initial, fs[..1], win);
    assert s1 == Next(Run(Initial, [], win), fs[0], win).0;
    assert s1 == ScanState(150, 1, [1], false);
    var s2 := Run(Initial, fs[..2], win);
    assert s2 == ScanState(150, 2, [1], false);
    var s3 := Run(Initial, fs[..3], win);
    assert s3 == ScanState(150, 3, [1], false);
  }

  /** Edges 150, 150, 640, 640, 150 in a 640-wide frame: the two empty
      detections are stalls that keep prev_rect at 150, so the return to
      150 is not a new page. */
  lemma StallThenReturnCapturesOnce()
    ensures Run(Initial, [Frame(1, 150, 640), Frame(2, 150, 640), Frame(3, 640, 640), Frame(4, 640, 640),
                          Frame(5, 150, 640)], Window(0, 100)) == ScanState(150, 5, [1], false)
  {
    var fs := [Frame(1, 150, 640), Frame(2, 150, 640), Frame(3, 640, 640), Frame(4, 640, 640), Frame(5, 150, 640)];
    var win := Window(0, 100);
    assert fs[..1][..0] == [] && fs[..2][..1] == fs[..1] && fs[..3][..2] == fs[..2];
    assert fs[..4][..3] == fs[..3] && fs[..5] == fs;
    var s1 := Run(Initial, fs[..1], win);
    assert s1 == Next(Run(Initial, [], win), fs[0], win).0;
    assert s1 == ScanState(150, 1, [1], false);
    var s2 := Run(Initial, fs[..2], win);
    assert s2 == ScanState(150, 2, [1], false);
    var s3 := Run(Initial, fs[..3], win);
    assert s3 == ScanState(150, 3, [1], false);
    var s4 := Run(Initial, fs[..4], win);
    assert s4 == ScanState(150, 4, [1], false);
  }

  /** An edge that jumps from 500 to 50 starts a new page whatever the
      interval. */
  lemma LeftJumpCaptures(s: ScanState, index: int, w: int)
    requires s.prevRect == 500 && w != 50
    ensures Detected(s, index, 50, w).1 == Captured
  {
  }

  // ---------------------------------------------------------------------
  // The loop state, updated in place

  class Scanner {
    var prevRect: int
    var interval: int
    /** The frame index of every saved image, in saving order; the image
        of frame n is saved under Naming.ImageName(n). */
    var imageFrames: seq<int>
    /** The loop has been left. */
    var stopped: bool
    const window: Window

    function State(): ScanState
      reads this
    {
      ScanState(prevRect, interval, imageFrames, stopped)
    }

    ghost predicate Valid()
      reads this
    {
      IntervalBounded(State())
    }

    constructor (window: Window)
      ensures Valid() && State() == Initial && this.window == window
    {
      prevRect, interval := Unset, 0;
      imageFrames := [];
      stopped := false;
      this.window := window;
    }

    /** Lines 78-91 for a frame inside the window. */
    method Decide(currentFrame: int, startRect: int, w: int) returns (outcome: Outcome)
      requires Valid()
      modifies this
      ensures Valid()
      ensures (State(), outcome) == Detected(old(State()), currentFrame, startRect, w)
    {
      if startRect == w && interval <= StallLimit {
        interval := interval + 1;
        return Stalled;
      } else if prevRect < 0 || startRect + JumpThreshold < prevRect || interval > StallLimit {
        imageFrames := imageFrames + [currentFrame];
        interval := 0;
        outcome := Captured;
      } else {
        outcome := Held;
      }
      interval := interval + 1;
      prevRect := startRect;
    }

    /** One pass of the loop body, given the left edge the detector found. */
    method Step(currentFrame: int, startRect: int, w: int) returns (outcome: Outcome)
      requires Valid()
      modifies this
      ensures Valid()
      ensures (State(), outcome) == Next(old(State()), Frame(currentFrame, startRect, w), window)
    {
      var gate := GateOf(stopped, currentFrame, window);
      if gate == Closed {
        stopped := true;
        outcome := Ended;
      } else if gate == Before {
        outcome := Early;
      } else {
        outcome := Decide(currentFrame, startRect, w);
      }
    }

    /** One pass of the loop body on the region of interest itself: the
        detector runs only for a frame inside the window, and the region is
        normalised in place when the frame is saved. */
    method ProcessFrame(currentFrame: int, roi: array2<Gray>, w: int) returns (outcome: Outcome)
      requires Valid()
      modifies this, roi
      ensures Valid()
      ensures (State(), outcome) == Next(old(State()), Frame(currentFrame, old(Detect(roi)).minW, w), window)
      ensures forall i, j :: 0 <= i < roi.Length0 && 0 <= j < roi.Length1 ==>
                roi[i, j] == if outcome == Captured && InArea(old(Detect(roi)), i, j)
                             then Normalize(old(roi[i, j])) else old(roi[i, j])
    {
      var gate := GateOf(stopped, currentFrame, window);
      if gate == Closed {
        stopped := true;
        outcome := Ended;
      } else if gate == Before {
        outcome := Early;
      } else {
        var area := FoundBoundary(roi);
        outcome := Decide(currentFrame, area.minW, w);
        if outcome == Captured {
          FilterRoi(roi, area);
        }
      }
    }
  }

  /** The loop of capture_scores_from_video over the frames the video
      delivers (it ends when they run out, or at the first frame past the
      window): the saved frames, in order. */
  method CaptureScores(frames: seq<Frame>, window: Window) returns (imageFrames: seq<int>)
    ensures imageFrames == Run(Initial, frames, window).captured
    ensures CapturedFrom(imageFrames, frames, window)
    ensures FramesIncreasing(frames) ==> Increasing(imageFrames)
  {
    var scanner := new Scanner(window);
    var i := 0;
    while i < |frames| && !scanner.stopped
      invariant 0 <= i <= |frames|
      invariant scanner.Valid() && scanner.window == window
      invariant scanner.State() == Run(Initial, frames[..i], window)
    {
      assert frames[..i + 1][..i] == frames[..i];
      var outcome := scanner.Step(frames[i].index, frames[i].startRect, frames[i].width);
      i := i + 1;
    }
    if i < |frames| {
      RunAfterStop(Initial, frames, i, window);
    } else {
      assert frames[..i] == frames;
    }
    imageFrames := scanner.imageFrames;
    RunCaptures(frames, window);
  }
}
