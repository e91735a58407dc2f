/** The older motion detector: the default camera, sampled every `intervalMs`; a tick that
    classifies motion calls `onMotion` with a timestamp only, and paints the threshold mask
    onto an overlay canvas. Zero-area frames are skipped, and the previous gray is replaced
    AFTER the comparison, by a copy of the current one. */
module OverlayDetector {
  import opened Wrappers
  import opened Raster
  import Config

  /** The component's default props. Each detector component declares its own; the two
      sets happen to agree. */
  const DEFAULT_DIFF_THRESHOLD: int := 30
  const DEFAULT_MOTION_PIXEL_RATIO: real := 0.02
  const DEFAULT_INTERVAL_MS: int := 200

  /** The default props are settings the sensitivity controls offer, although they are not
      the application-wide defaults. */
  function DefaultProps(): (s: Config.Sensitivity)
    ensures Config.ValidSensitivity(s)
    ensures s.diffThreshold != Config.DEFAULT_DIFF_THRESHOLD && s.motionPixelRatio != Config.DEFAULT_MOTION_PIXEL_RATIO
  {
    Config.Sensitivity(DEFAULT_DIFF_THRESHOLD, DEFAULT_MOTION_PIXEL_RATIO, DEFAULT_INTERVAL_MS)
  }

  /** `running` is `streaming && cap` of the current effect run; `width` and `height` are the
      video element's size, copied from the camera's resolution when the metadata arrived;
      `slot` is `prevGrayRef`. */
  datatype Loop = Loop(running: bool, width: int, height: int, slot: Slot)

  predicate Valid(l: Loop) {
    SlotWellFormed(l.slot)
  }

  /** The capture only reads frames of the size the element was given at metadata time;
      `cap.read` raises on any other. */
  predicate Matches(l: Loop, f: Frame) {
    f.width == l.width && f.height == l.height
  }

  datatype Params = Params(diffThreshold: int, motionPixelRatio: real)

  /** `motionAt` is the `onMotion(timestamp)` call; `overlay` the RGBA bytes put on the canvas. */
  datatype Step = Step(loop: Loop, outcome: Outcome, motionAt: Option<int>, overlay: Option<seq<int>>)

  const Mounted: Loop := Loop(false, 0, 0, Empty)

  /** `handleLoadedMetadata`: the element takes the camera's resolution, the capture is
      created and `streaming` becomes true. The stored gray is not touched. */
  function OnMetadata(l: Loop, width: int, height: int): (r: Loop)
    ensures r.running && r.width == width && r.height == height
    ensures r.slot == l.slot
    ensures Valid(l) ==> Valid(r)
  {
    l.(running := true, width := width, height := height)
  }

  /** The effect cleanup as written: `streaming = false` and the stored gray is
      `delete()`d, but the ref keeps pointing at the released matrix. The flag says whether
      the cleanup raised: a slot released by an earlier cleanup is deleted a second time. */
  function CleanupAsWritten(l: Loop): (r: (Loop, bool))
    ensures !r.0.running && r.0.width == l.width && r.0.height == l.height
    ensures r.1 <==> l.slot.Released?
    ensures r.0.slot.Empty? <==> l.slot.Empty?
    ensures !r.0.slot.Held?
    ensures !l.slot.Empty? ==> r.0.slot.gray == l.slot.gray
    ensures Valid(l) ==> Valid(r.0)
  {
    (l.(running := false, slot := if l.slot.Held? then Released(l.slot.gray) else l.slot), l.slot.Released?)
  }

  /** The effect cleanup with the ref cleared after the release: nothing is kept, so a later
      cleanup has nothing to delete twice. */
  function Cleanup(l: Loop): (r: Loop)
    ensures !r.running && r.slot.Empty? && Valid(r)
    ensures r.width == l.width && r.height == l.height
  {
    l.(running := false, slot := Empty)
  }

  /** Two effect re-runs with no metadata in between: as written the second cleanup deletes
      the stored gray again and raises; with the ref cleared it does not. */
  lemma SecondCleanupRaises(l: Loop)
    requires l.slot.Held?
    ensures !CleanupAsWritten(l).1
    ensures CleanupAsWritten(CleanupAsWritten(l).0).1
    ensures Cleanup(Cleanup(l)) == Cleanup(l)
  {
  }

  /** One `processFrame` call. `overlayCanvas` says whether the overlay canvas and its 2D
      context exist. */
  function Tick(l: Loop, p: Params, frame: Frame, now: int, luma: Rgba -> int,
                overlayCanvas: bool): (st: Step)
    requires Valid(l)
    requires l.running ==> FrameFits(frame)
    ensures Valid(st.loop)
    ensures !l.running || frame.width == 0 || frame.height == 0 ==> st == Step(l, Skipped, None, None)
    ensures st.outcome.Primed? <==>
      l.running && frame.width > 0 && frame.height > 0 && Matches(l, frame) && l.slot.Empty?
    ensures st.outcome.Primed? ==> st.loop == l.(slot := Held(ToGray(frame, luma))) && st.motionAt == None
    ensures st.outcome.Faulted? ==> st == Step(l, Faulted, None, None)
    ensures st.outcome.Faulted? <==>
      && l.running && frame.width > 0 && frame.height > 0
      && (!Matches(l, frame) || l.slot.Released? || (l.slot.Held? && !SameSize(ToGray(frame, luma), l.slot.gray)))
    ensures st.outcome.Classified? <==>
      && l.running && frame.width > 0 && frame.height > 0 && Matches(l, frame)
      && l.slot.Held? && SameSize(ToGray(frame, luma), l.slot.gray)
    ensures st.outcome.Classified? ==>
      && l.slot.Held?
      && st.loop == l.(slot := Held(ToGray(frame, luma)))
      && st.outcome.sample.total == frame.width * frame.height
      && st.outcome.sample.changed == |ChangedPixels(ToGray(frame, luma).cells, l.slot.gray.cells, p.diffThreshold)|
    ensures st.motionAt.Some? <==>
      && l.running && frame.width > 0 && frame.height > 0 && Matches(l, frame)
      && l.slot.Held? && SameSize(ToGray(frame, luma), l.slot.gray)
      && MotionBetween(ToGray(frame, luma).cells, l.slot.gray.cells, frame.width * frame.height,
                       p.diffThreshold, p.motionPixelRatio)
    ensures st.motionAt.Some? ==> st.motionAt.value == now
    ensures st.overlay.Some? <==> st.outcome.Classified? && overlayCanvas
    ensures st.overlay.Some? ==>
      && |st.overlay.value| == 4 * (frame.width * frame.height)
      && forall q :: 0 <= q < frame.width * frame.height ==>
           PixelIs(st.overlay.value, q,
                   if Distance(ToGray(frame, luma).cells[q], l.slot.gray.cells[q]) > p.diffThreshold
                   then MaxIntensity else 0)
  {
    if !l.running || frame.width == 0 || frame.height == 0 then Step(l, Skipped, None, None)
    else if !Matches(l, frame) then Step(l, Faulted, None, None)
    else
      var gray := ToGray(frame, luma);
      var next := l.(slot := Held(gray));
      match Compare(gray, l.slot, p.diffThreshold, p.motionPixelRatio)
      case NoPrevious => Step(next, Primed, None, None)
      case Raised => Step(l, Faulted, None, None)
      case Compared(s, mask) =>
        Step(next, Classified(s), if s.motion then Some(now) else None,
             if overlayCanvas then Some(ExpandToRgba(mask)) else None)
  }

  datatype TickInput = TickInput(frame: Frame, now: int)

  predicate AllFit(inputs: seq<TickInput>) {
    forall i :: 0 <= i < |inputs| ==> FrameFits(inputs[i].frame)
  }

  /** Consecutive ticks of one effect run; the final loop and the `onMotion` timestamps. */
  function Run(l: Loop, p: Params, inputs: seq<TickInput>, luma: Rgba -> int): (r: (Loop, seq<int>))
    requires Valid(l)
    requires l.running ==> AllFit(inputs)
    ensures Valid(r.0) && r.0.running == l.running
    ensures r.0.width == l.width && r.0.height == l.height
    ensures |r.1| <= |inputs|
    decreases |inputs|
  {
    if inputs == [] then (l, [])
    else
      var st := Tick(l, p, inputs[0].frame, inputs[0].now, luma, false);
      var rest := Run(st.loop, p, inputs[1..], luma);
      (rest.0, (if st.motionAt.Some? then [st.motionAt.value] else []) + rest.1)
  }

  /** A tick on a frame that is empty, that `cap.read` refuses because the camera's
      resolution changed since the metadata, or that `absdiff` cannot compare with the slot. */
  predicate Incomparable(l: Loop, f: Frame, luma: Rgba -> int) {
    f.width == 0 || f.height == 0 || !Matches(l, f) || l.slot.Released? ||
    (l.slot.Held? && !SameSize(ToGray(f, luma), l.slot.gray))
  }

  /** Once `cap.read` or `absdiff` raises, the slot is never replaced: as long as the frames
      stay incomparable with it (a resolution change after the metadata is one way), every
      tick raises again and no motion is ever reported. */
  lemma {:induction false} StuckRun(l: Loop, p: Params, inputs: seq<TickInput>, luma: Rgba -> int)
    requires Valid(l) && l.running && AllFit(inputs)
    requires forall i :: 0 <= i < |inputs| ==> Incomparable(l, inputs[i].frame, luma)
    ensures Run(l, p, inputs, luma) == (l, [])
    decreases |inputs|
  {
    if inputs != [] {
      var st := Tick(l, p, inputs[0].frame, inputs[0].now, luma, false);
      assert st.loop == l && st.motionAt == None;
      assert forall i :: 0 <= i < |inputs[1..]| ==> inputs[1..][i] == inputs[i + 1];
      StuckRun(l, p, inputs[1..], luma);
    }
  }

  /** As written: after any prop change re-runs the effect while a gray is stored, the
      detector never reports motion again, whatever the camera shows. */
  lemma DeadAfterCleanupAsWritten(l0: Loop, p: Params, width: int, height: int,
                                  inputs: seq<TickInput>, luma: Rgba -> int)
    requires Valid(l0) && l0.slot.Held? && AllFit(inputs)
    ensures var l := OnMetadata(CleanupAsWritten(l0).0, width, height);
            Run(l, p, inputs, luma) == (l, [])
  {
    var l := OnMetadata(CleanupAsWritten(l0).0, width, height);
    StuckRun(l, p, inputs, luma);
  }

  /** With the ref cleared: after a restart the first non-empty frame is stored, and the next
      frame of the same size is classified again (motion reported iff the reference test holds). */
  lemma RestartAfterCleanupResumes(l0: Loop, p: Params, f1: Frame, f2: Frame, t1: int, t2: int,
                                   luma: Rgba -> int)
    requires Valid(l0) && FrameFits(f1) && FrameFits(f2)
    requires f1.width > 0 && f1.height > 0
    requires f1.width == f2.width && f1.height == f2.height
    ensures var l := OnMetadata(Cleanup(l0), f1.width, f1.height);
            var s1 := Tick(l, p, f1, t1, luma, false);
            var s2 := Tick(s1.loop, p, f2, t2, luma, false);
            && s1.outcome == Primed
            && s2.outcome.Classified?
            && (s2.motionAt.Some? <==>
                  MotionBetween(ToGray(f2, luma).cells, ToGray(f1, luma).cells, f2.width * f2.height,
                                p.diffThreshold, p.motionPixelRatio))
  {
  }
}
