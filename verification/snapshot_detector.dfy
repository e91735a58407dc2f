/** The current motion detector: one camera chosen by device id, sampled every
    `intervalMs`; a tick that classifies motion hands `onMotion` a timestamp and a JPEG
    data URL of the frame. The previous gray is swapped out of the slot BEFORE the
    comparison. */
module SnapshotDetector {
  import opened Wrappers
  import opened Raster
  import Config

  /** The component's default props. Each detector component declares its own; the two
      sets happen to agree. */
  const DEFAULT_DIFF_THRESHOLD: int := 30
  const DEFAULT_MOTION_PIXEL_RATIO: real := 0.02
  const DEFAULT_INTERVAL_MS: int := 200

  /** The default props are settings the sensitivity controls offer, although they are not
      the application-wide defaults. */
  function DefaultProps(): (s: Config.Sensitivity)
    ensures Config.ValidSensitivity(s)
    ensures s.diffThreshold != Config.DEFAULT_DIFF_THRESHOLD && s.motionPixelRatio != Config.DEFAULT_MOTION_PIXEL_RATIO
  {
    Config.Sensitivity(DEFAULT_DIFF_THRESHOLD, DEFAULT_MOTION_PIXEL_RATIO, DEFAULT_INTERVAL_MS)
  }

  /** `running` is `streaming && cap` of the current effect run; `width` and `height` are the
      video element's size, copied from the camera's resolution when the metadata arrived;
      `slot` is the component's `prevGrayRef`, which outlives effect runs. */
  datatype Loop = Loop(running: bool, width: int, height: int, slot: Slot)

  predicate Valid(l: Loop) {
    SlotWellFormed(l.slot)
  }

  /** The capture only reads frames of the size the element was given at metadata time;
      `cap.read` raises on any other. */
  predicate Matches(l: Loop, f: Frame) {
    f.width == l.width && f.height == l.height
  }

  /** The sensitivity props in effect for this effect run. */
  datatype Params = Params(diffThreshold: int, motionPixelRatio: real)

  /** The `onMotion(timestamp, dataUrl)` call. */
  datatype Snapshot = Snapshot(timestamp: int, dataUrl: string)

  datatype Step = Step(loop: Loop, outcome: Outcome, callback: Option<Snapshot>)

  /** A frame at the camera's current resolution, for metadata size `width` by `height`: its
      pixels fill its geometry, and a frame of the metadata size is not empty. A frame of any
      other size, empty or not, is one `cap.read` refuses. */
  predicate Readable(width: int, height: int, f: Frame) {
    FrameFits(f) && (f.width == width && f.height == height ==> f.width * f.height > 0)
  }

  /** On mount: nothing stored, no capture yet. */
  const Mounted: Loop := Loop(false, 0, 0, Empty)

  /** `handleLoadedMetadata`: the element takes the camera's resolution, the capture is
      created and `streaming` becomes true. The stored gray is not touched. */
  function OnMetadata(l: Loop, width: int, height: int): (r: Loop)
    ensures r.running && r.width == width && r.height == height
    ensures r.slot == l.slot
    ensures Valid(l) ==> Valid(r)
  {
    l.(running := true, width := width, height := height)
  }

  /** The effect cleanup as written: `streaming = false`, and the stored gray is `delete()`d
      while the ref keeps pointing at it. The flag says whether the cleanup raised: a slot
      released by an earlier cleanup is deleted a second time. */
  function CleanupAsWritten(l: Loop): (r: (Loop, bool))
    ensures !r.0.running && r.0.width == l.width && r.0.height == l.height
    ensures r.1 <==> l.slot.Released?
    ensures r.0.slot.Empty? <==> l.slot.Empty?
    ensures !r.0.slot.Held?
    ensures !l.slot.Empty? ==> r.0.slot.gray == l.slot.gray
    ensures Valid(l) ==> Valid(r.0)
  {
    (l.(running := false, slot := if l.slot.Held? then Released(l.slot.gray) else l.slot), l.slot.Released?)
  }

  /** The effect cleanup with the ref cleared after the release: nothing is kept, so a later
      cleanup has nothing to delete twice. */
  function Cleanup(l: Loop): (r: Loop)
    ensures !r.running && r.slot.Empty? && Valid(r)
    ensures r.width == l.width && r.height == l.height
  {
    l.(running := false, slot := Empty)
  }

  /** Two effect re-runs with no metadata in between: as written the second cleanup deletes
      the stored gray again and raises; with the ref cleared it does not. */
  lemma SecondCleanupRaises(l: Loop)
    requires l.slot.Held?
    ensures !CleanupAsWritten(l).1
    ensures CleanupAsWritten(CleanupAsWritten(l).0).1
    ensures Cleanup(Cleanup(l)) == Cleanup(l)
  {
  }

  /** One interval tick. `frame` is at the camera's current resolution; it is converted with
      `luma`; `canvas` says whether the hidden canvas element exists; `toDataUrl` stands for
      `imshow` + `toDataURL("image/jpeg")`. */
  function Tick(l: Loop, p: Params, frame: Frame, now: int, luma: Rgba -> int,
                canvas: bool, toDataUrl: Frame -> string): (st: Step)
    requires Valid(l)
    requires l.running ==> Readable(l.width, l.height, frame)
    ensures Valid(st.loop) && st.loop.width == l.width && st.loop.height == l.height
    ensures !l.running ==> st == Step(l, Skipped, None)
    ensures l.running && !Matches(l, frame) ==> st == Step(l, Faulted, None)
    ensures l.running && Matches(l, frame) ==> st.loop == l.(slot := Held(ToGray(frame, luma)))
    ensures l.running && Matches(l, frame) && l.slot.Empty? ==> st.outcome == Primed && st.callback == None
    ensures st.outcome.Faulted? <==>
      && l.running
      && (!Matches(l, frame) || l.slot.Released? || (l.slot.Held? && !SameSize(ToGray(frame, luma), l.slot.gray)))
    ensures st.outcome.Classified? ==>
      && l.slot.Held?
      && st.outcome.sample.total == frame.width * frame.height
      && st.outcome.sample.changed == |ChangedPixels(ToGray(frame, luma).cells, l.slot.gray.cells, p.diffThreshold)|
    ensures st.callback.Some? <==>
      && l.running && Matches(l, frame) && canvas
      && l.slot.Held? && SameSize(ToGray(frame, luma), l.slot.gray)
      && MotionBetween(ToGray(frame, luma).cells, l.slot.gray.cells, frame.width * frame.height,
                       p.diffThreshold, p.motionPixelRatio)
    ensures st.callback.Some? ==> st.callback.value == Snapshot(now, toDataUrl(frame))
  {
    if !l.running then Step(l, Skipped, None)
    else if !Matches(l, frame) then Step(l, Faulted, None)
    else
      var gray := ToGray(frame, luma);
      var next := l.(slot := Held(gray));
      match Compare(gray, l.slot, p.diffThreshold, p.motionPixelRatio)
      case NoPrevious => Step(next, Primed, None)
      case Raised => Step(next, Faulted, None)
      case Compared(s, _) =>
        Step(next, Classified(s), if s.motion && canvas then Some(Snapshot(now, toDataUrl(frame))) else None)
  }

  /** One scheduled tick's inputs. */
  datatype TickInput = TickInput(frame: Frame, now: int, canvas: bool)

  predicate AllReadable(width: int, height: int, inputs: seq<TickInput>) {
    forall i :: 0 <= i < |inputs| ==> Readable(width, height, inputs[i].frame)
  }

  /** Consecutive ticks of one effect run; the final loop and the `onMotion` calls made. */
  function Run(l: Loop, p: Params, inputs: seq<TickInput>, luma: Rgba -> int,
               toDataUrl: Frame -> string): (r: (Loop, seq<Snapshot>))
    requires Valid(l)
    requires l.running ==> AllReadable(l.width, l.height, inputs)
    ensures Valid(r.0) && r.0.running == l.running
    ensures r.0.width == l.width && r.0.height == l.height
    ensures |r.1| <= |inputs|
    decreases |inputs|
  {
    if inputs == [] then (l, [])
    else
      var st := Tick(l, p, inputs[0].frame, inputs[0].now, luma, inputs[0].canvas, toDataUrl);
      var rest := Run(st.loop, p, inputs[1..], luma, toDataUrl);
      (rest.0, (if st.callback.Some? then [st.callback.value] else []) + rest.1)
  }

  /** After any non-empty run of a streaming loop at the metadata resolution, the slot holds
      exactly the last tick's gray: one generation, never an older one. */
  lemma {:induction false} RunKeepsLastGray(l: Loop, p: Params, inputs: seq<TickInput>,
                                             luma: Rgba -> int, toDataUrl: Frame -> string)
    requires Valid(l) && l.running && AllReadable(l.width, l.height, inputs) && |inputs| > 0
    requires forall i :: 0 <= i < |inputs| ==> Matches(l, inputs[i].frame)
    ensures Run(l, p, inputs, luma, toDataUrl).0 == l.(slot := Held(ToGray(inputs[|inputs| - 1].frame, luma)))
    decreases |inputs|
  {
    var st := Tick(l, p, inputs[0].frame, inputs[0].now, luma, inputs[0].canvas, toDataUrl);
    if |inputs| > 1 {
      RunKeepsLastGray(st.loop, p, inputs[1..], luma, toDataUrl);
      assert inputs[1..][|inputs[1..]| - 1] == inputs[|inputs| - 1];
    }
  }

  /** Once the camera's resolution differs from the one read at metadata time, every tick
      raises in `cap.read`: the slot never changes and no motion is reported for as long as
      the resolution stays different. Nothing in the effect run re-reads the metadata. */
  lemma {:induction false} ResizedRunIsStuck(l: Loop, p: Params, inputs: seq<TickInput>,
                                              luma: Rgba -> int, toDataUrl: Frame -> string)
    requires Valid(l) && l.running && AllReadable(l.width, l.height, inputs)
    requires forall i :: 0 <= i < |inputs| ==> !Matches(l, inputs[i].frame)
    ensures Run(l, p, inputs, luma, toDataUrl) == (l, [])
    decreases |inputs|
  {
    if inputs != [] {
      assert forall i :: 0 <= i < |inputs[1..]| ==> inputs[1..][i] == inputs[i + 1];
      ResizedRunIsStuck(l, p, inputs[1..], luma, toDataUrl);
    }
  }

  /** A loop that is not running ignores every tick: nothing is read, nothing is reported,
      the slot is untouched. */
  lemma {:induction false} StoppedRunIsInert(l: Loop, p: Params, inputs: seq<TickInput>,
                                              luma: Rgba -> int, toDataUrl: Frame -> string)
    requires Valid(l) && !l.running
    ensures Run(l, p, inputs, luma, toDataUrl) == (l, [])
    decreases |inputs|
  {
    if inputs != [] {
      StoppedRunIsInert(l, p, inputs[1..], luma, toDataUrl);
    }
  }

  /** Every `onMotion` call of a run carries the timestamp of one of its ticks. */
  lemma {:induction false} RunCallbackTimes(l: Loop, p: Params, inputs: seq<TickInput>,
                                             luma: Rgba -> int, toDataUrl: Frame -> string)
    requires Valid(l)
    requires l.running ==> AllReadable(l.width, l.height, inputs)
    ensures forall k :: 0 <= k < |Run(l, p, inputs, luma, toDataUrl).1| ==>
      exists i :: 0 <= i < |inputs| && Run(l, p, inputs, luma, toDataUrl).1[k].timestamp == inputs[i].now
    decreases |inputs|
  {
    if inputs != [] {
      var st := Tick(l, p, inputs[0].frame, inputs[0].now, luma, inputs[0].canvas, toDataUrl);
      RunCallbackTimes(st.loop, p, inputs[1..], luma, toDataUrl);
      var r := Run(l, p, inputs, luma, toDataUrl);
      var head := if st.callback.Some? then [st.callback.value] else [];
      var rest := Run(st.loop, p, inputs[1..], luma, toDataUrl).1;
      assert r.1 == head + rest;
      forall k | 0 <= k < |r.1|
        ensures exists i :: 0 <= i < |inputs| && r.1[k].timestamp == inputs[i].now
      {
        if k < |head| {
          assert r.1[k] == st.callback.value;
          assert r.1[k].timestamp == inputs[0].now;
        } else {
          assert r.1[k] == rest[k - |head|];
          var i :| 0 <= i < |inputs[1..]| && rest[k - |head|].timestamp == inputs[1..][i].now;
          assert inputs[1..][i] == inputs[i + 1];
        }
      }
    } else {
      assert Run(l, p, inputs, luma, toDataUrl).1 == [];
    }
  }

  /** As written, a prop change re-runs the effect: after cleanup and new metadata the slot
      still refers to the released gray, so the first tick's `absdiff` raises (leaving that
      tick's matrices undeleted); because the slot was already swapped, the second tick
      compares normally again. */
  lemma RestartFaultsFirstTick(l0: Loop, p: Params, f1: Frame, f2: Frame, t1: int, t2: int,
                               luma: Rgba -> int, canvas: bool, toDataUrl: Frame -> string)
    requires Valid(l0) && l0.slot.Held? && FrameFits(f1) && FrameFits(f2) && f1.width * f1.height > 0
    requires f1.width == f2.width && f1.height == f2.height
    ensures var l := OnMetadata(CleanupAsWritten(l0).0, f1.width, f1.height);
            var s1 := Tick(l, p, f1, t1, luma, canvas, toDataUrl);
            && s1.outcome == Faulted && s1.callback == None
            && Tick(s1.loop, p, f2, t2, luma, canvas, toDataUrl).outcome.Classified?
  {
  }

  /** With the ref cleared: the first tick after a restart only stores its gray, and the next
      one is classified and reports motion iff the reference test holds. */
  lemma RestartAfterCleanupResumes(l0: Loop, p: Params, f1: Frame, f2: Frame, t1: int, t2: int,
                                   luma: Rgba -> int, toDataUrl: Frame -> string)
    requires Valid(l0) && FrameFits(f1) && FrameFits(f2) && f1.width * f1.height > 0
    requires f1.width == f2.width && f1.height == f2.height
    ensures var l := OnMetadata(Cleanup(l0), f1.width, f1.height);
            var s1 := Tick(l, p, f1, t1, luma, true, toDataUrl);
            var s2 := Tick(s1.loop, p, f2, t2, luma, true, toDataUrl);
            && s1.outcome == Primed
            && s2.outcome.Classified?
            && (s2.callback.Some? <==>
                  MotionBetween(ToGray(f2, luma).cells, ToGray(f1, luma).cells, f2.width * f2.height,
                                p.diffThreshold, p.motionPixelRatio))
  {
  }

  /** A released slot and an empty one lead to the same `onMotion` calls: the first tick at
      the metadata resolution stores its gray either way (raising, or only priming), and
      from then on the two runs are the same. */
  lemma {:induction false} ReleasedSlotReportsTheSame(l: Loop, p: Params, inputs: seq<TickInput>,
                                                      luma: Rgba -> int, toDataUrl: Frame -> string)
    requires Valid(l) && l.running && l.slot.Released? && AllReadable(l.width, l.height, inputs)
    ensures Run(l, p, inputs, luma, toDataUrl).1 == Run(l.(slot := Empty), p, inputs, luma, toDataUrl).1
    decreases |inputs|
  {
    if inputs != [] {
      var e := l.(slot := Empty);
      var a := Tick(l, p, inputs[0].frame, inputs[0].now, luma, inputs[0].canvas, toDataUrl);
      var b := Tick(e, p, inputs[0].frame, inputs[0].now, luma, inputs[0].canvas, toDataUrl);
      assert a.callback == None && b.callback == None;
      if Matches(l, inputs[0].frame) {
        assert a.loop == b.loop;
      } else {
        assert a.loop == l && b.loop == e;
        assert forall i :: 0 <= i < |inputs[1..]| ==> inputs[1..][i] == inputs[i + 1];
        ReleasedSlotReportsTheSame(l, p, inputs[1..], luma, toDataUrl);
      }
    }
  }

  /** The cost of the stale ref is the raise, not a lost report: after a restart, the cleanup
      as written and the one that clears the ref make exactly the same `onMotion` calls. */
  lemma {:induction false} RestartCallbacksAgree(l0: Loop, p: Params, width: int, height: int, inputs: seq<TickInput>,
                              luma: Rgba -> int, toDataUrl: Frame -> string)
    requires Valid(l0) && l0.slot.Held? && AllReadable(width, height, inputs)
    ensures Run(OnMetadata(CleanupAsWritten(l0).0, width, height), p, inputs, luma, toDataUrl).1
         == Run(OnMetadata(Cleanup(l0), width, height), p, inputs, luma, toDataUrl).1
  {
    var l := OnMetadata(CleanupAsWritten(l0).0, width, height);
    ReleasedSlotReportsTheSame(l, p, inputs, luma, toDataUrl);
    assert l.(slot := Empty) == OnMetadata(Cleanup(l0), width, height);
  }
}
