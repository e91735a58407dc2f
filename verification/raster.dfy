/** Single-channel 8-bit rasters and the OpenCV operations both motion detectors apply to
    them: `cvtColor(COLOR_RGBA2GRAY)`, `absdiff`, `threshold(THRESH_BINARY)`,
    `countNonZero`, the ratio test, and the RGBA expansion of a binary mask. */
module Raster {
  import opened Wrappers

  /** The largest 8-bit value; also the `maxval` both detectors pass to `threshold`. */
  const MaxIntensity: int := 255

  predicate IsIntensity(v: int) {
    0 <= v <= MaxIntensity
  }

  predicate AllIntensities(cells: seq<int>) {
    forall i :: 0 <= i < |cells| ==> IsIntensity(cells[i])
  }

  datatype Rgba = Rgba(r: int, g: int, b: int, a: int)

  /** A colour frame read from the camera (`CV_8UC4`): `height` rows of `width` pixels, row-major. */
  datatype Frame = Frame(width: nat, height: nat, pixels: seq<Rgba>)

  predicate FrameFits(f: Frame) {
    |f.pixels| == f.width * f.height
  }

  /** A grayscale raster (`CV_8UC1`), row-major. */
  datatype Gray = Gray(width: nat, height: nat, cells: seq<int>)

  predicate WellFormed(g: Gray) {
    |g.cells| == g.width * g.height && AllIntensities(g.cells)
  }

  /** The size test `absdiff` applies to its two inputs. */
  predicate SameSize(a: Gray, b: Gray) {
    a.width == b.width && a.height == b.height
  }

  /** OpenCV's `saturate_cast<uchar>`. */
  function Saturate(v: int): (b: int)
    ensures IsIntensity(b)
    ensures IsIntensity(v) ==> b == v
    ensures v < 0 ==> b == 0
    ensures v > MaxIntensity ==> b == MaxIntensity
  {
    if v < 0 then 0 else if v > MaxIntensity then MaxIntensity else v
  }

  /** `cvtColor(frame, gray, COLOR_RGBA2GRAY)`: a per-pixel luminance reduction. The weighted
      sum itself is the parameter `luma`; the conversion saturates it into 8 bits. */
  function ToGray(f: Frame, luma: Rgba -> int): (g: Gray)
    ensures g.width == f.width && g.height == f.height
    ensures |g.cells| == |f.pixels|
    ensures FrameFits(f) ==> WellFormed(g)
    ensures forall i :: 0 <= i < |f.pixels| ==> g.cells[i] == Saturate(luma(f.pixels[i]))
  {
    Gray(f.width, f.height, seq(|f.pixels|, i requires 0 <= i < |f.pixels| => Saturate(luma(f.pixels[i]))))
  }

  /** The conversion is per pixel: a pixel's gray value depends on that pixel alone. */
  lemma ToGrayLocal(f1: Frame, f2: Frame, luma: Rgba -> int, i: int)
    requires 0 <= i < |f1.pixels| && 0 <= i < |f2.pixels|
    requires f1.pixels[i] == f2.pixels[i]
    ensures ToGray(f1, luma).cells[i] == ToGray(f2, luma).cells[i]
  {
  }

  /** |a - b| without wrap-around. */
  function Distance(a: int, b: int): (d: nat)
    ensures d == a - b || d == b - a
  {
    if a >= b then a - b else b - a
  }

  /** `absdiff` of two equally sized rasters, cell by cell. */
  function AbsDiff(a: seq<int>, b: seq<int>): (d: seq<int>)
    requires |a| == |b|
    ensures |d| == |a|
    ensures forall i :: 0 <= i < |d| ==> d[i] == Distance(a[i], b[i])
    ensures AllIntensities(a) && AllIntensities(b) ==> AllIntensities(d)
  {
    seq(|a|, i requires 0 <= i < |a| => Distance(a[i], b[i]))
  }

  /** The difference does not depend on the order of its operands. */
  lemma AbsDiffSymmetric(a: seq<int>, b: seq<int>)
    requires |a| == |b|
    ensures AbsDiff(a, b) == AbsDiff(b, a)
  {
  }

  /** A difference cell is zero exactly where the two rasters agree. */
  lemma AbsDiffZeroIff(a: seq<int>, b: seq<int>, i: int)
    requires |a| == |b| && 0 <= i < |a|
    ensures AbsDiff(a, b)[i] == 0 <==> a[i] == b[i]
  {
  }

  /** `threshold(src, dst, thresh, maxval, THRESH_BINARY)`: `maxval` where `src > thresh`
      (strictly), 0 elsewhere. */
  function ThresholdBinary(src: seq<int>, thresh: int, maxval: int): (dst: seq<int>)
    ensures |dst| == |src|
    ensures forall i :: 0 <= i < |dst| ==> dst[i] == (if src[i] > thresh then maxval else 0)
  {
    seq(|src|, i requires 0 <= i < |src| => if src[i] > thresh then maxval else 0)
  }

  /** `countNonZero`. */
  function CountNonZero(s: seq<int>): (n: nat)
    ensures n <= |s|
    ensures n == 0 <==> forall i :: 0 <= i < |s| ==> s[i] == 0
    ensures n == |s| <==> forall i :: 0 <= i < |s| ==> s[i] != 0
  {
    if s == [] then 0
    else
      var init := s[..|s| - 1];
      assert forall i :: 0 <= i < |init| ==> init[i] == s[i];
      CountNonZero(init) + (if s[|s| - 1] != 0 then 1 else 0)
  }

  /** The positions whose difference exceeds the threshold: the reference meaning of
      "changed pixel". */
  function ChangedCells(diff: seq<int>, thresh: int): set<int>
  {
    set i | 0 <= i < |diff| && diff[i] > thresh
  }

  /** The changed positions of a map are those of its prefix, plus the last position if it changed. */
  lemma ChangedCellsSnoc(diff: seq<int>, thresh: int)
    requires diff != []
    ensures var init := diff[..|diff| - 1];
            && |init| !in ChangedCells(init, thresh)
            && ChangedCells(diff, thresh)
               == ChangedCells(init, thresh) + (if diff[|init|] > thresh then {|init|} else {})
  {
    var init := diff[..|diff| - 1];
    assert forall i :: 0 <= i < |init| ==> init[i] == diff[i];
  }

  /** Thresholding and then counting non-zero cells counts exactly the changed positions. */
  lemma {:induction false} CountChangedCells(diff: seq<int>, thresh: int, maxval: int)
    requires maxval != 0
    ensures CountNonZero(ThresholdBinary(diff, thresh, maxval)) == |ChangedCells(diff, thresh)|
  {
    if diff == [] {
      assert ChangedCells(diff, thresh) == {};
    } else {
      var init := diff[..|diff| - 1];
      CountChangedCells(init, thresh, maxval);
      var m := ThresholdBinary(diff, thresh, maxval);
      assert m[..|m| - 1] == ThresholdBinary(init, thresh, maxval);
      ChangedCellsSnoc(diff, thresh);
    }
  }

  /** The number of changed positions, counted the way both detectors count them. */
  function ChangedCount(diff: seq<int>, thresh: int): (n: nat)
    ensures n == |ChangedCells(diff, thresh)|
    ensures n <= |diff|
    ensures n == |diff| <==> forall i :: 0 <= i < |diff| ==> diff[i] > thresh
  {
    var m := ThresholdBinary(diff, thresh, MaxIntensity);
    CountChangedCells(diff, thresh, MaxIntensity);
    CountNonZero(m)
  }

  /** The pixels whose intensity moved by more than `thresh` between two rasters. */
  function ChangedPixels(cur: seq<int>, prev: seq<int>, thresh: int): set<int>
    requires |cur| == |prev|
  {
    set i | 0 <= i < |cur| && Distance(cur[i], prev[i]) > thresh
  }

  /** The reference motion decision: the changed fraction of `total` pixels exceeds the cutoff. */
  predicate MotionBetween(cur: seq<int>, prev: seq<int>, total: nat, thresh: int, cutoff: real)
    requires |cur| == |prev|
  {
    |ChangedPixels(cur, prev, thresh)| as real > cutoff * total as real
  }

  /** One motion sample: changed-pixel count, the pixel total, their ratio and the verdict. */
  datatype Sample = Sample(changed: nat, total: nat, ratio: real, motion: bool)

  /** Threshold a difference map, count it, and apply the strict ratio test
      `nonZero / total > motionPixelRatio`. */
  function Classify(diff: seq<int>, total: nat, diffThreshold: int, motionPixelRatio: real): (s: Sample)
    requires total > 0
    ensures s.total == total
    ensures s.changed == |ChangedCells(diff, diffThreshold)|
    ensures s.ratio * total as real == s.changed as real
    ensures |diff| <= total ==> 0.0 <= s.ratio <= 1.0
    ensures s.motion <==> s.changed as real > motionPixelRatio * total as real
  {
    var changed := ChangedCount(diff, diffThreshold);
    var ratio := changed as real / total as real;
    RatioTest(changed, total, motionPixelRatio);
    RatioBounded(changed, total);
    Sample(changed, total, ratio, ratio > motionPixelRatio)
  }

  /** The division-free form of the ratio test. */
  lemma RatioTest(changed: nat, total: nat, cutoff: real)
    requires total > 0
    ensures changed as real / total as real > cutoff <==> changed as real > cutoff * total as real
    ensures (changed as real / total as real) * total as real == changed as real
  {
  }

  /** A count of at most `total` gives a ratio in [0, 1]. */
  lemma RatioBounded(changed: nat, total: nat)
    requires 0 < total
    ensures changed <= total ==> 0.0 <= changed as real / total as real <= 1.0
  {
  }

  /** A difference map with no cell above the threshold never signals motion
      (for a non-negative cutoff). */
  lemma QuietDiffNoMotion(diff: seq<int>, total: nat, diffThreshold: int, motionPixelRatio: real)
    requires total > 0
    requires forall i :: 0 <= i < |diff| ==> diff[i] <= diffThreshold
    requires motionPixelRatio >= 0.0
    ensures Classify(diff, total, diffThreshold, motionPixelRatio).ratio == 0.0
    ensures !Classify(diff, total, diffThreshold, motionPixelRatio).motion
  {
    assert ChangedCells(diff, diffThreshold) == {};
  }

  /** A difference map with every cell above the threshold has ratio 1, and is motion
      exactly when the cutoff is below 1. */
  lemma BusyDiffFullRatio(diff: seq<int>, diffThreshold: int, motionPixelRatio: real)
    requires |diff| > 0
    requires forall i :: 0 <= i < |diff| ==> diff[i] > diffThreshold
    ensures Classify(diff, |diff|, diffThreshold, motionPixelRatio).ratio == 1.0
    ensures Classify(diff, |diff|, diffThreshold, motionPixelRatio).motion <==> 1.0 > motionPixelRatio
  {
    assert ChangedCount(diff, diffThreshold) == |diff|;
  }

  /** The previous-gray slot a detector keeps between ticks (`prevGrayRef.current`): empty,
      holding a live raster, or still referring to a raster whose memory was already
      released with `delete()`. OpenCV.js raises when a released matrix is used again. */
  datatype Slot = Empty | Held(gray: Gray) | Released(gray: Gray)

  predicate SlotWellFormed(s: Slot) {
    !s.Empty? ==> WellFormed(s.gray)
  }

  /** What comparing the current gray against the slot yields. */
  datatype Comparison =
    | NoPrevious                              // nothing stored yet: no classification
    | Raised                                  // `absdiff` raised: released matrix or size mismatch
    | Compared(sample: Sample, mask: seq<int>)

  /** `absdiff`, `threshold`, `countNonZero` and the ratio test against the stored gray,
      over `total = width * height` pixels. */
  function Compare(cur: Gray, slot: Slot, diffThreshold: int, motionPixelRatio: real): (c: Comparison)
    requires WellFormed(cur) && SlotWellFormed(slot)
    requires cur.width * cur.height > 0
    ensures c.NoPrevious? <==> slot.Empty?
    ensures c.Raised? <==> slot.Released? || (slot.Held? && !SameSize(cur, slot.gray))
    ensures c.Compared? ==> slot.Held? && SameSize(cur, slot.gray)
    ensures c.Compared? ==>
      && c.sample.total == cur.width * cur.height
      && c.sample.changed == |ChangedPixels(cur.cells, slot.gray.cells, diffThreshold)|
      && (c.sample.motion <==> MotionBetween(cur.cells, slot.gray.cells, cur.width * cur.height, diffThreshold, motionPixelRatio))
    ensures c.Compared? ==> |c.mask| == |cur.cells|
    ensures c.Compared? ==> forall i :: 0 <= i < |c.mask| ==>
      c.mask[i] == (if Distance(cur.cells[i], slot.gray.cells[i]) > diffThreshold then MaxIntensity else 0)
  {
    match slot
    case Empty => NoPrevious
    case Released(_) => Raised
    case Held(prev) =>
      if !SameSize(cur, prev) then Raised
      else
        var diff := AbsDiff(cur.cells, prev.cells);
        assert ChangedCells(diff, diffThreshold) == ChangedPixels(cur.cells, prev.cells, diffThreshold);
        Compared(Classify(diff, cur.width * cur.height, diffThreshold, motionPixelRatio),
                 ThresholdBinary(diff, diffThreshold, MaxIntensity))
  }

  /** What one tick of a detector did. */
  datatype Outcome =
    | Skipped                      // returned before reading a frame
    | Primed                       // stored the first gray; nothing to compare against
    | Faulted                      // `absdiff` raised
    | Classified(sample: Sample)

  /** The four bytes of pixel `p` in an RGBA buffer are `(v, v, v, 255)`. */
  predicate PixelIs(data: seq<int>, p: int, v: int) {
    && 0 <= p
    && 4 * p + 3 < |data|
    && data[4 * p] == v
    && data[4 * p + 1] == v
    && data[4 * p + 2] == v
    && data[4 * p + 3] == MaxIntensity
  }

  /** A single-channel mask drawn as opaque gray RGBA pixels: four bytes per mask cell, and
      pixel `p` is `(mask[p], mask[p], mask[p], 255)`. */
  function ExpandToRgba(mask: seq<int>): (data: seq<int>)
    ensures |data| == 4 * |mask|
    ensures forall p :: 0 <= p < |mask| ==> PixelIs(data, p, mask[p])
  {
    var data := seq(4 * |mask|, k requires 0 <= k < 4 * |mask| => if k % 4 == 3 then MaxIntensity else mask[k / 4]);
    assert forall p :: 0 <= p < |mask| ==> PixelIs(data, p, mask[p]) by {
      forall p | 0 <= p < |mask|
        ensures PixelIs(data, p, mask[p])
      {
        assert (4 * p) / 4 == p && (4 * p) % 4 == 0;
        assert (4 * p + 1) / 4 == p && (4 * p + 1) % 4 == 1;
        assert (4 * p + 2) / 4 == p && (4 * p + 2) % 4 == 2;
        assert (4 * p + 3) % 4 == 3;
      }
    }
    data
  }

  /** In the expansion of a `w`-by-`h` mask, the pixel in row `y`, column `x` occupies the
      four bytes from `(y * w + x) * 4`, all inside the `4 * w * h` buffer, and shows that
      pixel's mask value. */
  lemma ExpandRowMajor(mask: seq<int>, w: nat, h: nat, y: nat, x: nat)
    requires |mask| == w * h && y < h && x < w
    ensures var data, idx := ExpandToRgba(mask), (y * w + x) * 4;
            && 0 <= idx && idx + 3 < |data| && idx + 3 < 4 * (w * h)
            && data[idx] == mask[y * w + x]
            && data[idx + 1] == mask[y * w + x]
            && data[idx + 2] == mask[y * w + x]
            && data[idx + 3] == MaxIntensity
  {
    RowMajorBound(w, h, y, x);
    var q := y * w + x;
    assert PixelIs(ExpandToRgba(mask), q, mask[q]);
    assert (y * w + x) * 4 == 4 * q;
  }

  /** Byte `k` of the expansion: 255 in the alpha position, the mask value elsewhere. */
  lemma ExpandByte(mask: seq<int>, k: int)
    requires 0 <= k < 4 * |mask|
    ensures ExpandToRgba(mask)[k] == if k % 4 == 3 then MaxIntensity else mask[k / 4]
  {
  }

  /** Byte `k` of a buffer whose every pixel shows its mask value. */
  lemma PixelByte(data: seq<int>, mask: seq<int>, k: int)
    requires |data| == 4 * |mask| && 0 <= k < |data|
    requires PixelIs(data, k / 4, mask[k / 4])
    ensures data[k] == if k % 4 == 3 then MaxIntensity else mask[k / 4]
  {
    var p, r := k / 4, k % 4;
    assert k == 4 * p + r;
  }

  /** An RGBA buffer of the right length whose every pixel is `(m, m, m, 255)` is the expansion of `mask`. */
  lemma ExpansionDetermined(data: seq<int>, mask: seq<int>)
    requires |data| == 4 * |mask|
    requires forall p :: 0 <= p < |mask| ==> PixelIs(data, p, mask[p])
    ensures data == ExpandToRgba(mask)
  {
    var e := ExpandToRgba(mask);
    forall k | 0 <= k < |data|
      ensures data[k] == e[k]
    {
      ExpandByte(mask, k);
      PixelByte(data, mask, k);
    }
  }

  /** Row-major positions: `(y, x)` in a `w`-by-`h` grid lands inside the grid, and two
      positions share a pixel index only if they are the same position. */
  lemma {:induction false} RowMajorIndex(w: nat, h: nat, y1: nat, x1: nat, y2: nat, x2: nat)
    requires y1 < h && x1 < w && y2 < h && x2 < w
    ensures 0 <= (y1 * w + x1) * 4 && (y1 * w + x1) * 4 + 3 < 4 * (w * h)
    ensures (y1 * w + x1) * 4 == (y2 * w + x2) * 4 ==> y1 == y2 && x1 == x2
  {
    RowMajorBound(w, h, y1, x1);
    if y1 < y2 {
      assert (y1 + 1) * w <= y2 * w by { MulMonotone(y1 + 1, y2, w); }
    } else if y2 < y1 {
      assert (y2 + 1) * w <= y1 * w by { MulMonotone(y2 + 1, y1, w); }
    }
  }

  lemma MulMonotone(a: nat, b: nat, c: nat)
    requires a <= b
    ensures a * c <= b * c
  {
  }

  lemma RowMajorBound(w: nat, h: nat, y: nat, x: nat)
    requires y < h && x < w
    ensures y * w + x < w * h
  {
    assert y * w + x < (y + 1) * w;
    MulMonotone(y + 1, h, w);
  }

  /** Writes `(v, v, v, 255)` at the bytes `4 * p .. 4 * p + 3`, one `imgData.data[idx + k] = ...` each. */
  function SetPixel(data: seq<int>, p: nat, v: int): (r: seq<int>)
    requires 4 * p + 3 < |data|
    ensures |r| == |data|
    ensures PixelIs(r, p, v)
    ensures forall q, u :: 0 <= q < p && PixelIs(data, q, u) ==> PixelIs(r, q, u)
  {
    var idx := p * 4;
    data[idx := v][idx + 1 := v][idx + 2 := v][idx + 3 := MaxIntensity]
  }

  /** The first `n` pixels of `data` show the first `n` mask values. */
  ghost predicate Painted(data: seq<int>, mask: seq<int>, n: int) {
    && |data| == 4 * |mask|
    && n <= |mask|
    && forall p :: 0 <= p < n ==> PixelIs(data, p, mask[p])
  }

  lemma PaintStep(data: seq<int>, mask: seq<int>, n: nat)
    requires Painted(data, mask, n) && n < |mask|
    ensures Painted(SetPixel(data, n, mask[n]), mask, n + 1)
  {
  }

  /** The overlay loop of the older detector: a fresh, all-zero RGBA image of `w` by `h`,
      then for every row `y` and column `x` the four bytes at `(y * w + x) * 4` set to the
      mask value three times and 255. */
  method PaintOverlay(mask: seq<int>, w: nat, h: nat) returns (data: seq<int>)
    requires |mask| == w * h
    ensures data == ExpandToRgba(mask)
  {
    data := seq(4 * (w * h), _ => 0);
    var y, row := 0, 0;
    while y < h
      invariant 0 <= y <= h
      invariant row == y * w
      invariant Painted(data, mask, row)
    {
      var x := 0;
      while x < w
        invariant 0 <= x <= w
        invariant Painted(data, mask, row + x)
      {
        assert row + x < |mask| by { RowMajorBound(w, h, y, x); }
        PaintStep(data, mask, row + x);
        data := SetPixel(data, row + x, mask[row + x]);
        x := x + 1;
      }
      y, row := y + 1, row + w;
      assert row == y * w;
    }
    assert row == |mask| by { assert y == h; }
    ExpansionDetermined(data, mask);
  }
}
