/** Application constants: sensitivity defaults and ranges, the Telegram debounce default,
    the caption prefix and the camera error messages. */
module Config {

  const MOTION_ACTIVE_DURATION_MS: int := 10000

  const DEFAULT_DIFF_THRESHOLD: int := 25
  const DEFAULT_MOTION_PIXEL_RATIO: real := 0.01
  const DEFAULT_INTERVAL_MS: int := 200

  const DEFAULT_DEBOUNCE_TIME_MS: int := 5000

  const MOTION_DETECTED_MESSAGE_PREFIX: string := "Movement detected at"

  const STATUS_COMMAND: string := "status"
  const STATUS_RESPONSE_PREFIX: string := "System status: All systems operational \U{1F680}"
  const STATUS_TIMESTAMP_PREFIX: string := "Captured at"

  const CAMERA_PERMISSION_ERROR: string := "Camera permission denied. Please allow camera access."
  const NO_CAMERAS_FOUND_ERROR: string := "No cameras found."
  const FAILED_TO_ACCESS_CAMERAS_ERROR: string := "Failed to access cameras."

  /** The keyboard shortcuts: add a camera, toggle the theme, toggle the camera list. */
  const ADD_CAMERA_KEY: char := 'a'
  const TOGGLE_THEME_KEY: char := 't'
  const TOGGLE_CAMERAS_KEY: char := 'h'

  /** An inclusive `{ MIN, MAX }` range. */
  datatype IntRange = IntRange(min: int, max: int) {
    predicate Contains(v: int) { min <= v <= max }
  }

  datatype RealRange = RealRange(min: real, max: real) {
    predicate Contains(v: real) { min <= v <= max }
  }

  /** `MOTION_SENSITIVITY_RANGES`. */
  const DIFF_THRESHOLD_RANGE: IntRange := IntRange(1, 100)
  const PIXEL_RATIO_RANGE: RealRange := RealRange(0.001, 0.1)
  const INTERVAL_RANGE: IntRange := IntRange(50, 1000)

  /** The sensitivity settings a user is offered: each value inside its range. */
  datatype Sensitivity = Sensitivity(diffThreshold: int, motionPixelRatio: real, intervalMs: int)

  predicate ValidSensitivity(s: Sensitivity) {
    && DIFF_THRESHOLD_RANGE.Contains(s.diffThreshold)
    && PIXEL_RATIO_RANGE.Contains(s.motionPixelRatio)
    && INTERVAL_RANGE.Contains(s.intervalMs)
  }

  function DefaultSensitivity(): (s: Sensitivity)
    ensures ValidSensitivity(s)
    ensures s.intervalMs > 0 && 0.0 < s.motionPixelRatio < 1.0
  {
    Sensitivity(DEFAULT_DIFF_THRESHOLD, DEFAULT_MOTION_PIXEL_RATIO, DEFAULT_INTERVAL_MS)
  }

  /** Every range is non-empty with positive bounds. */
  lemma RangesWellFormed()
    ensures 0 < DIFF_THRESHOLD_RANGE.min <= DIFF_THRESHOLD_RANGE.max
    ensures 0.0 < PIXEL_RATIO_RANGE.min <= PIXEL_RATIO_RANGE.max
    ensures 0 < INTERVAL_RANGE.min <= INTERVAL_RANGE.max
  {
  }

  /** Valid settings always give a positive tick interval, a positive threshold, and a
      pixel-ratio cutoff strictly between 0 and 1, so a fully changed frame is always motion. */
  lemma ValidSensitivityBounds(s: Sensitivity)
    requires ValidSensitivity(s)
    ensures s.intervalMs > 0 && s.diffThreshold > 0
    ensures 0.0 < s.motionPixelRatio < 1.0
  {
  }
}
