# Vigilo motion core in Dafny

Vigilo watches browser cameras. On every interval tick it turns the camera frame into a
grayscale raster and compares it with the raster stored on the previous tick. The comparison
is OpenCV's `absdiff`, then a binary `threshold`, then `countNonZero`. The tick reports motion
when the changed fraction of the pixels is strictly above `motionPixelRatio`. A report can
become a Telegram photo message, but a single throttle flag lets at most one message through
per debounce window.

This project models that core as pure Dafny functions over immutable values and proves
properties about them:

- `raster.dfy` (module `Raster`) covers the OpenCV steps both detectors share:
  - grayscale conversion, with saturation into 0..255
  - `absdiff`, `THRESH_BINARY` and `countNonZero`
  - the strict ratio test, with exact reals
  - the comparison against the stored raster, including the cases where `absdiff` raises
  - the RGBA overlay expansion and the nested loop that paints it
- `snapshot_detector.dfy` (module `SnapshotDetector`) is the current detector,
  `src/components/Motion.tsx`:
  - the previous gray is swapped out of the slot *before* the comparison
  - a motion tick hands `onMotion` a timestamp and a JPEG data URL
- `overlay_detector.dfy` (module `OverlayDetector`) is the older detector,
  `src/comps/Motion.tsx`:
  - zero-area frames are skipped
  - the previous gray is replaced *after* the comparison
  - `onMotion` gets a timestamp only, and the threshold mask is painted on an overlay
- `telegram.dfy` (module `Telegram`) covers `useTelegram`:
  - the throttle gate, on an explicit clock
  - replays of many calls against one gate
  - the `sendPhoto` request and its form fields
  - one step of the chat-id poll
- `data_url.dfy` (module `DataUrl`) is `dataUrlToBlob`: the payload field, the MIME type,
  and the char-code copy loop.
- `cameras.dfy` (module `Cameras`) is `useCamera`: the outcomes of `requestCameraAccess`,
  the `videoinput` filter, `addCamera` and `clearAvailableDevices`.
- `toasts.dfy` (module `Toasts`) is `useNotifications`: id allocation, append, and
  removal by id.
- `config.dfy` (module `Config`) is `constants.ts`: the defaults, the sensitivity ranges and
  the messages.
- `seqs.dfy` (module `Seqs`) holds the JavaScript library behaviour the hooks rely on:
  - `Array.prototype.filter`
  - `String.prototype.split` with a one-character separator
  - `Number.prototype.toString` for integers
- `wrappers.dfy` (module `Wrappers`) holds `Option` and `Result`.

Several things outside the code become inputs:

- The grayscale weights of `COLOR_RGBA2GRAY` are a function parameter `luma`.
- `canvas.toDataURL` and `atob` are also function parameters.
- Browser and network calls are represented by their outcomes.
- Time is an integer clock in milliseconds.

OpenCV.js throws in three places the model cares about:

- `VideoCapture.read` throws when the frame matrix is not the size of the video element.
- `absdiff` throws when it is given a deleted matrix or two matrices of different sizes.
- `delete()` throws on a matrix that was already deleted.

The model represents a throw in a tick as a `Faulted` tick, and a throw in an effect cleanup
as a flag. It does not exclude these cases by precondition.

How the code behaves in the less obvious cases:

- Both detectors copy the camera's resolution onto the video element once, when the
  metadata arrives. Each tick allocates its frame at the camera's current resolution, so
  after a resolution change `cap.read` raises on every tick. This lasts until the resolution
  returns, since nothing in the effect run reads the metadata again:
  `SnapshotDetector.ResizedRunIsStuck` and `OverlayDetector.StuckRun`.
- A zero-area frame:
  - The older detector silently skips the tick.
  - The current detector has no guard at all (see Left out).
- Each detector component declares its own default props (30, 0.02, 200). These are not the
  application defaults in `constants.ts` (25, 0.01, 200). All three sets lie inside the
  sensitivity ranges: `SnapshotDetector.DefaultProps`, `OverlayDetector.DefaultProps` and
  `Config.DefaultSensitivity`.
- `setTimeout` converts the debounce to a 32-bit integer before it clamps negative delays
  to 0. A debounce typed in at 2^31 ms or more therefore wraps, and for 2^31 exactly it does
  not throttle at all: `Telegram.OversizedDebounceWraps`.

## Model

| member | source | states |
|---|---|---|
| Raster.Saturate | src/components/Motion.tsx:62-63 | A converted value always lies in 0..255. Values already in range are kept, and out-of-range values clamp to the nearer bound. |
| Raster.ToGray | src/components/Motion.tsx:62-63 | The gray raster has the frame's geometry, one cell per pixel. It is well formed when the frame's pixels fill its geometry. Each cell is the saturated luminance of its own pixel. |
| Raster.ToGrayLocal | src/comps/Motion.tsx:73 | A gray cell depends only on the pixel at the same position. |
| Raster.AbsDiff | src/components/Motion.tsx:69-70 | The difference has one cell per input cell. Each cell is the absolute difference of the two inputs, with no wrap-around. For 8-bit inputs the result stays in 0..255. |
| Raster.AbsDiffSymmetric | src/components/Motion.tsx:70 | The difference does not depend on operand order, so which raster is passed first is irrelevant. |
| Raster.AbsDiffZeroIff | src/comps/Motion.tsx:77 | A difference cell is zero exactly where the two rasters agree. |
| Raster.ThresholdBinary | src/components/Motion.tsx:72-73 | A cell strictly above the threshold becomes `maxval`. Any other cell becomes 0. The length is kept. |
| Raster.CountNonZero | src/components/Motion.tsx:75 | The count is at most the length. It is 0 exactly when every cell is zero, and it equals the length exactly when no cell is zero. |
| Raster.CountChangedCells | src/components/Motion.tsx:72-75 | Thresholding and then counting gives exactly the number of positions whose difference is strictly above the threshold. |
| Raster.ChangedCount | src/components/Motion.tsx:72-75 | The counted cells are exactly the changed positions. The count never exceeds the map's size, and it equals the size iff every cell is above the threshold. |
| Raster.Classify | src/components/Motion.tsx:75-79 | The changed count is the number of changed positions. The ratio times the total equals that count, and the ratio lies in [0, 1]. Motion holds iff the count is strictly above `motionPixelRatio` times the total. |
| Raster.RatioTest | src/comps/Motion.tsx:84-86 | `changed / total > cutoff` holds iff `changed > cutoff * total`, so a ratio equal to the cutoff is not motion. |
| Raster.QuietDiffNoMotion | src/components/Motion.tsx:73-79 | If no difference cell exceeds the threshold, the ratio is 0 and there is no motion for any non-negative cutoff. |
| Raster.BusyDiffFullRatio | src/components/Motion.tsx:73-79 | If every difference cell exceeds the threshold, the ratio is 1, and there is motion iff 1 > `motionPixelRatio`. |
| Raster.Compare | src/comps/Motion.tsx:75-86 | With an empty slot there is no comparison. `absdiff` raises exactly when the stored matrix was released or its size differs. Otherwise the sample counts the changed pixels against the reference definition, and each mask cell is 255 iff its pixel changed. |
| Raster.ExpandToRgba | src/comps/Motion.tsx:95-104 | The overlay buffer has four bytes per mask cell. Every pixel `p` holds `(v, v, v, 255)`, where `v` is the mask value at `p`. |
| Raster.ExpandRowMajor | src/comps/Motion.tsx:97-105 | For row `y` and column `x`, the bytes at `(y*w+x)*4` through `(y*w+x)*4+3` are `(v, v, v, 255)`, where `v` is the mask cell at that row and column. |
| Raster.RowMajorIndex | src/comps/Motion.tsx:100 | The overlay index of every `(y, x)` lies in [0, 4·w·h). Distinct positions get distinct indices. |
| Raster.ExpansionDetermined | src/comps/Motion.tsx:95-105 | Any buffer of length `4 * |mask|` whose every pixel is `(v, v, v, 255)` is the overlay expansion. |
| Raster.PaintOverlay | src/comps/Motion.tsx:95-106 | The nested `y`/`x` loop over a fresh zero buffer produces exactly the overlay expansion of the mask. |
| Config.DefaultSensitivity | src/lib/constants.ts:5-7 | The default threshold, ratio and interval lie inside their ranges. The interval is positive and the ratio lies in (0, 1). |
| Config.RangesWellFormed | src/lib/constants.ts:35-39 | Every sensitivity range has MIN ≤ MAX, with a positive lower bound. |
| Config.ValidSensitivityBounds | src/lib/constants.ts:35-39 | In-range settings give a positive interval, a positive threshold and a ratio in (0, 1). |
| SnapshotDetector.DefaultProps | src/components/Motion.tsx:15-17 | The component defaults lie inside the sensitivity ranges, yet differ from the application defaults. |
| SnapshotDetector.OnMetadata | src/components/Motion.tsx:47-52 | The loop starts streaming at the resolution the metadata reports. The stored gray survives: the ref is not reset. |
| SnapshotDetector.CleanupAsWritten | src/components/Motion.tsx:99-108 | Streaming stops and the resolution is kept. A stored gray is released but stays referenced. The cleanup raises exactly when the slot was already released by an earlier cleanup. |
| SnapshotDetector.Cleanup | src/components/Motion.tsx:105-107 | The corrected cleanup stops streaming and leaves the slot empty, so nothing can be released twice. |
| SnapshotDetector.SecondCleanupRaises | src/components/Motion.tsx:105-107 | Two effect re-runs with no metadata in between: as written, the first cleanup does not raise and the second does. The corrected cleanup repeated is the same as once. |
| SnapshotDetector.Tick | src/components/Motion.tsx:56-97 | A tick before metadata or after cleanup does nothing. A frame whose size differs from the metadata resolution faults with nothing changed, because `cap.read` raises before the swap. Otherwise the slot ends holding exactly the current gray, and with nothing stored the tick only primes and never calls back. It faults exactly on a size change, a released previous gray, or a differently sized one. `onMotion` is called iff the frame was read, the canvas exists and the reference motion test holds. It receives the tick's time and the frame's data URL. |
| SnapshotDetector.Run | src/components/Motion.tsx:56-97 | A run of ticks keeps the loop well formed, streaming and at the same resolution. It makes at most one `onMotion` call per tick. |
| SnapshotDetector.RunKeepsLastGray | src/components/Motion.tsx:59-66 | After any non-empty run at the metadata resolution, the slot holds the gray of the last tick and no older one. |
| SnapshotDetector.ResizedRunIsStuck | src/components/Motion.tsx:47-60 | While the camera's resolution differs from the one read at metadata, every tick raises in `cap.read`. The slot never changes and no motion is reported. |
| SnapshotDetector.StoppedRunIsInert | src/components/Motion.tsx:57 | A loop that is not streaming ignores every tick: no callback, and the slot is unchanged. |
| SnapshotDetector.RunCallbackTimes | src/components/Motion.tsx:83-88 | Every `onMotion` call of a run carries the timestamp of one of its ticks. |
| SnapshotDetector.RestartFaultsFirstTick | src/components/Motion.tsx:99-108 | As written, after a prop change the first tick raises in `absdiff` on the released gray and reports nothing. The next tick compares normally again. |
| SnapshotDetector.RestartAfterCleanupResumes | src/components/Motion.tsx:105-107 | When cleanup also clears the ref, the first tick after a restart only primes. The second tick reports motion iff the reference test holds. |
| SnapshotDetector.ReleasedSlotReportsTheSame | src/components/Motion.tsx:65-94 | A running loop with a released gray and the same loop with an empty slot make the same `onMotion` calls over any run. |
| SnapshotDetector.RestartCallbacksAgree | src/components/Motion.tsx:99-108 | After a restart, the cleanup as written and the corrected cleanup make exactly the same `onMotion` calls. The stale ref costs a raise, not a report. |
| OverlayDetector.DefaultProps | src/comps/Motion.tsx:14-16 | The component defaults lie inside the sensitivity ranges, yet differ from the application defaults. |
| OverlayDetector.OnMetadata | src/comps/Motion.tsx:46-58 | The loop starts streaming at the resolution the metadata reports. The stored gray survives: the ref is not reset. |
| OverlayDetector.CleanupAsWritten | src/comps/Motion.tsx:135-149 | Streaming stops and the resolution is kept. A stored gray is released but stays referenced. The cleanup raises exactly when the slot was already released by an earlier cleanup. |
| OverlayDetector.Cleanup | src/comps/Motion.tsx:146-148 | The corrected cleanup stops streaming and leaves the slot empty, so nothing can be released twice. |
| OverlayDetector.SecondCleanupRaises | src/comps/Motion.tsx:146-148 | Two effect re-runs with no metadata in between: as written, the first cleanup does not raise and the second does. The corrected cleanup repeated is the same as once. |
| OverlayDetector.Tick | src/comps/Motion.tsx:60-122 | A tick on a stopped loop or a zero-width or zero-height frame is skipped and changes nothing. A frame whose size differs from the metadata resolution faults with nothing changed. With nothing stored, the tick stores the copy and reports nothing. A raising `absdiff` leaves the slot as it was. The tick is classified exactly when a non-empty frame of the metadata size meets a stored gray of the same size, and the slot then holds the current gray. `onMotion(now)` is called iff the frame was read and the reference motion test holds. The overlay exists iff a comparison happened and the canvas exists, and every pixel shows its mask value. |
| OverlayDetector.Run | src/comps/Motion.tsx:60-126 | A run of ticks keeps the loop well formed, streaming and at the same resolution. It reports motion at most once per tick. |
| OverlayDetector.StuckRun | src/comps/Motion.tsx:63-118 | Once `cap.read` or `absdiff` raises, the slot is never replaced. While frames stay incomparable (changed resolution, or a released or differently sized gray), every tick raises again and no motion is reported. |
| OverlayDetector.DeadAfterCleanupAsWritten | src/comps/Motion.tsx:135-149 | As written, a re-run of the effect while a gray is stored leaves a detector that never reports motion again, whatever frames arrive. |
| OverlayDetector.RestartAfterCleanupResumes | src/comps/Motion.tsx:146-148 | When cleanup also clears the ref, the first non-empty frame after a restart is stored. The next frame of the same size is classified, and motion is reported iff the reference test holds. |
| DataUrl.ToUint8 | src/lib/utils.ts:16 | A store into a `Uint8Array` keeps the value modulo 256. Values already in 0..255 are kept. |
| DataUrl.CharCodes | src/lib/utils.ts:13-17 | The byte array has the decoded string's length. Byte `i` is character `i`'s code as stored into a `Uint8Array`. |
| DataUrl.CopyCharCodes | src/lib/utils.ts:13-17 | The copy loop over a zero-filled array produces exactly those bytes. |
| DataUrl.CharCodesLossless | src/lib/utils.ts:15-17 | For a binary string, as returned by `atob`, reading the bytes back as characters gives the string itself. |
| DataUrl.ToBlob | src/lib/utils.ts:11-20 | A blob results iff there is a second comma field, `atob` accepts it, and the header has a ':'. The record's type is the `type` argument passed to the `Blob` constructor, which is the extracted MIME string. Its bytes are the decoded payload's char codes. The payload error occurs exactly when the URL has no comma. |
| DataUrl.Payload | src/lib/utils.ts:12 | The payload exists exactly when the URL has a comma, and it contains no comma. |
| DataUrl.MimeType | src/lib/utils.ts:18 | Extraction succeeds exactly when the header before the first comma has a ':'. The result contains no ':', ';' or ','. |
| DataUrl.PayloadIsSecondField | src/lib/utils.ts:12 | The payload is the text between the first comma and the next comma, or the end. |
| DataUrl.MimeTypeOfHeader | src/lib/utils.ts:18 | The MIME type is the header text after its first ':', up to the next ';' or ':'. |
| DataUrl.MimeTypeToEnd | src/lib/utils.ts:18 | When no ';' or second ':' follows the first ':', the MIME type is the whole rest of the header: `data:text/plain,abc` gives `text/plain`. |
| DataUrl.NoColonFails | src/lib/utils.ts:18 | A header without ':' fails, however good the payload is. |
| DataUrl.CanvasDataUrl | src/lib/utils.ts:11-20 | `data:<mime>;base64,<payload>` yields a blob whose type is `<mime>` and whose bytes are the decoded payload. |
| Seqs.Filter | src/hooks/useCamera.ts:41-43 | The result is never longer than the input. An element is in the result iff it is in the input and passes the test, and every kept element passes. |
| Seqs.FilterOrdered | src/hooks/useNotifications.ts:25 | Filtering keeps the survivors in their original relative order. |
| Seqs.Split | src/lib/utils.ts:18 | `split` yields at least one field, and no field contains the separator. |
| Seqs.SplitSeveralIff | src/lib/utils.ts:12 | `split` yields a second field exactly when the separator occurs. |
| Seqs.SplitFieldChars | src/lib/utils.ts:18 | Every field is made of characters of the split string. |
| Seqs.JoinSplit | src/lib/utils.ts:18 | Joining the fields with the separator gives back the original string. |
| Seqs.Field | src/lib/utils.ts:12 | Field `k` exists iff `k` is below the number of fields, and it contains no separator. |
| Seqs.ParseNatToString | src/hooks/useTelegram.ts:40 | The decimal text of a non-negative number reads back as that number. |
| Seqs.IntToString | src/hooks/useTelegram.ts:40 | The text is non-empty and starts with '-' iff the number is negative. |
| Telegram.InitialDebounceIsDefault | src/hooks/useTelegram.ts:7 | The hook's initial debounce equals `DEFAULT_DEBOUNCE_TIME_MS` and is non-negative. |
| Telegram.ToInt32 | src/hooks/useTelegram.ts:77-79 | The 32-bit conversion lands in [-2^31, 2^31), is congruent to its input modulo 2^32, and keeps inputs already in range. |
| Telegram.TimerDelay | src/hooks/useTelegram.ts:77-79 | The delay is below 2^31. It equals the debounce for debounces in [0, 2^31) and is 0 for negative ones in range. Otherwise it is 0 or congruent to the debounce modulo 2^32. |
| Telegram.OversizedDebounceWraps | src/hooks/useTelegram.ts:77-79 | A debounce of 2^31 gives delay 0, 2^32 + 5000 gives 5000, and 2^31 - 1 is kept. |
| Telegram.Admit | src/hooks/useTelegram.ts:69-79 | A throttled call is suppressed and leaves the gate unchanged, so it does not extend the window. A disabled call, or one with an empty token or chat id, is refused and leaves the gate unchanged. A call is admitted iff it is neither. From then until `now + debounce` (the debounce at admission) the gate is throttled, and after that it is open. |
| Telegram.Replay | src/hooks/useTelegram.ts:65-79 | A replay admits at most one send per call. With no send the gate is unchanged. Otherwise the final gate is the cooldown of the last send. |
| Telegram.SendsAfterCooldown | src/hooks/useTelegram.ts:65-79 | In a chronological replay, no call is admitted before a pending cooldown ends or before the first call. |
| Telegram.SendsSpaced | src/hooks/useTelegram.ts:65-79 | Any two consecutive admitted sends are at least the earlier one's timer delay apart (its debounce, for debounces in [0, 2^31)), whatever the call rate and whatever debounce changes happen in between. |
| Telegram.TwoReportsOneSend | src/hooks/useTelegram.ts:69-79 | With a 5000 ms debounce, two reports 300 ms apart send only the first. |
| Telegram.SteadyReportsPaced | src/hooks/useTelegram.ts:69-79 | With a 1000 ms debounce, reports every 500 ms from 0 to 2000 send at 0, 1000 and 2000 only. |
| Telegram.Caption | src/hooks/useTelegram.ts:81 | The caption begins with `MOTION_DETECTED_MESSAGE_PREFIX` and a space. The formatted time is exactly the rest. |
| Telegram.SendPhotoUrl | src/hooks/useTelegram.ts:82 | The URL is the Bot API prefix, then the token, then `/sendPhoto`. The token can be cut back out. |
| Telegram.SendPhotoUrlInjective | src/hooks/useTelegram.ts:82 | Different tokens give different endpoints. |
| Telegram.SendTelegramMessage | src/hooks/useTelegram.ts:67-97 | A request exists iff the call is admitted. It goes to `sendPhoto` with the configured token, a non-empty `chat_id`, the photo named "motion.jpg", the caption, and the blob decoded from the frame. A decode failure still starts the cooldown. |
| Telegram.StartPoll | src/hooks/useTelegram.ts:29-31 | A poll starts iff there is a token and no poll is running. It starts with offset 0. |
| Telegram.PollStep | src/hooks/useTelegram.ts:38-49 | A step retries, with nothing changed, exactly on an ok-less or empty batch. An ok, non-empty batch finds a chat id exactly when its LAST update carries a chat; the chat id is then that update's, the offset its `update_id + 1`, and polling stops. A failing request, or a last update without a message, stops the poll and changes nothing else. |
| Telegram.FoundChatIdReadsBack | src/hooks/useTelegram.ts:40 | A stored non-negative chat id reads back as the id from the update. |
| Telegram.PollUntilDone | src/hooks/useTelegram.ts:31-49 | A session is still waiting exactly when every reply so far was a retry. Its state, including offset 0, is then unchanged, so every request asks for offset 0. A session that ended is no longer polling, and a found chat id is non-empty. |
| Telegram.FoundChatIdOpensGate | src/hooks/useTelegram.ts:72-76 | Once a chat id is found, an enabled sender with a token is admitted at an open gate. |
| Cameras.VideoInputs | src/hooks/useCamera.ts:40-43 | Exactly the devices of kind "videoinput" are kept. The list is empty iff no device has that kind. |
| Cameras.VideoInputsKeepsOrder | src/hooks/useCamera.ts:41-47 | The cameras keep the order the enumeration gave them. |
| Cameras.BeginRequest | src/hooks/useCamera.ts:23-24 | A request starts loading and clears the error. The list is untouched. |
| Cameras.RequestCameraAccess | src/hooks/useCamera.ts:22-53 | Loading ends false in every outcome. A refused permission sets `CAMERA_PERMISSION_ERROR` and keeps the list. An enumeration sets the list to its video inputs, even an empty list, with `NO_CAMERAS_FOUND_ERROR` exactly when there are none. A failed enumeration sets `FAILED_TO_ACCESS_CAMERAS_ERROR` and keeps the list. |
| Cameras.AddCamera | src/hooks/useCamera.ts:55-58 | A device stays iff it was listed and has a different id. |
| Cameras.ClearAvailableDevices | src/hooks/useCamera.ts:60-62 | The list empties and the loading and error fields are unchanged. |
| Cameras.AddCameraUnlistedIff | src/hooks/useCamera.ts:57 | Adding a camera leaves the list unchanged iff no listed device has that id. |
| Cameras.AddCameraIdempotent | src/hooks/useCamera.ts:57 | Adding the same camera twice is the same as adding it once. |
| Cameras.AddCameraOrderIrrelevant | src/hooks/useCamera.ts:57 | The list left after adding two cameras does not depend on which was added first. |
| Cameras.AddCameraKeepsOrder | src/hooks/useCamera.ts:57 | The devices left keep their relative order. |
| Cameras.RequestAgainRelistsAdded | src/hooks/useCamera.ts:40-58 | A camera taken off the list comes back on the next successful request, because the hook does not remember which cameras are in use. |
| Toasts.Add | src/hooks/useNotifications.ts:21-23 | The new id is the counter plus one. The entry is appended after the unchanged existing entries. The type defaults to info. Validity is kept, and the new id differs from every listed id. |
| Toasts.Expire | src/hooks/useNotifications.ts:24-26 | The entry with the id leaves the list and every other entry stays. The counter is unchanged. |
| Toasts.ExpirePreservesValid | src/hooks/useNotifications.ts:25 | After a removal, ids are still issued, unique and in issue order. |
| Toasts.AddThenExpire | src/hooks/useNotifications.ts:22-25 | A notification's own timer removes exactly it, so the list returns to what it was before the add. |
| Toasts.ExpireIdempotent | src/hooks/useNotifications.ts:25 | Removing an id twice is the same as removing it once. |
| Toasts.ExpireAbsentIff | src/hooks/useNotifications.ts:25 | Removing an id leaves the state unchanged iff no entry has that id. |
| Toasts.ExpireOrderIrrelevant | src/hooks/useNotifications.ts:24-26 | Two timers may fire in either order with the same result. |
| Toasts.Run | src/hooks/useNotifications.ts:19-26 | Over any sequence of adds and timer firings, the counter grows by exactly the number of adds and is never reused. |
| Toasts.RunPreservesValid | src/hooks/useNotifications.ts:19-26 | Any sequence of adds and timer firings keeps ids unique and increasing. |

## Left out

- SnapshotDetector.Tick: requires a running tick's frame to be non-empty when it has the metadata size, which only excludes a metadata size of zero area (w×0, 0×h or 0×0). With such a size `cap.read` itself fails inside `getImageData` (an `IndexSizeError`), and OpenCV's video capture beyond its size check is not modelled. A frame of any other size, empty or not, is a faulted tick.
- OverlayDetector.Tick, SnapshotDetector.Tick: the frame is assumed to fill its geometry, as a frame read into a matrix of that size does. Frame acquisition itself is not modelled.
- Telegram.TimerDelay: a debounce that is not a number is not represented, because the settings field is an integer. An emptied input gives `NaN` through `parseInt`, and `setTimeout` treats that as 0.
- SnapshotDetector.CleanupAsWritten, OverlayDetector.CleanupAsWritten: the raise is a flag. What Preact does with an error thrown from an effect cleanup is not modelled.
- DataUrl.CharCodes: a Dafny `char` is a Unicode scalar value and `charCodeAt` reads a UTF-16 code unit. The two agree only on binary strings. The `atob` parameter is not constrained to return one, and only `CanvasDataUrl` requires it.
- DataUrl.ToBlob: the record keeps the `type` argument as given. The `Blob` constructor's own normalisation, lowercasing and emptying a type with characters outside U+0020 to U+007E, is not modelled.
- The `loadedmetadata` listeners are never removed (src/components/Motion.tsx:54, src/comps/Motion.tsx:129). When a re-run's stream delivers its metadata, every earlier run's handler fires too. In the current detector that only revives an earlier run's flag and capture, whose interval was already cleared. In the older detector each stale handler starts another interval with its run's old props and `onMotion`; `timerRef` keeps only the newest id, so those intervals are never cleared and they share the stored gray with the live loop. The model has one loop per effect run, so these extra loops are not modelled, and the corrected cleanup does not remove them either.
- Seqs.IntToString: states only non-emptiness and the sign. The read-back is proved for non-negative ids only (`Seqs.ParseNatToString`), not for the negative ids of group chats.
- OpenCV internals:
  - the `COLOR_RGBA2GRAY` weights, which are a parameter
  - `VideoCapture.read`, `imshow`
  - matrix allocation and the leaks when a tick raises before its `delete()` calls
- Floating point: ratios are exact reals, so rounding at the exact cutoff is not captured.
- Timers and scheduling:
  - `setInterval` ticks are the elements of a sequence.
  - `setTimeout` releases are a clock comparison.
  - The one-second poll retry, the notification timeout and any concurrency between effect runs, camera instances or awaits are not modelled.
- Media and network I/O, which become outcomes given as inputs:
  - `getUserMedia`, `enumerateDevices` and track stopping
  - the `getMe`, `getUpdates` and `sendPhoto` fetches and their response logging
  - `window.open`
- `getBotUsername` and `handleStartChat` in `src/hooks/useTelegram.ts`: only network calls and a window opening, so they are left out.
- Encoding: `atob` and `canvas.toDataURL` are opaque parameters. `FormData` and `Blob` objects are records.
- Date formatting: `toLocaleTimeString` text is an input, and `new Date()` is the integer clock.
- `NOTIFICATION_TIMEOUT_MS` and `NOTIFICATION_TYPES`, which `src/hooks/useNotifications.ts` imports, do not exist in `src/lib/constants.ts`. Their values are not part of this model. The two types are an enumeration, with info as the default.
- `KEYBOARD_SHORTCUTS` and the `STATUS_*` strings are recorded as constants only; no code in the modelled core uses them.
- `cn` in `src/lib/utils.ts` wraps class-name libraries, and it is left out.
- The OpenCV loader, theming, UI components, camera-list wiring, app wiring, service worker and build configuration are not part of this model.

## Findings

| source | as written | input that shows it | evidently intended | confidence | as-written member | corrected member |
|---|---|---|---|---|---|---|
| src/components/Motion.tsx:105-107 | Cleanup deletes the stored gray matrix, but `prevGrayRef` keeps pointing at it. The ref outlives the effect run. | While a gray is stored, change `diffThreshold` (any effect dependency). The first tick of the new run passes the deleted matrix to `absdiff`, which raises, and that tick's `diff` and `frame` matrices are never deleted. Change a dependency twice before new metadata arrives (the `onMotion` callback changes whenever the bot token is edited): the second cleanup deletes the matrix again and raises. No motion report is lost: the `onMotion` calls are the same as with the ref cleared (`SnapshotDetector.RestartCallbacksAgree`). | Clear the ref after deleting, so the next run starts with a fresh first tick and a later cleanup has nothing to delete. | not executed; medium (relies on OpenCV.js raising on a deleted matrix) | SnapshotDetector.RestartFaultsFirstTick | SnapshotDetector.RestartAfterCleanupResumes |
| src/comps/Motion.tsx:146-148 | The same stale ref, and this detector replaces the slot only after a successful comparison. A second cleanup before new metadata deletes the matrix again and raises. | While a gray is stored, change `diffThreshold`. Every tick after the restart raises in `absdiff` before the replacement at lines 115-118, so the detector never reports motion again. Clearing the ref does not stop the stale intervals that the unremoved metadata listener starts (see Left out). | Clear the ref after deleting, so the next run primes on its first frame. | not executed; medium (relies on OpenCV.js raising on a deleted matrix) | OverlayDetector.DeadAfterCleanupAsWritten | OverlayDetector.RestartAfterCleanupResumes |
