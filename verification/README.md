# DepthPose recorder, modelled in Dafny

DepthPose is an iOS app. It records a LiDAR-equipped device's ARKit stream: per
frame, a colour image, a depth map, a confidence map and the camera's pose and
intrinsics. This project models the app's recording core, the
`ARViewContainer.Coordinator` and the two buttons of `ContentView` in
`DepthPose/ContentView.swift`, and proves properties of that model.

- `Recording` holds the state shared by the coordinator and the view:
  `recordState`, `recordFrames`, `showImage`, `showInfo`, `folderName`,
  `frameNum` and `saveDict`. It also holds `session(_:didUpdate:)`, split into
  a frame arriving while recording (`RecordFrame`) and while idle
  (`IdleFrame`), and the play/stop and cap buttons.
- `RecordingRuns` applies sequences of events. It proves the invariant every
  event keeps and what runs of frames do to a session:
  - uncapped growth;
  - the 1000-frame cap's countdown;
  - the manifest written after stopping.
- `Matrix` holds `arrayFromTransform`, `arrayFromIntrinsics` and
  `arrayFromAngles`: the row-major arrays stored in the manifest.
- `DepthGrid` holds the `DepthData` grid: fill with -1, `set` and `get`.
- `GridText` holds `getStringFrom2DimArray`, which renders a grid as
  space-separated rows ended by newlines. It also has a reader for that text.
- `SessionName` and `Decimal` hold `getCurrentTime`: the folder name
  `yyyyMMdd-HHmmss`, built from `String(Int)` and `String(format: "%02d")`.

The model rests on three choices:

- **Sequential dispatch.** The block a recording frame sends to
  `DispatchQueue.global(...).async` is taken to run to completion right after
  its callback and before any other event.
- **The platform as a parameter.** An `Env` value carries the platform's
  answers: the calendar components of "now", whether the device supports scene
  depth, and whether the JSON write succeeded.
- **Floats as a type parameter.** Float values are an opaque type parameter `T`.
  The radians-to-degrees conversion is a function parameter. The one exception
  is `DepthGrid.Init`, whose cells are `real` so that they can hold -1.

## Model

| member | source | states |
|---|---|---|
| Recording.RecordFrame | DepthPose/ContentView.swift:99-183 | A recording frame names an unnamed session from the clock and keeps an existing name. It adds exactly its timestamp as a key, with that frame's record, and leaves other entries alone. It counts the frame. It stops recording, disarms the cap and shows "play.fill" exactly when an armed cap equals the new count; otherwise those three are unchanged. The status is the frame statistics. It writes three distinct image files in the session folder. |
| Recording.Insert | DepthPose/ContentView.swift:161-165 | Assigning a dictionary key adds that key (or overwrites it) with the new value, and every other key keeps its value. |
| Recording.ArtifactPaths | DepthPose/ContentView.swift:111-154 | A frame writes three different files: a colour image, a depth map and a confidence map. |
| Recording.ArtifactPathsByStamp | DepthPose/ContentView.swift:111-154 | The files lie in the `rgb`, `depth` and `conf` sub-folders of the session folder. Each is named by the frame's timestamp, the same string that keys its metadata, plus ".jpg", ".tiff" or ".png". |
| Recording.IdleFrame | DepthPose/ContentView.swift:186-233 | An idle frame always disarms the cap and never changes `recordState` or the icon. With a non-empty dictionary and a folder, it writes `meta.json` in that folder. That manifest holds the dictionary's keys plus "FrameNum" = count, with the other entries unchanged. It then clears the session whether or not the write succeeded; a failed write appends "Save JSON failed". Otherwise it writes nothing, keeps the session, and rebuilds the prompt with the depth-support warning when depth is unsupported. |
| Recording.ManifestFrameEntries | DepthPose/ContentView.swift:188-198 | When no frame is keyed "FrameNum", the manifest minus "FrameNum" is exactly the recorded dictionary and has one more entry than it. |
| Recording.OnFrame | DepthPose/ContentView.swift:97-235 | While recording, a frame grows the keys by its timestamp and the count by one. While idle, a frame never adds a key, never starts recording and always disarms the cap. |
| Recording.PressPlayStop | DepthPose/ContentView.swift:421-433 | Under "play.fill" it starts recording and shows "stop.fill". Under "stop.fill" it stops, shows "play.fill" and resets the status to the prompt. It never touches the cap, folder, count or dictionary. |
| Recording.PressCap | DepthPose/ContentView.swift:437-445 | With no cap armed, it arms 1000, starts recording and shows "stop.fill", leaving the session alone. With a cap armed, it changes nothing. |
| RecordingRuns.InitialValid | DepthPose/ContentView.swift:404-407 | The starting state satisfies the invariant `Valid` and holds no session. |
| RecordingRuns.StepValid | DepthPose/ContentView.swift:97-235 | Every event keeps `Valid`. The icon shows "stop.fill" exactly while recording. The cap is -1 or 1000. A folder exists exactly when entries do. An unnamed session has count 0. There are never more entries than counted frames. |
| RecordingRuns.RunValid | DepthPose/ContentView.swift:97-235 | `Valid` holds after any sequence of frames and button presses. |
| RecordingRuns.IdleFrameEndsSession | DepthPose/ContentView.swift:186-216 | In a reachable idle state, one frame leaves no session, and it writes a manifest exactly when a session was pending. |
| RecordingRuns.UncappedRecording | DepthPose/ContentView.swift:99-173 | With no cap, recording never stops by itself. Frames add exactly their timestamps as keys and one each to the count. A named session keeps its name, and any frame names an unnamed one. |
| RecordingRuns.RecordedEntries | DepthPose/ContentView.swift:160-165 | Record in, record out: while recording with no cap, each timestamp's entry is the record (transform, angles, intrinsics) of the last frame carrying that timestamp. |
| RecordingRuns.KeptEntries | DepthPose/ContentView.swift:160-165 | While recording with no cap, an entry whose key no frame carries keeps its value. |
| RecordingRuns.FreshStampsCount | DepthPose/ContentView.swift:161 | Frames with pairwise distinct timestamps, none already a key, contribute as many keys as there are frames. |
| RecordingRuns.CapCountdown | DepthPose/ContentView.swift:167-173 | With the cap armed above the count, recording continues while the count is below the cap. It stops, disarming the cap, exactly when the count reaches the cap. |
| RecordingRuns.LateCapNeverFires | DepthPose/ContentView.swift:169 | A cap armed when the count already equals or exceeds it never fires. The test is an equality, so recording continues and the cap stays armed. |
| RecordingRuns.IdleFramesNeverRecord | DepthPose/ContentView.swift:186-233 | From a reachable idle state, any non-empty run of frames leaves the state idle, with no cap and no session. |
| RecordingRuns.StopThenPlayResumes | DepthPose/ContentView.swift:421-433 | Stopping and restarting with no frame in between resumes the same session; only the status text changes. |
| RecordingRuns.FreshRecording | DepthPose/ContentView.swift:99-173 | Recording from an empty, uncapped session yields exactly the frames' timestamps as keys, each holding the record of the last frame with that timestamp, and the number of frames as the count. |
| RecordingRuns.PlayThenFrames | DepthPose/ContentView.swift:421-426 | From launch, play followed by n frames is still recording, with a named folder, one key per distinct timestamp holding the last such frame's record, and count n. |
| RecordingRuns.RecordedSession | DepthPose/ContentView.swift:427-431 | From launch, play, n frames and stop leave an idle state that still holds the session: its folder, its keys with their frames' records, and count n. |
| RecordingRuns.WholeSession | DepthPose/ContentView.swift:186-216 | After play, n frames with distinct timestamps and stop, the next frame writes a manifest. The manifest has the n frame keys plus "FrameNum" (n + 1 entries). Each frame key holds that frame's record, "FrameNum" = n, and no session is left behind. |
| Matrix.Transpose | DepthPose/ContentView.swift:251-257 | Transposition gives the swapped shape and swaps indices. |
| Matrix.TransposeTwice | DepthPose/ContentView.swift:251-257 | Transposing twice restores a rectangular array. |
| Matrix.ArrayFromTransform | DepthPose/ContentView.swift:251-257 | The 4x4 pose as four rows of four, where entry [r][c] is component r of column c. |
| Matrix.ArrayFromIntrinsics | DepthPose/ContentView.swift:267-273 | The 3x3 intrinsics as three rows of three, where entry [r][c] is component r of column c. |
| Matrix.ArrayFromAngles | DepthPose/ContentView.swift:260-264 | Three entries in x, y, z order, each converted to degrees. |
| Matrix.ArraysAreTransposes | DepthPose/ContentView.swift:251-273 | Both matrix arrays are the transpose of the column storage. |
| Matrix.ArrayFromTransformRoundTrip | DepthPose/ContentView.swift:251-257 | The pose array reads back into the matrix it came from, and every 4x4 array is such an array. |
| Matrix.ArrayFromIntrinsicsRoundTrip | DepthPose/ContentView.swift:267-273 | The intrinsics array reads back into the matrix it came from, and every 3x3 array is such an array. |
| DepthGrid.Init | DepthPose/ContentView.swift:339-343 | A new w by h map has h rows of w cells, and every cell reads -1. |
| DepthGrid.Set | DepthPose/ContentView.swift:345-351 | After `set`, that cell reads the new value, every other cell reads as before, and the size is unchanged. |
| DepthGrid.SetSet | DepthPose/ContentView.swift:345-347 | Setting one cell twice keeps the second value, and setting two different cells commutes. |
| GridText.RowString | DepthPose/ContentView.swift:388-394 | The inner loop builds the row's first `width` values joined by single spaces, with no trailing space. |
| GridText.GetStringFrom2DimArray | DepthPose/ContentView.swift:385-399 | The text is the first `height` rows, each as its space-joined values followed by a newline. |
| GridText.SplitJoin | DepthPose/ContentView.swift:389-394 | Splitting space-joined tokens that contain no space gives back the tokens. |
| GridText.SplitLinesOfLines | DepthPose/ContentView.swift:395-396 | Splitting newline-terminated lines that contain no newline gives back the lines. |
| GridText.ParseRender | DepthPose/ContentView.swift:385-399 | When no value's text contains a space or newline, reading the rendered text back gives exactly the values' texts, row by row. |
| GridText.NoTrailingSpace | DepthPose/ContentView.swift:391-395 | Read back line by line, the text has `height` lines. Each ends with the text of its row's last value, so with non-empty value texts no line ends with a space. |
| Decimal.IntToStringSpec | DepthPose/ContentView.swift:241 | `String(Int)`: a non-negative number renders as digits that read back to it, and a negative one starts with '-'. |
| Decimal.Pad2Spec | DepthPose/ContentView.swift:242-246 | "%02d" renders at least two characters. For non-negative numbers they are digits that read back to the value, with exactly two below 100. At 10 and above, or below 0, it adds nothing to `String(Int)`. |
| Decimal.ParseNatToString | DepthPose/ContentView.swift:241-246 | Rendered digits read back to the number. |
| Decimal.NatToStringParse | DepthPose/ContentView.swift:241-246 | A digit string without a superfluous leading zero is exactly how its value renders. |
| Decimal.NatToStringLength | DepthPose/ContentView.swift:241 | A k-digit number renders as exactly k characters. |
| Decimal.Pad2Parse | DepthPose/ContentView.swift:242-246 | Every two-digit field is how "%02d" renders its value. |
| SessionName.TimeStringShape | DepthPose/ContentView.swift:237-249 | For a non-negative year, the name is the year's digits, four digits of month and day, a dash, then six digits of time. A four-digit year gives 15 characters with the dash at index 8. |
| SessionName.TimeStringRoundTrip | DepthPose/ContentView.swift:237-249 | A four-digit-year name reads back to the calendar components it was built from. |
| SessionName.TimeStringNoLeadingZero | DepthPose/ContentView.swift:240-241 | The name of a positive year never starts with '0', since `String(Int)` writes no leading zero; so every name `getCurrentTime` produces meets the requirement of `ParseTimeStringSound`. |
| SessionName.ParseTimeStringSound | DepthPose/ContentView.swift:237-249 | Conversely, a 15-character name that parses, and whose year has no leading zero, is exactly the name of the components it parses to. |

## Left out

- `makeUIView` and the `ARWorldTrackingConfiguration` set-up (lines 14-72): platform configuration with no logic to model.
- Image encoding and file writes (`convertSaveImage`, `convertSaveDepthTIFF`, `convertSaveDepthPNG`, `convertSaveConfDepth`, JSON serialisation): foreign Core Image and Foundation calls. An event reports only the paths it writes, and the manifest is the dictionary it serialises.
- The per-image and folder-creation failure messages (lines 120-136, 285-331): line 175 overwrites them in the same frame, so they leave no trace in the modelled state.
- `getDepthDistance` (lines 354-368): it reads raw pixel-buffer memory. Its grid is modelled through `DepthGrid`.
- `saveArray` (lines 370-382): it renders an array with `getStringFrom2DimArray`, modelled in `GridText`, and writes the text to a file, which is not modelled. Both functions are called only from commented-out code.
- Float arithmetic: the radians-to-degrees formula, the FPS figure, `lastTime`, and "%f", "%4d" and "%.2f" formatting. Floats are a type parameter, except in `DepthGrid`, where `real` stands for `Float32` and only the value -1 matters. The frame timestamp arrives already formatted, and the status readouts are symbolic `InfoPart` values.
- `GridText.GetStringFrom2DimArray`: Swift's `String(Float)` is a parameter `show`. Also, `0...height-1` traps when height or width is 0, so the method requires both to be at least 1, and out-of-range indexing becomes the `Covers` precondition.
- `DepthGrid.Set`: Swift traps on an out-of-range `data[y][x]` (lines 346 and 350), so `Set` and `Get` require the cell to be in bounds.
- The races between concurrently dispatched recording blocks and the main thread: the model runs each block to completion right after its callback.
- The SwiftUI layout, animations and previews.
- `Date()` and `Calendar.current`: the calendar components arrive in `Env`.
- `Recording.RecordFrame`: `frameNum` is an unbounded integer, so Swift's trap on `Int` overflow is not modelled; it would need 2^63 frames.
- The force-unwraps of `sceneDepth`, `confidenceMap` and `jsonData`: an absent value would crash the app. The model assumes they are present.
- `Recording.RecordFrame`: it does not read `env.depthSupported`. On a device without scene depth the app would crash at the force-unwrap of line 151, but the model records the frame as usual.
- `SessionName.ParseTimeStringSound`: it needs a name whose year has no leading zero. `String(Int)` never writes one, so every name `getCurrentTime` produces for a positive year meets this (`SessionName.TimeStringNoLeadingZero`).
- The recorder has no frame-rate gate, records no tracking quality, does not flush on start, and clears the session even when the JSON write fails. The model follows the code on each.
