# screenshots-diff in Dafny

A verified model of the core of the screenshots-diff toolkit: the per-pair
diff engine (`diffImagesAsync`) and the pure orchestration logic of the
run (`index.ts`).

The **diff engine** takes a baseline and a candidate screenshot, each
possibly missing. It builds a composite image three bands wide: the
baseline copy, the diff visualisation and the candidate copy. It counts
the pixels whose luma-weighted brightness difference reaches the scaled
threshold. It writes the composite only when that count is positive. A
pair with one side missing is reported with the negative count
`-(3 * width * height)`.

The **orchestrator** does four things:

- it keeps the `.png` names of both directory listings and merges them
  into a de-duplicated union;
- it hands the names to a pool of workers through one shared cursor;
- it records each defined reply with a running id;
- it builds the report from the results whose count is not 0.

Modules:

- `Pixels` (pixels.dfy): 32-bit pixel words, byte access, the brightness
  difference and the three tints.
- `Images` (images.dfy): decoded images, viewports, the file name of a
  path, and the loader's default viewport.
- `Engine` (engine.dfy): the closed-form reference definition of the
  composite and the count.
- `DiffLoop` (diff_loop.dfy): the row and column loops as the source runs
  them, proved equal to the reference.
- `EngineProperties` (engine_properties.dfy): the engine's promises.
- `PngNames` (png_names.dfy): the PNG filter and the name union.
- `Results` (results.dfy): result records, progress counters and the
  report.
- `Dispatch` (dispatch.dfy): the shared cursor as a state machine over
  arbitrary worker interleavings.
- `Orchestrator` (orchestrator.dfy): the worker's message handler and one
  run end to end.
- `Basics` (basics.dfy): `Option`, `Max` and the no-duplicates
  predicate.

Modelling choices:

- Pixel words are `bv32`. Bytes are read little-endian, so byte k of a
  word is bits 8k..8k+7, as a `Uint8Array` view of a `Uint32Array` gives
  them on the hosts Node runs on.
- The brightness difference uses exact `real` arithmetic. With the
  weights 0.299, 0.587 and 0.114, the largest possible difference is
  exactly 255; the double-precision sum `0.299*255 + 0.587*255 +
  0.114*255` also rounds to exactly 255.0.
- A threshold is an `Option<real>`. `None` stands for `undefined` and
  `NaN`. Like them, `Some(0.0)` is falsy and falls back to 0.03.
- File contents are parameters: the decoded image (if the file exists)
  and the parsed sidecar (if it exists). "The composite is written" is a
  boolean in the engine's answer.
- The worker pool is a state machine. An event names the worker that
  moves and the reply it would receive.

Behaviours of the code that are easy to misread, all modelled as
written:

- The comment at diffImagesAsync.ts:172-174 names the weights for the
  "[red, green, blue]" components. Lines 177-179 read bytes 1, 2 and 3 of
  each word (green, blue and alpha on a little-endian host). A pixel that
  differs only in red is therefore tolerated at every threshold that is
  not negative (`EngineProperties.FullRedDifferenceTolerated`).
- A pixel is tolerated when `difference < threshold`. From threshold 1
  up the scaled threshold is 255, and a difference of exactly 255 still
  counts (`EngineProperties.FullThresholdStillCounts`). So even the
  largest threshold does not tolerate every possible pixel.
- A missing side is not a tagged result. It is the negative count
  `-(3 * width * height)`, and the report keeps it as a "different"
  result. The constants `MISSING_BASELINE` and `MISSING_CANDIDATE` of
  types.ts are not used.
- With both sides missing, the engine answers `undefined`. The handler
  then calls `process.send(undefined)`, which Node rejects with an error
  instead of sending. So no reply reaches the orchestrator, and the run
  never finishes (see `Orchestrator.WorkerReply` under "Left out").
- The orchestrator never sends a threshold, so every comparison uses
  0.03 (`WorkerReply`).
- Threshold 0 means 0.03, because `0 || 0.03` is 0.03. So the count is
  not monotone across 0: threshold 0.01 is stricter than threshold 0
  (`ZeroThresholdIsDefault`).
- A negative threshold scales to 0. Every pixel is then a mismatch,
  identical ones included (`NegativeThresholdFlagsEverything`).
- Results carry a `diffId` taken from counters that live as long as the
  process. A second run in the same process continues the ids
  (`Results.Progress`).

## Model

| member | source | states |
|---|---|---|
| Pixels.Brightness | screenshots-diff/diffImagesAsync.ts:168-180 | The brightness difference lies in 0..255 and is 0 for identical words. |
| Pixels.BrightnessSymmetric | screenshots-diff/diffImagesAsync.ts:176-179 | The brightness difference does not depend on which word is the baseline. |
| Pixels.RedChannelIgnored | screenshots-diff/diffImagesAsync.ts:177-179 | Any two words that agree on bytes 1..3 have brightness difference 0, whatever byte 0 (red) holds. |
| Pixels.FullRedDifferenceIsInvisible | screenshots-diff/diffImagesAsync.ts:177-179 | The instance 0xff0000ff (opaque red) against 0xff000000 (opaque black) has brightness difference 0. |
| Pixels.FullScaleBrightness | screenshots-diff/diffImagesAsync.ts:176-179 | For any two words, the brightness difference is exactly 255 if and only if bytes 1, 2 and 3 each differ by 255. |
| Pixels.Tint | screenshots-diff/diffImagesAsync.ts:166 | `((w >> 3) & 0x001f1f1f) \| mask` keeps the top five bits of each of bytes 0..2, moved down three places, under the mask's bits; byte 3 is the mask's. |
| Pixels.Washed | screenshots-diff/diffImagesAsync.ts:185 | A tolerated pixel is opaque, with each colour byte `0xe0 \| (byte >> 3)` of the baseline word. |
| Pixels.GreenTint | screenshots-diff/diffImagesAsync.ts:194 | The recoloured baseline word is opaque with bytes `0x60, 0xe0, 0x60` or-ed over the shifted baseline bytes. |
| Pixels.RedTint | screenshots-diff/diffImagesAsync.ts:198-199 | The recoloured candidate word is opaque with bytes `0xe0, 0x60, 0x60` or-ed over the shifted candidate bytes. |
| Images.FileNameFromPath | screenshots-diff/diffImagesAsync.ts:15-17 | The name is a suffix of the path, preceded by '/' unless it is the whole path, and holds no '/' when the path has no line terminator. |
| Images.FileNameStripsDirectories | screenshots-diff/diffImagesAsync.ts:15-17 | For any single-line path `dir/name` whose `name` has no '/', the name is exactly `name`. |
| Images.FileNameStopsAtLineTerminator | screenshots-diff/diffImagesAsync.ts:16 | For any path with a line terminator at position i, the name is the name of the text before i followed by everything from i on: only the first line is searched for a '/'. |
| Images.Load | screenshots-diff/diffImagesAsync.ts:19-51 | A screenshot exists exactly when the image file does. A sidecar supplies the information. Without one, the viewport is (0, 0, image width, image height, scale 1) and the name is the path's file name. |
| Engine.ScaledThreshold | screenshots-diff/diffImagesAsync.ts:62 | The scaled threshold is 255·clamp(t \|\| 0.03, 0, 1): 7.65 for undefined or 0, 0 for negative, 255 from 1 up, 255·t in between. |
| Engine.Setup | screenshots-diff/diffImagesAsync.ts:68-106 | The canvas is as wide and high as the larger present viewport; an absent side contributes 0. Each present side reads from its viewport corner `x + y·imageWidth` with the image width as stride. |
| Engine.Mismatches | screenshots-diff/diffImagesAsync.ts:183-188 | The mismatches in the first n rows number at most n·width. |
| Engine.FlattenAt | screenshots-diff/diffImagesAsync.ts:117 | Column c of row y of the composite sits at flat index y·(3·width) + c. |
| Engine.DiffImages | screenshots-diff/diffImagesAsync.ts:53-217 | The answer is undefined exactly when both sides are missing. Otherwise the composite is 3·width by height words, and it is written exactly when the count is positive. |
| DiffLoop.CopyRow | screenshots-diff/diffImagesAsync.ts:125-154 | A row is copied only under the guard offset + width ≤ length, and the offset advances only on a copy. So row y is copied exactly when start + y·stride + width ≤ length: the copied rows form a prefix. |
| DiffLoop.GuardStaysFailed | screenshots-diff/diffImagesAsync.ts:127 | Once a row fails the copy guard, every later row fails it too. |
| DiffLoop.DiffPixel | screenshots-diff/diffImagesAsync.ts:163-202 | A pixel counts when its brightness difference reaches the limit. The diff band shows the highlight exactly for counted pixels and is opaque everywhere. A tolerated pixel leaves both side words as copies. A side word changes only on an odd square of a counted pixel, and only when the other side's word is not white. |
| DiffLoop.DiffRow | screenshots-diff/diffImagesAsync.ts:157-208 | The column pass leaves every band word of the row equal to the reference and returns the row's mismatch count. |
| DiffLoop.RenderRow | screenshots-diff/diffImagesAsync.ts:116-208 | One row: the highlight fill when one side is missing, the guarded copies, then the column pass. The result is the reference row. |
| DiffLoop.RenderRows | screenshots-diff/diffImagesAsync.ts:112-209 | The row loop yields the reference composite. The count starts at the sentinel or at 0, and ends at the reference count. |
| DiffLoop.DiffImagesAsync | screenshots-diff/diffImagesAsync.ts:53-217 | The imperative engine returns exactly the reference answer. |
| EngineProperties.CompositeBands | screenshots-diff/diffImagesAsync.ts:116-202 | Every left, middle and right word of the flat composite is the reference word: a washed baseline or the highlight in the middle, green/red recolouring only on odd x+y of mismatched pixels, and not against a white word on the other side. |
| EngineProperties.OneSideMissing | screenshots-diff/diffImagesAsync.ts:112-122 | With one side missing, the count is −(3·width·height) ≤ 0 and nothing is written. The middle band is all highlight and the side bands are plain row copies. |
| EngineProperties.BothPresentCount | screenshots-diff/diffImagesAsync.ts:157-214 | With both sides present, the count is the number of mismatched canvas pixels and lies in 0..width·height. The file is written exactly when some pixel is mismatched. |
| EngineProperties.MismatchesPositive | screenshots-diff/diffImagesAsync.ts:211 | The count over n rows is positive exactly when one of those rows holds a mismatched pixel. |
| EngineProperties.CountSymmetric | screenshots-diff/diffImagesAsync.ts:176-179 | Swapping baseline and candidate leaves both the presence of an answer and the count unchanged. |
| EngineProperties.CountMonotone | screenshots-diff/diffImagesAsync.ts:183 | A higher scaled threshold never gives a higher count. |
| EngineProperties.ScaledThresholdMonotone | screenshots-diff/diffImagesAsync.ts:62 | The scaled threshold grows with the given threshold, except that 0 stands for 0.03. |
| EngineProperties.ZeroThresholdIsDefault | screenshots-diff/diffImagesAsync.ts:62 | Threshold 0 scales like undefined, to 7.65, which is above threshold 0.01. |
| EngineProperties.IdenticalScreenshots | screenshots-diff/diffImagesAsync.ts:168-169 | A screenshot diffed with itself at any threshold that is not negative has count 0, and nothing is written. |
| EngineProperties.NegativeThresholdFlagsEverything | screenshots-diff/diffImagesAsync.ts:183 | A negative threshold makes every canvas pixel a mismatch, so the count is width·height. |
| EngineProperties.FullThresholdStillCounts | screenshots-diff/diffImagesAsync.ts:183-188 | For any two screenshots and any threshold of at least 1, a canvas pixel with brightness difference exactly 255 is mismatched, so the count is positive and the composite is written. |
| EngineProperties.FullRedDifferenceTolerated | screenshots-diff/diffImagesAsync.ts:176-183 | For any two screenshots whose canvas pixels differ at most in byte 0 (red), and any threshold that is not negative, the count is 0 and nothing is written. |
| PngNames.FilterPngs | screenshots-diff/index.ts:169-170 | A name is kept exactly when it is in the listing and ends in ".png". |
| PngNames.FilterPngsAppend | screenshots-diff/index.ts:136-141 | Filtering keeps the listing's order. |
| PngNames.PngSuffixIsCaseSensitive | screenshots-diff/index.ts:169-170 | Every name ending in ".png" is kept, and a name ending in any other four characters (".PNG" included) is dropped. |
| PngNames.Unseen | screenshots-diff/index.ts:142-144 | The de-duplicated list has no repeats, and holds exactly the names of the input that were not seen before. |
| PngNames.UnseenAppend | screenshots-diff/index.ts:142-150 | De-duplicating a + b gives a's names in first-occurrence order, then b's names not in a. |
| PngNames.PngFileNames | screenshots-diff/index.ts:132-167 | If either side has no PNG, there are no names. Otherwise the names are duplicate-free, and a name is in the list exactly when either side's PNG list has it. |
| PngNames.BaselineNamesFirst | screenshots-diff/index.ts:146-150 | The union is the baseline's de-duplicated PNGs followed by the candidate's PNGs that the baseline lacks. |
| PngNames.UnionExample | screenshots-diff/index.ts:142-150 | The instance: listings [a.png, b.txt, c.png] and [c.png, d.png] give [a.png, c.png, d.png], so the shared c.png appears once, at the baseline's position. |
| Results.CreateTestRunResult | screenshots-diff/index.ts:172-192 | A new result's id is one more than the previous id. `countDifferent` grows exactly when the count is not 0. |
| Results.KeepDifferent | screenshots-diff/index.ts:106-108 | The filtered results are exactly those with a count other than 0, negative sentinels included. |
| Results.KeepDifferentAppend | screenshots-diff/index.ts:106-108 | Filtering keeps the recorded order: the filtered results of two lists one after the other are the filtered results of the first followed by those of the second. |
| Results.RecordKeepsCounters | screenshots-diff/index.ts:172-192 | After any number of recordings, the ids are consecutive from the starting counter. `countDifferent` equals the number of results the report keeps. |
| Results.Conclude | screenshots-diff/index.ts:98-127 | There is no report exactly when no result was recorded. Otherwise the run data has version "0.0.1", the three paths and the filtered results: exactly the recorded results with a non-zero count, in recorded order, repeats kept. Its message is the "visible difference" one exactly when some result has a non-zero count. |
| Dispatch.Step | screenshots-diff/index.ts:62-96 | A step keeps the pool size and advances the cursor by at most one. |
| Dispatch.StepKeepsInvariant | screenshots-diff/index.ts:62-96 | Every worker step keeps these facts: the claims are the first `cursor` names, a killed worker implies the cursor is at the end, results plus jobs in flight do not exceed the claims, and the counters match the results. |
| Dispatch.DispatchClaimsInOrder | screenshots-diff/index.ts:62-96 | Under any interleaving, the claims are exactly the first `cursor` names in order, each claimed once. Once a worker is killed, every name has been claimed. Results never outnumber claims, and their ids run on consecutively. |
| Dispatch.NoClaimAfterEnd | screenshots-diff/index.ts:66 | Once the cursor is at the end, no step claims anything, and an idle worker is killed. |
| Dispatch.ReplyRecording | screenshots-diff/index.ts:72-83 | An undefined reply records nothing. A defined reply appends exactly one result, for the worker's claimed name and with the reply's count. |
| Orchestrator.WorkerReply | screenshots-diff/diffImagesAsync.ts:219-235 | The worker replies undefined exactly when both files are missing. Otherwise it replies with the engine's count at threshold 0.03. |
| Orchestrator.DispatchedReply | screenshots-diff/index.ts:87-91 | The message built for a claimed name joins each directory with the name and carries no threshold: when either file exists, the worker's reply is the engine's count on the two loaded files at 0.03, and a file loaded without a sidecar is named after the claimed name (for a name with no '/' and a path on one line). |
| Orchestrator.NoPngsNoReport | screenshots-diff/index.ts:98-103 | When either listing has no PNG, nothing is claimed and the run ends with no report. |
| Orchestrator.FinishedRunCoversAllNames | screenshots-diff/index.ts:62-120 | In a finished run every union name was claimed exactly once. The report keeps exactly the recorded results with a non-zero count. |

## Left out

- Worker processes and messaging (`child_process.fork`, `process.send`,
  `once("message")`, `kill`, `Promise.all`) are not modelled. The shared
  cursor and its one-reply-per-claim protocol are modelled as the
  `Dispatch` state machine.
- File-system and codec calls are not modelled: `existsSync`,
  `readFileSync`, `readdirSync`, `mkdirSync`, `writeFileSync`, the PNG
  decoder and encoder, and the JSON parse of sidecars. Their results are
  parameters, and the write is a boolean.
- The path-existence check and its throw (index.ts:24-42) are I/O and
  are not modelled.
- The sidecar path `imagePath.replace(/\.png$/i, ".json")` is not
  modelled. Whether a sidecar exists is a parameter of `Load`.
- A decode failure or an exception inside a worker is not modelled. It
  would leave a claim without a reply; the state machine allows that by
  never scheduling the reply.
- IEEE-754 rounding of the luma sum and of `255 * threshold` is not
  modelled; both are exact (the default scaled threshold is exactly 7.65,
  where doubles give 7.6499999999999995).
- Infinite thresholds are not modelled; `real` has none.
- The PNG library refuses a zero-width or zero-height canvas (its buffer
  is null, so reading `.buffer` throws). The model returns an empty
  composite instead.
- Viewport coordinates are natural numbers. Negative or fractional
  sidecar values would make the source read outside its buffer or throw;
  they are not modelled. `scale` is carried but never used, as in the
  source.
- A big-endian host would permute the bytes of each word. It is not
  modelled.
- Console output is not modelled: progress lines, cursor escapes, the
  colouring in log.ts, the "no PNG found" messages and the success or
  warning line after the report.
- A failed write of diff.json is caught and logged by the source. The
  model only names the file path of the report.
- The command-line entry point (example.ts) is not modelled.
- Orchestrator.WorkerReply: the `None` reply (both files missing) is
  modelled as a reply. In Node, `process.send(undefined)` throws
  ERR_MISSING_ARGS inside the async message handler, so no message is
  sent. The `msg !== undefined` test at index.ts:74 then never sees an
  undefined message, and the `None` step of `Dispatch.Step` models dead
  code. A worker that never replies is one of the schedules
  `Dispatch.Run` allows, so the safety lemmas still cover it.
- Dispatch.DispatchClaimsInOrder: "none is skipped" is proved for runs in
  which some worker has been killed. That a fair schedule eventually
  kills every worker is not proved.
