# Motion detection and preference migration of an RTSP viewer, in Dafny

The app shows two RTSP camera streams. Its first screen can watch stream 1 for
motion. Every 300 ms it captures a frame, makes it grayscale, halves its size
and compares it with the frame before. It counts changed pixels over the whole
frame and per cell of a fixed 8 x 6 grid. Each cell keeps a hit counter that
rises when the cell moves and decays when it does not. In a tick whose
whole-frame test passes, motion is reported once some counter reaches 2. The
settings screen migrates the single-stream keys of older versions to the
stream 1 and stream 2 keys, once.

The project models:

- `frames.dfy` (module `Frames`): downscaled frames as row-major grayscale
  arrays, the change mask (difference above 30), and the whole-frame test
  "at least 0.4 percent of the pixels changed". The test is written as the
  exact integer comparison `changed * 1000 >= 4 * total`. It also has the
  output-size arithmetic of the downscale by 0.5.
- `grid.dfy` (module `Grid`): the cell rectangles computed with integer
  division, the row-major visiting order, the per-cell changed-pixel count,
  and the cell test (0.8 percent, with an empty cell never qualifying).
- `region_key.dfy` (module `RegionKey`): the `"gx_gy"` string key of the
  history map. It covers formatting an `Int`, `split("_")` and `toInt()`,
  with the proof that the key parses back to its cell. This is why the model
  keys the history map by the `(gx, gy)` pair.
- `persistence.dfy` (module `Persistence`): the history map as a
  specification. It defines one grid pass, the global decay, the set of
  active cells and one analysed tick.
- `motion_detector.dfy` (module `MotionDetection`): the detector state
  (`isMotionDetectionActive`, `previousBitmap`, `motionHistoryMap`,
  `motionRegions`) as a class. Its methods follow the source's loops:
  - the change-mask loop;
  - the nested grid and pixel loops;
  - the walk over the map that collects the active regions;
  - the two loops of `decrementMotionHistory`;
  - `processFrame`, `startMotionDetection` and `stopMotionDetection`.

  Each method's contract ties it to the functions of `Frames`, `Grid` and
  `Persistence`.
- `settings.dfy` (module `Settings`): `migrateOldPreferences` as a method on
  the preference store, a `map<string, string>`. It is proved against
  `Migrated`: the store overridden by the copies. Also `onPreferenceChange`.

Three behaviours of the code are easy to misread; the model follows the code:

- A frame whose size differs from the baseline replaces the baseline but
  leaves the history map as it was (FirstFragment.kt lines 392-397). It does
  not reset the counters.
- The `min` clamp on a cell's right and bottom edge never takes effect:
  `(g + 1) * (width / 8) <= width`. So the last column and row do not absorb
  the remainder pixels; those pixels belong to no cell (`Grid.CellsCover`,
  FirstFragment.kt lines 476-488).
- The threshold constant is 0.4 percent, though its comment says 0.2 percent
  (FirstFragment.kt line 111).
  The model uses the constant.

## Model

| member | source | states |
|---|---|---|
| Frames.ScaledDimension | app/src/main/java/com/example/rtsp_viewer_2/FirstFragment.kt:592-595 | a side of the downscaled bitmap is at least 1 and at most the original; for sides of 2 or more it is the floor of half the side; a side of 1 stays 1 |
| Frames.ChangedCountMeaning | app/src/main/java/com/example/rtsp_viewer_2/FirstFragment.kt:434-447 | the changed-pixel count is the number of indices whose intensities differ by more than 30, and at most the pixel count |
| Frames.ChangedCountSymmetric | app/src/main/java/com/example/rtsp_viewer_2/FirstFragment.kt:437-446 | swapping the two frames does not change the count |
| Frames.NoChangeAgainstItself | app/src/main/java/com/example/rtsp_viewer_2/FirstFragment.kt:441-457 | a frame compared with itself has no changed pixel and so no basic motion |
| Frames.AtLeastPermilleIsRatio | app/src/main/java/com/example/rtsp_viewer_2/FirstFragment.kt:453-457 | the integer test `part * 1000 >= permille * whole` agrees with `part / whole * 100 >= permille / 10` over the rationals |
| Frames.CountTrueIsCardinality | app/src/main/java/com/example/rtsp_viewer_2/FirstFragment.kt:434-447 | counting marks one by one gives the size of the set of marked indices |
| Frames.DiffMask | app/src/main/java/com/example/rtsp_viewer_2/FirstFragment.kt:437-446 | the change mask: entry i is true iff the two intensities at i differ by more than 30 |
| Frames.ChangedCount | app/src/main/java/com/example/rtsp_viewer_2/FirstFragment.kt:434-447 | `totalDiffPixels`: the number of true entries of the change mask (its meaning is `ChangedCountMeaning`) |
| Frames.AtLeastPermille | app/src/main/java/com/example/rtsp_viewer_2/FirstFragment.kt:453-457 | the percentage test: a positive whole and `part / whole * 100 >= permille / 10`, as exact integers; a zero whole (NaN) fails |
| Frames.BasicMotion | app/src/main/java/com/example/rtsp_viewer_2/FirstFragment.kt:453-457 | `basicMotionDetected`: at least 0.4 percent of the `width * height` pixels changed |
| Grid.CellAt | app/src/main/java/com/example/rtsp_viewer_2/FirstFragment.kt:483-484 | the i-th cell of the row-major visit is a grid cell whose position in the visit is i |
| Grid.CellIndexInjective | app/src/main/java/com/example/rtsp_viewer_2/FirstFragment.kt:483-484 | every grid cell is visited, exactly at its row-major position |
| Grid.ClampNeverBinds | app/src/main/java/com/example/rtsp_viewer_2/FirstFragment.kt:476-488 | every cell is `[gx*cw, (gx+1)*cw) x [gy*ch, (gy+1)*ch)` with `cw = width/8`, `ch = height/6`: the min clamp never takes effect |
| Grid.CellInsideFrame | app/src/main/java/com/example/rtsp_viewer_2/FirstFragment.kt:485-495 | every pixel of a cell lies in the frame and its flat index `y*width+x` is below `width*height` |
| Grid.CellsDisjoint | app/src/main/java/com/example/rtsp_viewer_2/FirstFragment.kt:485-488 | no pixel lies in two different cells |
| Grid.CellsCover | app/src/main/java/com/example/rtsp_viewer_2/FirstFragment.kt:476-488 | a pixel lies in some cell iff it is in `[0, 8*cw) x [0, 6*ch)` |
| Grid.CellCountBounded | app/src/main/java/com/example/rtsp_viewer_2/FirstFragment.kt:491-502 | a cell has `cw*ch` pixels and at most that many of them changed |
| Grid.SmallFrameNoCellQualifies | app/src/main/java/com/example/rtsp_viewer_2/FirstFragment.kt:502-506 | in a frame narrower than 8 or lower than 6 pixels no cell qualifies (its percentage is NaN) |
| Grid.RectsOf | app/src/main/java/com/example/rtsp_viewer_2/FirstFragment.kt:544-550 | one rectangle per cell, in order, each the cell's rectangle |
| Grid.CellRect | app/src/main/java/com/example/rtsp_viewer_2/FirstFragment.kt:485-488 | a cell's rectangle `(gx*cw, gy*ch, min((gx+1)*cw, width), min((gy+1)*ch, height))` |
| Grid.CellMotionPixels | app/src/main/java/com/example/rtsp_viewer_2/FirstFragment.kt:491-499 | `cellMotionPixels`: the changed-pixel count of the cell's rectangle |
| Grid.CellTotalPixels | app/src/main/java/com/example/rtsp_viewer_2/FirstFragment.kt:502 | `cellTotalPixels`: the area of the cell's rectangle |
| Grid.CellQualifies | app/src/main/java/com/example/rtsp_viewer_2/FirstFragment.kt:501-506 | a cell qualifies when at least 0.8 percent of its pixels changed; an empty cell never does |
| Grid.RowCountIsCardinality | app/src/main/java/com/example/rtsp_viewer_2/FirstFragment.kt:493-498 | the count of a row segment is the number of its marked pixels |
| Grid.RectCountIsCardinality | app/src/main/java/com/example/rtsp_viewer_2/FirstFragment.kt:491-499 | the count of a rectangle is the number of its pixels `(x, y)` whose flat index `y*width+x` is marked |
| Grid.CellMotionIsCardinality | app/src/main/java/com/example/rtsp_viewer_2/FirstFragment.kt:491-499 | a cell's motion pixel count is the number of marked pixels of its rectangle |
| Grid.QualifyingRects | app/src/main/java/com/example/rtsp_viewer_2/FirstFragment.kt:480-508 | `motionRegions` after visiting the first n cells: the rectangles of the qualifying ones, in visiting order |
| Grid.RowCount | app/src/main/java/com/example/rtsp_viewer_2/FirstFragment.kt:493-498 | the inner pixel loop: marked in-range flat indices `y*width+x` for `x` in `[x0, x1)` |
| Grid.RectCount | app/src/main/java/com/example/rtsp_viewer_2/FirstFragment.kt:492-499 | the nested pixel loops: the row counts of rows `[y0, y1)` summed |
| RegionKey.NatToString | app/src/main/java/com/example/rtsp_viewer_2/FirstFragment.kt:511 | the decimal form of a number is a non-empty string of digits |
| RegionKey.Split | app/src/main/java/com/example/rtsp_viewer_2/FirstFragment.kt:537 | `split` yields at least one part, and exactly one iff the separator does not occur |
| RegionKey.ParseIntRoundTrip | app/src/main/java/com/example/rtsp_viewer_2/FirstFragment.kt:540-541 | `toInt` of the decimal form of any 32-bit integer gives that integer back |
| RegionKey.SplitOnce | app/src/main/java/com/example/rtsp_viewer_2/FirstFragment.kt:537 | splitting `a + "_" + b` with no `_` in `a` or `b` gives `[a, b]` |
| RegionKey.KeyRoundTrip | app/src/main/java/com/example/rtsp_viewer_2/FirstFragment.kt:511-542 | the key `"${gx}_${gy}"` splits into two parts that parse back to `gx` and `gy` |
| RegionKey.KeyStringInjective | app/src/main/java/com/example/rtsp_viewer_2/FirstFragment.kt:511-516 | two cells have the same key string iff they are the same cell |
| RegionKey.KeyString | app/src/main/java/com/example/rtsp_viewer_2/FirstFragment.kt:511 | the key `"${gx}_${gy}"`: the decimal forms of the two coordinates joined by `_` |
| RegionKey.ParseInt | app/src/main/java/com/example/rtsp_viewer_2/FirstFragment.kt:540-541 | `toInt`: an optional sign and at least one decimal digit, within the 32-bit range; anything else is the NumberFormatException path (None) |
| RegionKey.ParseKey | app/src/main/java/com/example/rtsp_viewer_2/FirstFragment.kt:537-541 | the key splits into exactly two parts that both parse, giving the cell; otherwise None |
| RegionKey.IntToString | app/src/main/java/com/example/rtsp_viewer_2/FirstFragment.kt:511 | `Int.toString()`: a '-' for a negative number, then the decimal digits of its magnitude |
| Persistence.DecayEffect | app/src/main/java/com/example/rtsp_viewer_2/FirstFragment.kt:574-590 | the decay lowers every counter by one, keeps an entry iff its counter was at least 2, adds no key, and keeps the map well formed |
| Persistence.GridUpdateEffect | app/src/main/java/com/example/rtsp_viewer_2/FirstFragment.kt:501-521 | after the grid pass a qualifying cell has its count plus one (absent as 0); a non-qualifying positive count is one lower; a non-qualifying absent or zero entry is as it was; non-grid keys are untouched; counters stay non-negative and keys stay grid cells |
| Persistence.GridPassAt | app/src/main/java/com/example/rtsp_viewer_2/FirstFragment.kt:483-523 | after the first n cells of the visit, exactly the cells before position n have been stepped |
| Persistence.ZeroEntryKept | app/src/main/java/com/example/rtsp_viewer_2/FirstFragment.kt:514-521 | a counter at 1 whose cell does not qualify drops to 0 and stays in the map |
| Persistence.DecayKeepsHighCounters | app/src/main/java/com/example/rtsp_viewer_2/FirstFragment.kt:460-473 | without basic motion a counter of 3 or more is still active afterwards; that the tick still returns false is `DetectAdvancedMotion`'s `detected == Reported(history, basic)` with `basic` false |
| Persistence.TickPreservesWellFormed | app/src/main/java/com/example/rtsp_viewer_2/FirstFragment.kt:460-590 | both kinds of tick keep counters non-negative and keys inside the grid |
| Persistence.TickGrowsByAtMostOne | app/src/main/java/com/example/rtsp_viewer_2/FirstFragment.kt:510-590 | a counter grows by at most one per tick |
| Persistence.TwoTicksFromEmpty | app/src/main/java/com/example/rtsp_viewer_2/FirstFragment.kt:510-535 | from an empty map nothing is active after one tick, and a cell is active after two iff both ticks had basic motion and it qualified in both |
| Persistence.RepeatedDecay | app/src/main/java/com/example/rtsp_viewer_2/FirstFragment.kt:574-590 | a counter n survives exactly n - 1 ticks without basic motion, losing one each time |
| Persistence.CellStep | app/src/main/java/com/example/rtsp_viewer_2/FirstFragment.kt:506-521 | one cell's update: a qualifying count goes up by one (absent as 0), else a positive count goes down by one, else nothing changes |
| Persistence.GridPass | app/src/main/java/com/example/rtsp_viewer_2/FirstFragment.kt:483-523 | the history after the first n cells of the row-major visit, each given its CellStep |
| Persistence.GridUpdate | app/src/main/java/com/example/rtsp_viewer_2/FirstFragment.kt:475-523 | the history after the whole grid pass |
| Persistence.Decay | app/src/main/java/com/example/rtsp_viewer_2/FirstFragment.kt:574-590 | every counter lowered with floor zero, then the zero entries removed |
| Persistence.ActiveCells | app/src/main/java/com/example/rtsp_viewer_2/FirstFragment.kt:528-534 | the cells whose counter is at least 2 |
| Persistence.Tick | app/src/main/java/com/example/rtsp_viewer_2/FirstFragment.kt:457-523 | the history after an analysed tick: the grid pass with basic motion, the decay without |
| Persistence.Reported | app/src/main/java/com/example/rtsp_viewer_2/FirstFragment.kt:460-568 | the result of `detectAdvancedMotion`: false without basic motion, otherwise whether some cell is active |
| MotionDetection.ComputeDiff | app/src/main/java/com/example/rtsp_viewer_2/FirstFragment.kt:427-447 | the filled `diffPixels` is the change mask and `totalDiffPixels` its number of changed pixels |
| MotionDetection.CountCellMotion | app/src/main/java/com/example/rtsp_viewer_2/FirstFragment.kt:491-499 | the nested pixel loop computes `RectCount` of the rectangle, that is (`Grid.RectCountIsCardinality`) the number of its pixels whose in-range flat index is marked |
| MotionDetection.MotionDetector.constructor | app/src/main/java/com/example/rtsp_viewer_2/FirstFragment.kt:41-46 | detection starts off with no baseline, an empty history and no regions |
| MotionDetection.MotionDetector.Start | app/src/main/java/com/example/rtsp_viewer_2/FirstFragment.kt:327-340 | when off and attached: on, no baseline, empty history and regions; otherwise nothing changes |
| MotionDetection.MotionDetector.Stop | app/src/main/java/com/example/rtsp_viewer_2/FirstFragment.kt:342-361 | afterwards off, no baseline, empty history and regions; when already off nothing changes |
| MotionDetection.MotionDetector.DecrementMotionHistory | app/src/main/java/com/example/rtsp_viewer_2/FirstFragment.kt:574-590 | the history becomes its decay; nothing else changes |
| MotionDetection.MotionDetector.IdentifyMotionRegions | app/src/main/java/com/example/rtsp_viewer_2/FirstFragment.kt:475-523 | the history becomes the grid pass of the old one and `motionRegions` the qualifying cells' rectangles in visiting order |
| MotionDetection.MotionDetector.UpdateCell | app/src/main/java/com/example/rtsp_viewer_2/FirstFragment.kt:485-521 | one cell's counter is stepped and its rectangle appended iff it qualifies |
| MotionDetection.MotionDetector.CollectActiveRegions | app/src/main/java/com/example/rtsp_viewer_2/FirstFragment.kt:528-556 | the flag is true iff some counter reaches 2, and the regions are exactly the rectangles of those cells, each once |
| MotionDetection.MotionDetector.DetectAdvancedMotion | app/src/main/java/com/example/rtsp_viewer_2/FirstFragment.kt:417-569 | size mismatch: false, nothing changes; otherwise the history is one tick of the old one, the result is "basic motion and some counter at least 2", and the overlay gets the active cells' rectangles (cleared without basic motion) |
| MotionDetection.MotionDetector.ProcessFrame | app/src/main/java/com/example/rtsp_viewer_2/FirstFragment.kt:363-411 | off or detached: nothing changes; no baseline: the frame becomes it; size mismatch: the baseline is replaced and the history kept; otherwise one analysed tick and the frame becomes the new baseline |
| Settings.NoLegacyUrlNoChange | app/src/main/java/com/example/rtsp_viewer_2/SettingsFragment.kt:60-69 | without `rtsp_url` the store is unchanged |
| Settings.AlreadyMigratedNoChange | app/src/main/java/com/example/rtsp_viewer_2/SettingsFragment.kt:66-69 | with `rtsp_url_1` present the store is unchanged |
| Settings.UrlCopiedToBothStreams | app/src/main/java/com/example/rtsp_viewer_2/SettingsFragment.kt:71-78 | when migrating, `rtsp_url_1` and `rtsp_url_2` both get the old `rtsp_url` |
| Settings.FieldCopiedIffPresent | app/src/main/java/com/example/rtsp_viewer_2/SettingsFragment.kt:72-82 | when migrating, each legacy key that is set is copied to its `_1` and `_2` keys; for one that is not, those keys keep what they had |
| Settings.OtherKeysUnchanged | app/src/main/java/com/example/rtsp_viewer_2/SettingsFragment.kt:55-87 | every key outside the ten `_1`/`_2` targets keeps its entry or its absence |
| Settings.LegacyKeysKept | app/src/main/java/com/example/rtsp_viewer_2/SettingsFragment.kt:55-87 | the five legacy keys are never removed or changed |
| Settings.MigrationIdempotent | app/src/main/java/com/example/rtsp_viewer_2/SettingsFragment.kt:66-71 | migrating a migrated store changes nothing |
| Settings.CopyToStreamEffect | app/src/main/java/com/example/rtsp_viewer_2/SettingsFragment.kt:70-82 | one "copy to stream" block copies every set legacy value and writes no key outside its stream |
| Settings.MigrationMatches | app/src/main/java/com/example/rtsp_viewer_2/SettingsFragment.kt:69-85 | the stream 1 and stream 2 blocks applied in turn give exactly the migrated store |
| Settings.MigrateOldPreferences | app/src/main/java/com/example/rtsp_viewer_2/SettingsFragment.kt:55-87 | the store after the method is the migrated store of the one before |
| Settings.OnPreferenceChange | app/src/main/java/com/example/rtsp_viewer_2/SettingsFragment.kt:89-92 | every change is accepted |
| Settings.Migrated | app/src/main/java/com/example/rtsp_viewer_2/SettingsFragment.kt:66-85 | the store after migration: unchanged unless `rtsp_url` is set and `rtsp_url_1` is not, and then overridden by each set legacy value under its `_1` and `_2` keys |
| Settings.CopyToStream | app/src/main/java/com/example/rtsp_viewer_2/SettingsFragment.kt:70-82 | one copy block: the legacy URL and each set legacy value put under its key plus the suffix |
| Settings.GetString | app/src/main/java/com/example/rtsp_viewer_2/SettingsFragment.kt:60-64 | `getString(key, null)`: the value when the key is present, otherwise none |
| Settings.ShouldMigrate | app/src/main/java/com/example/rtsp_viewer_2/SettingsFragment.kt:69 | the guard: `rtsp_url` is set and `rtsp_url_1` is not |

## Left out

- RTSP playback, the status listener, `PixelCopy`, `Handler` scheduling and `runOnUiThread` are left out. These are I/O and framework callbacks. A tick is one synchronous `ProcessFrame` call that receives the frame, so the interval and delay constants (300 ms, 1000 ms) do not appear.
- The fragment's view state is a boolean parameter `attached`. In `Start` it stands for `_binding != null`, the only such test of `startMotionDetection`. In `ProcessFrame` it stands for `isAdded && _binding != null`. In `stopMotionDetection` the `_binding` test only guards UI updates, which are left out.
- Grayscale conversion and the resampling inside `createScaledBitmap` are library calls that are not part of this model. `ProcessFrame` takes the downscaled grayscale pixels as input. Only their size, `ScaledDimension` of each side, is computed.
- The exception path of the grayscale/downscale step is not modelled. The modelled code has no failure on a valid frame.
- Bitmap recycling, the diff bitmap and `setPixels`, logging, toasts and the status text ("Motion: Yes!", "Motion: No", "Motion: Off") are left out: they do not affect the detector state. `ProcessFrame` returns the tick outcome instead of setting the status text.
- The overlay is left out. `AspectRatioFrameLayout.kt` and `MotionOverlayView.kt` are float layout and drawing. The regions handed to the overlay are returned, but not the width and height that scale them.
- `REGION_SIZE_THRESHOLD` is declared in the source but never used, so it has no counterpart.
- Frames.ScaledDimension: computes `n / 2` exactly. It does not model the 32-bit float product `n * 0.5f`, which is exact for every realistic bitmap side.
- Frames.AtLeastPermille: compares exact rationals. It does not model `Double` rounding of `part / whole * 100` at a ratio exactly on the threshold.
- `width * height` and the key counters are unbounded integers. A 32-bit overflow needs a frame of more than two billion pixels, or more than two billion consecutive ticks.
- MotionDetection.MotionDetector.CollectActiveRegions: visits the history keys in an arbitrary order, not a `HashMap` iteration order. Its contract fixes the set of regions and that each appears once, not their order.
- RegionKey.ParseInt: accepts ASCII digits only. Kotlin's `toInt` also accepts other Unicode decimal digits, which `"${gx}_${gy}"` never produces.
- `onCreatePreferences` (listener registration) and `onStop` (navigation) are framework wiring and are left out. `editor.apply()`, which writes asynchronously, is an immediate update of the store.
- The preference store is a map from keys to strings. So the model assumes that the five legacy keys and `rtsp_url_1` hold strings when present. `getString` on a legacy key that holds a value of another type throws `ClassCastException`; that path is left out. `contains("rtsp_url_1")`, which holds for a value of any type, is key membership in the model.
