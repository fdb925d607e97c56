# Sprite-sheet auto-slicer, modelled in Dafny

This project models the logic of `DLC/sketch.js`, a browser tool. The tool
takes a horizontal sprite sheet and cuts it into frames. First it finds which
pixel columns hold any visible pixel. It then groups those columns into frame
runs, bridging small transparent gaps and dropping runs that are too narrow.
Each run is cropped to a PNG named `<prefix>_<NN>.png`. The frames are packed
into a ZIP with a `manifest.json`, or collected as session assets.

The modules follow the script's structure:

- `Wrappers` (`wrappers.dfy`): the `Option` type.
- `Runs` (`runs.dfy`): the run scan of `detectFrameRuns`.
  - `ScanRuns` mirrors the nested `while` loops.
  - It is proved against a declarative specification, `DetectSpec`.
  - A *cluster* is a maximal stretch of columns that starts and ends on an
    occupied column. No `gapTol + 1` consecutive empty columns lie inside it.
    `gapTol + 1` empty columns (or the sheet edge) lie on either side of it.
  - `DetectSpec` requires that the output is exactly the clusters at least
    `minWidth` wide, in left-to-right order.
- `Detector` (`detector.dfy`): the alpha grid of the sheet, the column
  occupancy loop, and `detectFrameRuns` as a whole.
- `Prefix` (`prefix.dfy`): `sanitizePrefix`.
  - `trim()`, `replace(/\s+/g,'_')` and `replace(/[^A-Za-z0-9_\-]/g,'_')` are
    written out over `seq<char>`.
  - The same goes for the `|| 'frames'` fallback and the callers' `|| 'frame'`.
- `Naming` (`naming.dfy`): decimal numerals, `padStart`, frame names, the
  inverse that reads an index back from a name, crop rectangles, and
  `extractRunsAsBlobs`.
- `Archive` (`archive.dfy`): `buildZipFromBlobs`.
  - The ZIP is its list of `(path, content)` entries.
  - Adding an existing path overwrites that entry in place.
  - A content is either a PNG byte size or the manifest record.
- `Session` (`session.dfy`): the page state, consisting of the sheet, the
  `slicesFiles` list and the manifest. It also covers the handlers
  `clearAll`, sheet loading, `onAutoSlice`, `onAutoSliceAndZip`,
  `onDownloadCurrentZip`, the remove button and the clamping of the form
  fields.

## Model

| member | source | states |
|---|---|---|
| Runs.ScanRuns | DLC/sketch.js:264-280 | Every run lies within the sheet, and runs are strictly increasing and do not overlap. Each is at least `minWidth` wide. The output is exactly the left-to-right list of wide clusters (`DetectSpec`): runs start and end on occupied columns, bridge gaps of at most `gapTol`, and close only when `gapTol + 1` clear columns or the edge follow. Each outer pass leaves `x` strictly larger, so the scan terminates. |
| Runs.ExtendRun | DLC/sketch.js:269-276 | From an occupied start column, the extension ends on an occupied column within the sheet. Every gap it crosses is at most `gapTol` wide, and it stops only when `gapTol + 1` clear columns or the edge follow. |
| Runs.BridgeAcrossGap | DLC/sketch.js:273-274 | Jumping a gap of at most `gapTol` columns to the next occupied column keeps the run bridged. |
| Runs.ClearBeforeStart | DLC/sketch.js:267-269 | The column where a run opens has `gapTol + 1` clear columns (or the sheet edge) on its left. |
| Runs.NoClusterInClearTail | DLC/sketch.js:267-268 | When the skip loop reaches the edge, no further cluster exists and the runs found so far are complete. |
| Runs.KeepOrdered | DLC/sketch.js:277-278 | Pushing the new run keeps the list ordered, and every run ends before the resume column `last + 1`. |
| Runs.KeepClusters | DLC/sketch.js:277 | Pushing a wide cluster keeps every listed run a wide cluster; a narrow one is not pushed. |
| Runs.ScanStepComplete | DLC/sketch.js:266-278 | After a pass, every wide cluster starting before `last + 1` has been found. |
| Runs.ScanStep | DLC/sketch.js:266-278 | One pass of the outer loop keeps the scan invariant, resuming at `last + 1`. |
| Runs.ClusterUnique | DLC/sketch.js:266-279 | Two clusters that overlap are the same cluster, so runs never overlap. |
| Runs.ClusterLeftEnd | DLC/sketch.js:266-268 | Every occupied column has a cluster start at or left of it, bridged to it. |
| Runs.ClusterRightEnd | DLC/sketch.js:269-276 | Every occupied column has a cluster end at or right of it, bridged to it: the extension loop always stops. |
| Runs.ClusterOf | DLC/sketch.js:266-276 | Every occupied column lies in some cluster. |
| Runs.OrderedSameElements | DLC/sketch.js:264-280 | Two strictly ordered run lists with the same elements are equal. |
| Runs.FirstIsLeftmost | DLC/sketch.js:264-280 | In an ordered run list the first run is the leftmost, and every later run starts after it ends. |
| Runs.DetectSpecDeterminate | DLC/sketch.js:264-280 | The specification fixes the output: two run lists meeting it for the same occupancy are equal. |
| Runs.ColumnCoverage | DLC/sketch.js:266-279 | An occupied column lies in one cluster. Any run containing it is that cluster, and the cluster is reported exactly when it is at least `minWidth` wide; a narrower cluster is dropped, not merged. |
| Runs.CoverageExactlyOnce | DLC/sketch.js:266-279 | With `minWidth` at most 1, every occupied column lies in exactly one run. |
| Runs.RunGapsBounded | DLC/sketch.js:270-273 | Every empty stretch strictly inside a run is at most `gapTol` columns long. |
| Runs.NoOccupiedNoRuns | DLC/sketch.js:266-267 | A sheet with no occupied column has no runs. |
| Runs.FullSheetOneRun | DLC/sketch.js:266-279 | A fully occupied sheet at least `minWidth` wide gives the single run `[0, width-1]`. |
| Runs.GapBridgedExample | DLC/sketch.js:270-273 | Occupancy `111 0 111` with gap tolerance 1 gives the single run `[0, 6]`. |
| Runs.ZeroTolBlocks | DLC/sketch.js:266-276 | With gap tolerance 0, a cluster is exactly a maximal block of occupied columns: every column in it is occupied, and the columns just outside are empty or off the sheet. |
| Runs.ZeroTolRunsAreBlocks | DLC/sketch.js:264-280 | With gap tolerance 0, a run is reported exactly when it is a maximal occupied block at least `minWidth` wide. |
| Runs.GapSplitExample | DLC/sketch.js:270-276 | The same occupancy with gap tolerance 0 gives `[0, 2]` and `[4, 6]`. |
| Runs.NarrowBlockDroppedExample | DLC/sketch.js:277-278 | With minimum width 4 and no gap tolerance, `111 0 1111` gives only `[4, 7]`: the narrow block is discarded. |
| Detector.ColumnOccupancy | DLC/sketch.js:254-262 | Column `x` is marked occupied if and only if some row has alpha at least the threshold (inclusive). |
| Detector.ZeroThresholdAllOccupied | DLC/sketch.js:254-262 | On a sheet with at least one row, a threshold of 0 or less marks every column occupied. |
| Detector.ThresholdBoundary | DLC/sketch.js:259 | A column whose largest alpha equals the threshold is occupied, and it is not occupied at threshold + 1. |
| Detector.DetectFrameRuns | DLC/sketch.js:245-281 | With no sheet there are no runs. Otherwise the runs lie within the sheet width and meet `DetectSpec` for the sheet's occupancy at the given threshold. |
| Prefix.Trim | DLC/sketch.js:25 | Computes `trim()` as `TrimEnd` after `TrimStart`. Its properties are stated by `TrimSpec`, `TrimStartSpec` and `TrimEndSpec`. |
| Prefix.CollapseWhitespace | DLC/sketch.js:25 | Computes `replace(/\s+/g, '_')`. Its properties are stated by `CollapseSpec`, `CollapseIdentity`, `CollapseGap` and `CollapseConcat`. |
| Prefix.ReplaceDisallowed | DLC/sketch.js:25 | Computes `replace(/[^A-Za-z0-9_\-]/g, '_')` character by character. Its properties are stated by `ReplaceConcat` and by the `AllAllowed` clause of `SanitizePrefix`. |
| Prefix.TrimStartSpec | DLC/sketch.js:25 | `TrimStart` returns the longest suffix that does not start with whitespace; everything dropped was whitespace. |
| Prefix.TrimEndSpec | DLC/sketch.js:25 | `TrimEnd` returns the longest prefix that does not end with whitespace; everything dropped was whitespace. |
| Prefix.TrimSpec | DLC/sketch.js:25 | The trimmed string neither starts nor ends with whitespace. It is empty exactly when the input is all whitespace. |
| Prefix.CollapseSpec | DLC/sketch.js:25 | After collapsing whitespace runs, no whitespace is left, the string is no longer, and only the empty string becomes empty. |
| Prefix.CollapseIdentity | DLC/sketch.js:25 | A string without whitespace is unchanged by the collapse. |
| Prefix.SanitizePrefix | DLC/sketch.js:24-27 | The result is non-empty and uses only `[A-Za-z0-9_-]`. An all-whitespace (or empty) input gives `frames`; otherwise the result is no longer than the input. |
| Prefix.FieldPrefix | DLC/sketch.js:344 | A non-empty field gives `sanitizePrefix` of the field, and an empty one gives `sanitizePrefix` of `frame`. Either way the prefix is non-empty and safe. |
| Prefix.SanitizeFixesAllowed | DLC/sketch.js:24-27 | A non-empty string of allowed characters is its own sanitisation. |
| Prefix.SanitizeIdempotent | DLC/sketch.js:24-27 | Sanitising twice is the same as sanitising once. |
| Prefix.FieldPrefixDefaults | DLC/sketch.js:344 | An empty field gives `frame`; a whitespace-only field gives `frames`. |
| Prefix.SanitizeWithoutWhitespace | DLC/sketch.js:25 | Without whitespace, sanitising only replaces disallowed characters. |
| Prefix.CollapseKeepsWord | DLC/sketch.js:25 | A whitespace-free word in front passes through the collapse unchanged. |
| Prefix.CollapseGap | DLC/sketch.js:25 | A non-empty whitespace run before a non-whitespace character becomes exactly one underscore. |
| Prefix.TrimStartDropsWhitespace | DLC/sketch.js:25 | Trimming the start removes a whole whitespace run and nothing after it. |
| Prefix.TrimStartConcat | DLC/sketch.js:25 | Trimming the start of a concatenation affects only the left part when that part does not end in whitespace. |
| Prefix.CollapseCons | DLC/sketch.js:25 | A non-whitespace character in front is kept by the collapse. |
| Prefix.CollapseConcat | DLC/sketch.js:25 | The collapse splits over a concatenation whose left part does not end in whitespace. |
| Prefix.ReplaceConcat | DLC/sketch.js:25 | Replacing disallowed characters works character by character, so it splits over concatenation. |
| Prefix.TrimmedIsFixed | DLC/sketch.js:25 | A string that neither starts nor ends with whitespace is its own trim. |
| Prefix.CollapseJoin | DLC/sketch.js:25 | Two pieces joined by a whitespace run collapse to the collapsed pieces joined by one underscore. |
| Prefix.SanitizeJoin | DLC/sketch.js:24-27 | Two trimmed pieces joined by whitespace sanitise to the two sanitised pieces joined by one underscore. |
| Prefix.SanitizeExample | DLC/sketch.js:24-27 | `"My Hero!! 2"` sanitises to `My_Hero___2`: one underscore for the space and two for `!!`. |
| Prefix.SanitizeExampleTail | DLC/sketch.js:24-27 | `"Hero!! 2"` sanitises to `Hero___2`. |
| Prefix.SanitizeExampleWord | DLC/sketch.js:24-27 | `"Hero!!"` sanitises to `Hero__`. |
| Naming.Decimal | DLC/sketch.js:298 | Computes `String(n)` for a non-negative integer. Its properties are stated by `DecimalWellFormed` and `DecimalRoundTrip`. |
| Naming.DecimalWellFormed | DLC/sketch.js:298 | `String(n)` is a non-empty digit string with no leading zero except for 0 itself. |
| Naming.DecimalRoundTrip | DLC/sketch.js:298 | Reading back the decimal numeral of `n` gives `n`. |
| Naming.PadStart | DLC/sketch.js:298 | `padStart` yields length `max(len, |s|)`, ends with `s`, and is filled with the pad character in front. |
| Naming.LeadingZerosIgnored | DLC/sketch.js:298 | Zero padding does not change the value of a digit string. |
| Naming.PaddedIndexRoundTrip | DLC/sketch.js:298 | The zero-padded index reads back as the index, whatever the pad length. |
| Naming.FrameName | DLC/sketch.js:298 | Computes the name template `${prefix}${padded index}.png`. Its properties are stated by `FrameNameShape`, `FrameNameRoundTrip` and `FrameNameInjective`. |
| Naming.FrameNameShape | DLC/sketch.js:298 | A frame name is the prefix, then at least `padLen` (and at least one) digits reading back as the index, then `.png`. |
| Naming.FrameNameRoundTrip | DLC/sketch.js:298 | Reading the index back from a frame name gives the index. |
| Naming.FrameNameInjective | DLC/sketch.js:289-300 | Under one prefix and pad length, different indices give different names. |
| Naming.CropOf | DLC/sketch.js:291-296 | Computes the `drawImage` source rectangle of a run. Its properties are stated by `CropCoversRun`. |
| Naming.CropCoversRun | DLC/sketch.js:291-296 | A crop covers exactly the run's columns and every row of the sheet; its width is `end - start + 1`. |
| Naming.ExtractRunsAsBlobs | DLC/sketch.js:283-303 | There is one frame per run, in run order. Frame `i` is cut from run `i` over the full height, carries the encoder's size, and is named with index `i + 1`, which reads back from the name. Names are pairwise distinct. |
| Naming.FrameNameExamples | DLC/sketch.js:298 | Frame 7 of `hero_` with padding 2 is `hero_07.png`; frame 123 is `hero_123.png`. |
| Archive.AddFile | DLC/sketch.js:317 | Computes JSZip's `file(path, data)`: overwrite in place or append. Its properties are stated by `AddFilePaths`, `AddFileDistinct`, `AddFileLookup`, `AddFileFresh` and `AddFileExisting`. |
| Archive.AddFilePaths | DLC/sketch.js:317 | Adding a file adds exactly its path to the archive's paths. |
| Archive.AddFileDistinct | DLC/sketch.js:317 | Adding a file never creates two entries with the same path. |
| Archive.AddFileLookup | DLC/sketch.js:317 | After adding, the path holds the new content and every other path holds what it held before. |
| Archive.AddFileFresh | DLC/sketch.js:317 | A file under a new path is appended at the end. |
| Archive.AddFileExisting | DLC/sketch.js:317 | A file under an existing path overwrites that entry where it stands. |
| Archive.EntryPathInjective | DLC/sketch.js:310-317 | Frame paths under one prefix are equal exactly when the frame names are. |
| Archive.ManifestPathFresh | DLC/sketch.js:310-332 | No frame path can be the manifest's path. |
| Archive.AddBlobs | DLC/sketch.js:316-324 | Computes the `forEach` that adds each frame file in order. Its properties are stated by `AddBlobsLookup`, `AddBlobsPaths` and `AddBlobsDistinctNames`. |
| Archive.AddBlobsLookup | DLC/sketch.js:316-324 | After adding the frames, each frame path holds the data of the last frame with that name, and the manifest path is still free. |
| Archive.AddBlobsPaths | DLC/sketch.js:316-324 | The frame files have distinct paths, none of them the manifest's. |
| Archive.AddBlobsDistinctNames | DLC/sketch.js:316-324 | With distinct names there is exactly one file per frame, in frame order. |
| Archive.BuildZip | DLC/sketch.js:306-336 | Computes `buildZipFromBlobs`: the frame files, then the manifest, named `<p>.zip`. Its properties are stated by `BuildZipContents`, `BuildZipDistinctNames` and `ManifestResolves`. |
| Archive.BuildZipContents | DLC/sketch.js:306-336 | The archive is named `<p>.zip` and has no repeated path. It is the frame files followed by `<p>/manifest.json`, which holds the manifest. Each frame path holds the last frame of that name. |
| Archive.BuildZipDistinctNames | DLC/sketch.js:306-336 | With distinct frame names the archive has one entry `<p>/assets/<p>/<name>` per frame, in order, then the manifest: `|blobs| + 1` entries. |
| Archive.ManifestFor | DLC/sketch.js:315-331 | Computes the manifest record of a frame list. Its properties are stated by `ManifestDescribesFrames`. |
| Archive.ManifestDescribesFrames | DLC/sketch.js:315-331 | The manifest has id `p`, title `Auto Slices` and version `1.0.0`. It has one asset per frame in order, each with the frame's name and size, type `image/png`, and a path that names the frame's archive entry from the root folder. |
| Archive.ManifestResolves | DLC/sketch.js:306-336 | Every manifest path, read from the root folder, names a PNG inside the archive; with distinct names it has the recorded size. |
| Archive.LastSizeOfPresent | DLC/sketch.js:316-324 | A frame name that occurs has a last occurrence. When no other frame has that name, in particular when all names are distinct, that occurrence is the frame itself. |
| Session.ClearAll | DLC/sketch.js:210-217 | Clearing leaves no sheet, no slices, and exactly the default manifest: id `auto-slices`, the fixed title and version, no assets. The session invariant holds. |
| Session.Initial | DLC/sketch.js:6-9 | The page starts with no sheet, no slices and the default manifest (id `auto-slices`, no assets). This is the state `clearAll` produces, and it satisfies the session invariant. |
| Session.LoadSheet | DLC/sketch.js:220-224 | Loading clears the session and makes the decoded sheet current. |
| Session.ReadParams | DLC/sketch.js:341-345 | Alpha is in [0, 255], minimum width at least 1, gap tolerance at least 0, padding at least 1. Empty fields take 1, 4, 4 and 2. The prefix is `FieldPrefix` of the prefix field, so a non-empty field gives its sanitisation; it is safe and non-empty. |
| Session.ClampKeepsInRange | DLC/sketch.js:341-345 | An in-range field value is kept, and an out-of-range one moves to the nearest bound. |
| Session.Describe | DLC/sketch.js:357-358 | Defined as: the manifest id becomes the prefix and the assets are replaced by the frames' entries. `DescribeKeepsInv` states that this is `ManifestFor` and keeps the invariant. |
| Session.DescribeKeepsInv | DLC/sketch.js:357-358 | Re-pointing the manifest at a safe prefix keeps the invariant and gives the manifest the archive would carry. |
| Session.SliceSheet | DLC/sketch.js:347-350 | The runs meet `DetectSpec` for the sheet at the read parameters. There is one frame per run, cropped to it, sized by the encoder and named `<prefix>_<i>`, and the names are distinct. |
| Session.AutoSlice | DLC/sketch.js:339-363 | The returned runs are exactly the wide clusters of the sheet (`DetectSpec`), none without a sheet. The state changes exactly when runs are found. Then one slice per run is appended behind the old ones: slice `i` is named with index `i + 1` and has the encoded size of run `i`'s crop. The manifest is re-pointed at the prefix, and its assets become exactly the new slices, as PNGs under `assets/<p>/`. The invariant is kept. |
| Session.AutoSliceAndZip | DLC/sketch.js:365-387 | The slices are untouched and the runs meet `DetectSpec`. An archive is produced exactly when runs are found; otherwise nothing changes. The archive is `<p>.zip`. Entry `i` is the PNG of run `i` at `<p>/assets/<p>/<name i+1>` with the encoded size, and the manifest follows it. That manifest is the session's new manifest, which lists the same frames. |
| Session.DownloadCurrentZip | DLC/sketch.js:393-410 | An archive is produced exactly when there are slices; otherwise nothing changes. The archive is `buildZipFromBlobs` of the slices' names and sizes under the field's prefix, named `<p>.zip`. The session's manifest becomes the one inside it, listing every slice in order as a PNG under `assets/<p>/`. |
| Session.SliceBlobs | DLC/sketch.js:401 | Defined as the slices' names and sizes, in order. `DownloadCurrentZip` states what is built from them. |
| Session.DownloadCurrentZipResolves | DLC/sketch.js:401-402 | Every slice is in the downloaded archive under `<p>/assets/<p>/<name>` as a PNG. When no other slice has its name, the PNG has that slice's size. |
| Session.DownloadCurrentZipDistinct | DLC/sketch.js:401-402 | With distinct slice names, the archive is one file per slice, in order, then the manifest. |
| Session.FirstIndexOf | DLC/sketch.js:190 | Returns the first index with the name, or none when no slice has it. |
| Session.WithoutName | DLC/sketch.js:194 | The filter is no longer than its input, and it keeps exactly the assets with other names. |
| Session.WithoutNameSingle | DLC/sketch.js:194 | A single asset is kept exactly when its name differs. |
| Session.WithoutNameConcat | DLC/sketch.js:194 | Filtering a concatenation filters each part and keeps the parts in order. With `WithoutNameSingle`, this fixes the filter's output, including order and repeated entries. |
| Session.WithoutNameKeepsOthers | DLC/sketch.js:194 | Filtering a name that no asset has changes nothing. |
| Session.Remove | DLC/sketch.js:189-197 | An unknown name changes nothing. Otherwise the first slice with the name is spliced out, with the others keeping their order. The manifest keeps its id, title and version, and its assets are filtered by the name: every asset with the name is dropped, and the others keep their order. |
| Session.WithoutNameInv | DLC/sketch.js:194 | Filtering assets keeps the session invariant. |
| Session.RemoveDuplicate | DLC/sketch.js:189-197 | When a name occurs twice among the slices, removing it leaves a slice with that name but no asset with it. |

## Left out

- User interface: DOM binding, event listeners, drag and drop, the log panel, thumbnails and size formatting. These are presentation only.
- The download popup, anchor clicks, object URLs and their revocation. These are browser I/O. A produced archive is returned instead.
- Image decoding, the `onload`/`onerror` callbacks and the scaled preview canvas. These are asynchronous I/O and floating point. `Session.LoadSheet` takes the decoded sheet as its argument, and a decode error is not modelled.
- Canvas drawing, `getImageData` and PNG encoding. These are foreign calls.
  - The alpha grid is the input `Detector.Sheet`.
  - The encoder is the parameter `encode`, which gives the byte size of a crop's PNG.
- JSZip's compression and its explicit folder entries. These belong to a foreign library. The archive is modelled as its file entries only.
- The JSON text of the manifest. The archive holds the manifest record itself.
- `parseInt` of non-numeric text, which gives `NaN`. A field is modelled as empty (`None`) or as an integer.
- Negative gap tolerance behaves like 0 in the scan (`EffectiveTol`). The handlers never pass one, because they clamp the field.
- Characters are Unicode scalar values. JavaScript's regular expressions see UTF-16 code units, so a character outside the Basic Multilingual Plane becomes two underscores in the browser but one in this model.
- The engine's maximum string length. `padLen` is clamped only from below (line 345), so in the browser a huge pad length makes `padStart` at line 298 throw a `RangeError`. The handler is then rejected before `slicesFiles` or the manifest change. `Naming.PadStart` and `Naming.FrameName` build names of any length, so the model appends slices where the script would have stopped with that error.
- Interleaving of the asynchronous handlers. The script's handlers are `async` and wait for PNG encoding and ZIP generation at lines 297, 334, 350, 377, 379 and 402, and a click during such a wait can run `clearAll`, a sheet load or a removal in between. Each handler is modelled as one uninterrupted step from its starting state, as if a single user waits for each action to finish.
- The archive for a concrete three-frame prefix is not given as an example. The general lemmas `BuildZipDistinctNames` and `ManifestDescribesFrames` state its layout.

## Notes

- The script's sanitiser turns `"My Hero!! 2"` into `My_Hero___2`, with three underscores: one for the space and one for each `!`. The model follows the script.
- `onAutoSlice` appends the new frames to the slice list but replaces the manifest's assets with the new frames only. After two slicing runs, the manifest therefore lists fewer assets than there are slices. The model keeps this behaviour.
- `onAutoSliceAndZip` replaces the manifest's assets without touching the slice list. The model keeps this behaviour too.
