# Image dataset scripts, modelled in Dafny

The repository has two batch scripts. This project models the core of each.

- **Statistics pass** (`analyze_dataset.py`). It walks a directory tree. For every
  file named `*.png`, `*.jpg` or `*.jpeg` (in any letter case) it counts images,
  resolutions, formats and colour modes, and it tracks the smallest and largest
  resolution in (width, height) order. It prints one report for the whole tree,
  or, in per-subdirectory mode, one report per visited directory that holds an
  image file, the root included.
- **Normalizer** (`prepare_datasets.py`). For each source directory in order, it
  resizes or centre-crops every `*.png`, `*.jpg` or `*.jpeg` file (this time the
  letter case matters) to a target size. It writes the result into one flat
  output directory as `<source dir name>_<file name>`.

Modules:

- `Wrappers` (wrappers.dfy): `Option`, the model of Python's `None`.
- `CountMaps` (counts.dfy): a `defaultdict(int)` that is only incremented. It
  is a sequence of (key, count) pairs in insertion order, because a Python dict
  iterates its keys in the order they were first inserted.
- `ImageScope` (scope.dfy): the accumulator of one scope (`Scope`). `AddFile`
  is one iteration of the file loop and `AddFiles` is the whole loop.
- `Report` (report.dfy): `print_results`. `ReportLines` is the specification
  and the `PrintResults` method is the loop-and-append implementation.
- `Analyze` (analyze.dfy): `analyze_images`. The `Aggregator` class holds the
  function's mutable locals. `AnalyzeImages` is the walk loop, proved equal to
  the fold `AnalyzeRun`.
- `Crop` (crop.dfy): `resize_and_crop_image`. It covers the branch rule, the
  crop offsets, and NumPy slicing with Python's slice semantics.
- `Normalize` (normalize.dfy): the nested loop of `main`, with the output
  directory as a `map<string, Image>`.

Inputs that come from outside the code are parameters:

- The walk is a sequence of `Visit(path, files)` in the order `os.walk` yields
  directories. Each file carries what Pillow gave: `Some(size, format, mode)`,
  or `None` when opening it raised `IOError`, the one exception the code
  catches.
- Each normalizer source directory is its listing in `os.listdir` order. Each
  file carries the array `cv2.imread` returned, or `None`.
- `cv2.resize` is a function-valued parameter. The one thing assumed of it is
  `ResizesExactly`: the result has exactly the requested size. Only the lemmas
  that need this promise require it.

Four behaviours of the code that are easy to misread:

- `total_images` is raised **before** the decode attempt (analyze_dataset.py:36).
  A file that fails to decode therefore counts toward the total but toward no
  counter. As a result a section's percentages add up to less than 100 whenever
  a decode failed (`ScanPercents`).
- A whole-tree report of a tree with no images does not divide by zero. Its
  counters are empty, so no percentage is computed (`ZeroImageWholeTree`).
- In per-subdirectory mode the root's own images are reported under the root's
  label. Line 57 applies to every visited directory, and the root is never reset
  (`PerSubdirOutput`).
- For a non-negative target size, the crop offsets `int(h/2 - th/2)` cannot be
  negative in the crop branch, because that branch requires `h >= th` and
  `w >= tw`. So no clamping applies there (`CropStartExact`). The command line
  also accepts negative sizes, and then the slice bounds do leave the image.
  The model therefore takes slices with Python's full semantics: negative
  bounds count from the end, and bounds are clamped.

## Model

| member | source | states |
|---|---|---|
| `CountMaps.Bump` | analyze_dataset.py:45-47 | `d[k] += 1` raises the sum of the counter's counts by exactly one |
| `CountMaps.BumpCount` | analyze_dataset.py:45-47 | `d[k] += 1` adds one to the count read for `k` and leaves every other key's count unchanged |
| `CountMaps.BumpKeys` | analyze_dataset.py:45-47 | a key counted for the first time goes last in iteration order; a key already present keeps its place |
| `CountMaps.BumpPositive` | analyze_dataset.py:45-47 | incrementing keeps every stored count at least one |
| `CountMaps.BumpAllCount` | analyze_dataset.py:45-47 | after counting a sequence of keys from empty, each key's count is its number of occurrences in the sequence |
| `CountMaps.BumpAllSum` | analyze_dataset.py:45-47 | the counts add up to the starting sum plus the number of keys counted |
| `CountMaps.BumpAllKeys` | analyze_dataset.py:45-47 | the counter lists each key once, in first-seen order |
| `CountMaps.FirstSeenElements` | analyze_dataset.py:74 | first-seen order holds exactly the keys counted, without repetition |
| `CountMaps.PositiveSumBound` | analyze_dataset.py:74-89 | a counter with positive counts has at most as many entries as its sum, so a zero sum means no entry to print |
| `ImageScope.FailedOrSkippedFile` | analyze_dataset.py:35-55 | a file with another extension changes nothing; a file that fails to decode raises the total by one and changes no counter and neither extreme |
| `ImageScope.AddFilesTotal` | analyze_dataset.py:33-36 | every file whose lower-cased name ends in `.png`/`.jpg`/`.jpeg` adds one to the total, whether or not it decodes |
| `ImageScope.AddFilesResolutions` | analyze_dataset.py:39-45 | the resolution counter is the starting counter with the decoded sizes counted in file order |
| `ImageScope.AddFilesFormats` | analyze_dataset.py:39-46 | the format counter is the starting counter with the decoded formats counted in file order |
| `ImageScope.AddFilesModes` | analyze_dataset.py:39-47 | the mode counter is the starting counter with the decoded modes counted in file order |
| `ImageScope.AddFilesInv` | analyze_dataset.py:33-55 | scanning keeps every count positive and every counter's sum at most the total |
| `ImageScope.AddFilesAppend` | analyze_dataset.py:21-55 | scanning two file lists in turn without a reset is scanning their concatenation |
| `ImageScope.DecodedBound` | analyze_dataset.py:36-55 | the decoded images are at most the image files, equal in number exactly when no decode failed |
| `ImageScope.ScanCounts` | analyze_dataset.py:33-55 | from an empty scope: total = image files; each counter sums to the number decoded, never above the total and equal to it when nothing failed; per-key counts are occurrences; keys are in first-seen order |
| `ImageScope.ScanSmallest` | analyze_dataset.py:50-51 | from an empty scope `smallest` is a decoded size that no decoded size is lexicographically below (width first, then height); it is `None` exactly when nothing decoded |
| `ImageScope.ScanLargest` | analyze_dataset.py:50-53 | from an empty scope `largest` is a decoded size that no decoded size is lexicographically above; it is `None` exactly when nothing decoded |
| `Report.InvPrintable` | analyze_dataset.py:74-89 | every scope the scan can produce has a nonzero total or empty counters, so no percentage divides by zero |
| `Report.PrintResults` | analyze_dataset.py:66-89 | the three append loops build exactly the report lines; the requires is the no-division condition |
| `Report.ReportLayout` | analyze_dataset.py:68-89 | sections come in the order directory, total, resolutions, smallest, largest, formats, modes; each section lists its keys in iteration order with the count recorded for that key |
| `Report.PercentSumExact` | analyze_dataset.py:74-75 | the percentages computed for a counter add up to (sum of its counts / total) × 100 |
| `Report.ReportPercents` | analyze_dataset.py:72-89 | in a report with a nonzero total, the resolution, format and mode sections sit at their places in the report, and the percent fields of each add up to that counter's sum over the total, times 100 |
| `Report.ShareIsHundred` | analyze_dataset.py:35-55 | the share of image files that decoded is at most 100%, and exactly 100% when no image file failed to decode, so below 100% once one failed |
| `Report.ScanPercents` | analyze_dataset.py:33-89 | for a directory scan with at least one image file, each section's printed percentages add up to the share of image files that decoded: exactly 100 when none failed, and below 100 once one did |
| `Analyze.VisitStep` | analyze_dataset.py:21-59 | one iteration of the walk loop keeps the scope invariant that makes its report printable |
| `Analyze.Walk` | analyze_dataset.py:21-59 | the walk loop keeps the scope invariant throughout |
| `Analyze.Aggregator.constructor` | analyze_dataset.py:8-18 | all counters start empty, both extremes `None`, and the subdirectory count zero |
| `Analyze.Aggregator.EnterDirectory` | analyze_dataset.py:22-31 | a directory other than the root adds one to the subdirectory count and, in per-subdirectory mode only, empties every counter and both extremes |
| `Analyze.Aggregator.ScanFiles` | analyze_dataset.py:33-55 | the file loop leaves the state equal to the scan of the directory's files from the state before it |
| `Analyze.Aggregator.ScanFile` | analyze_dataset.py:34-55 | one file changes the fields exactly as `AddFile` does and leaves the subdirectory count |
| `Analyze.AnalyzeImages` | analyze_dataset.py:6-64 | a run emits exactly the outputs of the fold `AnalyzeRun` over the visits |
| `Analyze.WalkWholeTree` | analyze_dataset.py:18-55 | in whole-tree mode nothing is emitted during the walk; the scope is the scan of every file of the tree and the counter counts the non-root visits |
| `Analyze.WholeTreeOutput` | analyze_dataset.py:61-64 | whole-tree mode emits exactly one report, labelled with the root, over all files of the tree, followed by the subdirectory count |
| `Analyze.SubdirsOfWalk` | analyze_dataset.py:18-23 | on a walk (root first, no other visit has the root's path) the subdirectory count is the number of visits after the root |
| `Analyze.ZeroImageWholeTree` | analyze_dataset.py:61-89 | a whole-tree run over a tree without image files reports total 0, no entries, both extremes `None`, and divides by nothing |
| `Analyze.WalkPerSubdir` | analyze_dataset.py:22-59 | in per-subdirectory mode, on a walk, each directory is scanned from an empty scope (the root from the initial one, the others after a reset) |
| `Analyze.PerSubdirOutput` | analyze_dataset.py:57-59 | in per-subdirectory mode, on a walk, a report is emitted for a directory (the root included) exactly when it holds an image file, in walk order, each over that directory's files only, and nothing else is emitted |
| `Crop.CropStartExact` | prepare_datasets.py:18 | when the target fits, `int(n/2 - t/2)` is `(n - t) / 2` rounded down, is non-negative, and start + t ≤ n |
| `Crop.WindowInside` | prepare_datasets.py:19 | a slice window inside a rectangular image is exactly `th` rows of `tw` pixels, pixel (i, j) being source pixel (start_row + i, start_col + j) |
| `Crop.CropCentreIsWindow` | prepare_datasets.py:18-19 | in the crop branch the centred crop is the window starting at `((h - th) / 2, (w - tw) / 2)` |
| `Crop.CropWindow` | prepare_datasets.py:16-19 | in the crop branch the result is exactly `th × tw` and pixel (i, j) is source pixel ((h - th)/2 + i, (w - tw)/2 + j) |
| `Crop.TargetSize` | prepare_datasets.py:14-19 | for a target of at least 1×1 the written image has exactly the target size on both branches (`size` is (width, height)) |
| `Crop.CentreOf200` | prepare_datasets.py:18-19 | a 200×200 image cropped to 100×100 is its `[50:150, 50:150]` region |
| `Normalize.NormalizeDirs` | prepare_datasets.py:35-40 | the loop over source directories, in the given order, ends in the state of the fold `Normalized`: the output map and the file whose decode stopped the run |
| `Normalize.NormalizeDir` | prepare_datasets.py:37-40 | the loop over one directory's listing performs the writes `DirJobs` describes, stopping at the first file that does not decode |
| `Normalize.FailureIsFinal` | prepare_datasets.py:11-12 | once a decode has failed, no further file is read or written |
| `Normalize.FirstFailure` | prepare_datasets.py:11-12 | the first file that does not decode stops the run, which names it and leaves exactly what the earlier files wrote |
| `Normalize.DirStopsAfterFailure` | prepare_datasets.py:37-40 | a failure within a directory's first `k` files is the outcome of the whole directory |
| `Normalize.StopsAfterFailure` | prepare_datasets.py:35-40 | a failure within the first `i` directories is the outcome of the whole run |
| `Normalize.AllDecodeNoFailure` | prepare_datasets.py:35-40 | a run in which every image file decodes does not fail |
| `Normalize.AllDecodeKeys` | prepare_datasets.py:32-40 | after such a run the output directory holds the names it already held plus every name written |
| `Normalize.LastWriteWins` | prepare_datasets.py:39-40 | a name written several times holds what the last write produced |
| `Normalize.UnwrittenUnchanged` | prepare_datasets.py:35-40 | a name that no file writes keeps its old content, whether or not the run fails |
| `Normalize.OutputsHaveTargetSize` | prepare_datasets.py:14-21 | for a target of at least 1×1, every entry of the output directory is either untouched or exactly the target size |
| `Normalize.SameNameOverwrites` | prepare_datasets.py:36-40 | two directories with the same name that both hold `img.png`: the later directory's image is the one left |
| `Normalize.OutputNameInjective` | prepare_datasets.py:39 | within one directory, distinct file names give distinct output names |
| `Normalize.OutputNameKeepsExtension` | prepare_datasets.py:38-39 | the output name ends in the source file name, so it keeps its extension and passes the same filter |
| `Normalize.DistinctDirNamesCanCollide` | prepare_datasets.py:36-39 | different directory names do not prevent a collision: `a_b` + `c.png` and `a` + `b_c.png` give the same output name |
| `Normalize.FiltersCompared` | prepare_datasets.py:38 | every name the normalizer accepts is accepted by the statistics pass |
| `Normalize.UpperCaseExtension` | prepare_datasets.py:38 | `a.PNG` is skipped by the normalizer's case-sensitive filter but counted by the statistics pass |
| `Normalize.TrailingSeparator` | prepare_datasets.py:36 | a trailing separator does not change a source directory's name |

## Left out

- A decode that raises anything other than `IOError`. The code catches only `IOError` (analyze_dataset.py:54). Any other exception from `Image.open`, such as Pillow's decompression-bomb error for very large images, ends the whole `analyze_images` run. A file's decode outcome here is either `Some` or `None`, so that abort is not modelled.
- Decoding and encoding: Pillow's `Image.open`, `cv2.imread` and `cv2.imwrite`. A decode is an input value. An encode always succeeds, including cv2's refusal to write an empty image.
- `cv2.resize` interpolation. It is floating-point code in a foreign library. Only the dimension promise `ResizesExactly` is kept, and the model says nothing about what cv2 does with a target size below 1×1.
- The filesystem: `os.walk` and `os.listdir` order, reading missing or unreadable directories, and `os.makedirs`. The visit and listing orders are inputs. The output directory is an input map, empty or not.
- Crop.CropStartExact: Python's `h/2` is a 64-bit float, exact only below 2^53. The model uses exact rationals.
- Normalize.SourceDirName: only part of `os.path.normpath` is modelled. The empty path becomes `.` and trailing `/` separators are dropped. `..`, `.`, repeated inner separators and POSIX's two leading slashes are not modelled.
- ImageScope.IsImageName: `str.lower()` is modelled for ASCII letters only.
- Text output: the f-string formatting, the `:.2f` rounding of percentages, and the newline joining. Each report line keeps the values it prints, and a percentage is the exact real `count / total * 100`.
- The `Couldn't read` warning and the writing of `image_analysis.txt`. Whether a report is saved is kept as the `saved` flag of each `Stats` output.
- `argparse`, `tqdm`, the `default_dirs` placeholder and the `__main__` guards.
