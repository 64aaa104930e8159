# Photo gallery image pipeline: a Dafny model

This project models the bookkeeping of `process_images_for_folder`, the batch job that
turns a folder of raw photos into WebP files plus a JSON manifest
`[{url, width, height, title}, ...]`, and hands the same manifest to the gallery page updater.
The model covers the decisions made around the pixel work:

- which names of the folder listing are selected: the lower-cased name ends with one of
  `.jpg .jpeg .png .webp .heic .heif .tiff`;
- the order they are processed in: Python's `sorted`, which is case-sensitive code-point order;
- the size each image is saved at: clamped to `max_width`, with the height truncated;
- the title, output file name and url derived from each file name (`os.path.splitext`);
- the per-file failure isolation, where a file whose processing raises gives no entry and the loop goes on;
- the early exits when the source folder is missing or holds no supported file;
- the order of the run's outside effects: output folder creation, WebP writes, the page
  update and `index.json`.

Image decoding, orientation correction, colour conversion, resampling and WebP encoding are
an oracle. The oracle is a map `decoded` from file name to the image's size after orientation
correction. A name is in the map exactly when its whole `try` block completes; a name outside
the map raises. The file system is a `Disk` value: whether the output and source folders
exist, and the source folder's listing. What a run does outside itself is returned as a
sequence of `Effect`s: `MakeDirs`, `SaveWebp`, `UpdateGalleryHtml` and `WriteJson`.

Files:

- `path_names.dfy` (module `PathNames`): `str.lower`, `str.endswith`, `os.path.splitext`,
  `os.path.join` and `split('/')[-1]` with their POSIX semantics.
- `name_order.dfy` (module `NameOrder`): Python's string order and `sorted`. `sorted` is written
  as an insertion sort and proved to be the unique sorted arrangement of its input.
- `process_images.dfy` (module `ProcessImages`): the data model, the selection and size
  functions, and the specification functions `Manifest`, `Saves` and `FolderRun`. It also holds
  the methods `ConvertAll` (the `for` loop) and `ProcessImagesForFolder` (the whole function),
  both proved against those specification functions.
- `manifest_properties.dfy` (module `ManifestProperties`): the properties of a run.
- `scenario.dfy` (module `ManifestScenario`): a worked run.

Three behaviours of the code are easy to misread, and the model keeps them as written:

- The height of a downscaled image is truncated (`int(...)`), not rounded. For 3000x2000
  at `max_width` 2560 this gives 1706.
- The output folder is created before the source folder is checked, so a missing source
  folder still leaves an (empty) output folder behind.
- `sorted` is case-sensitive. In a folder holding `B.jpg` and `a.png`, `B.jpg` comes first
  (`ManifestScenario.ScenarioManifest`).

## Model

| member | source | states |
|---|---|---|
| `PathNames.SplitExt` | process_images.py:55 | root + extension is the name; the extension is empty, or it is a dot followed by no dot or separator, and the root's last component holds a character other than a dot |
| `PathNames.SplitExtFindsEveryExtension` | process_images.py:55 | every root/extension split `os.path.splitext` accepts is the one it returns, so the extension is empty exactly when no such split exists |
| `PathNames.StemExamples` | process_images.py:64 | the title of `B.jpg` is `B` and that of `a.b.PNG` is `a.b`: only the last extension goes |
| `PathNames.LeadingDotExamples` | process_images.py:64 | `.jpg` and `..heic` have no extension and keep their whole text as title: leading dots never start one |
| `PathNames.LastSegment` | process_images.py:71 | the gallery id holds no `/`, is a suffix of the source folder, and is preceded there by `/` unless it is the whole path |
| `PathNames.Join` | process_images.py:56 | an absolute file name replaces the folder; otherwise the result is folder and file name with exactly one `/` inserted between them, and none when the folder is empty or already ends in `/` |
| `PathNames.LastSegmentAfterSlash` | process_images.py:61 | the last `/`-component of `prefix + "/" + name` is `name` when `name` holds no `/` |
| `PathNames.Lower` | process_images.py:26 | lower-casing keeps the length and maps each ASCII capital to its small letter |
| `NameOrder.LessEqTotal` | process_images.py:26 | any two names are comparable under Python's string order |
| `NameOrder.LessEqTransitive` | process_images.py:26 | Python's string order is transitive |
| `NameOrder.LessEqAntisymmetric` | process_images.py:26 | two names each at most the other are equal |
| `NameOrder.SortNames` | process_images.py:26 | `sorted` returns an ascending permutation of its input |
| `NameOrder.SortedArrangementUnique` | process_images.py:26 | two ascending sequences with the same elements are equal, so `sorted`'s result is determined |
| `ProcessImages.Select` | process_images.py:17-26 | a name is kept iff it is listed and its lower-cased form ends with a supported extension |
| `ProcessImages.SelectCounts` | process_images.py:17-26 | the comprehension keeps each supported name as often as it is listed, and drops every other name |
| `ProcessImages.Files` | process_images.py:26 | the walked files are sorted, are exactly the listed supported names, and are a permutation of the comprehension's result |
| `ProcessImages.TargetSize` | process_images.py:47-52 | saved width is at most `max_width`; a fitting image keeps its size; a wider one gets `max_width` and the floor of `h * max_width / w`, which is at most `h` |
| `ProcessImages.ScaledHeight` | process_images.py:49 | the truncated height is the floor of the exact quotient and never exceeds the original height |
| `ProcessImages.Succeeded` | process_images.py:34-68 | a file gives an entry iff it is walked and its processing does not raise |
| `ProcessImages.Failed` | process_images.py:67-68 | a file is skipped iff it is walked and its processing raises |
| `ProcessImages.ManifestAppend` | process_images.py:32-65 | walking two lists one after the other gives the entries of the first followed by those of the second: each file's entry depends on that file alone |
| `ProcessImages.SavesAppend` | process_images.py:32-58 | walking two lists one after the other writes the WebP files of the first and then those of the second |
| `ProcessImages.Manifest` | process_images.py:32-65 | the manifest has at most one entry per file and every recorded width is at most `max_width` |
| `ProcessImages.Saves` | process_images.py:55-58 | at most one WebP write per file, each no wider than `max_width` |
| `ProcessImages.ConvertAll` | process_images.py:32-68 | the loop yields exactly the manifest and WebP writes of the specification, with failing files skipped and the loop going on |
| `ProcessImages.ProcessImagesForFolder` | process_images.py:12-75 | the function's effects are exactly those of the specification `FolderRun` |
| `ManifestProperties.ManifestFollowsSucceeded` | process_images.py:32-65 | the k-th entry is the entry of the k-th successful file, in walk order |
| `ManifestProperties.SucceededKeepsCounts` | process_images.py:34-68 | skipping failures keeps each successful file as often as it is walked and drops every failing one |
| `ManifestProperties.SucceededAndFailedPartition` | process_images.py:34-68 | every walked file either succeeds or fails |
| `ManifestProperties.ManifestLength` | process_images.py:60-68 | the manifest is as long as the file list less the failures |
| `ManifestProperties.SucceededKeepsOrder` | process_images.py:26-32 | skipping failures keeps the remaining files in ascending order |
| `ManifestProperties.ManifestEntries` | process_images.py:47-64 | each entry's title is the name without extension, its url is prefix, `/`, title and `.webp`, and its size obeys the width bound, is unchanged when it fits, and is clamped and truncated otherwise |
| `ManifestProperties.SavesMatchManifest` | process_images.py:55-65 | the k-th WebP file is written in the output folder under the last component of the k-th entry's url, at that entry's size |
| `ManifestProperties.UpperCaseExtensionsSelected` | process_images.py:17-26 | `X.JPG` and `beach.HeIc` are selected |
| `ManifestProperties.OtherExtensionsRejected` | process_images.py:17-26 | `x.tif` and `photo.jpg.txt` are not selected |
| `ManifestProperties.NotSupportedSuffix` | process_images.py:17-26 | a lower-case name whose last four characters end no supported extension is not selected |
| `ManifestProperties.SupportedNameEndsInLetter` | process_images.py:17-26 | a selected name is non-empty and ends in an ASCII letter, so in neither `.` nor `/` |
| `ManifestProperties.OutputNameRoundTrip` | process_images.py:55-64 | splitting a selected file's output name gives back its title and `.webp` |
| `ManifestProperties.FilesCounts` | process_images.py:17-26 | the walked list holds each supported name exactly as often as the listing does, and no other name |
| `ManifestProperties.SucceededCounts` | process_images.py:17-68 | each listed name gives as many entries as it is listed when it is supported and does not raise, and none otherwise |
| `ManifestProperties.FilesOrderFree` | process_images.py:26 | the walked list depends only on which names are listed and how often, not on the order of the listing |
| `ManifestProperties.RunOrderFree` | process_images.py:12-75 | two runs on folders with the same flags and the same names, in any order, have the same effects |
| `ManifestProperties.FilesEmptyIffNoImages` | process_images.py:26-28 | the walked list is empty iff no listed name is supported |
| `ManifestProperties.RunPublishesIffImages` | process_images.py:21-30 | the page update and `index.json` happen iff the source folder exists and lists a supported name; otherwise the only possible effect is creating the output folder |
| `ManifestProperties.RunCreatesOutputFirst` | process_images.py:13-14 | the output folder is created first, and only when it was missing |
| `ManifestProperties.PublishedEnd` | process_images.py:32-75 | a publishing run is folder creation and WebP writes, then the page update and `index.json`, both with the manifest |
| `ManifestProperties.PublishedManifest` | process_images.py:26-75 | the page updater and `index.json` receive the same list, once each and last; it has one entry per listed supported file that did not raise (as many as it is listed), in sorted name order |
| `ManifestScenario.ScenarioOrder` | process_images.py:26 | `sorted(["a.png", "B.jpg", "c.heic"])` puts `B.jpg` first |
| `ManifestScenario.ScenarioScaling` | process_images.py:47-49 | 3000x2000 at `max_width` 2560 is saved at 2560x1706 |
| `ManifestScenario.ScenarioFiles` | process_images.py:17-26 | the listing `a.png`, `B.jpg`, `c.heic` is all selected and walked as `B.jpg`, `a.png`, `c.heic` |
| `ManifestScenario.ScenarioManifest` | process_images.py:17-65 | the worked folder listing gives `[B 2560x1706, a 800x600]`, and the undecodable `c.heic` gives no entry |
| `ManifestScenario.CollidingStems` | process_images.py:55-64 | `a.jpg` and `a.png` share the output file `a.webp` and the same url |

## Left out

- Pixel work (`Image.open`, `exif_transpose`, mode conversion, LANCZOS resize, WebP encoding at the
  given `quality`): a foreign library. It is the `decoded` oracle. Its verdict covers the whole `try`
  block, including any failure of the library on the computed size (a height truncated to 0). The
  progress `print` after the append, which reads the written file's size, is taken never to raise.
- `ProcessImages.TargetSize`: computes the floor of `h * max_width / w` exactly. The source computes
  `int(h * (max_width / w))` in floating point, which can come out one lower when the exact quotient is
  a whole number.
- `PathNames.Lower`: lower-cases ASCII letters only. Python's `str.lower` applies the full Unicode case
  mapping, which is not modelled.
- Failures outside the per-file `try`: `os.makedirs` (a dangling link or an empty path at the
  output folder, an unwritable parent), `os.listdir` on a source path that is not a readable directory,
  `update_gallery_html` on a page it cannot read or write, and the `index.json` write. Each would
  propagate and end the run, leaving the effects already had (a failed page update means no
  `index.json`). The model takes these calls to succeed, so `FolderRun` always ends with the page
  update followed by the JSON write.
- Names `os.listdir` cannot decode: Python returns them with lone surrogate code points
  (`\udc80`-`\udcff`), which a Dafny `char` cannot hold. The model's selection and order cover
  names made of Unicode scalar values only.
- HEIF opener registration and every `print` diagnostic: import-time side effects and logging.
- File system calls (`os.makedirs`, `os.listdir`, file writes, `os.path.getsize`): they are the
  `Disk` input and the returned `Effect`s. The JSON formatting (`indent=4`) is not modelled.
- `update_gallery_html`: only the call and the list it receives are modelled (the `UpdateGalleryHtml`
  effect). Its page path, the no-op on a missing page, and its regular-expression rewrite depend on
  Python `re` semantics and are not modelled.
- update_html.py is not part of this model. It is a fixed HTML template written by three hardcoded calls.
- The hardcoded task list under `__main__`: configuration, not logic.
