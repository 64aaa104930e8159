/** The bookkeeping of `process_images_for_folder`: which files of a source
    folder are converted, in what order, to what size and under what name, and
    what the run writes. Pixel work (decode, orientation, colour conversion,
    resampling, WebP encoding) is an oracle: a map from file name to the size
    of the image after orientation correction, holding exactly the names whose
    processing completes without raising. */
module ProcessImages {
  import opened PathNames
  import opened NameOrder

  /** Pixel size of an image, as `img.size` reports it. */
  datatype Dims = Dims(width: nat, height: nat)

  /** One manifest element; the JSON object `{url, width, height, title}`. */
  datatype Entry = Entry(url: string, width: nat, height: nat, title: string)

  /** The effects a run has outside itself, in the order it has them. */
  datatype Effect =
    | MakeDirs(path: string)
    | SaveWebp(path: string, width: nat, height: nat)
    | UpdateGalleryHtml(galleryId: string, photos: seq<Entry>)
    | WriteJson(path: string, photos: seq<Entry>)

  /** What the file system looks like when the run starts: whether the output
      and source folders exist, and the source folder's listing. */
  datatype Disk = Disk(outputPresent: bool, sourcePresent: bool, listing: seq<string>)

  const SupportedFormats: seq<string> := [".jpg", ".jpeg", ".png", ".webp", ".heic", ".heif", ".tiff"]
  const DefaultMaxWidth: nat := 2560
  const OutputExtension: string := ".webp"
  const ManifestFile: string := "index.json"

  /** `s.endswith(suffixes)` for a tuple of suffixes. */
  predicate EndsWithAny(s: string, suffixes: seq<string>)
  {
    suffixes != [] && (EndsWith(s, suffixes[0]) || EndsWithAny(s, suffixes[1..]))
  }

  /** `f.lower().endswith(supported_formats)`. */
  predicate IsSupported(name: string)
  {
    EndsWithAny(Lower(name), SupportedFormats)
  }

  /** The list comprehension that keeps the supported names of a listing. */
  function Select(listing: seq<string>): (r: seq<string>)
    ensures |r| <= |listing|
    ensures forall x :: x in r <==> x in listing && IsSupported(x)
  {
    if listing == [] then []
    else (if IsSupported(listing[0]) then [listing[0]] else []) + Select(listing[1..])
  }

  /** A supported name is kept as often as it is listed, any other name never. */
  lemma {:induction false} SelectCounts(listing: seq<string>)
    ensures forall x :: multiset(Select(listing))[x] == if IsSupported(x) then multiset(listing)[x] else 0
  {
    if listing != [] {
      assert listing == [listing[0]] + listing[1..];
      SelectCounts(listing[1..]);
    }
  }

  /** `q` is the floor of `n / d`. */
  predicate IsFloorQuotient(q: nat, n: nat, d: nat)
  {
    q * d <= n < (q + 1) * d
  }

  /** The size a decoded image is saved at: images wider than `maxWidth` are
      scaled to that width with the height truncated, others are kept. */
  function TargetSize(d: Dims, maxWidth: nat): (r: Dims)
    ensures r.width <= maxWidth
    ensures d.width <= maxWidth ==> r == d
    ensures d.width > maxWidth ==>
      && r.width == maxWidth
      && IsFloorQuotient(r.height, d.height * maxWidth, d.width)
      && r.height <= d.height
  {
    if d.width > maxWidth then
      var q := d.height * maxWidth / d.width;
      ScaledHeight(d.height, maxWidth, d.width, q);
      Dims(maxWidth, q)
    else d
  }

  /** Truncating division of `h * m` by `w` when `w > m`: the floor of the
      exact quotient, hence never more than `h`. */
  lemma ScaledHeight(h: nat, m: nat, w: nat, q: nat)
    requires w > m && q == h * m / w
    ensures IsFloorQuotient(q, h * m, w)
    ensures q <= h
  {
    var r := h * m % w;
    assert h * m == q * w + r && 0 <= r < w;
    MulMono(h, m, w);
    MulCancel(q, h, w);
  }

  lemma MulMono(a: nat, b: nat, c: nat)
    requires b <= c
    ensures a * b <= a * c
  {
  }

  lemma MulCancel(a: nat, b: nat, c: nat)
    requires c > 0 && a * c <= b * c
    ensures a <= b
  {
  }

  /** `os.path.splitext(filename)[0] + ".webp"`. */
  function OutputName(name: string): string
  {
    Stem(name) + OutputExtension
  }

  /** `f"{web_path_prefix}/{output_filename}"`. */
  function Url(prefix: string, outputName: string): string
  {
    prefix + "/" + outputName
  }

  /** The entry recorded for a file saved at `size`. */
  function EntryFor(name: string, prefix: string, size: Dims): Entry
  {
    Entry(Url(prefix, OutputName(name)), size.width, size.height, Stem(name))
  }

  /** `source_folder.split('/')[-1]`, the id of the gallery page to update. */
  function GalleryId(sourceFolder: string): string
  {
    LastSegment(sourceFolder)
  }

  /** The names of `files` whose processing completes, in their order. */
  function Succeeded(files: seq<string>, decoded: map<string, Dims>): (r: seq<string>)
    ensures forall x :: x in r <==> x in files && x in decoded
  {
    if files == [] then []
    else
      var last := files[|files| - 1];
      assert files == files[..|files| - 1] + [last];
      Succeeded(files[..|files| - 1], decoded) + (if last in decoded then [last] else [])
  }

  /** The names of `files` whose processing raises, in their order. */
  function Failed(files: seq<string>, decoded: map<string, Dims>): (r: seq<string>)
    ensures forall x :: x in r <==> x in files && x !in decoded
  {
    if files == [] then []
    else
      var last := files[|files| - 1];
      assert files == files[..|files| - 1] + [last];
      Failed(files[..|files| - 1], decoded) + (if last in decoded then [] else [last])
  }

  /** `image_data` after the loop has walked `files`. */
  function Manifest(files: seq<string>, prefix: string, maxWidth: nat, decoded: map<string, Dims>): (r: seq<Entry>)
    ensures |r| <= |files|
    ensures forall k :: 0 <= k < |r| ==> r[k].width <= maxWidth
  {
    if files == [] then []
    else
      var name := files[|files| - 1];
      var earlier := Manifest(files[..|files| - 1], prefix, maxWidth, decoded);
      if name in decoded then earlier + [EntryFor(name, prefix, TargetSize(decoded[name], maxWidth))]
      else earlier
  }

  /** The WebP files the loop writes while walking `files`. */
  function Saves(files: seq<string>, outputFolder: string, maxWidth: nat, decoded: map<string, Dims>): (r: seq<Effect>)
    ensures |r| <= |files|
    ensures forall k :: 0 <= k < |r| ==> r[k].SaveWebp? && r[k].width <= maxWidth
  {
    if files == [] then []
    else
      var name := files[|files| - 1];
      var earlier := Saves(files[..|files| - 1], outputFolder, maxWidth, decoded);
      if name in decoded then
        var size := TargetSize(decoded[name], maxWidth);
        earlier + [SaveWebp(Join(outputFolder, OutputName(name)), size.width, size.height)]
      else earlier
  }

  /** One more file walked: the manifest grows by that file's entry when it
      succeeds, and stays as it was otherwise. */
  lemma ManifestOneMore(files: seq<string>, name: string, prefix: string, maxWidth: nat, decoded: map<string, Dims>)
    ensures Manifest(files + [name], prefix, maxWidth, decoded)
      == Manifest(files, prefix, maxWidth, decoded)
         + (if name in decoded then [EntryFor(name, prefix, TargetSize(decoded[name], maxWidth))] else [])
  {
    assert (files + [name])[..|files|] == files;
  }

  /** One more file walked: the writes grow by that file's WebP file when it
      succeeds, and stay as they were otherwise. */
  lemma SavesOneMore(files: seq<string>, name: string, outputFolder: string, maxWidth: nat, decoded: map<string, Dims>)
    ensures var size := if name in decoded then TargetSize(decoded[name], maxWidth) else Dims(0, 0);
      Saves(files + [name], outputFolder, maxWidth, decoded)
      == Saves(files, outputFolder, maxWidth, decoded)
         + (if name in decoded then [SaveWebp(Join(outputFolder, OutputName(name)), size.width, size.height)] else [])
  {
    assert (files + [name])[..|files|] == files;
  }

  /** Walking `a` and then `b` gives the entries of `a` followed by those of
      `b`: each file's entry depends on that file alone. */
  lemma {:induction false} ManifestAppend(a: seq<string>, b: seq<string>, prefix: string, maxWidth: nat,
                                          decoded: map<string, Dims>)
    ensures Manifest(a + b, prefix, maxWidth, decoded)
      == Manifest(a, prefix, maxWidth, decoded) + Manifest(b, prefix, maxWidth, decoded)
  {
    if b == [] {
      assert a + b == a;
    } else {
      var init, name := b[..|b| - 1], b[|b| - 1];
      assert a + b == (a + init) + [name] && b == init + [name];
      ManifestAppend(a, init, prefix, maxWidth, decoded);
      ManifestOneMore(a + init, name, prefix, maxWidth, decoded);
      ManifestOneMore(init, name, prefix, maxWidth, decoded);
    }
  }

  /** Walking `a` and then `b` writes the WebP files of `a` and then those of `b`. */
  lemma {:induction false} SavesAppend(a: seq<string>, b: seq<string>, outputFolder: string, maxWidth: nat,
                                       decoded: map<string, Dims>)
    ensures Saves(a + b, outputFolder, maxWidth, decoded)
      == Saves(a, outputFolder, maxWidth, decoded) + Saves(b, outputFolder, maxWidth, decoded)
  {
    if b == [] {
      assert a + b == a;
    } else {
      var init, name := b[..|b| - 1], b[|b| - 1];
      assert a + b == (a + init) + [name] && b == init + [name];
      SavesAppend(a, init, outputFolder, maxWidth, decoded);
      SavesOneMore(a + init, name, outputFolder, maxWidth, decoded);
      SavesOneMore(init, name, outputFolder, maxWidth, decoded);
    }
  }

  /** The files the loop walks: the supported names, sorted. */
  function Files(listing: seq<string>): (r: seq<string>)
    ensures Sorted(r)
    ensures forall x :: x in r <==> x in listing && IsSupported(x)
    ensures multiset(r) == multiset(Select(listing))
  {
    var r := SortNames(Select(listing));
    assert forall x :: x in r <==> x in multiset(Select(listing));
    r
  }

  /** Everything one call of `process_images_for_folder` does, in order. */
  function FolderRun(disk: Disk, sourceFolder: string, outputFolder: string, prefix: string,
                     maxWidth: nat, decoded: map<string, Dims>): seq<Effect>
  {
    var setup := if disk.outputPresent then [] else [MakeDirs(outputFolder)];
    var files := Files(disk.listing);
    if !disk.sourcePresent || files == [] then setup
    else
      var photos := Manifest(files, prefix, maxWidth, decoded);
      setup + Saves(files, outputFolder, maxWidth, decoded)
        + [UpdateGalleryHtml(GalleryId(sourceFolder), photos), WriteJson(Join(outputFolder, ManifestFile), photos)]
  }

  /** The `for filename in files` loop: each file either yields a WebP file
      and a manifest entry or, when its processing raises, nothing. */
  method ConvertAll(files: seq<string>, outputFolder: string, webPathPrefix: string,
                    maxWidth: nat, decoded: map<string, Dims>)
    returns (imageData: seq<Entry>, saved: seq<Effect>)
    ensures imageData == Manifest(files, webPathPrefix, maxWidth, decoded)
    ensures saved == Saves(files, outputFolder, maxWidth, decoded)
  {
    imageData, saved := [], [];
    for i := 0 to |files|
      invariant imageData == Manifest(files[..i], webPathPrefix, maxWidth, decoded)
      invariant saved == Saves(files[..i], outputFolder, maxWidth, decoded)
    {
      var filename := files[i];
      assert files[..i + 1] == files[..i] + [filename];
      ManifestOneMore(files[..i], filename, webPathPrefix, maxWidth, decoded);
      SavesOneMore(files[..i], filename, outputFolder, maxWidth, decoded);
      if filename in decoded {
        var size := TargetSize(decoded[filename], maxWidth);
        var outputFilename := OutputName(filename);
        saved := saved + [SaveWebp(Join(outputFolder, outputFilename), size.width, size.height)];
        imageData := imageData + [Entry(Url(webPathPrefix, outputFilename), size.width, size.height, Stem(filename))];
      }
    }
    assert files[..|files|] == files;
  }

  /** The function body: create the output folder, give up when the source
      folder is missing or holds no supported file, otherwise convert the
      files in sorted order, skipping those that fail, then hand the list to
      the page updater and write it as `index.json`. */
  method ProcessImagesForFolder(disk: Disk, sourceFolder: string, outputFolder: string, webPathPrefix: string,
                                maxWidth: nat, decoded: map<string, Dims>)
    returns (effects: seq<Effect>)
    ensures effects == FolderRun(disk, sourceFolder, outputFolder, webPathPrefix, maxWidth, decoded)
  {
    effects := [];
    if !disk.outputPresent {
      effects := effects + [MakeDirs(outputFolder)];
    }
    if !disk.sourcePresent {
      return;
    }
    var files := Files(disk.listing);
    if files == [] {
      return;
    }
    var imageData, saved := ConvertAll(files, outputFolder, webPathPrefix, maxWidth, decoded);
    effects := effects + saved + [UpdateGalleryHtml(GalleryId(sourceFolder), imageData),
                                  WriteJson(Join(outputFolder, ManifestFile), imageData)];
  }
}
