/** What a run of `process_images_for_folder` promises: which files give
    entries, in what order, with what sizes and names, and what is written
    when. */
module ManifestProperties {
  import opened PathNames
  import opened NameOrder
  import opened ProcessImages

  /** The manifest is the successful files, in order, each mapped to its entry. */
  lemma {:induction false} ManifestFollowsSucceeded(files: seq<string>, prefix: string, maxWidth: nat,
                                                    decoded: map<string, Dims>)
    ensures |Manifest(files, prefix, maxWidth, decoded)| == |Succeeded(files, decoded)|
    ensures forall k :: 0 <= k < |Succeeded(files, decoded)| ==>
      Succeeded(files, decoded)[k] in decoded &&
      Manifest(files, prefix, maxWidth, decoded)[k]
        == EntryFor(Succeeded(files, decoded)[k], prefix,
                    TargetSize(decoded[Succeeded(files, decoded)[k]], maxWidth))
  {
    if files != [] {
      var init := files[..|files| - 1];
      ManifestFollowsSucceeded(init, prefix, maxWidth, decoded);
      var s := Succeeded(files, decoded);
      assert forall k :: 0 <= k < |s| ==> s[k] in s;
    }
  }

  /** Skipping failures keeps every successful file as often as it is walked
      and drops every failing one. */
  lemma {:induction false} SucceededKeepsCounts(files: seq<string>, decoded: map<string, Dims>)
    ensures forall x ::
      multiset(Succeeded(files, decoded))[x] == (if x in decoded then multiset(files)[x] else 0)
  {
    if files != [] {
      var init := files[..|files| - 1];
      assert files == init + [files[|files| - 1]];
      SucceededKeepsCounts(init, decoded);
    }
  }

  /** Every file of `files` either succeeds or fails, never both. */
  lemma {:induction false} SucceededAndFailedPartition(files: seq<string>, decoded: map<string, Dims>)
    ensures |Succeeded(files, decoded)| + |Failed(files, decoded)| == |files|
  {
    if files != [] {
      SucceededAndFailedPartition(files[..|files| - 1], decoded);
    }
  }

  /** One entry per file that does not raise: the manifest is as long as the
      file list less the failures. */
  lemma ManifestLength(files: seq<string>, prefix: string, maxWidth: nat, decoded: map<string, Dims>)
    ensures |Manifest(files, prefix, maxWidth, decoded)| == |files| - |Failed(files, decoded)|
  {
    ManifestFollowsSucceeded(files, prefix, maxWidth, decoded);
    SucceededAndFailedPartition(files, decoded);
  }

  lemma SortedPrefix(s: seq<string>, n: nat)
    requires Sorted(s) && n <= |s|
    ensures Sorted(s[..n])
  {
    forall i, j | 0 <= i < j < n ensures LessEq(s[..n][i], s[..n][j]) {
      assert s[..n][i] == s[i] && s[..n][j] == s[j];
    }
  }

  /** Skipping failures keeps the order of the files that remain. */
  lemma {:induction false} SucceededKeepsOrder(files: seq<string>, decoded: map<string, Dims>)
    requires Sorted(files)
    ensures Sorted(Succeeded(files, decoded))
  {
    if files != [] {
      var n := |files| - 1;
      var init := files[..n];
      SortedPrefix(files, n);
      SucceededKeepsOrder(init, decoded);
      var earlier := Succeeded(init, decoded);
      if files[n] in decoded {
        var s := Succeeded(files, decoded);
        assert s == earlier + [files[n]];
        forall i, j | 0 <= i < j < |s| ensures LessEq(s[i], s[j]) {
          if j == |s| - 1 {
            assert s[i] == earlier[i] && earlier[i] in init;
            var m :| 0 <= m < n && init[m] == s[i];
            assert files[m] == s[i];
          } else {
            assert s[i] == earlier[i] && s[j] == earlier[j];
          }
        }
      }
    }
  }

  /** What each entry records: the title is the name without its extension,
      the url names the WebP file under the prefix, and the size is the decoded
      size when it fits and otherwise the width bound with the height scaled
      down by truncation. */
  lemma ManifestEntries(files: seq<string>, prefix: string, maxWidth: nat, decoded: map<string, Dims>)
    ensures |Manifest(files, prefix, maxWidth, decoded)| == |Succeeded(files, decoded)|
    ensures forall k :: 0 <= k < |Manifest(files, prefix, maxWidth, decoded)| ==>
      var name := Succeeded(files, decoded)[k];
      var e := Manifest(files, prefix, maxWidth, decoded)[k];
      && name in files && name in decoded
      && e.title == SplitExt(name).0
      && e.url == prefix + "/" + e.title + ".webp"
      && e.width <= maxWidth
      && (decoded[name].width <= maxWidth ==> e.width == decoded[name].width && e.height == decoded[name].height)
      && (decoded[name].width > maxWidth ==>
            && e.width == maxWidth
            && e.height * decoded[name].width <= decoded[name].height * maxWidth
            && decoded[name].height * maxWidth < (e.height + 1) * decoded[name].width)
  {
    ManifestFollowsSucceeded(files, prefix, maxWidth, decoded);
    var s := Succeeded(files, decoded);
    assert forall k :: 0 <= k < |s| ==> s[k] in s;
  }

  /** Each WebP file written is the one its entry's url names, at the size the
      entry records. */
  lemma {:induction false} SavesMatchManifest(files: seq<string>, outputFolder: string, prefix: string,
                                              maxWidth: nat, decoded: map<string, Dims>)
    requires forall f :: f in files ==> '/' !in f
    ensures |Saves(files, outputFolder, maxWidth, decoded)| == |Manifest(files, prefix, maxWidth, decoded)|
    ensures forall k :: 0 <= k < |Saves(files, outputFolder, maxWidth, decoded)| ==>
      var e := Manifest(files, prefix, maxWidth, decoded)[k];
      Saves(files, outputFolder, maxWidth, decoded)[k]
        == SaveWebp(Join(outputFolder, LastSegment(e.url)), e.width, e.height)
  {
    if files != [] {
      var n := |files| - 1;
      var name, init := files[n], files[..n];
      assert forall f :: f in init ==> f in files;
      SavesMatchManifest(init, outputFolder, prefix, maxWidth, decoded);
      var saves, saves0 := Saves(files, outputFolder, maxWidth, decoded), Saves(init, outputFolder, maxWidth, decoded);
      var m, m0 := Manifest(files, prefix, maxWidth, decoded), Manifest(init, prefix, maxWidth, decoded);
      if name in decoded {
        var out := OutputName(name);
        assert '/' !in out by {
          var stem := Stem(name);
          assert name in files;
          assert forall j :: 0 <= j < |stem| ==> stem[j] == name[j];
        }
        LastSegmentAfterSlash(prefix, out);
        forall k | 0 <= k < |saves|
          ensures saves[k] == SaveWebp(Join(outputFolder, LastSegment(m[k].url)), m[k].width, m[k].height)
        {
          if k < |saves0| {
            assert saves[k] == saves0[k] && m[k] == m0[k];
          }
        }
      } else {
        assert saves == saves0 && m == m0;
      }
    }
  }

  /** The extension that makes a name supported. */
  lemma {:induction false} MatchedFormat(s: string, suffixes: seq<string>) returns (i: nat)
    requires EndsWithAny(s, suffixes)
    ensures i < |suffixes| && EndsWith(s, suffixes[i])
  {
    if EndsWith(s, suffixes[0]) {
      i := 0;
    } else {
      var j := MatchedFormat(s, suffixes[1..]);
      i := j + 1;
    }
  }

  /** Every supported extension is at least four characters long and ends in
      a lower-case letter. */
  lemma FormatShapes()
    ensures forall k :: 0 <= k < |SupportedFormats| ==>
      |SupportedFormats[k]| >= 4 && 'a' <= SupportedFormats[k][|SupportedFormats[k]| - 1] <= 'z'
      && SupportedFormats[k][|SupportedFormats[k]| - 4..] in {".jpg", "jpeg", ".png", "webp", "heic", "heif", "tiff"}
  {
    assert ".jpeg"[1..] == "jpeg" && ".webp"[1..] == "webp" && ".heic"[1..] == "heic";
    assert ".heif"[1..] == "heif" && ".tiff"[1..] == "tiff";
    assert ".jpg"[0..] == ".jpg" && ".png"[0..] == ".png";
  }

  /** Ending with any one supported extension is enough to be selected. */
  lemma {:induction false} EndsWithFormat(s: string, suffixes: seq<string>, i: nat)
    requires i < |suffixes| && EndsWith(s, suffixes[i])
    ensures EndsWithAny(s, suffixes)
  {
    if i > 0 {
      EndsWithFormat(s, suffixes[1..], i - 1);
    }
  }

  /** A name is selected regardless of the case of its extension, and only for
      the extensions in the list. */
  lemma UpperCaseExtensionsSelected()
    ensures IsSupported("X.JPG")
    ensures IsSupported("beach.HeIc")
  {
    UpperCaseJpgSelected();
    MixedCaseHeicSelected();
  }

  lemma UpperCaseJpgSelected()
    ensures IsSupported("X.JPG")
  {
    assert Lower("X.JPG") == "x.jpg";
    assert "x.jpg"[1..] == ".jpg";
    EndsWithFormat("x.jpg", SupportedFormats, 0);
  }

  lemma MixedCaseHeicSelected()
    ensures IsSupported("beach.HeIc")
  {
    assert Lower("beach.HeIc") == "beach.heic";
    assert "beach.heic"[5..] == ".heic";
    EndsWithFormat("beach.heic", SupportedFormats, 4);
  }

  /** Extensions outside the list, including the short `.tif` and an extension
      that is not the last one, are not selected. */
  lemma OtherExtensionsRejected()
    ensures !IsSupported("x.tif")
    ensures !IsSupported("photo.jpg.txt")
  {
    LowerKeepsLowerCase("x.tif");
    LowerKeepsLowerCase("photo.jpg.txt");
    NotSupportedSuffix("x.tif");
    NotSupportedSuffix("photo.jpg.txt");
  }

  /** A lower-case name whose last four characters are none of the endings of
      the supported extensions is not selected. */
  lemma NotSupportedSuffix(s: string)
    requires Lower(s) == s && |s| >= 4
    requires s[|s| - 4..] !in {".jpg", "jpeg", ".png", "webp", "heic", "heif", "tiff"}
    ensures !IsSupported(s)
  {
    if IsSupported(s) {
      var i := MatchedFormat(s, SupportedFormats);
      var e := SupportedFormats[i];
      FormatShapes();
    }
  }

  /** A selected name ends in an ASCII letter, so neither a dot nor a separator. */
  lemma SupportedNameEndsInLetter(name: string)
    requires IsSupported(name)
    ensures |name| > 0
    ensures var c := name[|name| - 1]; 'a' <= c <= 'z' || 'A' <= c <= 'Z'
  {
    var i := MatchedFormat(Lower(name), SupportedFormats);
    var ext := SupportedFormats[i];
    FormatShapes();
    assert Lower(name)[|name| - 1] == ext[|ext| - 1];
  }

  /** The title survives the conversion: splitting the output name gives back
      the title and the ".webp" extension. */
  lemma OutputNameRoundTrip(name: string)
    requires IsSupported(name)
    ensures SplitExt(OutputName(name)) == (Stem(name), ".webp")
  {
    var root := Stem(name);
    if SplitExt(name).1 == [] {
      SupportedNameEndsInLetter(name);
      WebpAfterLetter(root);
    }
    assert IsExtSplit(root, ".webp");
    SplitExtFindsEveryExtension(root, ".webp");
  }

  /** A root ending in a letter takes ".webp" as its extension. */
  lemma WebpAfterLetter(root: string)
    requires |root| > 0
    requires var c := root[|root| - 1]; 'a' <= c <= 'z' || 'A' <= c <= 'Z'
    ensures IsExtSplit(root, ".webp")
  {
    var last := |root| - 1;
    assert root[last..] == [root[last]];
    assert root[last] != '.' && '/' !in root[last..];
  }

  /** The walked list depends only on which names are listed and how often,
      not on the order `os.listdir` happens to return them in. */
  lemma FilesOrderFree(l1: seq<string>, l2: seq<string>)
    requires multiset(l1) == multiset(l2)
    ensures Files(l1) == Files(l2)
  {
    var f1, f2 := Files(l1), Files(l2);
    FilesCounts(l1);
    FilesCounts(l2);
    assert forall x :: multiset(f1)[x] == multiset(f2)[x];
    assert multiset(f1) == multiset(f2);
    SortedArrangementUnique(f1, f2);
  }

  /** Re-running on a folder with the same contents has the same effects,
      however the listing is ordered. */
  lemma RunOrderFree(d1: Disk, d2: Disk, sourceFolder: string, outputFolder: string, prefix: string,
                     maxWidth: nat, decoded: map<string, Dims>)
    requires d1.outputPresent == d2.outputPresent && d1.sourcePresent == d2.sourcePresent
    requires multiset(d1.listing) == multiset(d2.listing)
    ensures FolderRun(d1, sourceFolder, outputFolder, prefix, maxWidth, decoded)
      == FolderRun(d2, sourceFolder, outputFolder, prefix, maxWidth, decoded)
  {
    FilesOrderFree(d1.listing, d2.listing);
  }

  /** The walked file list is empty exactly when the listing holds no supported name. */
  lemma FilesEmptyIffNoImages(listing: seq<string>)
    ensures Files(listing) == [] <==> forall x :: x in listing ==> !IsSupported(x)
  {
    var files := Files(listing);
    if files != [] {
      assert files[0] in files;
    }
  }

  /** A run publishes (updates the page and writes `index.json`) exactly when
      the source folder exists and lists a supported name; otherwise its only
      possible effect is creating the output folder. */
  lemma RunPublishesIffImages(disk: Disk, sourceFolder: string, outputFolder: string, prefix: string,
                              maxWidth: nat, decoded: map<string, Dims>)
    ensures var run := FolderRun(disk, sourceFolder, outputFolder, prefix, maxWidth, decoded);
      && ((exists k :: 0 <= k < |run| && run[k].WriteJson?)
            <==> disk.sourcePresent && exists x :: x in disk.listing && IsSupported(x))
      && ((exists k :: 0 <= k < |run| && run[k].UpdateGalleryHtml?)
            <==> disk.sourcePresent && exists x :: x in disk.listing && IsSupported(x))
      && (!disk.sourcePresent || (forall x :: x in disk.listing ==> !IsSupported(x)) ==>
            run == if disk.outputPresent then [] else [MakeDirs(outputFolder)])
  {
    var run := FolderRun(disk, sourceFolder, outputFolder, prefix, maxWidth, decoded);
    var setup: seq<Effect> := if disk.outputPresent then [] else [MakeDirs(outputFolder)];
    FilesEmptyIffNoImages(disk.listing);
    if disk.sourcePresent && exists x :: x in disk.listing && IsSupported(x) {
      PublishedEnd(disk, sourceFolder, outputFolder, prefix, maxWidth, decoded);
      assert run[|run| - 1].WriteJson? && run[|run| - 2].UpdateGalleryHtml?;
    } else {
      assert run == setup;
      assert forall k :: 0 <= k < |run| ==> run[k].MakeDirs?;
    }
  }

  /** The output folder is created first and only when it was missing. */
  lemma RunCreatesOutputFirst(disk: Disk, sourceFolder: string, outputFolder: string, prefix: string,
                              maxWidth: nat, decoded: map<string, Dims>)
    ensures var run := FolderRun(disk, sourceFolder, outputFolder, prefix, maxWidth, decoded);
      && (!disk.outputPresent <==> |run| > 0 && run[0] == MakeDirs(outputFolder))
      && forall k :: 0 < k < |run| ==> !run[k].MakeDirs?
  {
    var run := FolderRun(disk, sourceFolder, outputFolder, prefix, maxWidth, decoded);
    var setup: seq<Effect> := if disk.outputPresent then [] else [MakeDirs(outputFolder)];
    var files := Files(disk.listing);
    if disk.sourcePresent && files != [] {
      var saves := Saves(files, outputFolder, maxWidth, decoded);
      var photos := Manifest(files, prefix, maxWidth, decoded);
      var tail: seq<Effect> := [UpdateGalleryHtml(GalleryId(sourceFolder), photos), WriteJson(Join(outputFolder, ManifestFile), photos)];
      assert run == setup + (saves + tail);
      forall k | 0 <= k < |saves + tail| ensures !(saves + tail)[k].MakeDirs? {
        if k < |saves| { assert (saves + tail)[k] == saves[k]; }
      }
    } else {
      assert run == setup;
    }
  }

  /** The shape of a publishing run: the optional folder creation, the WebP
      writes, then the page update and `index.json`, both with the manifest. */
  lemma PublishedEnd(disk: Disk, sourceFolder: string, outputFolder: string, prefix: string,
                     maxWidth: nat, decoded: map<string, Dims>)
    requires disk.sourcePresent && exists x :: x in disk.listing && IsSupported(x)
    ensures var run := FolderRun(disk, sourceFolder, outputFolder, prefix, maxWidth, decoded);
      var photos := Manifest(Files(disk.listing), prefix, maxWidth, decoded);
      && |run| >= 2
      && run[|run| - 2] == UpdateGalleryHtml(GalleryId(sourceFolder), photos)
      && run[|run| - 1] == WriteJson(Join(outputFolder, ManifestFile), photos)
      && (forall k :: 0 <= k < |run| - 2 ==> run[k].MakeDirs? || run[k].SaveWebp?)
  {
    var files := Files(disk.listing);
    FilesEmptyIffNoImages(disk.listing);
    var setup: seq<Effect> := if disk.outputPresent then [] else [MakeDirs(outputFolder)];
    var saves := Saves(files, outputFolder, maxWidth, decoded);
    var photos := Manifest(files, prefix, maxWidth, decoded);
    var tail := [UpdateGalleryHtml(GalleryId(sourceFolder), photos), WriteJson(Join(outputFolder, ManifestFile), photos)];
    var run := FolderRun(disk, sourceFolder, outputFolder, prefix, maxWidth, decoded);
    assert run == (setup + saves) + tail;
    forall k | 0 <= k < |run| - 2 ensures run[k].MakeDirs? || run[k].SaveWebp? {
      assert run[k] == (setup + saves)[k];
      if k >= |setup| { assert run[k] == saves[k - |setup|]; }
    }
  }

  /** The walked list holds each supported name as often as the listing does,
      and no other name: `sorted` of the comprehension is a permutation of it. */
  lemma FilesCounts(listing: seq<string>)
    ensures forall x ::
      multiset(Files(listing))[x] == (if IsSupported(x) then multiset(listing)[x] else 0)
  {
    SelectCounts(listing);
  }

  /** Each listed name gives as many entries as it is listed, when it is
      supported and does not raise, and none otherwise. */
  lemma SucceededCounts(listing: seq<string>, decoded: map<string, Dims>)
    ensures forall x ::
      multiset(Succeeded(Files(listing), decoded))[x] == (if IsSupported(x) && x in decoded then multiset(listing)[x] else 0)
  {
    var files := Files(listing);
    FilesCounts(listing);
    SucceededKeepsCounts(files, decoded);
  }

  /** When a run publishes, the page updater and `index.json` receive the very
      same list, once each, as the last two effects; that list has one entry per
      supported file that did not raise, in sorted name order. */
  lemma PublishedManifest(disk: Disk, sourceFolder: string, outputFolder: string, prefix: string,
                          maxWidth: nat, decoded: map<string, Dims>)
    requires disk.sourcePresent && exists x :: x in disk.listing && IsSupported(x)
    ensures var run := FolderRun(disk, sourceFolder, outputFolder, prefix, maxWidth, decoded);
      var files := Files(disk.listing);
      var photos := Manifest(files, prefix, maxWidth, decoded);
      && |run| >= 2
      && run[|run| - 2] == UpdateGalleryHtml(GalleryId(sourceFolder), photos)
      && run[|run| - 1] == WriteJson(Join(outputFolder, ManifestFile), photos)
      && (forall k :: 0 <= k < |run| - 2 ==> !run[k].UpdateGalleryHtml? && !run[k].WriteJson?)
      && |photos| == |files| - |Failed(files, decoded)|
      && Sorted(Succeeded(files, decoded))
      && (forall x :: x in Succeeded(files, decoded) <==> x in disk.listing && IsSupported(x) && x in decoded)
      && (forall x ::
            multiset(Succeeded(files, decoded))[x] == (if IsSupported(x) && x in decoded then multiset(disk.listing)[x] else 0))
  {
    var files := Files(disk.listing);
    SucceededCounts(disk.listing, decoded);
    PublishedEnd(disk, sourceFolder, outputFolder, prefix, maxWidth, decoded);
    ManifestLength(files, prefix, maxWidth, decoded);
    SucceededKeepsOrder(files, decoded);
  }
}
