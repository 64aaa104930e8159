/** A worked run: a folder whose supported names are `a.png` (800x600),
    `B.jpg` (3000x2000) and a `c.heic` that fails to decode. */
module ManifestScenario {
  import opened PathNames
  import opened NameOrder
  import opened ProcessImages
  import opened ManifestProperties

  const Decoded: map<string, Dims> := map["a.png" := Dims(800, 600), "B.jpg" := Dims(3000, 2000)]
  const Prefix: string := "../images/g"

  const Listing: seq<string> := ["a.png", "B.jpg", "c.heic"]

  lemma ScenarioSupportedA()
    ensures IsSupported("a.png")
  {
    LowerKeepsLowerCase("a.png");
    assert "a.png"[1..] == ".png";
    EndsWithFormat("a.png", SupportedFormats, 2);
  }

  lemma ScenarioSupportedB()
    ensures IsSupported("B.jpg")
  {
    assert Lower("B.jpg") == "b.jpg";
    assert "b.jpg"[1..] == ".jpg";
    EndsWithFormat("b.jpg", SupportedFormats, 0);
  }

  lemma ScenarioSupportedC()
    ensures IsSupported("c.heic")
  {
    LowerKeepsLowerCase("c.heic");
    assert "c.heic"[1..] == ".heic";
    EndsWithFormat("c.heic", SupportedFormats, 4);
  }

  /** All three listed names are selected, and walked in case-sensitive order. */
  lemma ScenarioFiles()
    ensures Files(Listing) == ["B.jpg", "a.png", "c.heic"]
  {
    ScenarioSupportedA();
    ScenarioSupportedB();
    ScenarioSupportedC();
    assert Select(Listing[2..]) == ["c.heic"];
    assert Select(Listing[1..]) == ["B.jpg", "c.heic"];
    assert Select(Listing) == Listing;
    ScenarioOrder();
  }

  lemma ScenarioSorted()
    ensures Sorted(["B.jpg", "a.png", "c.heic"])
  {
    assert LessEq("B.jpg", "a.png");
    assert LessEq("B.jpg", "c.heic");
    assert LessEq("a.png", "c.heic");
  }

  /** `sorted` is case-sensitive: the upper-case `B` sorts before `a`. */
  lemma ScenarioOrder()
    ensures SortNames(["a.png", "B.jpg", "c.heic"]) == ["B.jpg", "a.png", "c.heic"]
  {
    ScenarioSorted();
    var expected := ["B.jpg", "a.png", "c.heic"];
    assert multiset(expected) == multiset(["a.png", "B.jpg", "c.heic"]);
    SortedArrangementUnique(SortNames(["a.png", "B.jpg", "c.heic"]), expected);
  }

  /** 2000 * 2560 / 3000 is 1706.67, truncated to 1706. */
  lemma ScenarioScaling()
    ensures TargetSize(Dims(3000, 2000), DefaultMaxWidth) == Dims(2560, 1706)
  {
    var r := TargetSize(Dims(3000, 2000), 2560);
    assert r.height * 3000 <= 5120000 < (r.height + 1) * 3000;
  }

  lemma ScenarioEntryB()
    ensures EntryFor("B.jpg", Prefix, TargetSize(Decoded["B.jpg"], DefaultMaxWidth))
      == Entry("../images/g/B.webp", 2560, 1706, "B")
  {
    ScenarioScaling();
    StemExamples();
    assert "B" + ".webp" == "B.webp";
    assert Prefix + "/" == "../images/g/";
    assert "../images/g/" + "B.webp" == "../images/g/B.webp";
  }

  lemma ScenarioEntryA()
    ensures EntryFor("a.png", Prefix, TargetSize(Decoded["a.png"], DefaultMaxWidth))
      == Entry("../images/g/a.webp", 800, 600, "a")
  {
    assert "a"[0] != '.' && "a"[0..] == "a";
    SplitExtFindsEveryExtension("a", ".png");
    assert "a" + ".png" == "a.png";
    assert "a" + ".webp" == "a.webp";
    assert Prefix + "/" == "../images/g/";
    assert "../images/g/" + "a.webp" == "../images/g/a.webp";
  }

  lemma ScenarioFirstEntry()
    ensures Manifest(["B.jpg"], Prefix, DefaultMaxWidth, Decoded) == [Entry("../images/g/B.webp", 2560, 1706, "B")]
  {
    ScenarioEntryB();
    ManifestOneMore([], "B.jpg", Prefix, DefaultMaxWidth, Decoded);
    assert [] + ["B.jpg"] == ["B.jpg"];
  }

  lemma ScenarioFirstEntries()
    ensures Manifest(["B.jpg", "a.png"], Prefix, DefaultMaxWidth, Decoded)
      == [Entry("../images/g/B.webp", 2560, 1706, "B"), Entry("../images/g/a.webp", 800, 600, "a")]
  {
    ScenarioFirstEntry();
    ScenarioEntryA();
    ManifestOneMore(["B.jpg"], "a.png", Prefix, DefaultMaxWidth, Decoded);
    assert ["B.jpg"] + ["a.png"] == ["B.jpg", "a.png"];
  }

  lemma ScenarioAllEntries()
    ensures Manifest(["B.jpg", "a.png", "c.heic"], Prefix, DefaultMaxWidth, Decoded)
      == [Entry("../images/g/B.webp", 2560, 1706, "B"), Entry("../images/g/a.webp", 800, 600, "a")]
  {
    ScenarioFirstEntries();
    assert "c.heic" !in Decoded;
    ManifestOneMore(["B.jpg", "a.png"], "c.heic", Prefix, DefaultMaxWidth, Decoded);
    assert ["B.jpg", "a.png"] + ["c.heic"] == ["B.jpg", "a.png", "c.heic"];
  }

  /** The manifest holds `B` scaled to 2560x1706 and then `a` unchanged; the
      undecodable `c.heic` gives no entry. */
  lemma ScenarioManifest()
    ensures Manifest(Files(Listing), Prefix, DefaultMaxWidth, Decoded)
      == [Entry("../images/g/B.webp", 2560, 1706, "B"), Entry("../images/g/a.webp", 800, 600, "a")]
  {
    ScenarioFiles();
    ScenarioAllEntries();
  }

  /** Two files that differ only in their extension share a title, a WebP file
      and a url: the second one converted overwrites the first one's output,
      and the manifest lists the same url twice. */
  lemma CollidingStems()
    ensures OutputName("a.jpg") == OutputName("a.png") == "a.webp"
    ensures EntryFor("a.jpg", Prefix, Dims(800, 600)).url == EntryFor("a.png", Prefix, Dims(640, 480)).url
  {
    assert "a"[0] != '.' && "a"[0..] == "a";
    SplitExtFindsEveryExtension("a", ".png");
    assert "a" + ".png" == "a.png";
    SplitExtFindsEveryExtension("a", ".jpg");
    assert "a" + ".jpg" == "a.jpg";
    assert "a" + ".webp" == "a.webp";
  }
}
