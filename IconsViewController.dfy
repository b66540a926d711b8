/**
  The manifest bookkeeping of `IconsViewController`.

  The asset catalog's Contents.json is a `Manifest`: its `images` array,
  its `info` object and every other top-level field. `MakeScaledImages`
  walks the entries and attempts one icon per entry whose size string
  parses, returning the attempted file names; `BuildContentsJsonFile` copies those
  names index by index into the entries and stamps the author and version.
  `SaveIconFiles` runs the two one after the other.

  Two runtime traps of the source become preconditions: `first!` on a
  size string without pieces (inside the dimension parser), and
  `fileNames[index]` past the end of the name list.
 */
module IconsViewController {
  import opened Optional
  import Strings
  import Scaler
  import Numerals

  /** One object of the `images` array: its keys and their string values. */
  type Entry = map<string, string>

  /**
    Contents.json: the `images` array (None when it is missing or not an
    array), the `info` object, and every other top-level field, kept opaque.
   */
  datatype Manifest = Manifest(images: Option<seq<Entry>>, info: map<string, string>, rest: map<string, string>)

  /**
    One attempted icon: the file name it is saved under and the dimension
    the image is resampled to. The source records the name whether or not
    the resampling and the PNG write succeed.
   */
  datatype IconFile = IconFile(name: string, dimension: real)

  /** SwiftyJSON's `stringValue`: the string under `key`, or "" when there is none. */
  function StringValue(entry: Entry, key: string): string
  {
    if key in entry then entry[key] else ""
  }

  function SizeString(entry: Entry): string
  {
    StringValue(entry, "size")
  }

  function ScaleString(entry: Entry): string
  {
    StringValue(entry, "scale")
  }

  /**
    `String(format: "AppIcon%@-%@.png", size, scale)` on the raw strings:
    given the length of the size string, the size and scale strings can be
    read back from the name, between the fixed prefix, the dash and the
    extension.
   */
  function ImageFileName(entry: Entry): (name: string)
    ensures |name| == |SizeString(entry)| + |ScaleString(entry)| + 12
    ensures name[..7] == "AppIcon" && name[|name| - 4..] == ".png"
    ensures name[7..7 + |SizeString(entry)|] == SizeString(entry) && name[7 + |SizeString(entry)|] == '-'
    ensures name[8 + |SizeString(entry)|..|name| - 4] == ScaleString(entry)
  {
    "AppIcon" + SizeString(entry) + "-" + ScaleString(entry) + ".png"
  }

  /**
    When size strings hold no dash, the name determines both strings: the
    first dash after the prefix ends the size string.
   */
  lemma ImageFileNameDetermines(e1: Entry, e2: Entry)
    requires '-' !in SizeString(e1) && '-' !in SizeString(e2)
    requires ImageFileName(e1) == ImageFileName(e2)
    ensures SizeString(e1) == SizeString(e2) && ScaleString(e1) == ScaleString(e2)
  {
    if |SizeString(e1)| != |SizeString(e2)| {
      assert false;
    }
  }

  /** Without that restriction the name is ambiguous: "1-2" at "3" and "1" at "2-3". */
  lemma AmbiguousImageFileName(e1: Entry, e2: Entry)
    requires SizeString(e1) == "1-2" && ScaleString(e1) == "3"
    requires SizeString(e2) == "1" && ScaleString(e2) == "2-3"
    ensures ImageFileName(e1) == ImageFileName(e2) && SizeString(e1) != SizeString(e2)
  {
    assert ImageFileName(e1) == "AppIcon1-2-3.png" == ImageFileName(e2);
  }

  /** No entry's size string makes the dimension parser trap. */
  predicate SizesHavePieces(images: seq<Entry>)
  {
    forall i :: 0 <= i < |images| ==> Scaler.HasPiece(SizeString(images[i]))
  }

  /**
    The dimensions of an entry: its size string at its scale, where `scaleOf`
    stands for SwiftyJSON's `doubleValue` of the scale string.
   */
  function EntryDimensions(entry: Entry, scaleOf: string -> real): Option<Scaler.Dimensions>
    requires Scaler.HasPiece(SizeString(entry))
  {
    Scaler.DimensionsFromWxHString(SizeString(entry), scaleOf(ScaleString(entry)))
  }

  /**
    What makeScaledImages does with one entry: nothing when its size string
    does not parse, otherwise an icon saved under the entry's file name and
    resampled to the scaled height only.
   */
  function EntryAttempt(entry: Entry, scaleOf: string -> real): (r: Option<IconFile>)
    requires Scaler.HasPiece(SizeString(entry))
    ensures r.Some? <==>
              Numerals.IsRealNumeral(Scaler.FirstPiece(SizeString(entry)))
              && Numerals.IsRealNumeral(Scaler.LastPiece(SizeString(entry)))
    ensures r.Some? ==> r.value.name == ImageFileName(entry)
    ensures r.Some? ==>
              r.value.dimension == Scaler.Scaled(Numerals.RealNumeralValue(Scaler.LastPiece(SizeString(entry))), scaleOf(ScaleString(entry)))
  {
    var dims := EntryDimensions(entry, scaleOf);
    if dims.Some? then Some(IconFile(ImageFileName(entry), dims.value.height)) else None
  }

  /** The entry's size string parses, so an icon is made for it. */
  predicate Parses(entry: Entry, scaleOf: string -> real)
  {
    Scaler.HasPiece(SizeString(entry)) && EntryAttempt(entry, scaleOf).Some?
  }

  /** The icon made for a parsing entry. */
  function EntryIcon(entry: Entry, scaleOf: string -> real): IconFile
    requires Parses(entry, scaleOf)
  {
    EntryAttempt(entry, scaleOf).value
  }

  /** The outcome for every entry, index by index. */
  function Attempts(images: seq<Entry>, scaleOf: string -> real): (r: seq<Option<IconFile>>)
    requires SizesHavePieces(images)
    ensures |r| == |images|
  {
    seq(|images|, i requires 0 <= i < |images| && Scaler.HasPiece(SizeString(images[i])) => EntryAttempt(images[i], scaleOf))
  }

  /** The icons made for the entries, in manifest order: at most one per entry. */
  function ScaledIcons(images: seq<Entry>, scaleOf: string -> real): (icons: seq<IconFile>)
    requires SizesHavePieces(images)
    ensures |icons| <= |images|
  {
    Values(Attempts(images, scaleOf))
  }

  function Names(icons: seq<IconFile>): (names: seq<string>)
  {
    seq(|icons|, k requires 0 <= k < |icons| => icons[k].name)
  }

  /**
    makeScaledImages. With no source image it attempts nothing and returns
    no names; otherwise, for each entry in order whose size string parses,
    it resamples the source image to the scaled height, tries to save it
    under the entry's file name, and appends that name whatever the outcome.
   */
  method MakeScaledImages(imagesJson: seq<Entry>, hasSourceImage: bool, scaleOf: string -> real)
    returns (imageNames: seq<string>, attempted: seq<IconFile>)
    requires hasSourceImage ==> SizesHavePieces(imagesJson)
    ensures !hasSourceImage ==> attempted == []
    ensures hasSourceImage ==> attempted == ScaledIcons(imagesJson, scaleOf)
    ensures imageNames == Names(attempted)
  {
    imageNames, attempted := [], [];
    if !hasSourceImage {
      return;
    }
    var i := 0;
    while i < |imagesJson|
      invariant 0 <= i <= |imagesJson|
      invariant attempted == ScaledIcons(imagesJson[..i], scaleOf)
      invariant imageNames == Names(attempted)
    {
      var image := imagesJson[i];
      var theSize := Scaler.DimensionsFromWxHString(SizeString(image), scaleOf(ScaleString(image)));
      ScaledImageStep(imagesJson, i, scaleOf);
      if theSize.Some? {
        var imageName := ImageFileName(image);
        NamesOfLonger(attempted, IconFile(imageName, theSize.value.height));
        attempted := attempted + [IconFile(imageName, theSize.value.height)];
        imageNames := imageNames + [imageName];
      }
      i := i + 1;
    }
    assert imagesJson[..i] == imagesJson;
  }

  /** One pass of makeScaledImages' loop adds what the entry at `i` yields to the icons of the entries before it. */
  lemma ScaledImageStep(images: seq<Entry>, i: nat, scaleOf: string -> real)
    requires SizesHavePieces(images) && i < |images|
    ensures SizesHavePieces(images[..i]) && SizesHavePieces(images[..i + 1])
    ensures var theSize := Scaler.DimensionsFromWxHString(SizeString(images[i]), scaleOf(ScaleString(images[i])));
            ScaledIcons(images[..i + 1], scaleOf)
              == ScaledIcons(images[..i], scaleOf) + (if theSize.Some? then [IconFile(ImageFileName(images[i]), theSize.value.height)] else [])
  {
    ScaledIconsOfLongerPrefix(images, i, scaleOf);
  }

  /** One more entry adds its icon when it parses, and nothing otherwise. */
  lemma ScaledIconsOfLongerPrefix(images: seq<Entry>, i: nat, scaleOf: string -> real)
    requires SizesHavePieces(images) && i < |images|
    ensures SizesHavePieces(images[..i]) && SizesHavePieces(images[..i + 1])
    ensures ScaledIcons(images[..i + 1], scaleOf)
         == ScaledIcons(images[..i], scaleOf) + (if Parses(images[i], scaleOf) then [EntryIcon(images[i], scaleOf)] else [])
  {
    var attempts := Attempts(images[..i + 1], scaleOf);
    assert attempts[..i] == Attempts(images[..i], scaleOf);
    assert attempts[..i + 1] == attempts;
    ValuesOfLongerPrefix(attempts, i);
  }

  // ---------------------------------------------------------------------
  // What makeScaledImages returns

  lemma NamesOfLonger(icons: seq<IconFile>, icon: IconFile)
    ensures Names(icons + [icon]) == Names(icons) + [icon.name]
  {
  }

  lemma NamesLength(icons: seq<IconFile>)
    ensures |Names(icons)| == |icons|
    ensures forall k :: 0 <= k < |icons| ==> Names(icons)[k] == icons[k].name
  {
  }

  /** Entry i's outcome is an icon exactly when entry i parses, and then it is that entry's icon. */
  lemma AttemptsAt(images: seq<Entry>, scaleOf: string -> real)
    requires SizesHavePieces(images)
    ensures forall i :: 0 <= i < |images| ==> (Attempts(images, scaleOf)[i].Some? <==> Parses(images[i], scaleOf))
    ensures forall i :: 0 <= i < |images| && Parses(images[i], scaleOf) ==> Attempts(images, scaleOf)[i].value == EntryIcon(images[i], scaleOf)
  {
  }

  /** The icons for two runs of entries are those of the first run followed by those of the second. */
  lemma ScaledIconsAppend(a: seq<Entry>, b: seq<Entry>, scaleOf: string -> real)
    requires SizesHavePieces(a) && SizesHavePieces(b)
    ensures SizesHavePieces(a + b)
    ensures ScaledIcons(a + b, scaleOf) == ScaledIcons(a, scaleOf) + ScaledIcons(b, scaleOf)
  {
    assert SizesHavePieces(a + b) by {
      forall i | 0 <= i < |a + b|
        ensures Scaler.HasPiece(SizeString((a + b)[i]))
      {
        if i >= |a| {
          assert (a + b)[i] == b[i - |a|];
        }
      }
    }
    var xa, xb, xab := Attempts(a, scaleOf), Attempts(b, scaleOf), Attempts(a + b, scaleOf);
    forall i | 0 <= i < |a + b|
      ensures xab[i] == (xa + xb)[i]
    {
      if i < |a| {
        assert (a + b)[i] == a[i];
      } else {
        assert (a + b)[i] == b[i - |a|];
      }
    }
    assert xab == xa + xb;
    ValuesAppend(xa, xb);
  }

  /**
    The icons are, in manifest order, exactly those of the entries that parse:
    `chosen` lists the indices of those entries in increasing order.
   */
  lemma ScaledIconsSelect(images: seq<Entry>, scaleOf: string -> real) returns (chosen: seq<nat>)
    requires SizesHavePieces(images)
    ensures |chosen| == |ScaledIcons(images, scaleOf)|
    ensures forall k :: 0 <= k < |chosen| ==> chosen[k] < |images| && Parses(images[chosen[k]], scaleOf)
    ensures forall k :: 0 <= k < |chosen| ==> ScaledIcons(images, scaleOf)[k] == EntryIcon(images[chosen[k]], scaleOf)
    ensures forall k, l :: 0 <= k < l < |chosen| ==> chosen[k] < chosen[l]
    ensures forall i :: 0 <= i < |images| && Parses(images[i], scaleOf) ==> i in chosen
  {
    AttemptsAt(images, scaleOf);
    chosen := ValuesSelect(Attempts(images, scaleOf));
    assert Selection(Attempts(images, scaleOf), chosen, ScaledIcons(images, scaleOf));
  }

  /** Skipped entries shorten the list: one icon per entry exactly when every entry parses. */
  lemma ScaledIconsCount(images: seq<Entry>, scaleOf: string -> real)
    requires SizesHavePieces(images)
    ensures |ScaledIcons(images, scaleOf)| == |images| <==> forall i :: 0 <= i < |images| ==> Parses(images[i], scaleOf)
  {
    var xs := Attempts(images, scaleOf);
    ValuesComplete(xs);
    AttemptsAt(images, scaleOf);
    assert (forall i :: 0 <= i < |xs| ==> xs[i].Some?) <==> (forall i :: 0 <= i < |images| ==> Parses(images[i], scaleOf));
  }

  /** When every entry parses, the i-th name is the i-th entry's. */
  lemma ScaledIconsAligned(images: seq<Entry>, scaleOf: string -> real)
    requires forall i :: 0 <= i < |images| ==> Parses(images[i], scaleOf)
    ensures SizesHavePieces(images)
    ensures |ScaledIcons(images, scaleOf)| == |images|
    ensures forall i :: 0 <= i < |images| ==> ScaledIcons(images, scaleOf)[i] == EntryIcon(images[i], scaleOf)
  {
    AttemptsAt(images, scaleOf);
    ValuesAligned(Attempts(images, scaleOf));
  }

  /**
    A skipped entry shifts every later name one place forward: if entries
    0..j-1 parse, entry j does not and entry j+1 does, then slot j holds
    the name of entry j+1.
   */
  lemma SkippedEntryShiftsNames(images: seq<Entry>, j: nat, scaleOf: string -> real)
    requires SizesHavePieces(images)
    requires j + 1 < |images|
    requires forall i :: 0 <= i < j ==> Parses(images[i], scaleOf)
    requires !Parses(images[j], scaleOf) && Parses(images[j + 1], scaleOf)
    ensures |ScaledIcons(images, scaleOf)| > j
    ensures forall i :: 0 <= i < j ==> ScaledIcons(images, scaleOf)[i] == EntryIcon(images[i], scaleOf)
    ensures ScaledIcons(images, scaleOf)[j] == EntryIcon(images[j + 1], scaleOf)
  {
    AttemptsAt(images, scaleOf);
    ValuesAfterGap(Attempts(images, scaleOf), j);
  }

  /** The resample target is the scaled height; the width plays no part. */
  lemma ResampleTargetIgnoresWidth(e1: Entry, e2: Entry, scaleOf: string -> real)
    requires Parses(e1, scaleOf) && Parses(e2, scaleOf)
    requires ScaleString(e1) == ScaleString(e2)
    requires Scaler.LastPiece(SizeString(e1)) == Scaler.LastPiece(SizeString(e2))
    ensures EntryIcon(e1, scaleOf).dimension == EntryIcon(e2, scaleOf).dimension
  {
  }

  /** An entry "16x32" at scale "2x" (read as 2) is resampled to 64 and saved as "AppIcon16x32-2x.png". */
  lemma OneOblongEntry(scaleOf: string -> real)
    requires scaleOf("2x") == 2.0
    ensures var e := map["size" := "16x32", "scale" := "2x"];
            Parses(e, scaleOf) && EntryIcon(e, scaleOf) == IconFile("AppIcon16x32-2x.png", 64.0)
  {
    var e := map["size" := "16x32", "scale" := "2x"];
    var size := Numerals.FormatInt(16) + "x" + Numerals.FormatInt(32);
    assert Numerals.FormatInt(16) == "16" && Numerals.FormatInt(32) == "32";
    assert SizeString(e) == size by {
      assert "16x32" == "16" + "x" + "32";
    }
    assert scaleOf(ScaleString(e)) == 2.0;
    Scaler.DimensionsOfFormatted(16, 32, 2.0);
    assert EntryDimensions(e, scaleOf) == Some(Scaler.Dimensions(Scaler.Scaled(16 as real, 2.0), Scaler.Scaled(32 as real, 2.0)));
    assert Scaler.Scaled(32 as real, 2.0) == 64.0;
    assert EntryAttempt(e, scaleOf) == Some(IconFile(ImageFileName(e), 64.0));
    OblongFileName();
  }

  lemma OblongFileName()
    ensures ImageFileName(map["size" := "16x32", "scale" := "2x"]) == "AppIcon16x32-2x.png"
  {
  }

  // ---------------------------------------------------------------------
  // buildContentsJsonFile

  /** `appInfo["name"] ?? "AppIcon"`: the bundle's name, or "AppIcon" when it has none. */
  function AppName(appInfo: map<string, string>): (name: string)
    ensures "name" in appInfo ==> name == appInfo["name"]
    ensures "name" !in appInfo ==> name == "AppIcon"
  {
    if "name" in appInfo then appInfo["name"] else "AppIcon"
  }

  /** `appInfo["version"] ?? "N/A"`: the bundle's version, or "N/A" when it has none. */
  function AppVersion(appInfo: map<string, string>): (version: string)
    ensures "version" in appInfo ==> version == appInfo["version"]
    ensures "version" !in appInfo ==> version == "N/A"
  {
    if "version" in appInfo then appInfo["version"] else "N/A"
  }

  /** Each entry with its `filename` set to the name at the same index. */
  function WithFileNames(images: seq<Entry>, fileNames: seq<string>): (r: seq<Entry>)
    requires |fileNames| >= |images|
    ensures |r| == |images|
    ensures forall i :: 0 <= i < |images| ==> r[i] == images[i]["filename" := fileNames[i]]
  {
    if images == [] then []
    else
      var n := |images| - 1;
      WithFileNames(images[..n], fileNames) + [images[n]["filename" := fileNames[n]]]
  }

  /**
    The manifest as buildContentsJsonFile writes it back. It keeps the entry
    count and order, sets each entry's `filename` to the name at its index,
    keeps every other key of every entry, sets `info.author` and
    `info.version`, and keeps every other `info` key and top-level field.
   */
  function Rewritten(contentsJson: Manifest, fileNames: seq<string>, appInfo: map<string, string>): (r: Manifest)
    requires contentsJson.images.Some? && |fileNames| >= |contentsJson.images.value|
    ensures var before := contentsJson.images.value;
            && r.images.Some? && |r.images.value| == |before|
            && (forall i :: 0 <= i < |before| ==> "filename" in r.images.value[i] && r.images.value[i]["filename"] == fileNames[i])
            && (forall i, key :: 0 <= i < |before| && key != "filename" ==>
                  (key in r.images.value[i] <==> key in before[i])
                  && (key in before[i] ==> r.images.value[i][key] == before[i][key]))
    ensures && r.info.Keys == contentsJson.info.Keys + {"author", "version"}
            && r.info["author"] == AppName(appInfo) && r.info["version"] == AppVersion(appInfo)
            && (forall key :: key in contentsJson.info && key != "author" && key != "version" ==> r.info[key] == contentsJson.info[key])
            && r.rest == contentsJson.rest
  {
    Manifest(
      Some(WithFileNames(contentsJson.images.value, fileNames)),
      contentsJson.info["author" := AppName(appInfo)]["version" := AppVersion(appInfo)],
      contentsJson.rest)
  }

  /**
    buildContentsJsonFile. Without an `images` array nothing is written.
    Otherwise the entry at each index gets the file name at that index
    (the source reads `fileNames[index]`, which traps past the end, hence
    the precondition), `info` gets the author and version, and the result
    is what is written to Contents.json.
   */
  method BuildContentsJsonFile(fileNames: seq<string>, contentsJson: Manifest, appInfo: map<string, string>)
    returns (written: Option<Manifest>)
    requires contentsJson.images.Some? ==> |fileNames| >= |contentsJson.images.value|
    ensures contentsJson.images.None? ==> written == None
    ensures contentsJson.images.Some? ==> written == Some(Rewritten(contentsJson, fileNames, appInfo))
  {
    if contentsJson.images.None? {
      return None;
    }
    var original := contentsJson.images.value;
    var imagesJson := original;
    var index := 0;
    while index < |imagesJson|
      invariant 0 <= index <= |imagesJson| == |original|
      invariant forall i :: 0 <= i < index ==> imagesJson[i] == original[i]["filename" := fileNames[i]]
      invariant forall i :: index <= i < |imagesJson| ==> imagesJson[i] == original[i]
    {
      imagesJson := imagesJson[index := imagesJson[index]["filename" := fileNames[index]]];
      index := index + 1;
    }
    var theJson := contentsJson;
    theJson := theJson.(info := theJson.info["author" := AppName(appInfo)]);
    theJson := theJson.(info := theJson.info["version" := AppVersion(appInfo)]);
    theJson := theJson.(images := Some(imagesJson));
    assert imagesJson == WithFileNames(original, fileNames);
    written := Some(theJson);
  }

  // ---------------------------------------------------------------------
  // What buildContentsJsonFile changes and what it keeps

  /** The author falls back to "AppIcon" and the version to "N/A". */
  lemma DefaultStamp(contentsJson: Manifest, fileNames: seq<string>)
    requires contentsJson.images.Some? && |fileNames| >= |contentsJson.images.value|
    ensures Rewritten(contentsJson, fileNames, map[]).info["author"] == "AppIcon"
    ensures Rewritten(contentsJson, fileNames, map[]).info["version"] == "N/A"
  {
  }

  /** Stamping the same author and version twice is stamping them once. */
  lemma StampTwice(info: map<string, string>, author: string, version: string)
    ensures info["author" := author]["version" := version]["author" := author]["version" := version]
         == info["author" := author]["version" := version]
  {
  }

  /** Setting the same file names twice is setting them once. */
  lemma WithFileNamesTwice(images: seq<Entry>, fileNames: seq<string>)
    requires |fileNames| >= |images|
    ensures WithFileNames(WithFileNames(images, fileNames), fileNames) == WithFileNames(images, fileNames)
  {
    var named := WithFileNames(images, fileNames);
    forall i | 0 <= i < |images|
      ensures WithFileNames(named, fileNames)[i] == named[i]
    {
      assert named[i]["filename" := fileNames[i]] == named[i];
    }
  }

  /** Rewriting twice with the same names is rewriting once. */
  lemma RewriteIdempotent(contentsJson: Manifest, fileNames: seq<string>, appInfo: map<string, string>)
    requires contentsJson.images.Some? && |fileNames| >= |contentsJson.images.value|
    ensures var once := Rewritten(contentsJson, fileNames, appInfo);
            Rewritten(once, fileNames, appInfo) == once
  {
    WithFileNamesTwice(contentsJson.images.value, fileNames);
    StampTwice(contentsJson.info, AppName(appInfo), AppVersion(appInfo));
  }

  /** Names past the last entry are never read. */
  lemma RewriteReadsOnlyLeadingNames(contentsJson: Manifest, fileNames: seq<string>, appInfo: map<string, string>)
    requires contentsJson.images.Some? && |fileNames| >= |contentsJson.images.value|
    ensures Rewritten(contentsJson, fileNames, appInfo)
         == Rewritten(contentsJson, fileNames[..|contentsJson.images.value|], appInfo)
  {
    var n := |contentsJson.images.value|;
    assert WithFileNames(contentsJson.images.value, fileNames)
        == WithFileNames(contentsJson.images.value, fileNames[..n]);
  }

  // ---------------------------------------------------------------------
  // saveIconFiles: the two steps together

  /**
    The manifest can be installed without a trap: it has no entries, or
    there is a source image and every entry's size string parses.
   */
  predicate Installable(images: seq<Entry>, hasSourceImage: bool, scaleOf: string -> real)
  {
    images == [] || (hasSourceImage && forall i :: 0 <= i < |images| ==> Parses(images[i], scaleOf))
  }

  /** The names makeScaledImages hands to buildContentsJsonFile. */
  function MadeNames(images: seq<Entry>, hasSourceImage: bool, scaleOf: string -> real): seq<string>
    requires hasSourceImage ==> SizesHavePieces(images)
  {
    if hasSourceImage then Names(ScaledIcons(images, scaleOf)) else []
  }

  /**
    The name list covers every entry, as buildContentsJsonFile needs,
    exactly when the manifest is installable: one unparsable entry, or a
    missing source image with a non-empty manifest, makes it too short.
   */
  lemma MadeNamesCoverIff(images: seq<Entry>, hasSourceImage: bool, scaleOf: string -> real)
    requires hasSourceImage ==> SizesHavePieces(images)
    ensures |MadeNames(images, hasSourceImage, scaleOf)| >= |images| <==> Installable(images, hasSourceImage, scaleOf)
  {
    if hasSourceImage {
      ScaledIconsCount(images, scaleOf);
    }
  }

  /**
    saveIconFiles once the dialogs and the file lookup are done: without an
    `images` array nothing is written; otherwise the icons are made and the
    manifest is written back with, at every index, the file name made from
    that same entry.
   */
  method SaveIconFiles(json: Manifest, hasSourceImage: bool, scaleOf: string -> real, appInfo: map<string, string>)
    returns (written: Option<Manifest>, icons: seq<IconFile>)
    requires json.images.Some? ==> Installable(json.images.value, hasSourceImage, scaleOf)
    ensures json.images.None? ==> written == None && icons == []
    ensures json.images.Some? ==>
              && icons == (if hasSourceImage then ScaledIcons(json.images.value, scaleOf) else [])
              && |icons| == |json.images.value|
              && written == Some(Rewritten(json, Names(icons), appInfo))
    ensures json.images.Some? ==>
              && written.Some? && written.value.images.Some?
              && |written.value.images.value| == |json.images.value|
              && forall i :: 0 <= i < |json.images.value| ==>
                   written.value.images.value[i]["filename"] == ImageFileName(json.images.value[i])
  {
    if json.images.None? {
      return None, [];
    }
    var sizesJson := json.images.value;
    if hasSourceImage {
      ScaledIconsAligned(sizesJson, scaleOf);
    }
    var imageNames;
    imageNames, icons := MakeScaledImages(sizesJson, hasSourceImage, scaleOf);
    NamesLength(icons);
    assert forall i :: 0 <= i < |icons| ==> icons[i].name == ImageFileName(sizesJson[i]);
    written := BuildContentsJsonFile(imageNames, json, appInfo);
  }

  // ---------------------------------------------------------------------
  // The file-format label of the info view

  /**
    `sourceImageFilename.components(separatedBy: ".").last?.uppercased() ?? "N/A"`.
    There is always a last component, so the label is the upper-cased text
    after the last dot: no dot and no lower-case ASCII letter.
   */
  function FileFormatLabel(sourceImageFilename: string): (format: string)
    ensures '.' !in format
    ensures forall i :: 0 <= i < |format| ==> !('a' <= format[i] <= 'z')
  {
    var parts := Strings.Components(sourceImageFilename, '.');
    if |parts| > 0 then Strings.Uppercased(parts[|parts| - 1]) else "N/A"
  }

  /** A name without a dot is its own label, upper-cased. */
  lemma FileFormatLabelWithoutDot(sourceImageFilename: string)
    requires '.' !in sourceImageFilename
    ensures FileFormatLabel(sourceImageFilename) == Strings.Uppercased(sourceImageFilename)
  {
    Strings.ComponentsWithoutSep(sourceImageFilename, '.');
  }

  /** Otherwise the label is the text after the last dot, upper-cased. */
  lemma FileFormatLabelAfterLastDot(stem: string, ext: string)
    requires '.' !in ext
    ensures FileFormatLabel(stem + "." + ext) == Strings.Uppercased(ext)
  {
    Strings.ComponentsConcat(stem, ext, '.');
    Strings.ComponentsWithoutSep(ext, '.');
    assert stem + "." + ext == stem + ['.'] + ext;
  }

  lemma FileFormatLabelExamples()
    ensures FileFormatLabel("icon.png") == "PNG"
    ensures FileFormatLabel("photo.large.jpg") == "JPG"
  {
    assert "icon.png" == "icon" + "." + "png";
    FileFormatLabelAfterLastDot("icon", "png");
    assert "photo.large.jpg" == "photo.large" + "." + "jpg";
    FileFormatLabelAfterLastDot("photo.large", "jpg");
    assert Strings.Uppercased("png") == "PNG";
    assert Strings.Uppercased("jpg") == "JPG";
  }
}
