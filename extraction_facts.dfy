/** What `extract_brand_from_files` guarantees, stated over the model in
    extractors.dfy. */
module ExtractionFacts {
  import opened Wrappers
  import opened Collections
  import opened Strings
  import opened Inputs
  import opened Paths
  import opened Utils
  import opened Tallies
  import opened BrandProfiles
  import opened Extractors

  // ---------------------------------------------------------------------
  // The names of the extracted images
  // ---------------------------------------------------------------------

  lemma AllSafeConcat(a: string, b: string)
    requires AllSafe(a) && AllSafe(b)
    ensures AllSafe(a + b)
  {
    forall k | 0 <= k < |a + b| ensures IsSafeChar((a + b)[k]) {
      if k >= |a| {
        assert (a + b)[k] == b[k - |a|];
      }
    }
  }

  /** `safe_filename` leaves the generated `pdf_p<page>_img<index>.png`
      unchanged. */
  lemma OutNamePlain(j: Job)
    ensures OutName(j) == "pdf_p" + Decimal(j.page) + "_img" + Decimal(j.index) + ".png"
  {
    var page, index := Decimal(j.page), Decimal(j.index);
    assert AllSafe(page) && AllSafe(index);
    AllSafeConcat("pdf_p", page);
    AllSafeConcat("pdf_p" + page, "_img");
    AllSafeConcat("pdf_p" + page + "_img", index);
    AllSafeConcat("pdf_p" + page + "_img" + index, ".png");
    var raw := "pdf_p" + page + "_img" + index + ".png";
    assert raw[0] == 'p' && raw[|raw| - 1] == 'g';
    StripTrimmed(raw);
    SubstituteSafe(raw);
  }

  // ---------------------------------------------------------------------
  // What each extractor contributes
  // ---------------------------------------------------------------------

  /** The PDF extractor finds colour tokens, counts fonts consistently,
      records non-empty image paths and only adds files. */
  lemma ScanPdfFacts(path: string, fs: FileSystem)
    ensures var s := ScanPdf(path, fs);
            (forall x :: x in s.hexes ==> IsColorToken(x)) && ValidTally(s.fonts) &&
            (forall x :: x in s.images ==> x != "") &&
            (forall k :: k in fs ==> k in s.fs)
  {
    if path in fs && fs[path].PdfFile? {
      ScanPdfHexes(fs[path]);
      TallyOfSpec(FontNames(fs[path].pages));
      ScanPdfImages(LogoDir(path), Jobs(fs[path].imagePages));
      StoreKeys(fs, Writes(LogoDir(path), Jobs(fs[path].imagePages)));
    }
  }

  lemma ScanPdfHexes(d: FileData)
    requires d.PdfFile?
    ensures forall x :: x in SortedSet(TextHexes(PageTexts(d.pages))) ==> IsColorToken(x)
  {
    forall x | x in SortedSet(TextHexes(PageTexts(d.pages))) ensures IsColorToken(x) {
      TextHexesMembers(PageTexts(d.pages), x);
    }
  }

  lemma ScanPdfImages(dir: string, jobs: seq<Job>)
    ensures forall x :: x in OutPaths(dir, jobs) ==> x != ""
  {
    forall x | x in OutPaths(dir, jobs) ensures x != "" {
      var k :| 0 <= k < |jobs| && x == OutPath(dir, jobs[k]);
      OutNamePlain(jobs[k]);
    }
  }

  /** The DOCX extractor finds colour tokens only. */
  lemma ScanDocxTokens(path: string, fs: FileSystem)
    ensures forall x :: x in ScanDocx(path, fs) ==> IsColorToken(x)
  {
    if path in fs && fs[path].DocxFile? {
      var d := fs[path];
      forall x | x in ScanDocx(path, fs) ensures IsColorToken(x) {
        if x in TextHexes(d.paragraphs) {
          TextHexesMembers(d.paragraphs, x);
        } else {
          UnionsMembers(TableColors, d.tables, x);
          var t :| 0 <= t < |d.tables| && x in TableColors(d.tables[t]);
          TextHexesMembers(Flatten(d.tables[t]), x);
        }
      }
    }
  }

  /** Scanning table by table finds what scanning all cells at once does. */
  lemma {:induction false} TablesHexesFlat(tables: seq<Table>)
    ensures TablesHexes(tables) == TextHexes(TableCells(tables))
    decreases |tables|
  {
    if tables != [] {
      var init := tables[..|tables| - 1];
      TablesHexesFlat(init);
      UnionsAppend(TextColors, TableCells(init), Flatten(tables[|tables| - 1]));
    }
  }

  /** The DOCX extractor reports, sorted, the colours the scanner finds in
      any paragraph or cell of the document, read in order. */
  lemma ScanDocxInReadingOrder(path: string, fs: FileSystem)
    requires path in fs && fs[path].DocxFile?
    ensures var d := fs[path];
            ScanDocx(path, fs) == SortedSet(TextHexes(DocxTexts(d.paragraphs, d.tables)))
  {
    var d := fs[path];
    TablesHexesFlat(d.tables);
    UnionsAppend(TextColors, d.paragraphs, TableCells(d.tables));
  }

  lemma ScanDocxMembers(path: string, fs: FileSystem, x: string)
    requires path in fs && fs[path].DocxFile?
    ensures var texts := DocxTexts(fs[path].paragraphs, fs[path].tables);
            x in ScanDocx(path, fs) <==> exists k :: 0 <= k < |texts| && x in ExtractHexColors(texts[k])
  {
    ScanDocxInReadingOrder(path, fs);
    TextHexesMembers(DocxTexts(fs[path].paragraphs, fs[path].tables), x);
  }

  // ---------------------------------------------------------------------
  // What the loop over the paths keeps true
  // ---------------------------------------------------------------------

  /** The accumulators stay well formed: the font counter is a valid
      counter, the text colours are colour tokens, every logo candidate is
      also an image candidate, no candidate is empty, every candidate is
      either one of the paths or an extracted PDF image, and files are only
      ever added. */
  predicate GatherInvariant(g: Gathered, paths: seq<string>, fs: FileSystem) {
    ValidTally(g.fonts) &&
    (forall x :: x in g.hexes ==> IsColorToken(x)) &&
    (forall x :: x in g.logos ==> x in g.images) &&
    (forall x :: x in g.images ==> x != "") &&
    (forall x :: x in g.images ==> x in paths || x in g.logos) &&
    (forall k :: k in fs ==> k in g.fs)
  }

  lemma {:induction false} GatherKeepsInvariant(paths: seq<string>, fs: FileSystem)
    ensures GatherInvariant(Gather(paths, fs), paths, fs)
    decreases |paths|
  {
    if paths != [] {
      var init, path := paths[..|paths| - 1], paths[|paths| - 1];
      GatherKeepsInvariant(init, fs);
      var g := Gather(init, fs);
      assert forall x :: x in init ==> x in paths;
      if path != "" && path in g.fs {
        var lower := Lower(path);
        if EndsWith(lower, ".pdf") {
          var s := ScanPdf(path, g.fs);
          ScanPdfFacts(path, g.fs);
          MergeValid(g.fonts, s.fonts);
        } else if EndsWith(lower, ".docx") {
          ScanDocxTokens(path, g.fs);
        }
      }
    }
  }

  /** Every image candidate makes a truthy logo path, so the `elif
      image_candidates` of the dominant-colours block never runs: the
      colours come from the logo or from nowhere. */
  lemma ElifUnreachable(paths: seq<string>, fs: FileSystem)
    ensures var g := Gather(paths, fs);
            (g.images != [] ==> Truthy(LogoOf(g))) &&
            DominantOf(g) == if g.images == [] then Returned([])
                             else DominantColorsOf(g.fs, LogoOf(g).value, 5)
  {
    var g := Gather(paths, fs);
    GatherKeepsInvariant(paths, fs);
    if g.logos != [] {
      assert g.logos[0] in g.images;
    } else if g.images != [] {
      assert g.images[0] in g.images;
    }
  }

  /** The loop's test for a path given directly as an image: truthy,
      present, not taken by the PDF or DOCX branch, and with an image suffix. */
  predicate IsStandaloneImage(path: string, fs: FileSystem) {
    var lower := Lower(path);
    path != "" && path in fs && !EndsWith(lower, ".pdf") && !EndsWith(lower, ".docx") && IsImageName(lower)
  }

  /** The paths that pass that test, in input order. */
  function StandaloneImages(paths: seq<string>, fs: FileSystem): seq<string>
    decreases |paths|
  {
    if paths == [] then []
    else
      var init, path := paths[..|paths| - 1], paths[|paths| - 1];
      StandaloneImages(init, fs) + (if IsStandaloneImage(path, fs) then [path] else [])
  }

  /** A PDF scan that extracts no image writes no file. */
  lemma ScanPdfNoImages(path: string, fs: FileSystem)
    ensures ScanPdf(path, fs).images == [] ==> ScanPdf(path, fs).fs == fs
  {
    if path in fs && fs[path].PdfFile? {
      var dir := LogoDir(path);
      var jobs := Jobs(fs[path].imagePages);
      if OutPaths(dir, jobs) == [] {
        assert jobs == [];
        assert Writes(dir, jobs) == [];
      }
    }
  }

  /** While no PDF has yielded an image, the filesystem is untouched and the
      image candidates are exactly the standalone images, in input order. */
  lemma {:induction false} NoPdfImageMeansStandalone(paths: seq<string>, fs: FileSystem)
    ensures var g := Gather(paths, fs);
            g.logos == [] ==> g.images == StandaloneImages(paths, fs) && g.fs == fs
    decreases |paths|
  {
    if paths != [] {
      var init, path := paths[..|paths| - 1], paths[|paths| - 1];
      NoPdfImageMeansStandalone(init, fs);
      var g := Gather(init, fs);
      if GatherStep(g, path).logos == [] {
        assert g.logos == [];
        if path != "" && path in g.fs && EndsWith(Lower(path), ".pdf") {
          ScanPdfNoImages(path, g.fs);
        }
      }
    }
  }

  lemma {:induction false} StandaloneNone(paths: seq<string>, fs: FileSystem)
    requires StandaloneImages(paths, fs) == []
    ensures forall j :: 0 <= j < |paths| ==> !IsStandaloneImage(paths[j], fs)
    decreases |paths|
  {
    if paths != [] {
      var init := paths[..|paths| - 1];
      StandaloneNone(init, fs);
      assert forall j :: 0 <= j < |init| ==> paths[j] == init[j];
    }
  }

  /** The first standalone image is the one at the least index that passes
      the test. */
  lemma {:induction false} FirstStandalone(paths: seq<string>, fs: FileSystem) returns (k: nat)
    requires StandaloneImages(paths, fs) != []
    ensures k < |paths| && IsStandaloneImage(paths[k], fs) && StandaloneImages(paths, fs)[0] == paths[k]
    ensures forall j :: 0 <= j < k ==> !IsStandaloneImage(paths[j], fs)
    decreases |paths|
  {
    var init, path := paths[..|paths| - 1], paths[|paths| - 1];
    var si := StandaloneImages(init, fs);
    assert StandaloneImages(paths, fs) == si + (if IsStandaloneImage(path, fs) then [path] else []);
    if si != [] {
      k := FirstStandalone(init, fs);
      assert paths[k] == init[k];
    } else {
      StandaloneNone(init, fs);
      k := |paths| - 1;
    }
    assert forall j :: 0 <= j < k ==> paths[j] == init[j];
  }

  /** The logo is the first extracted PDF image when there is one, else the
      first path given directly as an image; there is none exactly when no
      image candidate was found. */
  lemma LogoChoice(paths: seq<string>, fs: FileSystem)
    ensures var g := Gather(paths, fs);
            (LogoOf(g) == None <==> g.images == []) &&
            (g.logos != [] ==> LogoOf(g) == Some(g.logos[0])) &&
            (g.logos == [] ==> g.images == StandaloneImages(paths, fs)) &&
            (g.logos == [] && g.images != [] ==>
               exists k :: 0 <= k < |paths| && LogoOf(g) == Some(paths[k]) && IsStandaloneImage(paths[k], fs) &&
                           forall j :: 0 <= j < k ==> !IsStandaloneImage(paths[j], fs))
  {
    var g := Gather(paths, fs);
    NoPdfImageMeansStandalone(paths, fs);
    if g.logos == [] && g.images != [] {
      var k := FirstStandalone(paths, fs);
      assert LogoOf(g) == Some(paths[k]);
    }
  }

  // ---------------------------------------------------------------------
  // Fonts
  // ---------------------------------------------------------------------

  /** The text after a subset tag is what `split("+", 1)[-1]` keeps. */
  lemma AfterSubsetTag(tag: string, name: string)
    requires forall k :: 0 <= k < |tag| ==> tag[k] != '+'
    ensures AfterFirstPlus(tag + "+" + name) == name
  {
    var n := tag + "+" + name;
    var i := PlusIndex(n);
    assert n[|tag|] == '+';
    assert i == |tag|;
    assert n[|tag| + 1..] == name;
  }

  /** A subset tag such as `ABCDEF+` in front of a font name does not change
      the family chosen for it. */
  lemma SubsetTagIgnored(tag: string, name: string)
    requires name != []
    requires forall k :: 0 <= k < |tag| ==> tag[k] != '+'
    requires forall k :: 0 <= k < |name| ==> name[k] != '+'
    ensures FontFamily(tag + "+" + name) == FontFamily(name)
  {
    AfterSubsetTag(tag, name);
    assert AfterFirstPlus(name) == name;
  }

  predicate NoPlus(s: string) {
    forall k :: 0 <= k < |s| ==> s[k] != '+'
  }

  /** The style words a font name may end with. */
  predicate IsStyle(style: string) {
    style == "" || style == "Bold" || style == "Regular"
  }

  lemma BoldRemoved()
    ensures RemoveAll("Bold", "Bold") == ""
  {
    RemoveAllLead("Bold", "");
    assert "Bold" + "" == "Bold";
  }

  lemma RegularRemoved()
    ensures RemoveAll("Regular", "Regular") == ""
  {
    RemoveAllLead("Regular", "");
    assert "Regular" + "" == "Regular";
  }

  lemma RegularKeepsBold()
    ensures RemoveAll("Regular", "Bold") == "Regular"
  {
    RemoveAllSkips("Regular", "", "Bold");
    assert "Regular" + "" == "Regular";
  }

  /** A trailing style word is removed and the rest of the name, which holds
      no style word, is kept as it is. */
  lemma StyleDropped(name: string, style: string)
    requires !Contains(name, "Bold") && !Contains(name, "Regular") && IsStyle(style)
    ensures RemoveAll(RemoveAll(name + style, "Bold"), "Regular") == name
  {
    if style == "" {
      assert name + style == name;
    } else if style == "Bold" {
      BoldStyleDropped(name);
    } else {
      RegularStyleDropped(name);
    }
  }

  lemma BoldStyleDropped(name: string)
    requires !Contains(name, "Bold") && !Contains(name, "Regular")
    ensures RemoveAll(RemoveAll(name + "Bold", "Bold"), "Regular") == name
  {
    NoStraddleByHead(name, "Bold", "Bold");
    RemoveAllConcat(name, "Bold", "Bold");
    BoldRemoved();
    assert name + "" == name;
  }

  lemma RegularStyleDropped(name: string)
    requires !Contains(name, "Bold") && !Contains(name, "Regular")
    ensures RemoveAll(RemoveAll(name + "Regular", "Bold"), "Regular") == name
  {
    NoStraddleByHead(name, "Regular", "Bold");
    RemoveAllConcat(name, "Regular", "Bold");
    RegularKeepsBold();
    NoStraddleByHead(name, "Regular", "Regular");
    RemoveAllConcat(name, "Regular", "Regular");
    RegularRemoved();
    assert name + "" == name;
  }

  /** The family of `TAG+NameStyle` is the name without the tag and the
      style word, stripped of surrounding whitespace. */
  lemma FamilyNameOfStyled(tag: string, name: string, style: string)
    requires NoPlus(tag) && NoPlus(name)
    requires !Contains(name, "Bold") && !Contains(name, "Regular") && IsStyle(style)
    ensures FamilyName(tag + "+" + (name + style)) == Strip(name)
  {
    AfterSubsetTag(tag, name + style);
    StyleDropped(name, style);
  }

  /** The same without a subset tag. */
  lemma FamilyNameOfUntagged(name: string, style: string)
    requires NoPlus(name)
    requires !Contains(name, "Bold") && !Contains(name, "Regular") && IsStyle(style)
    ensures FamilyName(name + style) == Strip(name)
  {
    StyledNoPlus(name, style);
    UntaggedKept(name + style);
    StyleDropped(name, style);
  }

  /** A style word adds no `+`. */
  lemma StyledNoPlus(name: string, style: string)
    requires NoPlus(name) && IsStyle(style)
    ensures NoPlus(name + style)
  {
    var n := name + style;
    assert forall k :: |name| <= k < |n| ==> n[k] == style[k - |name|];
  }

  /** Without a `+` there is no subset tag to cut off. */
  lemma UntaggedKept(n: string)
    requires NoPlus(n)
    ensures AfterFirstPlus(n) == n
  {
    assert PlusIndex(n) == -1;
  }

  /** The CSS family for a subset-tagged, styled font name: the quoted base
      name, or `'Inter'` when nothing is left of it. */
  lemma FontFamilyOfStyled(tag: string, name: string, style: string)
    requires NoPlus(tag) && NoPlus(name)
    requires !Contains(name, "Bold") && !Contains(name, "Regular") && IsStyle(style)
    ensures FontFamily(tag + "+" + (name + style)) ==
            if Strip(name) == "" then "'Inter'" + GenericFamilies
            else "'" + Strip(name) + "'" + GenericFamilies
  {
    FamilyNameOfStyled(tag, name, style);
    assert (tag + "+" + (name + style))[|tag|] == '+';
  }

  /** The font names a PDF contributes: the truthy names of its characters. */
  function PdfFonts(fs: FileSystem, path: string): seq<string> {
    if path in fs && fs[path].PdfFile? then FontNames(fs[path].pages) else []
  }

  /** Every font name counted, in the order the loop meets them. */
  function FontsSeen(paths: seq<string>, fs: FileSystem): seq<string>
    decreases |paths|
  {
    if paths == [] then []
    else
      var init, path := paths[..|paths| - 1], paths[|paths| - 1];
      var g := Gather(init, fs);
      FontsSeen(init, fs) +
        (if path != "" && path in g.fs && EndsWith(Lower(path), ".pdf") then PdfFonts(g.fs, path) else [])
  }

  lemma {:induction false} FontNamesTruthy(pages: seq<PdfPage>)
    ensures forall x :: x in FontNames(pages) ==> x != ""
    decreases |pages|
  {
    if pages != [] {
      FontNamesTruthy(pages[..|pages| - 1]);
    }
  }

  lemma ScanPdfFonts(path: string, fs: FileSystem)
    ensures ScanPdf(path, fs).fonts == TallyOf(PdfFonts(fs, path))
  {
  }

  lemma GatherStepFonts(g: Gathered, path: string)
    ensures GatherStep(g, path).fonts ==
            if path != "" && path in g.fs && EndsWith(Lower(path), ".pdf")
            then Merge(g.fonts, TallyOf(PdfFonts(g.fs, path))) else g.fonts
  {
    if path != "" && path in g.fs && EndsWith(Lower(path), ".pdf") {
      ScanPdfFonts(path, g.fs);
      assert GatherStep(g, path).fonts == Merge(g.fonts, ScanPdf(path, g.fs).fonts);
    } else {
      assert GatherStep(g, path).fonts == g.fonts;
    }
  }

  /** Updating the counter file by file counts every font name seen, as one
      counter over all of them would. */
  lemma {:induction false} GatherFonts(paths: seq<string>, fs: FileSystem)
    ensures Gather(paths, fs).fonts == TallyOf(FontsSeen(paths, fs))
    decreases |paths|
  {
    if paths != [] {
      var init, path := paths[..|paths| - 1], paths[|paths| - 1];
      GatherFonts(init, fs);
      var g := Gather(init, fs);
      GatherStepFonts(g, path);
      var before := FontsSeen(init, fs);
      if path != "" && path in g.fs && EndsWith(Lower(path), ".pdf") {
        assert FontsSeen(paths, fs) == before + PdfFonts(g.fs, path);
        MergeTallies(before, PdfFonts(g.fs, path));
      } else {
        assert FontsSeen(paths, fs) == before + [] == before;
      }
    }
  }

  /** Only truthy font names are counted. */
  lemma {:induction false} FontsSeenTruthy(paths: seq<string>, fs: FileSystem)
    ensures forall x :: x in FontsSeen(paths, fs) ==> x != ""
    decreases |paths|
  {
    if paths != [] {
      var init, path := paths[..|paths| - 1], paths[|paths| - 1];
      FontsSeenTruthy(init, fs);
      var g := Gather(init, fs);
      if path in g.fs && g.fs[path].PdfFile? {
        FontNamesTruthy(g.fs[path].pages);
      }
    }
  }

  // ---------------------------------------------------------------------
  // The profile returned
  // ---------------------------------------------------------------------

  /** The profile before `ensure_palette`. */
  function Unpaletted(g: Gathered, dominant: seq<string>): ProfileData {
    var text := SortedSet(g.hexes);
    var p := DefaultData().(logoPath := LogoOf(g), detectedColors := dominant, hexColorsInText := text);
    WithFonts(WithRoles(p, if dominant != [] then dominant else text), g.fonts)
  }

  lemma AssembledShape(g: Gathered)
    requires DominantOf(g).Returned?
    ensures var pre := Unpaletted(g, DominantOf(g).value);
            pre.chartPalette == [] && Assemble(g) == Returned(pre.(chartPalette := CompletedPalette(pre)))
  {
  }

  /** The extraction raises exactly when the chosen logo is a file the image
      decoder cannot open. */
  lemma RaisesOnUnreadableLogo(paths: seq<string>, fs: FileSystem)
    ensures var g := Gather(paths, fs);
            ExtractBrand(paths, fs).Raised? <==>
              LogoOf(g).Some? && LogoOf(g).value in g.fs && !g.fs[LogoOf(g).value].RasterFile?
  {
    ElifUnreachable(paths, fs);
    LogoChoice(paths, fs);
  }

  /** Fonts: heading and body agree; with no font seen they keep the default
      stack, otherwise they are the family of the most common font, which
      leads the (at most five) detected fonts. */
  lemma ResultFonts(paths: seq<string>, fs: FileSystem)
    requires ExtractBrand(paths, fs).Returned?
    ensures var d := ExtractBrand(paths, fs).value;
            var names := FontsSeen(paths, fs);
            d.fontHeading == d.fontBody &&
            (names == [] ==> d.detectedFonts == [] && d.fontHeading == DefaultFontStack) &&
            (names != [] ==> d.detectedFonts == MostCommon(TallyOf(names), 5) && d.detectedFonts != [] &&
                             d.fontHeading == FontFamily(d.detectedFonts[0]) &&
                             d.fontHeading != DefaultFontStack)
  {
    var g := Gather(paths, fs);
    AssembledShape(g);
    var pre := Unpaletted(g, DominantOf(g).value);
    EnsuredPaletteKeeps(pre);
    GatherFonts(paths, fs);
    FontsSeenTruthy(paths, fs);
    var names := FontsSeen(paths, fs);
    TallyOfSpec(names);
    if names != [] {
      assert names[0] in Dedup(names);
      var top := MostCommon(g.fonts, 5);
      WithFontsChosen(WithRoles(DefaultData(), []), g.fonts);
      MostCommonSpec(g.fonts, 5);
      assert top[0] in Keys(g.fonts);
      assert top[0] in names;
    }
  }

  /** The detected fonts are `most_common(5)` of the counter over every
      font name seen. */
  lemma DetectedFontsAre(paths: seq<string>, fs: FileSystem)
    requires ExtractBrand(paths, fs).Returned?
    ensures ExtractBrand(paths, fs).value.detectedFonts == MostCommon(TallyOf(FontsSeen(paths, fs)), 5)
  {
    var g := Gather(paths, fs);
    AssembledShape(g);
    GatherFonts(paths, fs);
  }

  /** At most five detected fonts, all seen, none repeated, and no listed
      font rarer than a later one. */
  lemma ResultFontsOrdered(paths: seq<string>, fs: FileSystem)
    requires ExtractBrand(paths, fs).Returned?
    ensures var d := ExtractBrand(paths, fs).value;
            var names := FontsSeen(paths, fs);
            |d.detectedFonts| <= 5 && Distinct(d.detectedFonts) &&
            (forall x :: x in d.detectedFonts ==> x in names) &&
            (forall i, j :: 0 <= i < j < |d.detectedFonts| ==>
               multiset(names)[d.detectedFonts[i]] >= multiset(names)[d.detectedFonts[j]])
  {
    DetectedFontsAre(paths, fs);
    var names := FontsSeen(paths, fs);
    TallyOfSpec(names);
    MostCommonSpec(TallyOf(names), 5);
  }

  /** No font left out of the detected fonts is more common than any listed
      one. */
  lemma ResultFontsDominate(paths: seq<string>, fs: FileSystem, x: string, i: nat)
    requires ExtractBrand(paths, fs).Returned?
    requires var d := ExtractBrand(paths, fs).value;
             x in FontsSeen(paths, fs) && x !in d.detectedFonts && i < |d.detectedFonts|
    ensures var d := ExtractBrand(paths, fs).value;
            multiset(FontsSeen(paths, fs))[x] <= multiset(FontsSeen(paths, fs))[d.detectedFonts[i]]
  {
    DetectedFontsAre(paths, fs);
    var names := FontsSeen(paths, fs);
    TallyOfSpec(names);
    MostCommonDominates(TallyOf(names), 5, x, i);
  }

  // ---------------------------------------------------------------------
  // Colours
  // ---------------------------------------------------------------------

  /** The texts a file's extractor scans: a PDF's page texts, a DOCX's
      paragraphs and cells. */
  function FileTexts(fs: FileSystem, path: string): seq<Option<string>> {
    if path !in fs then []
    else match fs[path]
      case PdfFile(pages, _) => PageTexts(pages)
      case DocxFile(paragraphs, tables) => DocxTexts(paragraphs, tables)
      case _ => []
  }

  /** Every text scanned for colours, in the order the loop meets them. */
  function TextsSeen(paths: seq<string>, fs: FileSystem): seq<Option<string>>
    decreases |paths|
  {
    if paths == [] then []
    else
      var init, path := paths[..|paths| - 1], paths[|paths| - 1];
      var g := Gather(init, fs);
      var lower := Lower(path);
      TextsSeen(init, fs) +
        (if path != "" && path in g.fs && ((EndsWith(lower, ".pdf") && g.fs[path].PdfFile?) ||
                                           (!EndsWith(lower, ".pdf") && EndsWith(lower, ".docx") && g.fs[path].DocxFile?))
         then FileTexts(g.fs, path) else [])
  }

  lemma GatherStepHexes(g: Gathered, path: string)
    ensures var lower := Lower(path);
            GatherStep(g, path).hexes ==
            if path != "" && path in g.fs && ((EndsWith(lower, ".pdf") && g.fs[path].PdfFile?) ||
                                              (!EndsWith(lower, ".pdf") && EndsWith(lower, ".docx") && g.fs[path].DocxFile?))
            then g.hexes + TextHexes(FileTexts(g.fs, path)) else g.hexes
  {
    if path == "" || path !in g.fs {
    } else if EndsWith(Lower(path), ".pdf") {
      PdfStepHexes(g, path);
    } else if EndsWith(Lower(path), ".docx") {
      DocxStepHexes(g, path);
    }
  }

  lemma PdfStepHexes(g: Gathered, path: string)
    requires path != "" && path in g.fs && EndsWith(Lower(path), ".pdf")
    ensures GatherStep(g, path).hexes ==
            if g.fs[path].PdfFile? then g.hexes + TextHexes(FileTexts(g.fs, path)) else g.hexes
  {
  }

  lemma DocxStepHexes(g: Gathered, path: string)
    requires path != "" && path in g.fs && !EndsWith(Lower(path), ".pdf") && EndsWith(Lower(path), ".docx")
    ensures GatherStep(g, path).hexes ==
            if g.fs[path].DocxFile? then g.hexes + TextHexes(FileTexts(g.fs, path)) else g.hexes
  {
    if g.fs[path].DocxFile? {
      ScanDocxInReadingOrder(path, g.fs);
    }
  }

  /** The text colours are what the scanner finds in every text scanned,
      merged into one set. */
  lemma {:induction false} GatherHexes(paths: seq<string>, fs: FileSystem)
    ensures Gather(paths, fs).hexes == TextHexes(TextsSeen(paths, fs))
    decreases |paths|
  {
    if paths != [] {
      var init, path := paths[..|paths| - 1], paths[|paths| - 1];
      GatherHexes(init, fs);
      var g := Gather(init, fs);
      GatherStepHexes(g, path);
      var before := TextsSeen(init, fs);
      var lower := Lower(path);
      if path != "" && path in g.fs && ((EndsWith(lower, ".pdf") && g.fs[path].PdfFile?) ||
                                        (!EndsWith(lower, ".pdf") && EndsWith(lower, ".docx") && g.fs[path].DocxFile?)) {
        assert TextsSeen(paths, fs) == before + FileTexts(g.fs, path);
        UnionsAppend(TextColors, before, FileTexts(g.fs, path));
      } else {
        assert TextsSeen(paths, fs) == before + [] == before;
      }
    }
  }

  /** `hex_colors_in_text` lists, sorted and once each, exactly the colours
      the scanner finds in some text of some PDF or DOCX processed. */
  lemma ResultTextColors(paths: seq<string>, fs: FileSystem, x: string)
    requires ExtractBrand(paths, fs).Returned?
    ensures var d := ExtractBrand(paths, fs).value;
            var texts := TextsSeen(paths, fs);
            StrictlySorted(d.hexColorsInText) &&
            (x in d.hexColorsInText <==> exists k :: 0 <= k < |texts| && x in ExtractHexColors(texts[k])) &&
            (x in d.hexColorsInText ==> IsColorToken(x))
  {
    var g := Gather(paths, fs);
    AssembledShape(g);
    GatherHexes(paths, fs);
    TextHexesMembers(TextsSeen(paths, fs), x);
  }

  /** The detected colours are the dominant colours of the logo (at most
      five, none repeated); with no image candidate there are none. */
  lemma ResultDetectedColors(paths: seq<string>, fs: FileSystem)
    requires ExtractBrand(paths, fs).Returned?
    ensures var g := Gather(paths, fs);
            var d := ExtractBrand(paths, fs).value;
            d.logoPath == LogoOf(g) &&
            (g.images == [] ==> d.detectedColors == []) &&
            (g.images != [] ==> Returned(d.detectedColors) == DominantColorsOf(g.fs, d.logoPath.value, 5)) &&
            |d.detectedColors| <= 5 && Distinct(d.detectedColors)
  {
    var g := Gather(paths, fs);
    AssembledShape(g);
    ElifUnreachable(paths, fs);
  }

  /** Both colour lists hold colour tokens only. */
  lemma ResultColorTokens(paths: seq<string>, fs: FileSystem)
    requires ExtractBrand(paths, fs).Returned?
    ensures var d := ExtractBrand(paths, fs).value;
            (forall x :: x in d.detectedColors ==> IsColorToken(x)) &&
            (forall x :: x in d.hexColorsInText ==> IsColorToken(x))
  {
    var g := Gather(paths, fs);
    AssembledShape(g);
    UnpalettedColors(g, DominantOf(g).value);
    DominantTokens(g);
    GatherKeepsInvariant(paths, fs);
  }

  /** Before the palette: the colour lists as found, the roles from the first
      three colours of the source, and the other fields at their defaults. */
  lemma UnpalettedColors(g: Gathered, dominant: seq<string>)
    ensures Unpaletted(g, dominant).detectedColors == dominant
    ensures Unpaletted(g, dominant).hexColorsInText == SortedSet(g.hexes)
    ensures var p := Unpaletted(g, dominant);
            var source := if dominant != [] then dominant else SortedSet(g.hexes);
            p.primary == (if |source| > 0 then Some(source[0]) else None) &&
            p.secondary == (if |source| > 1 then Some(source[1]) else None) &&
            p.accent == (if |source| > 2 then Some(source[2]) else None) &&
            p.name == None && p.neutral == DefaultNeutral && p.background == DefaultBackground
  {
  }

  /** The dominant colours are hex strings of histogram colours. */
  lemma DominantTokens(g: Gathered)
    requires DominantOf(g).Returned?
    ensures forall x :: x in DominantOf(g).value ==> IsColorToken(x)
  {
    var logo := LogoOf(g);
    if Truthy(logo) {
      DominantColorsTokens(g.fs, logo.value);
    } else if g.images != [] {
      DominantColorsTokens(g.fs, g.images[0]);
    }
  }

  lemma DominantColorsTokens(fs: FileSystem, path: string)
    requires DominantColorsOf(fs, path, 5).Returned?
    ensures forall x :: x in DominantColorsOf(fs, path, 5).value ==> IsColorToken(x)
  {
    if path in fs && fs[path].RasterFile? && fs[path].histogram != [] {
      var h := fs[path].histogram;
      forall x | x in RankedColors(h, 5) ensures IsColorToken(x) {
        var e :| e in h && x == RgbToHex(e.item);
      }
    }
  }

  // ---------------------------------------------------------------------
  // Roles and palette
  // ---------------------------------------------------------------------

  /** Primary, secondary and accent are the first three dominant colours, or
      the first three text colours when there are no dominant colours; the
      rest of the profile keeps its defaults. */
  lemma ResultRoles(paths: seq<string>, fs: FileSystem)
    requires ExtractBrand(paths, fs).Returned?
    ensures var d := ExtractBrand(paths, fs).value;
            var source := if d.detectedColors != [] then d.detectedColors else d.hexColorsInText;
            d.primary == (if |source| > 0 then Some(source[0]) else None) &&
            d.secondary == (if |source| > 1 then Some(source[1]) else None) &&
            d.accent == (if |source| > 2 then Some(source[2]) else None) &&
            d.name == None && d.neutral == DefaultNeutral && d.background == DefaultBackground
  {
    var g := Gather(paths, fs);
    AssembledShape(g);
    UnpalettedColors(g, DominantOf(g).value);
  }

  /** The chart palette has six to eight distinct entries, starts with the
      primary colour when there is one, and draws only on the roles, the
      neutral colour and the fallback colours. */
  lemma ResultPalette(paths: seq<string>, fs: FileSystem)
    requires ExtractBrand(paths, fs).Returned?
    ensures var d := ExtractBrand(paths, fs).value;
            var pal := d.chartPalette;
            6 <= |pal| <= 8 && Distinct(pal) &&
            (d.primary.Some? ==> pal[0] == d.primary.value) &&
            forall c :: c in pal ==>
              c in Fallback || c == d.neutral || Some(c) == d.primary || Some(c) == d.secondary ||
              Some(c) == d.accent
  {
    var g := Gather(paths, fs);
    AssembledShape(g);
    var pre := Unpaletted(g, DominantOf(g).value);
    CompletedPaletteBounds(pre);
    ResultColorTokens(paths, fs);
    ResultRoles(paths, fs);
    if pre.primary.Some? {
      assert IsColorToken(pre.primary.value);
      PrimaryLeadsPalette(pre);
    }
  }

  // ---------------------------------------------------------------------
  // Paths that contribute nothing
  // ---------------------------------------------------------------------

  /** An empty path, a path that does not exist, and a path with none of the
      recognised suffixes change nothing. */
  lemma SkippedPathIgnored(paths: seq<string>, fs: FileSystem, path: string)
    requires var lower := Lower(path);
             path == "" || path !in Gather(paths, fs).fs ||
             !(EndsWith(lower, ".pdf") || EndsWith(lower, ".docx") || IsImageName(lower))
    ensures Gather(paths + [path], fs) == Gather(paths, fs)
    ensures ExtractBrand(paths + [path], fs) == ExtractBrand(paths, fs)
  {
    assert (paths + [path])[..|paths|] == paths;
  }
}
