// brand_engine/extractors.py: reading hex colours, font names and embedded
// images out of PDFs and DOCX files, and assembling the brand profile.

module Extractors {
  import opened Wrappers
  import opened Collections
  import opened Strings
  import opened Inputs
  import opened Paths
  import opened Utils
  import opened Tallies
  import opened BrandProfiles

  // ---------------------------------------------------------------------
  // _font_family_from_pdf_name
  // ---------------------------------------------------------------------

  /** Where the first `+` of `name` is, or -1. */
  function PlusIndex(name: string): (i: int)
    ensures -1 <= i < |name|
    ensures i >= 0 ==> name[i] == '+'
    ensures forall k :: 0 <= k < |name| && (i < 0 || k < i) ==> name[k] != '+'
    decreases |name|
  {
    if name == [] then -1
    else if name[0] == '+' then 0
    else
      var j := PlusIndex(name[1..]);
      if j < 0 then -1 else j + 1
  }

  /** `name.split("+", 1)[-1]`: the text after the first `+`, or the whole
      name when it has none. */
  function AfterFirstPlus(name: string): string {
    var i := PlusIndex(name);
    if i < 0 then name else name[i + 1..]
  }

  /** The family name left once the subset tag and the style words are gone. */
  function FamilyName(fontName: string): string {
    Strip(RemoveAll(RemoveAll(AfterFirstPlus(fontName), "Bold"), "Regular"))
  }

  /** The family name, or "Inter" when nothing is left of it. */
  function FamilyOrInter(fontName: string): (fam: string)
    ensures fam != [] && !IsSpace(fam[0]) && !IsSpace(fam[|fam| - 1])
  {
    var fam := FamilyName(fontName);
    if fam == "" then "Inter" else fam
  }

  lemma QuotedIsNotDefault(fam: string)
    ensures "'" + fam + "'" + GenericFamilies != DefaultFontStack
  {
    assert ("'" + fam + "'" + GenericFamilies)[0] == '\'' != ("Inter" + GenericFamilies)[0];
  }

  /** A CSS font-family for a PDF font name. */
  function FontFamily(fontName: string): (r: string)
    ensures r == DefaultFontStack <==> fontName == ""
    ensures fontName != "" ==>
              exists fam :: fam != [] && r == "'" + fam + "'" + GenericFamilies &&
                            !IsSpace(fam[0]) && !IsSpace(fam[|fam| - 1])
    ensures fontName != "" && FamilyName(fontName) == "" ==> r == "'Inter'" + GenericFamilies
    ensures fontName != "" && FamilyName(fontName) != "" ==>
              r == "'" + FamilyName(fontName) + "'" + GenericFamilies
  {
    if fontName == "" then DefaultFontStack
    else
      var fam := FamilyOrInter(fontName);
      QuotedIsNotDefault(fam);
      QuotedInter();
      "'" + fam + "'" + GenericFamilies
  }

  lemma QuotedInter()
    ensures "'" + "Inter" + "'" + GenericFamilies == "'Inter'" + GenericFamilies
  {
    assert "'" + "Inter" + "'" == "'Inter'";
  }

  // ---------------------------------------------------------------------
  // What one file contributes
  // ---------------------------------------------------------------------

  /** The colours the scanner finds in one text (`None` reads as ""). */
  function TextColors(text: Option<string>): set<string> {
    Elems(ExtractHexColors(text))
  }

  /** The union of the scanner's results over several texts. */
  function TextHexes(texts: seq<Option<string>>): set<string> {
    Unions(TextColors, texts)
  }

  /** A colour is found in some text, and each is a colour token. */
  lemma TextHexesMembers(texts: seq<Option<string>>, x: string)
    ensures x in TextHexes(texts) <==> exists k :: 0 <= k < |texts| && x in ExtractHexColors(texts[k])
    ensures x in TextHexes(texts) ==> IsColorToken(x)
  {
    UnionsMembers(TextColors, texts, x);
  }

  function PageTexts(pages: seq<PdfPage>): (ts: seq<Option<string>>)
    ensures |ts| == |pages| && forall k :: 0 <= k < |pages| ==> ts[k] == pages[k].text
  {
    seq(|pages|, k requires 0 <= k < |pages| => pages[k].text)
  }

  /** The truthy font names of the pages' characters, in reading order. */
  function FontNames(pages: seq<PdfPage>): seq<string>
    decreases |pages|
  {
    if pages == [] then []
    else FontNames(pages[..|pages| - 1]) + TruthyValues(pages[|pages| - 1].charFonts)
  }

  /** One embedded image: its page, its position on the page, and the
      histogram of the PNG written for it. */
  datatype Job = Job(page: nat, index: nat, histogram: Histogram)

  function PageJobs(page: nat, imgs: seq<Histogram>): (js: seq<Job>)
    ensures |js| == |imgs| && forall k :: 0 <= k < |imgs| ==> js[k] == Job(page, k, imgs[k])
  {
    seq(|imgs|, k requires 0 <= k < |imgs| => Job(page, k, imgs[k]))
  }

  /** Every embedded image, page by page. */
  function Jobs(imagePages: seq<seq<Histogram>>): seq<Job>
    decreases |imagePages|
  {
    if imagePages == [] then []
    else
      var init := imagePages[..|imagePages| - 1];
      Jobs(init) + PageJobs(|init|, imagePages[|imagePages| - 1])
  }

  /** `<dirname or .>/_extracted_logos` */
  function LogoDir(path: string): string {
    var base := Dirname(path);
    PathJoin(if base == "" then "." else base, "_extracted_logos")
  }

  /** The PNG name an embedded image is saved under. */
  function OutName(j: Job): string {
    SafeFilename("pdf_p" + Decimal(j.page) + "_img" + Decimal(j.index) + ".png")
  }

  function OutPath(dir: string, j: Job): (p: string)
    ensures EndsWith(p, OutName(j))
  {
    PathJoin(dir, OutName(j))
  }

  function OutPaths(dir: string, jobs: seq<Job>): (ps: seq<string>)
    ensures |ps| == |jobs| && forall k :: 0 <= k < |jobs| ==> ps[k] == OutPath(dir, jobs[k])
  {
    seq(|jobs|, k requires 0 <= k < |jobs| => OutPath(dir, jobs[k]))
  }

  /** What `pix.save` writes for each job, in order. */
  function Writes(dir: string, jobs: seq<Job>): (ws: seq<(string, FileData)>)
    ensures |ws| == |jobs| &&
            forall k :: 0 <= k < |jobs| ==> ws[k] == (OutPath(dir, jobs[k]), RasterFile(jobs[k].histogram))
  {
    seq(|jobs|, k requires 0 <= k < |jobs| => (OutPath(dir, jobs[k]), RasterFile(jobs[k].histogram)))
  }

  /** The filesystem after `pix.save` for each job in turn. */
  function SaveAll(fs: FileSystem, dir: string, jobs: seq<Job>): FileSystem {
    Store(fs, Writes(dir, jobs))
  }

  /** What `_extract_from_pdf` returns, with the filesystem it leaves. */
  datatype PdfScan = PdfScan(hexes: seq<string>, fonts: Tally, images: seq<string>, fs: FileSystem)

  /** `_extract_from_pdf(path)`: a file that is not a PDF makes both
      decoders raise at once, and both failures are swallowed. */
  function ScanPdf(path: string, fs: FileSystem): PdfScan {
    if path in fs && fs[path].PdfFile? then
      var d := fs[path];
      var dir := LogoDir(path);
      var jobs := Jobs(d.imagePages);
      PdfScan(SortedSet(TextHexes(PageTexts(d.pages))), TallyOf(FontNames(d.pages)),
              OutPaths(dir, jobs), SaveAll(fs, dir, jobs))
    else PdfScan([], [], [], fs)
  }

  /** Every cell of every table, table by table and row by row. */
  function TableCells(tables: seq<Table>): seq<Option<string>>
    decreases |tables|
  {
    if tables == [] then [] else TableCells(tables[..|tables| - 1]) + Flatten(tables[|tables| - 1])
  }

  /** The texts of a document in reading order: paragraphs, then cells. */
  function DocxTexts(paragraphs: seq<Option<string>>, tables: seq<Table>): seq<Option<string>> {
    paragraphs + TableCells(tables)
  }

  /** The colours of one table's cells, row by row. */
  function TableColors(table: Table): set<string> {
    TextHexes(Flatten(table))
  }

  /** The colours of every table cell, table by table. */
  function TablesHexes(tables: seq<Table>): set<string> {
    Unions(TableColors, tables)
  }

  /** `_extract_from_docx(path)` */
  function ScanDocx(path: string, fs: FileSystem): seq<string> {
    if path in fs && fs[path].DocxFile? then
      SortedSet(TextHexes(fs[path].paragraphs) + TablesHexes(fs[path].tables))
    else []
  }

  // ---------------------------------------------------------------------
  // The extractors as the source writes them
  // ---------------------------------------------------------------------

  /** `for c in tokens: found.add(c)` */
  method AddAll(found: set<string>, tokens: seq<string>) returns (r: set<string>)
    ensures r == found + Elems(tokens)
  {
    r := found;
    for k := 0 to |tokens|
      invariant r == found + Elems(tokens[..k])
    {
      assert Elems(tokens[..k + 1]) == Elems(tokens[..k]) + {tokens[k]} by {
        assert tokens[..k + 1] == tokens[..k] + [tokens[k]];
      }
      r := r + {tokens[k]};
    }
    assert tokens[..|tokens|] == tokens;
  }

  /** `text or ""` scans as `text` does. */
  lemma ScanTextOrEmpty(text: Option<string>)
    ensures ExtractHexColors(Some(TextOrEmpty(text))) == ExtractHexColors(text)
  {
  }

  /** `for text in texts: found.update(extract_hex_colors_from_text(text or ""))` */
  method AddTextColors(found: set<string>, texts: seq<Option<string>>) returns (r: set<string>)
    ensures r == found + TextHexes(texts)
  {
    r := found;
    assert texts[..0] == [];
    for i := 0 to |texts|
      invariant r == found + TextHexes(texts[..i])
    {
      UnionsStep(TextColors, texts, i);
      ScanTextOrEmpty(texts[i]);
      var text := TextOrEmpty(texts[i]);
      r := AddAll(r, ExtractHexColors(Some(text)));
    }
    assert texts[..|texts|] == texts;
  }

  lemma CountFontsStep(before: seq<string>, chars: seq<Option<string>>, k: nat)
    requires k < |chars|
    ensures var prior := before + TruthyValues(chars[..k]);
            TallyOf(before + TruthyValues(chars[..k + 1])) ==
              if Truthy(chars[k]) then Bump(TallyOf(prior), chars[k].value, 1) else TallyOf(prior)
  {
    var prior := before + TruthyValues(chars[..k]);
    assert chars[..k + 1][..k] == chars[..k];
    if Truthy(chars[k]) {
      assert before + TruthyValues(chars[..k + 1]) == prior + [chars[k].value];
      assert (prior + [chars[k].value])[..|prior|] == prior;
    } else {
      assert before + TruthyValues(chars[..k + 1]) == prior;
    }
  }

  /** `fonts[fname] += 1` for every character whose font name is truthy. */
  method CountFonts(ghost before: seq<string>, fonts: Tally, chars: seq<Option<string>>) returns (r: Tally)
    requires fonts == TallyOf(before)
    ensures r == TallyOf(before + TruthyValues(chars))
  {
    r := fonts;
    assert before + TruthyValues(chars[..0]) == before;
    for k := 0 to |chars|
      invariant r == TallyOf(before + TruthyValues(chars[..k]))
    {
      CountFontsStep(before, chars, k);
      var fname := chars[k];
      if fname.Some? && fname.value != "" {
        r := Bump(r, fname.value, 1);
      }
    }
    assert chars[..|chars|] == chars;
  }

  lemma PageStep(pages: seq<PdfPage>, p: nat)
    requires p < |pages|
    ensures TextHexes(PageTexts(pages[..p + 1])) == TextHexes(PageTexts(pages[..p])) + TextColors(pages[p].text)
    ensures FontNames(pages[..p + 1]) == FontNames(pages[..p]) + TruthyValues(pages[p].charFonts)
  {
    var ts := PageTexts(pages[..p + 1]);
    assert ts[..p] == PageTexts(pages[..p]);
    UnionsStep(TextColors, ts, p);
    assert pages[..p + 1][..p] == pages[..p];
  }

  /** The pdfplumber pass: colours of each page's text, fonts of its
      characters. */
  method ReadPdfText(pages: seq<PdfPage>) returns (found: set<string>, fonts: Tally)
    ensures found == TextHexes(PageTexts(pages)) && fonts == TallyOf(FontNames(pages))
  {
    found, fonts := {}, [];
    assert PageTexts(pages[..0]) == [];
    for p := 0 to |pages|
      invariant found == TextHexes(PageTexts(pages[..p]))
      invariant fonts == TallyOf(FontNames(pages[..p]))
    {
      PageStep(pages, p);
      ScanTextOrEmpty(pages[p].text);
      var text := TextOrEmpty(pages[p].text);
      found := AddAll(found, ExtractHexColors(Some(text)));
      fonts := CountFonts(FontNames(pages[..p]), fonts, pages[p].charFonts);
    }
    assert pages[..|pages|] == pages;
  }

  lemma OutPathsSnoc(dir: string, jobs: seq<Job>, j: Job)
    ensures OutPaths(dir, jobs + [j]) == OutPaths(dir, jobs) + [OutPath(dir, j)]
  {
  }

  lemma SaveStep(fs: FileSystem, dir: string, done: seq<Job>, page: nat, imgs: seq<Histogram>, i: nat)
    requires i < |imgs|
    ensures var js := done + PageJobs(page, imgs)[..i];
            var next := done + PageJobs(page, imgs)[..i + 1];
            var j := Job(page, i, imgs[i]);
            OutPaths(dir, next) == OutPaths(dir, js) + [OutPath(dir, j)] &&
            SaveAll(fs, dir, next) == SaveAll(fs, dir, js)[OutPath(dir, j) := RasterFile(imgs[i])]
  {
    var js := done + PageJobs(page, imgs)[..i];
    var j := Job(page, i, imgs[i]);
    assert done + PageJobs(page, imgs)[..i + 1] == js + [j];
    OutPathsSnoc(dir, js, j);
    assert Writes(dir, js + [j]) == Writes(dir, js) + [(OutPath(dir, j), RasterFile(imgs[i]))];
    StoreSnoc(fs, Writes(dir, js), (OutPath(dir, j), RasterFile(imgs[i])));
  }

  /** The images of one page, saved in order. */
  method SavePageImages(logoDir: string, page: nat, imgs: seq<Histogram>, ghost fs0: FileSystem,
                        ghost done: seq<Job>, images: seq<string>, fs: FileSystem)
    returns (images': seq<string>, fs': FileSystem)
    requires images == OutPaths(logoDir, done) && fs == SaveAll(fs0, logoDir, done)
    ensures images' == OutPaths(logoDir, done + PageJobs(page, imgs))
    ensures fs' == SaveAll(fs0, logoDir, done + PageJobs(page, imgs))
  {
    images', fs' := images, fs;
    assert done + PageJobs(page, imgs)[..0] == done;
    for i := 0 to |imgs|
      invariant images' == OutPaths(logoDir, done + PageJobs(page, imgs)[..i])
      invariant fs' == SaveAll(fs0, logoDir, done + PageJobs(page, imgs)[..i])
    {
      SaveStep(fs0, logoDir, done, page, imgs, i);
      var outName := "pdf_p" + Decimal(page) + "_img" + Decimal(i) + ".png";
      var outPath := PathJoin(logoDir, SafeFilename(outName));
      fs' := fs'[outPath := RasterFile(imgs[i])];
      images' := images' + [outPath];
    }
    assert PageJobs(page, imgs)[..|imgs|] == PageJobs(page, imgs);
  }

  lemma JobsStep(imagePages: seq<seq<Histogram>>, p: nat)
    requires p < |imagePages|
    ensures Jobs(imagePages[..p + 1]) == Jobs(imagePages[..p]) + PageJobs(p, imagePages[p])
  {
    assert imagePages[..p + 1][..p] == imagePages[..p];
  }

  /** The PyMuPDF pass: every embedded image is written as a PNG under
      `_extracted_logos` beside the PDF, and its path recorded. */
  method SavePdfImages(path: string, imagePages: seq<seq<Histogram>>, fs: FileSystem)
    returns (images: seq<string>, fs': FileSystem)
    ensures images == OutPaths(LogoDir(path), Jobs(imagePages))
    ensures fs' == SaveAll(fs, LogoDir(path), Jobs(imagePages))
  {
    images, fs' := [], fs;
    var baseDir := Dirname(path);
    if baseDir == "" {
      baseDir := ".";
    }
    var logoDir := PathJoin(baseDir, "_extracted_logos");
    assert imagePages[..0] == [];
    for p := 0 to |imagePages|
      invariant images == OutPaths(logoDir, Jobs(imagePages[..p]))
      invariant fs' == SaveAll(fs, logoDir, Jobs(imagePages[..p]))
    {
      JobsStep(imagePages, p);
      images, fs' := SavePageImages(logoDir, p, imagePages[p], fs, Jobs(imagePages[..p]), images, fs');
    }
    assert imagePages[..|imagePages|] == imagePages;
  }

  method ExtractFromPdf(path: string, fs: FileSystem)
    returns (hexes: seq<string>, fonts: Tally, images: seq<string>, fs': FileSystem)
    ensures PdfScan(hexes, fonts, images, fs') == ScanPdf(path, fs)
  {
    var found: set<string> := {};
    fonts, images, fs' := [], [], fs;
    if path in fs && fs[path].PdfFile? {
      found, fonts := ReadPdfText(fs[path].pages);
      images, fs' := SavePdfImages(path, fs[path].imagePages, fs);
    }
    hexes := SortedSet(found);
  }

  lemma RowStep(table: Table, i: nat)
    requires i < |table|
    ensures TextHexes(Flatten(table[..i + 1])) == TextHexes(Flatten(table[..i])) + TextHexes(table[i])
  {
    assert table[..i + 1] == table[..i] + [table[i]];
    FlattenSnoc(table[..i], table[i]);
    UnionsAppend(TextColors, Flatten(table[..i]), table[i]);
  }

  /** `for row in table.rows: for cell in row.cells: ...` */
  method AddTableColors(found: set<string>, table: Table) returns (r: set<string>)
    ensures r == found + TableColors(table)
  {
    r := found;
    assert table[..0] == [];
    for i := 0 to |table|
      invariant r == found + TextHexes(Flatten(table[..i]))
    {
      RowStep(table, i);
      r := AddTextColors(r, table[i]);
    }
    assert table[..|table|] == table;
  }

  method ExtractFromDocx(path: string, fs: FileSystem) returns (hexes: seq<string>)
    ensures hexes == ScanDocx(path, fs)
  {
    var found: set<string> := {};
    if path in fs && fs[path].DocxFile? {
      found := AddTextColors(found, fs[path].paragraphs);
      var tables := fs[path].tables;
      ghost var fromParagraphs := found;
      assert tables[..0] == [];
      for t := 0 to |tables|
        invariant found == fromParagraphs + TablesHexes(tables[..t])
      {
        UnionsStep(TableColors, tables, t);
        found := AddTableColors(found, tables[t]);
      }
      assert tables[..|tables|] == tables;
    }
    hexes := SortedSet(found);
  }

  // ---------------------------------------------------------------------
  // extract_brand_from_files
  // ---------------------------------------------------------------------

  /** The image suffixes taken as they are. */
  predicate IsImageName(lower: string) {
    EndsWith(lower, ".png") || EndsWith(lower, ".jpg") || EndsWith(lower, ".jpeg") || EndsWith(lower, ".webp")
  }

  /** What the loop over the paths has accumulated, with the filesystem as
      the PDF extractor has left it. */
  datatype Gathered = Gathered(hexes: set<string>, fonts: Tally, logos: seq<string>,
                               images: seq<string>, fs: FileSystem)

  /** One turn of the loop: falsy or missing paths are skipped; the suffix,
      compared in lower case, picks the extractor. */
  function GatherStep(g: Gathered, path: string): Gathered {
    if path == "" || path !in g.fs then g
    else
      var lower := Lower(path);
      if EndsWith(lower, ".pdf") then
        var s := ScanPdf(path, g.fs);
        Gathered(g.hexes + Elems(s.hexes), Merge(g.fonts, s.fonts), g.logos + s.images,
                 g.images + s.images, s.fs)
      else if EndsWith(lower, ".docx") then
        g.(hexes := g.hexes + Elems(ScanDocx(path, g.fs)))
      else if IsImageName(lower) then
        g.(images := g.images + [path])
      else g
  }

  /** The loop over all the paths. */
  function Gather(paths: seq<string>, fs: FileSystem): Gathered
    decreases |paths|
  {
    if paths == [] then Gathered({}, [], [], [], fs)
    else GatherStep(Gather(paths[..|paths| - 1], fs), paths[|paths| - 1])
  }

  /** The first PDF image, else the first image of any kind. */
  function LogoOf(g: Gathered): Option<string> {
    if g.logos != [] then Some(g.logos[0])
    else if g.images != [] then Some(g.images[0])
    else None
  }

  /** The dominant colours of the logo, else of the first image; reading an
      image the decoder cannot open raises. */
  function DominantFor(logo: Option<string>, images: seq<string>, fs: FileSystem): Outcome<seq<string>> {
    if Truthy(logo) then DominantColorsOf(fs, logo.value, 5)
    else if images != [] then DominantColorsOf(fs, images[0], 5)
    else Returned([])
  }

  function DominantOf(g: Gathered): Outcome<seq<string>> {
    DominantFor(LogoOf(g), g.images, g.fs)
  }

  /** Primary, secondary and accent from the first three colours of `source`,
      where there are that many. */
  function WithRoles(p: ProfileData, source: seq<string>): ProfileData {
    p.(primary := if |source| > 0 then Some(source[0]) else p.primary,
       secondary := if |source| > 1 then Some(source[1]) else p.secondary,
       accent := if |source| > 2 then Some(source[2]) else p.accent)
  }

  /** The five most common fonts, and the family of the first for both
      heading and body; nothing changes when no font was seen. */
  function WithFonts(p: ProfileData, fonts: Tally): ProfileData {
    if fonts == [] then p
    else
      MostCommonLength(fonts, 5);
      WithTopFonts(p, MostCommon(fonts, 5))
  }

  /** The most common names are recorded and the first one picks the family. */
  function WithTopFonts(p: ProfileData, top: seq<string>): ProfileData
    requires top != []
  {
    p.(detectedFonts := top, fontHeading := FontFamily(top[0]), fontBody := FontFamily(top[0]))
  }

  /** The profile built from what was gathered. */
  function Assemble(g: Gathered): Outcome<ProfileData> {
    match DominantOf(g)
    case Raised => Raised
    case Returned(dominant) =>
      var text := SortedSet(g.hexes);
      var p := DefaultData().(logoPath := LogoOf(g), detectedColors := dominant, hexColorsInText := text);
      var source := if dominant != [] then dominant else text;
      Returned(EnsuredPalette(WithFonts(WithRoles(p, source), g.fonts)))
  }

  /** `extract_brand_from_files(file_paths)` */
  function ExtractBrand(paths: seq<string>, fs: FileSystem): Outcome<ProfileData> {
    Assemble(Gather(paths, fs))
  }

  lemma GatherSnoc(paths: seq<string>, fs: FileSystem, i: nat)
    requires i < |paths|
    ensures Gather(paths[..i + 1], fs) == GatherStep(Gather(paths[..i], fs), paths[i])
  {
    assert paths[..i + 1][..i] == paths[..i];
  }

  /** One turn of the loop over the paths. */
  method VisitPath(path: string, allHex: set<string>, allFonts: Tally, logos: seq<string>,
                   images: seq<string>, fs: FileSystem)
    returns (allHex': set<string>, allFonts': Tally, logos': seq<string>, images': seq<string>,
             fs': FileSystem)
    ensures Gathered(allHex', allFonts', logos', images', fs') ==
            GatherStep(Gathered(allHex, allFonts, logos, images, fs), path)
  {
    allHex', allFonts', logos', images', fs' := allHex, allFonts, logos, images, fs;
    if path == "" || path !in fs {
      return;
    }
    var lower := Lower(path);
    if EndsWith(lower, ".pdf") {
      var pdfHex, pdfFonts, pdfImages, fsAfter := ExtractFromPdf(path, fs);
      allHex' := AddAll(allHex, pdfHex);
      allFonts' := Merge(allFonts, pdfFonts);
      logos' := logos + pdfImages;
      images' := images + pdfImages;
      fs' := fsAfter;
    } else if EndsWith(lower, ".docx") {
      var docxHex := ExtractFromDocx(path, fs);
      allHex' := AddAll(allHex, docxHex);
    } else if IsImageName(lower) {
      images' := images + [path];
    }
  }

  /** `palette_source[0]`, `[1]` and `[2]`, where they exist, become the
      primary, secondary and accent colours. */
  method AssignRoles(profile: BrandProfile, source: seq<string>)
    modifies profile
    ensures profile.Value() == WithRoles(old(profile.Value()), source)
  {
    if |source| > 0 {
      profile.primary := Some(source[0]);
    }
    if |source| > 1 {
      profile.secondary := Some(source[1]);
    }
    if |source| > 2 {
      profile.accent := Some(source[2]);
    }
  }

  lemma WithFontsChosen(p: ProfileData, fonts: Tally)
    requires fonts != []
    ensures MostCommon(fonts, 5) != [] &&
            WithFonts(p, fonts) == p.(detectedFonts := MostCommon(fonts, 5),
                                      fontHeading := FontFamily(MostCommon(fonts, 5)[0]),
                                      fontBody := FontFamily(MostCommon(fonts, 5)[0]))
  {
    MostCommonLength(fonts, 5);
  }

  /** The font block: only when some font was counted. */
  method AssignFonts(profile: BrandProfile, allFonts: Tally)
    modifies profile
    ensures profile.Value() == WithFonts(old(profile.Value()), allFonts)
  {
    if allFonts != [] {
      var top := MostCommon(allFonts, 5);
      MostCommonLength(allFonts, 5);
      var family := FontFamily(top[0]);
      profile.RecordFonts(top, family);
    }
  }

  /** The loop over the paths. */
  method GatherAll(paths: seq<string>, fs: FileSystem)
    returns (allHex: set<string>, allFonts: Tally, logos: seq<string>, images: seq<string>,
             fs': FileSystem)
    ensures Gathered(allHex, allFonts, logos, images, fs') == Gather(paths, fs)
  {
    allHex, allFonts, logos, images, fs' := {}, [], [], [], fs;
    assert paths[..0] == [];
    for i := 0 to |paths|
      invariant Gathered(allHex, allFonts, logos, images, fs') == Gather(paths[..i], fs)
    {
      GatherSnoc(paths, fs, i);
      allHex, allFonts, logos, images, fs' := VisitPath(paths[i], allHex, allFonts, logos, images, fs');
    }
    assert paths[..|paths|] == paths;
  }

  /** The dominant-colours block. */
  method DominantColors(logoPath: Option<string>, images: seq<string>, fs: FileSystem)
    returns (colors: Outcome<seq<string>>)
    ensures colors == DominantFor(logoPath, images, fs)
  {
    colors := Returned([]);
    if Truthy(logoPath) {
      colors := ImageDominantColors(fs, logoPath.value, 5);
    } else if images != [] {
      colors := ImageDominantColors(fs, images[0], 5);
    }
  }

  method ExtractBrandFromFiles(paths: seq<string>, fs: FileSystem)
    returns (r: Outcome<BrandProfile>, fs': FileSystem)
    ensures fs' == Gather(paths, fs).fs
    ensures r.Raised? <==> ExtractBrand(paths, fs).Raised?
    ensures r.Returned? ==> fresh(r.value) && r.value.Value() == ExtractBrand(paths, fs).value
  {
    var profile := new BrandProfile();
    var allHex, allFonts, logos, images;
    allHex, allFonts, logos, images, fs' := GatherAll(paths, fs);
    ghost var g := Gather(paths, fs);

    if logos != [] {
      profile.logoPath := Some(logos[0]);
    } else if images != [] {
      profile.logoPath := Some(images[0]);
    }

    var colors := DominantColors(profile.logoPath, images, fs');
    if colors.Raised? {
      return Raised, fs';
    }
    var dominant := colors.value;
    profile.detectedColors := dominant;
    profile.hexColorsInText := SortedSet(allHex);
    assert profile.Value() == DefaultData().(logoPath := LogoOf(g), detectedColors := dominant,
                                             hexColorsInText := SortedSet(g.hexes));

    var source := if dominant != [] then dominant else profile.hexColorsInText;
    AssignRoles(profile, source);
    AssignFonts(profile, allFonts);
    profile.EnsurePalette();
    r := Returned(profile);
  }
}
