// Concrete runs of the extractor on small inputs.

module Scenarios {
  import opened Wrappers
  import opened Collections
  import opened Strings
  import opened Inputs
  import opened Paths
  import opened Utils
  import opened Tallies
  import opened BrandProfiles
  import opened Extractors
  import ExtractionFacts

  /** With no files at all the profile keeps every default, and the chart
      palette is the neutral colour followed by the six fallback colours. */
  lemma NoFilesGivesDefaults(fs: FileSystem)
    ensures ExtractBrand([], fs) ==
            Returned(DefaultData().(chartPalette := [DefaultNeutral] + Fallback))
  {
    var g := Gather([], fs);
    assert g == Gathered({}, [], [], [], fs);
    assert LogoOf(g) == None && DominantOf(g) == Returned([]);
    assert SortedSet(g.hexes) == [];
    var p := DefaultData().(logoPath := None, detectedColors := [], hexColorsInText := []);
    assert p == DefaultData();
    assert WithFonts(WithRoles(p, []), []) == DefaultData();
    assert Assemble(g) == Returned(EnsuredPalette(DefaultData()));
    DefaultPalette();
    assert [DefaultNeutral] + Fallback == CompletedPalette(DefaultData());
  }

  /** An upper-case suffix is recognised: the name is compared in lower case. */
  lemma UpperCaseSuffixAccepted(h: Histogram)
    ensures Gather(["LOGO.PNG"], map["LOGO.PNG" := RasterFile(h)]).images == ["LOGO.PNG"]
  {
    var fs := map["LOGO.PNG" := RasterFile(h)];
    assert Gather([], fs) == Gathered({}, [], [], [], fs);
    assert ["LOGO.PNG"][..0] == [];
    assert Lower("LOGO.PNG") == "logo.png";
  }

  /** Dropping the style words from a name where only `Bold` occurs. */
  lemma BoldDropped(name: string)
    requires name == "Helvetica-Bold"
    ensures RemoveAll(RemoveAll(name, "Bold"), "Regular") == "Helvetica-"
  {
    var family, style := "Helvetica-", "Bold";
    assert name == family + style;
    RemoveAllSkips(family, style, "Bold");
    assert RemoveAll(style, "Bold") == "";
    assert family == family + "";
    RemoveAllSkips(family, "", "Regular");
  }

  /** The subset tag and the style word go; the hyphen before the style stays. */
  lemma BoldFamilyName(fontName: string)
    requires fontName == "AAAAAA+Helvetica-Bold"
    ensures FamilyName(fontName) == "Helvetica-"
  {
    var tag, name := "AAAAAA", "Helvetica-Bold";
    assert fontName == tag + "+" + name;
    ExtractionFacts.AfterSubsetTag(tag, name);
    BoldDropped(name);
    StripTrimmed("Helvetica-");
  }

  /** The CSS stack for that font quotes the family and adds the generic ones. */
  lemma SubsetTaggedBoldFont(fontName: string)
    requires fontName == "AAAAAA+Helvetica-Bold"
    ensures FontFamily(fontName) == "'" + "Helvetica-" + "'" + GenericFamilies
  {
    BoldFamilyName(fontName);
    QuotedFamily(fontName, "Helvetica-");
  }

  lemma QuotedFamily(fontName: string, family: string)
    requires fontName != "" && family != "" && FamilyName(fontName) == family
    ensures FontFamily(fontName) == "'" + family + "'" + GenericFamilies
  {
  }

  /** `str.replace` makes a single pass: removing `Bold` from `BoBoldld`
      joins the pieces around it into a new `Bold`. */
  lemma SinglePassReplace(s: string)
    requires s == "BoBoldld"
    ensures RemoveAll(s, "Bold") == "Bold"
  {
    var p, tail := "Bold", "ld";
    assert !StartsWith(s, p) by {
      assert s[..|p|][2] == s[2] != p[2];
    }
    RemoveAllHead(s, p);
    assert s[1..] == "o" + (p + tail);
    RemoveAllSkips("o", p + tail, p);
    RemoveAllLead(p, tail);
    assert RemoveAll(tail, p) == tail;
    assert [s[0]] + ("o" + tail) == p;
  }

  // ---------------------------------------------------------------------
  // Where the images of a PDF are saved
  // ---------------------------------------------------------------------

  /** Every saved image has a name ending in `.png`, so it is never taken
      for a PDF or a DOCX. */
  lemma SavedIsPng(dir: string, j: Job)
    ensures var p := OutPath(dir, j);
            EndsWith(p, ".png") && !EndsWith(Lower(p), ".pdf") && !EndsWith(Lower(p), ".docx")
  {
    ExtractionFacts.OutNamePlain(j);
    var n := OutName(j);
    var p := OutPath(dir, j);
    EndsWithAppend("pdf_p" + Decimal(j.page) + "_img" + Decimal(j.index), ".png");
    EndsWithTrans(p, n, ".png");
    PngNotPdfOrDocx(p);
  }

  /** Where the first image of the first page of `path` is saved. */
  function FirstSaved(path: string, h: Histogram): string {
    OutPath(LogoDir(path), Job(0, 0, h))
  }

  /** The saved name depends on the page and the index, not on the pixels. */
  lemma SavedNameIgnoresPixels(dir: string, j: Job, k: Job)
    requires j.page == k.page && j.index == k.index
    ensures OutPath(dir, j) == OutPath(dir, k)
  {
    assert OutName(j) == OutName(k);
  }

  /** A PDF with no text and one image on its first page contributes that
      image, saved beside it, and nothing else. */
  lemma ScanSingleImagePdf(path: string, fs: FileSystem, h: Histogram)
    requires path in fs && fs[path] == PdfFile([], [[h]])
    ensures ScanPdf(path, fs) == PdfScan([], [], [FirstSaved(path, h)], fs[FirstSaved(path, h) := RasterFile(h)])
  {
    var dir := LogoDir(path);
    var job := Job(0, 0, h);
    assert [[h]][..0] == [];
    assert Jobs([[h]]) == [job];
    var p := FirstSaved(path, h);
    assert OutPaths(dir, [job]) == [p];
    var ws: seq<(string, FileData)> := [(p, RasterFile(h))];
    assert Writes(dir, [job]) == ws;
    assert ws[..0] == [];
    assert Store(fs, ws) == Store(fs, ws[..0])[p := RasterFile(h)];
    assert SaveAll(fs, dir, [job]) == fs[p := RasterFile(h)];
    assert TextHexes(PageTexts([])) == {};
    assert SortedSet({}) == [];
    assert TallyOf(FontNames([])) == [];
  }

  /** One turn of the loop on a PDF whose scan gives one image and nothing
      else. */
  lemma GatherSingleImagePdf(g: Gathered, pdf: string, p: string, h: Histogram)
    requires pdf != "" && pdf in g.fs && EndsWith(Lower(pdf), ".pdf")
    requires ScanPdf(pdf, g.fs) == PdfScan([], [], [p], g.fs[p := RasterFile(h)])
    ensures GatherStep(g, pdf) ==
            g.(logos := g.logos + [p], images := g.images + [p], fs := g.fs[p := RasterFile(h)])
  {
    assert Elems(ScanPdf(pdf, g.fs).hexes) == {};
    assert g.hexes + {} == g.hexes;
    assert Merge(g.fonts, []) == g.fonts;
  }

  /** The dominant colours read from a saved image. */
  lemma DominantOfSaved(g: Gathered, p: string, h: Histogram)
    requires LogoOf(g) == Some(p) && p != "" && p in g.fs && g.fs[p] == RasterFile(h)
    ensures DominantOf(g) == Returned(if h == [] then [] else RankedColors(h, 5))
  {
  }

  /** Two paths are two turns of the loop. */
  lemma GatherTwo(x: string, y: string, fs: FileSystem)
    ensures Gather([x, y], fs) == GatherStep(GatherStep(Gathered({}, [], [], [], fs), x), y)
  {
    var paths := [x, y];
    assert paths[..1] == [x] && [x][..0] == [];
    assert Gather([x], fs) == GatherStep(Gather([], fs), x);
    assert Gather(paths, fs) == GatherStep(Gather([x], fs), y);
  }

  /** One turn of the loop on an image. */
  lemma GatherImage(g: Gathered, image: string)
    requires image != "" && image in g.fs && IsImageName(Lower(image))
    ensures GatherStep(g, image) == g.(images := g.images + [image])
  {
    var li := Lower(image);
    assert !EndsWith(li, ".pdf") && !EndsWith(li, ".docx") by {
      assert li[|li| - 1] == 'g' || li[|li| - 1] == 'p';
    }
  }

  /** The first turn of the loop, on a plain image. */
  lemma FirstTurnImage(image: string, fs: FileSystem)
    requires image != "" && image in fs && IsImageName(Lower(image))
    ensures GatherStep(Gathered({}, [], [], [], fs), image) == Gathered({}, [], [], [image], fs)
  {
    var g0 := Gathered({}, [], [], [], fs);
    GatherImage(g0, image);
    assert g0.images + [image] == [image];
  }

  /** The second turn, on a one-image PDF after a plain image. */
  lemma SecondTurnPdf(image: string, p: string, pdf: string, fs: FileSystem, h: Histogram)
    requires pdf != "" && pdf in fs && EndsWith(Lower(pdf), ".pdf")
    requires ScanPdf(pdf, fs) == PdfScan([], [], [p], fs[p := RasterFile(h)])
    ensures GatherStep(Gathered({}, [], [], [image], fs), pdf) ==
            Gathered({}, [], [p], [image, p], fs[p := RasterFile(h)])
  {
    var g1 := Gathered({}, [], [], [image], fs);
    GatherSingleImagePdf(g1, pdf, p, h);
    SnocEmpty(p);
    SnocOne(image, p);
  }

  /** The loop over a plain image and then a one-image PDF. */
  lemma GatherImageThenPdf(image: string, pdf: string, fs: FileSystem, h: Histogram)
    requires image != "" && image in fs && IsImageName(Lower(image))
    requires pdf != "" && pdf in fs && EndsWith(Lower(pdf), ".pdf") && fs[pdf] == PdfFile([], [[h]])
    ensures var p := FirstSaved(pdf, h);
            Gather([image, pdf], fs) == Gathered({}, [], [p], [image, p], fs[p := RasterFile(h)])
  {
    FirstTurnImage(image, fs);
    ScanSingleImagePdf(pdf, fs, h);
    SecondTurnPdf(image, FirstSaved(pdf, h), pdf, fs, h);
    GatherTwo(image, pdf, fs);
  }

  /** An image from a PDF becomes the logo even when a plain image came
      first; the plain image stays first in the image list. */
  lemma PdfImageBeatsEarlierImage(image: string, pdf: string, fs: FileSystem, h: Histogram)
    requires image != "" && image in fs && IsImageName(Lower(image))
    requires pdf != "" && pdf in fs && EndsWith(Lower(pdf), ".pdf") && fs[pdf] == PdfFile([], [[h]])
    ensures var g := Gather([image, pdf], fs);
            var p := FirstSaved(pdf, h);
            g.images == [image, p] && LogoOf(g) == Some(p) && p in g.fs && g.fs[p] == RasterFile(h) &&
            DominantOf(g) == Returned(if h == [] then [] else RankedColors(h, 5))
  {
    GatherImageThenPdf(image, pdf, fs, h);
    SavedIsPng(LogoDir(pdf), Job(0, 0, h));
    DominantOfSaved(Gather([image, pdf], fs), FirstSaved(pdf, h), h);
  }

  lemma SnocEmpty<T>(x: T)
    ensures [] + [x] == [x]
  {
  }

  lemma SnocOne<T>(x: T, y: T)
    ensures [x] + [y] == [x, y]
  {
  }

  /** A second write to a key replaces the first. */
  lemma OverwriteTwice<K, V>(m: map<K, V>, k: K, v1: V, v2: V)
    ensures m[k := v1][k := v2] == m[k := v2]
  {
  }

  /** The first turn of the loop, on a one-image PDF. */
  lemma FirstTurnPdf(p: string, a: string, fs: FileSystem, h: Histogram)
    requires a != "" && a in fs && EndsWith(Lower(a), ".pdf")
    requires ScanPdf(a, fs) == PdfScan([], [], [p], fs[p := RasterFile(h)])
    ensures GatherStep(Gathered({}, [], [], [], fs), a) == Gathered({}, [], [p], [p], fs[p := RasterFile(h)])
  {
    var g0 := Gathered({}, [], [], [], fs);
    GatherSingleImagePdf(g0, a, p, h);
    SnocEmpty(p);
  }

  /** The second turn, on another one-image PDF that saves to the same name. */
  lemma SecondTurnSamePdf(p: string, b: string, fs: FileSystem, h: Histogram)
    requires b != "" && b in fs && EndsWith(Lower(b), ".pdf")
    requires ScanPdf(b, fs) == PdfScan([], [], [p], fs[p := RasterFile(h)])
    ensures GatherStep(Gathered({}, [], [p], [p], fs), b) == Gathered({}, [], [p, p], [p, p], fs[p := RasterFile(h)])
  {
    var g1 := Gathered({}, [], [p], [p], fs);
    GatherSingleImagePdf(g1, b, p, h);
    SnocOne(p, p);
  }

  /** A PDF's own path is never where an image is saved. */
  lemma PdfIsNotSaved(pdf: string, dir: string, j: Job)
    requires EndsWith(Lower(pdf), ".pdf")
    ensures pdf != OutPath(dir, j)
  {
    var p := OutPath(dir, j);
    SavedIsPng(dir, j);
    var lower := Lower(pdf);
    assert lower[|lower| - 1] == 'f' by {
      assert lower[|lower| - 4..] == ".pdf";
    }
    assert LowerChar(p[|p| - 1]) == 'g';
    assert LowerChar(pdf[|pdf| - 1]) == 'f';
  }

  /** PDFs in one directory save their first images under one name. */
  lemma SameDirectorySameName(a: string, b: string, h1: Histogram, h2: Histogram)
    requires Dirname(a) == Dirname(b)
    ensures FirstSaved(b, h2) == FirstSaved(a, h1)
  {
    SavedNameIgnoresPixels(LogoDir(a), Job(0, 0, h2), Job(0, 0, h1));
  }

  /** After the first PDF's image is saved, the second PDF of the same
      directory is scanned into the same name. */
  lemma SecondPdfScan(a: string, b: string, fs: FileSystem, h1: Histogram, h2: Histogram)
    requires b in fs && EndsWith(Lower(b), ".pdf") && fs[b] == PdfFile([], [[h2]])
    requires Dirname(a) == Dirname(b)
    ensures var p := FirstSaved(a, h1);
            var fs1 := fs[p := RasterFile(h1)];
            b in fs1 && ScanPdf(b, fs1) == PdfScan([], [], [p], fs1[p := RasterFile(h2)])
  {
    PdfIsNotSaved(b, LogoDir(a), Job(0, 0, h1));
    SameDirectorySameName(a, b, h1, h2);
    ScanSingleImagePdf(b, fs[FirstSaved(a, h1) := RasterFile(h1)], h2);
  }

  /** The loop over two one-image PDFs that share a directory. */
  lemma GatherTwoPdfs(a: string, b: string, fs: FileSystem, h1: Histogram, h2: Histogram)
    requires a != "" && a in fs && EndsWith(Lower(a), ".pdf") && fs[a] == PdfFile([], [[h1]])
    requires b != "" && b in fs && EndsWith(Lower(b), ".pdf") && fs[b] == PdfFile([], [[h2]])
    requires Dirname(a) == Dirname(b)
    ensures var p := FirstSaved(a, h1);
            Gather([a, b], fs) == Gathered({}, [], [p, p], [p, p], fs[p := RasterFile(h2)])
  {
    var p := FirstSaved(a, h1);
    ScanSingleImagePdf(a, fs, h1);
    FirstTurnPdf(p, a, fs, h1);
    SecondPdfScan(a, b, fs, h1, h2);
    SecondTurnSamePdf(p, b, fs[p := RasterFile(h1)], h2);
    OverwriteTwice(fs, p, RasterFile(h1), RasterFile(h2));
    GatherTwo(a, b, fs);
  }

  /** Two PDFs in one directory save their first images under the same
      name: the logo path names the first PDF's image, but the file there,
      and so the dominant colours, come from the second. */
  lemma SharedDirectoryOverwrite(a: string, b: string, fs: FileSystem, h1: Histogram, h2: Histogram)
    requires a != "" && a in fs && EndsWith(Lower(a), ".pdf") && fs[a] == PdfFile([], [[h1]])
    requires b != "" && b in fs && EndsWith(Lower(b), ".pdf") && fs[b] == PdfFile([], [[h2]])
    requires Dirname(a) == Dirname(b)
    ensures var g := Gather([a, b], fs);
            var p := FirstSaved(a, h1);
            g.logos == [p, p] && LogoOf(g) == Some(p) && p in g.fs && g.fs[p] == RasterFile(h2) &&
            DominantOf(g) == Returned(if h2 == [] then [] else RankedColors(h2, 5))
  {
    GatherTwoPdfs(a, b, fs, h1, h2);
    SavedIsPng(LogoDir(a), Job(0, 0, h1));
    DominantOfSaved(Gather([a, b], fs), FirstSaved(a, h1), h2);
  }

  // ---------------------------------------------------------------------
  // Colours written in a document
  // ---------------------------------------------------------------------

  /** Scanning colour tokens written out with spaces between them finds each
      of them, in sorted order. */
  lemma ScanJoinedTokens(ts: seq<string>)
    requires forall t :: t in ts ==> IsColorToken(t)
    ensures ExtractHexColors(Some(Join(ts, " "))) == SortedSet(Elems(ts))
  {
    FindAllJoined(ts);
    UpperAllTokens(ts);
  }

  /** One turn of the loop on a DOCX adds the colours its scan finds. */
  lemma GatherDocx(g: Gathered, path: string)
    requires path != "" && path in g.fs && EndsWith(Lower(path), ".docx")
    ensures GatherStep(g, path) == g.(hexes := g.hexes + Elems(ScanDocx(path, g.fs)))
  {
    var lower := Lower(path);
    assert !EndsWith(lower, ".pdf") by {
      assert lower[|lower| - 1] == 'x';
    }
  }

  /** A one-paragraph DOCX is scanned as its paragraph. */
  lemma ScanOneParagraph(path: string, fs: FileSystem, text: string)
    requires path in fs && fs[path] == DocxFile([Some(text)], [])
    ensures Elems(ScanDocx(path, fs)) == Elems(ExtractHexColors(Some(text)))
  {
    var d := fs[path];
    var x := TextHexes(d.paragraphs);
    OneParagraphHexes(text);
    assert TablesHexes(d.tables) == {};
    assert ScanDocx(path, fs) == SortedSet(x + {});
    assert x + {} == x;
    SortedSetElems(x);
  }

  lemma OneParagraphHexes(text: string)
    ensures TextHexes([Some(text)]) == Elems(ExtractHexColors(Some(text)))
  {
    var paragraphs := [Some(text)];
    assert paragraphs[..0] == [];
    assert Unions(TextColors, paragraphs) == Unions(TextColors, paragraphs[..0]) + TextColors(Some(text));
  }

  lemma SortedSetElems(x: set<string>)
    ensures Elems(SortedSet(x)) == x
  {
  }

  /** The loop over a single one-paragraph DOCX. */
  lemma GatherOneDocx(path: string, fs: FileSystem, text: string)
    requires path != "" && path in fs && EndsWith(Lower(path), ".docx") && fs[path] == DocxFile([Some(text)], [])
    ensures Gather([path], fs) == Gathered(Elems(ExtractHexColors(Some(text))), [], [], [], fs)
  {
    var g0 := Gathered({}, [], [], [], fs);
    assert [path][..0] == [];
    assert Gather([path], fs) == GatherStep(g0, path);
    GatherDocx(g0, path);
    ScanOneParagraph(path, fs, text);
    assert {} + Elems(ExtractHexColors(Some(text))) == Elems(ExtractHexColors(Some(text)));
  }

  /** A document's colours, with no image, become the roles in sorted order,
      not in the order they are written. */
  lemma DocxColorsSorted(path: string, fs: FileSystem, text: string)
    requires path != "" && path in fs && EndsWith(Lower(path), ".docx") && fs[path] == DocxFile([Some(text)], [])
    ensures ExtractBrand([path], fs).Returned?
    ensures var d := ExtractBrand([path], fs).value;
            var found := ExtractHexColors(Some(text));
            d.logoPath == None && d.detectedColors == [] && d.hexColorsInText == found &&
            d.primary == (if |found| > 0 then Some(found[0]) else None) &&
            d.secondary == (if |found| > 1 then Some(found[1]) else None) &&
            d.accent == (if |found| > 2 then Some(found[2]) else None)
  {
    GatherOneDocx(path, fs, text);
    var g := Gather([path], fs);
    var found := ExtractHexColors(Some(text));
    assert LogoOf(g) == None && DominantOf(g) == Returned([]);
    SortedSetOfSorted(found);
    ExtractionFacts.AssembledShape(g);
    ExtractionFacts.ResultRoles([path], fs);
  }

  /** The two colours of the example, in sorted order. */
  lemma ExampleSorted(x: string, y: string)
    requires x == "#2563EB" && y == "#0EA5E9"
    ensures SortedSet(Elems([x, y])) == [y, x]
  {
    var sorted := [y, x];
    assert Below(y, x) by {
      assert y[0] == x[0] && y[1] < x[1];
      assert y[1..][0] < x[1..][0];
    }
    assert StrictlySorted(sorted);
    assert Elems([x, y]) == Elems(sorted);
    SortedSetOfSorted(sorted);
  }

  /** The example sentence, cut where the scanner's verdict changes. */
  lemma SentenceParts(text: string)
    requires text == "Our brand color is #2563EB and accent #0EA5E9."
    ensures text == "Our brand color is " + ("#2563EB" + (" and accent " + ("#0EA5E9" + ".")))
  {
  }

  /** Scanning the example sentence: the tokens before a space and before a
      full stop are both found, and come back in sorted order. */
  lemma ExampleScan(text: string)
    requires text == "Our brand color is #2563EB and accent #0EA5E9."
    ensures ExtractHexColors(Some(text)) == ["#0EA5E9", "#2563EB"]
  {
    var a, x, b, y, c := "Our brand color is ", "#2563EB", " and accent ", "#0EA5E9", ".";
    SentenceParts(text);
    assert IsColorToken(x) && IsColorToken(y);
    FindAllSkipPlain(a, x + (b + (y + c)), 0);
    FindAllToken(x, b + (y + c));
    FindAllSkipPlain(b, y + c, 0);
    FindAllToken(y, c);
    assert FindAll(c, 0) == [];
    assert FindAll(text, 0) == [x, y];
    UpperAllTokens([x, y]);
    ExampleSorted(x, y);
  }

  /** A document saying "Our brand color is #2563EB and accent #0EA5E9.":
      `#0EA5E9` sorts first and becomes the primary colour. */
  lemma DocxExample(path: string, fs: FileSystem, text: string)
    requires text == "Our brand color is #2563EB and accent #0EA5E9."
    requires path != "" && path in fs && EndsWith(Lower(path), ".docx") && fs[path] == DocxFile([Some(text)], [])
    ensures ExtractBrand([path], fs).Returned?
    ensures var d := ExtractBrand([path], fs).value;
            d.hexColorsInText == ["#0EA5E9", "#2563EB"] &&
            d.primary == Some("#0EA5E9") && d.secondary == Some("#2563EB") && d.accent == None
  {
    ExampleScan(text);
    DocxColorsSorted(path, fs, text);
  }
}
