# Brand engine extraction core, in Dafny

This project models the extraction core of the brand engine. The brand engine turns a batch of
brand documents (PDFs, Word documents, images) into one `BrandProfile`. The profile holds a logo
path, dominant colours, hex colours written in the text, the primary/secondary/accent roles, the
detected fonts with a CSS font stack, and a chart palette.

The model covers three source files:

- `brand_engine/utils.py`: the hex-colour scanner, `rgb_to_hex`, `safe_filename`, and the
  ranking inside `image_dominant_colors`.
  - `Utils.MatchLength` and `Utils.FindAll` are a character-level reading of the regular
    expression and of `findall`.
  - `Utils.ParseHexColor` is the partner of `rgb_to_hex`.
  - `Utils.Substitute` is `re.sub` over runs of unsafe characters.
  - `Utils.ImageDominantColors` keeps the source's `seen`/`deduped` loop.
- `brand_engine/brand_profile.py`: `BrandProfiles.BrandProfile` is a class with the dataclass's
  thirteen fields.
  - Its constructors are `BrandProfile()` and `from_dict`.
  - `EnsurePalette` runs the palette loop in place.
  - `ProfileData` is the same record as a value, so that properties can be stated about it.
- `brand_engine/extractors.py`:
  - `Extractors.ExtractFromPdf`, `Extractors.ExtractFromDocx` and
    `Extractors.ExtractBrandFromFiles` are methods with the source's loops.
  - Each is proved equal to a specification function: `ScanPdf`, `ScanDocx`, `Gather`,
    `Assemble` and `ExtractBrand`.
  - `ExtractionFacts` proves what the extractor promises about those functions.
  - `Scenarios` works through concrete runs.

Supporting modules:

- `Collections`: order-preserving deduplication, Python slicing, a stable sort by count.
- `Strings`: `sorted(set)`, `strip`, `str.replace(p, "")`, ASCII `upper`/`lower`, `join`, `str(n)`.
- `Paths`: POSIX `dirname`/`join`.
- `Tallies`: `collections.Counter` with `+= 1`, `update` and `most_common`.
- `Inputs`: what the decoder libraries hand over.

How the outside world enters the model:

- The filesystem is a parameter `fs: map<string, FileData>`. `os.path.exists(p)` is `p in fs`.
- What pdfplumber, PyMuPDF, python-docx and PIL would read from a file is part of its
  `FileData`:
  - page texts and per-character font names;
  - the histograms of the embedded images, page by page;
  - paragraph and cell texts;
  - an image's `getcolors()` histogram after RGB conversion and resizing.
- A decoder that raises part-way is represented by the data it delivered before raising.
  Bytes no decoder understands are `OtherFile`.
- `pix.save` is a write into the map. The extracted PNGs are therefore files that later steps
  read back.
- An exception that nothing catches is `Outcome.Raised`.

Where the code and the design description disagree, the model follows the code:

- **An empty input set gives a 7-entry palette.** `neutral_color` defaults to `#111827`, which
  is truthy, so it precedes the six fallback colours. The design describes a 6-entry palette;
  see `BrandProfiles.DefaultPalette` and `Scenarios.NoFilesGivesDefaults`.
- **Some failures raise.** The design says no failure is fatal. In the code,
  `image_dominant_colors` opens the chosen logo outside any `try`, so a logo that PIL cannot
  decode makes the whole extraction raise (`ExtractionFacts.RaisesOnUnreadableLogo`).
- **One failure can drop more than one signal.** A single outer `try` surrounds opening the
  file with pdfplumber and the whole page loop (extractors.py:95-111). A failure while opening
  the file, listing its pages or in a page's `extract_text` therefore loses that page and every
  later page of the file. A failure while reading a page's `chars` is caught by the inner `try`
  (extractors.py:102-110): it costs only that page's remaining font counts, and the loop goes on
  with the next page. The model has both cases: a page list cut short, and a page whose
  character font names stop early.

Other behaviours the proofs make explicit:

- **Two PDFs can overwrite each other's images.** The extracted images of two PDFs in the same
  directory are written to the same names. The logo path names the first PDF's image, but its
  colours come from the second PDF (`Scenarios.SharedDirectoryOverwrite`).
- **The `elif image_candidates` branch never runs.** That branch of the dominant-colour block
  (extractors.py:57-58) is unreachable: whenever there is an image candidate, the logo path is
  already set and non-empty (`ExtractionFacts.ElifUnreachable`).
- **Style words are removed in a single pass.** `str.replace` does one pass, so "BoBoldld"
  loses one "Bold" and keeps the "Bold" that forms around it (`Scenarios.SinglePassReplace`).

## Model

| member | source | states |
|---|---|---|
| Utils.MatchLength | brand_engine/utils.py:10 | a match at a position is `#` followed by exactly 3 or 6 hex digits and a word boundary |
| Utils.MatchLengthIsHexRun | brand_engine/utils.py:10 | the pattern matches exactly when the maximal run of hex digits after `#` has length 3 or 6 and a word boundary follows it, so `#1234` and `#1234567` match nothing |
| Utils.FindAllFinds | brand_engine/utils.py:15 | `findall` reports every match position from the scan start on (completeness) |
| Utils.FindAllSound | brand_engine/utils.py:15 | every string `findall` reports is the text of a match at some position (soundness) |
| Utils.FindAllToken | brand_engine/utils.py:10-15 | a colour token followed by a non-word character is found, and the scan resumes right after it |
| Utils.FindAllSkipPlain | brand_engine/utils.py:15 | text without a `#` contributes no match and the scan continues after it |
| Utils.ExtractHexColors | brand_engine/utils.py:13-17 | the result is strictly ascending (sorted, no repeats), every entry is a colour token `#` + 3 or 6 upper-case hex digits, and `None` or `""` give `[]` |
| Utils.ExtractHexColorsMembers | brand_engine/utils.py:13-17 | a colour is in the result if and only if it is the upper-cased text of some match in the input |
| Utils.RescanJoined | brand_engine/utils.py:13-17 | scanning the space-joined result again yields the same list: the scanner is a fixed point on its own output |
| Utils.RgbToHex | brand_engine/utils.py:52-53 | the result is seven characters, `#` and six upper-case hex digits |
| Utils.RgbToHexRoundTrip | brand_engine/utils.py:52-53 | parsing the hex string back gives the original (r, g, b) |
| Utils.ParseHexColorRoundTrip | brand_engine/utils.py:52-53 | every 7-character colour token is `rgb_to_hex` of exactly the colour it parses to |
| Utils.RgbToHexInjective | brand_engine/utils.py:52-53 | different colours never get the same hex string |
| Utils.SafeFilename | brand_engine/utils.py:56-58 | the result contains only letters, digits, `.`, `_` and `-` |
| Utils.SafeFilenameIdempotent | brand_engine/utils.py:56-58 | applying `safe_filename` twice gives the same as once |
| Utils.SubstituteSafe | brand_engine/utils.py:58 | a string made only of safe characters is left unchanged by the substitution |
| Utils.SubstituteUnsafeRun | brand_engine/utils.py:58 | a non-empty run of unsafe characters becomes a single `_` |
| Utils.SubstituteSplit | brand_engine/utils.py:58 | the substitution distributes over concatenation when a safe character sits at the seam |
| Utils.RankedColors | brand_engine/utils.py:39-48 | the result has no repeats, has at most `top_n` entries, and every entry is the hex of a colour in the histogram |
| Utils.RankedColorsByCount | brand_engine/utils.py:39-41 | the sorted histogram is a permutation of the input in non-increasing count order, and the k-th result colour comes from an entry at least as frequent as each later result's entry |
| Utils.DominantColorsOf | brand_engine/utils.py:27-36 | a missing path gives `[]`; any returned list has no repeats and at most `top_n` entries |
| Utils.ImageDominantColors | brand_engine/utils.py:20-49 | returns, or raises for a file PIL cannot decode, exactly as the ranking specification says |
| Utils.DropRepeats | brand_engine/utils.py:43-48 | the `seen` loop keeps each colour at its first occurrence, in order |
| Collections.Dedup | brand_engine/utils.py:43-48 | the deduplicated list has no repeats and has the same elements as its input |
| Collections.SortByCount | brand_engine/utils.py:39 | the sorted list is in non-increasing count order and is a permutation of the input |
| Collections.SortByCountStable | brand_engine/utils.py:39 | the sort is stable: entries with equal counts keep their input order |
| Collections.Prefix | brand_engine/utils.py:40 | `xs[:n]` has length `min(n, len(xs))` for n ≥ 0 and is a prefix of `xs` |
| Strings.SortedSet | brand_engine/utils.py:17 | `sorted(set)` is strictly ascending and has exactly the set's elements |
| Strings.SortedSetOfSorted | brand_engine/extractors.py:61 | sorting the elements of an already ascending, repeat-free list gives that list back |
| Strings.RemoveAll | brand_engine/extractors.py:173 | `replace(p, "")` never lengthens a string and leaves a string without `p` unchanged |
| Strings.RemoveAllConcat | brand_engine/extractors.py:173 | when no occurrence of `p` spans the seam, `replace(p, "")` of a concatenation is the concatenation of the two replacements |
| Strings.Strip | brand_engine/extractors.py:173 | the result is a contiguous piece of the input with no whitespace at either end, and everything cut off before and after it is whitespace: exactly the leading and trailing whitespace is removed |
| Paths.Dirname | brand_engine/extractors.py:117 | `os.path.dirname` returns a prefix of the path |
| Paths.PathJoin | brand_engine/extractors.py:118 | `os.path.join(a, b)` ends with `b` |
| Tallies.TallyOfSpec | brand_engine/extractors.py:104-107 | counting `fonts[name] += 1` over a list gives each name once, in first-seen order, with its number of occurrences |
| Tallies.MergeTallies | brand_engine/extractors.py:38 | `Counter.update` with another counter equals counting the concatenated lists |
| Tallies.MostCommonSpec | brand_engine/extractors.py:74 | `most_common(n)` returns at most n distinct names of the counter, in non-increasing count order |
| Tallies.MostCommonDominates | brand_engine/extractors.py:74 | a name left out of `most_common(n)` is no more frequent than any name it returns |
| Tallies.MostCommonTies | brand_engine/extractors.py:74 | among names with equal counts, those returned are the first ones seen |
| Tallies.MostCommonLength | brand_engine/extractors.py:74 | `most_common(n)` has exactly `min(n, number of names)` entries |
| BrandProfiles.BrandProfile.constructor | brand_engine/brand_profile.py:11-26 | a new profile has no name, logo or roles, neutral `#111827`, background `#F9FAFB`, the Inter font stack for headings and body, and empty lists |
| BrandProfiles.BrandProfile.FromDict | brand_engine/brand_profile.py:61-63 | the profile holds exactly the given field values |
| BrandProfiles.BrandProfile.EnsurePalette | brand_engine/brand_profile.py:28-59 | the new state is the old one with the palette completed if it was empty; nothing else changes |
| BrandProfiles.BrandProfile.RecordFonts | brand_engine/extractors.py:74-78 | the detected fonts and both font families are set; no other field changes |
| BrandProfiles.TruthyValues | brand_engine/brand_profile.py:33-40 | the `if c` filter keeps exactly the present, non-empty values |
| BrandProfiles.TruthyValuesAppend | brand_engine/brand_profile.py:33-40 | the filter works element by element: filtering a concatenation is concatenating the filtered parts, so order and repeats are kept |
| BrandProfiles.BaseColorsInOrder | brand_engine/brand_profile.py:33-40 | the base colours are primary, secondary, accent and neutral in that order, each present exactly when truthy |
| BrandProfiles.CompletedPaletteShape | brand_engine/brand_profile.py:52-59 | the palette is the distinct roles followed by the fallback colours not already present, cut to eight |
| BrandProfiles.CompletedPaletteBounds | brand_engine/brand_profile.py:33-59 | a completed palette has 6 to 8 entries, no repeats, and only role or fallback colours, none empty |
| BrandProfiles.CompletedPaletteStartsWithRoles | brand_engine/brand_profile.py:52-59 | the palette begins with the distinct role colours in role order |
| BrandProfiles.PrimaryLeadsPalette | brand_engine/brand_profile.py:33-59 | a set primary colour is the first palette entry |
| BrandProfiles.DefaultPalette | brand_engine/brand_profile.py:16-59 | a default profile's palette is `#111827` followed by the six fallback colours |
| BrandProfiles.EnsuredPaletteKeeps | brand_engine/brand_profile.py:30-31 | a non-empty palette and every other field are left untouched, and the palette is non-empty afterwards |
| BrandProfiles.EnsurePaletteIdempotent | brand_engine/brand_profile.py:28-59 | running `ensure_palette` twice is the same as once |
| Extractors.PlusIndex | brand_engine/extractors.py:170-171 | the position found is the first `+` of the name, or -1 when there is none |
| Extractors.FontFamily | brand_engine/extractors.py:162-177 | the default stack is returned exactly for the empty name; a non-empty name whose family comes out empty gives `'Inter'` and the generic families; otherwise the quoted family followed by the generic families |
| Extractors.TextHexesMembers | brand_engine/extractors.py:97-100 | a colour is collected exactly when the scanner finds it in one of the texts |
| Extractors.AddTextColors | brand_engine/extractors.py:147-150 | the set grows by exactly the colours found in the texts |
| Extractors.AddTableColors | brand_engine/extractors.py:151-156 | the set grows by exactly the colours found in the table's cells, row by row |
| Extractors.CountFonts | brand_engine/extractors.py:104-107 | the counter becomes the tally of the earlier names plus the truthy font names of the characters |
| Extractors.ReadPdfText | brand_engine/extractors.py:95-112 | the pdfplumber loop collects the colours of all page texts and the tally of all truthy character font names |
| Extractors.OutPath | brand_engine/extractors.py:129-130 | every output path ends with the sanitised file name |
| Extractors.SavePdfImages | brand_engine/extractors.py:115-135 | the returned paths are the output paths of every image, page by page, and each image's PNG is stored under its path |
| Extractors.ExtractFromPdf | brand_engine/extractors.py:86-137 | the method's result and the filesystem it leaves equal the PDF specification `ScanPdf` |
| Extractors.ExtractFromDocx | brand_engine/extractors.py:140-159 | the method's result equals the DOCX specification `ScanDocx` |
| Extractors.VisitPath | brand_engine/extractors.py:30-45 | one turn of the loop has exactly the effect of one `GatherStep` |
| Extractors.GatherAll | brand_engine/extractors.py:25-45 | the loop over all paths accumulates exactly `Gather(paths, fs)` |
| Extractors.DominantColors | brand_engine/extractors.py:53-58 | the dominant colours are those of the logo if set, else of the first image, else none |
| Extractors.AssignRoles | brand_engine/extractors.py:63-70 | the first three colours of the source fill primary, secondary and accent where present; nothing else changes |
| Extractors.AssignFonts | brand_engine/extractors.py:72-78 | with fonts seen, the five most common are recorded and the first one's family is used for headings and body; without, nothing changes |
| Extractors.ExtractBrandFromFiles | brand_engine/extractors.py:15-83 | the method raises exactly when the specification `ExtractBrand` does; otherwise it returns a fresh profile equal to it, and leaves the filesystem `Gather` describes |
| ExtractionFacts.OutNamePlain | brand_engine/extractors.py:129-130 | sanitising `pdf_p<page>_img<index>.png` changes nothing |
| ExtractionFacts.ScanPdfFacts | brand_engine/extractors.py:86-137 | a PDF scan yields colour tokens, a well-formed counter and non-empty image paths, and deletes no file |
| ExtractionFacts.ScanDocxTokens | brand_engine/extractors.py:140-159 | every colour from a document is a colour token |
| ExtractionFacts.ScanDocxInReadingOrder | brand_engine/extractors.py:147-159 | the table-by-table scan equals scanning paragraphs then every cell, in reading order |
| ExtractionFacts.ScanDocxMembers | brand_engine/extractors.py:147-159 | a colour is reported for a document exactly when some paragraph or cell text contains it |
| ExtractionFacts.GatherKeepsInvariant | brand_engine/extractors.py:30-45 | the loop keeps: a well-formed counter, colour tokens only, every logo candidate also an image candidate, no empty candidate, each candidate an input path or an extracted image, and no file removed |
| ExtractionFacts.ElifUnreachable | brand_engine/extractors.py:47-58 | with image candidates the logo path is always truthy, so the dominant colours always come from the logo |
| ExtractionFacts.LogoChoice | brand_engine/extractors.py:30-51 | there is a logo exactly when there is an image candidate; the first extracted PDF image wins; otherwise the image candidates are the standalone image paths in input order, and the logo is the first of them: the least index whose path exists, is not a PDF or document and has an image suffix |
| ExtractionFacts.NoPdfImageMeansStandalone | brand_engine/extractors.py:30-45 | while no PDF has yielded an image, the filesystem is untouched and the image candidates are exactly the standalone image paths, in input order |
| ExtractionFacts.FirstStandalone | brand_engine/extractors.py:44-45 | the first standalone image is the path at the least index that passes the image test |
| ExtractionFacts.AfterSubsetTag | brand_engine/extractors.py:170-171 | the subset tag up to the first `+` is cut off |
| ExtractionFacts.SubsetTagIgnored | brand_engine/extractors.py:169-171 | a font name with a subset tag has the same family as the name without it |
| ExtractionFacts.StyleDropped | brand_engine/extractors.py:173 | a trailing `Bold` or `Regular` is removed and a name holding neither word is kept as it is |
| ExtractionFacts.FamilyNameOfStyled | brand_engine/extractors.py:169-173 | the family of `TAG+NameStyle` is the name stripped of whitespace, with tag and style word gone |
| ExtractionFacts.FamilyNameOfUntagged | brand_engine/extractors.py:169-173 | the family of `NameStyle` without a tag is the name stripped of whitespace |
| ExtractionFacts.FontFamilyOfStyled | brand_engine/extractors.py:162-177 | the CSS stack of `TAG+NameStyle` is the quoted stripped name with the generic families, or `'Inter'` with them when nothing is left of the name |
| ExtractionFacts.GatherFonts | brand_engine/extractors.py:36-38 | the gathered counter counts exactly the truthy font names of every PDF read, in order |
| ExtractionFacts.GatherHexes | brand_engine/extractors.py:35-43 | the gathered colours are exactly those found in the texts of every PDF and document read |
| ExtractionFacts.RaisesOnUnreadableLogo | brand_engine/extractors.py:55-56 | the extraction raises exactly when the chosen logo exists but is not an image PIL can decode |
| ExtractionFacts.ResultFonts | brand_engine/extractors.py:72-78 | heading and body fonts agree; with no fonts seen they keep the default stack; otherwise the detected fonts are the five most common and the family is derived from the first, never the default |
| ExtractionFacts.ResultFontsOrdered | brand_engine/extractors.py:74 | at most five distinct detected fonts, each seen, in non-increasing order of occurrence |
| ExtractionFacts.ResultFontsDominate | brand_engine/extractors.py:74 | a font seen but not detected occurs no more often than any detected font |
| ExtractionFacts.ResultTextColors | brand_engine/extractors.py:61 | `hex_colors_in_text` is ascending without repeats and holds exactly the colours found in some scanned text |
| ExtractionFacts.ResultDetectedColors | brand_engine/extractors.py:47-60 | the logo is the chosen candidate; the detected colours are `[]` without images, else the logo's dominant colours, at most five and distinct |
| ExtractionFacts.ResultColorTokens | brand_engine/extractors.py:60-61 | every detected colour and every text colour is a colour token |
| ExtractionFacts.ResultRoles | brand_engine/extractors.py:63-70 | the roles are the first three entries of the detected colours, or of the text colours when none were detected, and unset where missing; name, neutral and background keep their defaults |
| ExtractionFacts.ResultPalette | brand_engine/extractors.py:81 | the final palette has 6 to 8 distinct entries, starts with the primary colour when there is one, and holds only role, neutral or fallback colours |
| ExtractionFacts.SkippedPathIgnored | brand_engine/extractors.py:31-45 | an empty, missing or unsupported path changes neither the gathered data nor the profile |
| Scenarios.NoFilesGivesDefaults | brand_engine/extractors.py:15-83 | with no files the profile keeps every default and the palette is the neutral colour and the six fallback colours |
| Scenarios.UpperCaseSuffixAccepted | brand_engine/extractors.py:34-45 | `LOGO.PNG` is taken as an image: suffixes are compared in lower case |
| Scenarios.SubsetTaggedBoldFont | brand_engine/extractors.py:162-177 | `AAAAAA+Helvetica-Bold` gives the family `'Helvetica-'`, trailing hyphen kept |
| Scenarios.SinglePassReplace | brand_engine/extractors.py:173 | `"BoBoldld".replace("Bold", "")` is `"Bold"`: the replacement makes one pass |
| Scenarios.SavedIsPng | brand_engine/extractors.py:129-130 | every extracted image path has the suffix `.png`, and in lower case it ends in neither `.pdf` nor `.docx`, so the loop's suffix tests never read it as a PDF or a document |
| Scenarios.PdfImageBeatsEarlierImage | brand_engine/extractors.py:39-58 | an image from a PDF becomes the logo and supplies the dominant colours even when a plain image came first |
| Scenarios.SharedDirectoryOverwrite | brand_engine/extractors.py:115-132 | with two PDFs in one directory, the logo path is the first PDF's image but the file there, and the colours, come from the second |
| Scenarios.ScanJoinedTokens | brand_engine/utils.py:13-17 | colour tokens written with spaces between them are all found, in sorted order |
| Scenarios.GatherOneDocx | brand_engine/extractors.py:41-43 | a one-paragraph document contributes exactly its paragraph's colours |
| Scenarios.DocxColorsSorted | brand_engine/extractors.py:61-70 | without images, the roles are the document's colours in sorted order, not in the order written |
| Scenarios.ExampleScan | brand_engine/utils.py:13-17 | the sentence "Our brand color is #2563EB and accent #0EA5E9." yields `#0EA5E9`, `#2563EB`, sorted |
| Scenarios.DocxExample | brand_engine/extractors.py:61-70 | a document whose one paragraph is "Our brand color is #2563EB and accent #0EA5E9." gives text colours `#0EA5E9`, `#2563EB`, primary `#0EA5E9`, secondary `#2563EB` and no accent |

## Left out

- Unicode: `\w` at the regex word boundary, `str.isspace`, `upper` and `lower` are modelled for ASCII only.
- The decoder libraries (pdfplumber, PyMuPDF, python-docx, PIL) are not modelled. What they read from a file is input data.
- A decoder that fails part-way is represented only by the data it delivered before it raised. Where in a file it fails is not modelled.
- A file with a `.pdf` suffix that is not a PDF makes both PDF decoders raise at once. Both failures are caught, so it contributes nothing.
- Image handling is not modelled: the CMYK-to-RGB conversion of a pixmap (extractors.py:127-128), the 128x128 resize, and the `maxcolors` limit of `getcolors`. The histogram is given as it would come out.
- `os.makedirs`, permission errors, and a directory or non-PNG file in the way of an output path are not modelled. A write always succeeds.
- Windows paths are not modelled; `dirname` and `join` are the POSIX versions.
- Counter entries with a zero count cannot arise in this code and are not modelled.
- `from_dict` with missing, extra or mistyped keys is not modelled. It takes a full set of field values, and `neutral_color` is always a string.
- Paths.Dirname: the contract states only that the result is a prefix of the path; the exact `posixpath.dirname` cases are in its body.
- Paths.PathJoin: the contract states only that the result ends with the second part; the exact `posixpath.join` cases are in its body.
- Strings.RemoveAll: the contract states length and no-occurrence behaviour. How it splits over a concatenation is `Strings.RemoveAllConcat`; the single-pass deletion order is shown by `Scenarios.SinglePassReplace`.
- Scenarios.SharedDirectoryOverwrite: the lemma is stated for PDFs with one image on one page each; the concrete file name is given by `ExtractionFacts.OutNamePlain`.
