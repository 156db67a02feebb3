/** What the libraries the brand engine calls hand over, as plain values:
    the filesystem, and what the PDF, DOCX and image decoders read from each
    file. The libraries themselves (pdfplumber, PyMuPDF, python-docx, PIL)
    are not modelled; their results are inputs. */
module Inputs {
  import opened Wrappers
  import opened Collections

  newtype byte = x: int | 0 <= x < 256

  /** One pixel colour as PIL's "RGB" mode gives it. */
  datatype RGB = RGB(r: byte, g: byte, b: byte)

  /** `img.getcolors()` of the image after conversion to RGB and resizing to
      128x128: one (count, colour) entry per colour, in PIL's order. */
  type Histogram = seq<Counted<RGB>>

  /** One page as pdfplumber reports it: `page.extract_text()` (which may be
      `None`) and, for every character of `page.chars`, its `"fontname"`
      entry (`None` when the entry is missing). When reading `page.chars`
      raises, `charFonts` holds the entries read before it did. */
  datatype PdfPage = PdfPage(text: Option<string>, charFonts: seq<Option<string>>)

  /** A DOCX table: rows of cells, each cell's `cell.text`. */
  type Table = seq<seq<Option<string>>>

  /** The content of one file, as far as each decoder gets with it.
      A decoder that raises part-way has still delivered what came before:
      `pages` holds the pages pdfplumber produced before it raised (if it did),
      `imagePages` the embedded images PyMuPDF rendered before it raised,
      page by page (each as the histogram of the PNG written for it), and
      `paragraphs` / `tables` what python-docx produced before it raised.
      Bytes that no decoder understands are `OtherFile`: every decoder raises
      on them at once. */
  datatype FileData =
    | PdfFile(pages: seq<PdfPage>, imagePages: seq<seq<Histogram>>)
    | DocxFile(paragraphs: seq<Option<string>>, tables: seq<Table>)
    | RasterFile(histogram: Histogram)
    | OtherFile

  /** The files that exist, by path. `os.path.exists(p)` is `p in fs`. */
  type FileSystem = map<string, FileData>
}
