/** `TextExtractor` in backend/text_extractor.py: dispatch on the file extension, assembly of
    the text of a PDF from its pages and of a Word document from its paragraphs and table
    cells, the metadata that goes with it, and the preview.

    The PDF and Word libraries are not modelled: a `Document` holds what each library makes
    of the file, `None` where it raises. */
module TextExtraction {
  import opened Wrappers
  import opened Strings

  datatype Format = Pdf | Docx

  /** What the PDF reader yields: the text of every page, and the document information
      dictionary when there is one. */
  datatype PdfContent = PdfContent(pages: seq<string>, info: Option<map<string, string>>)

  /** What the Word reader yields: paragraph texts, tables as rows of cell texts, and the
      core `title` and `author` properties (`None` for a missing property). */
  datatype DocxContent = DocxContent(
    paragraphs: seq<string>,
    tables: seq<seq<seq<string>>>,
    title: Option<string>,
    author: Option<string>)

  /** A stored file as each library reads it. */
  datatype Document = Document(asPdf: Option<PdfContent>, asDocx: Option<DocxContent>)

  /** The metadata dictionary. For a PDF, `title` and `author` are present only when the
      document information dictionary exists and is non-empty. */
  datatype Metadata =
    | PdfMetadata(pages: nat, pdfTitle: Option<string>, pdfAuthor: Option<string>)
    | DocxMetadata(paragraphs: nat, title: string, author: string)

  datatype Extracted = Extracted(text: string, metadata: Metadata)

  /** The `ValueError`s extraction raises. */
  datatype ExtractError =
    | UnsupportedFormat(extension: string)
    | Unreadable(format: Format)
    | NoText(format: Format)

  // ---------------------------------------------------------------------------------------
  // PDF
  // ---------------------------------------------------------------------------------------

  /** The line announcing page `n`, with a line break on both sides. */
  function PageMarker(n: nat): string {
    "\n--- Page " + NatToString(n) + " ---\n"
  }

  /** Distinct pages get distinct markers. */
  lemma PageMarkerInjective(m: nat, n: nat)
    ensures PageMarker(m) == PageMarker(n) <==> m == n
  {
    if PageMarker(m) == PageMarker(n) {
      var a, b := NatToString(m), NatToString(n);
      assert PageMarker(m) == ("\n--- Page " + a) + " ---\n";
      assert PageMarker(n) == ("\n--- Page " + b) + " ---\n";
      assert |a| == |b|;
      assert a == PageMarker(m)[10..10 + |a|];
      assert b == PageMarker(n)[10..10 + |b|];
      NatToStringInjective(m, n);
    }
  }

  /** A marker is never blank: it holds the dashes. */
  lemma PageMarkerNotBlank(n: nat)
    ensures !IsBlank(PageMarker(n))
  {
    assert PageMarker(n)[1] == '-';
  }

  /** The numbers of the non-blank pages, counting the first page as `first`. */
  function KeptPages(pages: seq<string>, first: nat): (r: seq<nat>)
    ensures forall i :: 0 <= i < |r| ==> first <= r[i] < first + |pages|
    ensures |r| == 0 <==> AllBlank(pages)
  {
    if |pages| == 0 then []
    else
      var rest := KeptPages(pages[1..], first + 1);
      AllBlankCons(pages);
      if IsBlank(pages[0]) then rest else [first] + rest
  }

  /** Only non-blank pages are kept. */
  lemma {:induction false} KeptPagesNonBlank(pages: seq<string>, first: nat, i: nat)
    requires i < |KeptPages(pages, first)|
    ensures !IsBlank(pages[KeptPages(pages, first)[i] - first])
  {
    var rest := KeptPages(pages[1..], first + 1);
    if IsBlank(pages[0]) {
      KeptPagesNonBlank(pages[1..], first + 1, i);
    } else if i > 0 {
      KeptPagesNonBlank(pages[1..], first + 1, i - 1);
    }
  }

  /** Kept page numbers increase: pages appear in document order. */
  lemma {:induction false} KeptPagesIncreasing(pages: seq<string>, first: nat)
    ensures forall i, j :: 0 <= i < j < |KeptPages(pages, first)| ==>
      KeptPages(pages, first)[i] < KeptPages(pages, first)[j]
  {
    if |pages| > 0 {
      KeptPagesIncreasing(pages[1..], first + 1);
    }
  }

  /** Every non-blank page is kept. */
  lemma {:induction false} KeptPagesComplete(pages: seq<string>, first: nat, i: nat)
    requires i < |pages| && !IsBlank(pages[i])
    ensures first + i in KeptPages(pages, first)
  {
    if i > 0 {
      assert pages[1..][i - 1] == pages[i];
      KeptPagesComplete(pages[1..], first + 1, i - 1);
    }
  }

  /** For each kept page number `n`, its marker and then the text of page `n`. */
  function MarkedPages(pages: seq<string>, kept: seq<nat>): (r: seq<string>)
    requires forall i :: 0 <= i < |kept| ==> 1 <= kept[i] <= |pages|
    ensures |r| == 2 * |kept|
  {
    if |kept| == 0 then []
    else [PageMarker(kept[0]), pages[kept[0] - 1]] + MarkedPages(pages, kept[1..])
  }

  /** The parts the reader loop collects: for each non-blank page, in page order, its
      marker and then its text. */
  function PdfParts(pages: seq<string>): seq<string> {
    MarkedPages(pages, KeptPages(pages, 1))
  }

  /** The `i`-th kept page sits at part `2i + 1`, right after its own marker at part `2i`. */
  lemma {:induction false} MarkedPagesPair(pages: seq<string>, kept: seq<nat>, i: nat)
    requires forall i :: 0 <= i < |kept| ==> 1 <= kept[i] <= |pages|
    requires i < |kept|
    ensures MarkedPages(pages, kept)[2 * i] == PageMarker(kept[i])
    ensures MarkedPages(pages, kept)[2 * i + 1] == pages[kept[i] - 1]
  {
    if i > 0 {
      MarkedPagesPair(pages, kept[1..], i - 1);
      var j := 2 * (i - 1);
      assert 2 * i == j + 2;
    }
  }

  /** No part is blank, so the joined text is blank exactly when no page was kept. */
  lemma PdfPartsNotBlank(pages: seq<string>)
    ensures NoneBlank(PdfParts(pages))
  {
    var parts, kept := PdfParts(pages), KeptPages(pages, 1);
    forall i | 0 <= i < |parts| ensures !IsBlank(parts[i]) {
      var k := i / 2;
      MarkedPagesPair(pages, kept, k);
      if i % 2 == 0 {
        assert i == 2 * k;
        PageMarkerNotBlank(kept[k]);
      } else {
        assert i == 2 * k + 1;
        KeptPagesNonBlank(pages, 1, k);
      }
    }
  }

  /** `_extract_from_pdf` once the file has been read. */
  function ExtractPdf(c: PdfContent): (r: Result<Extracted, ExtractError>)
    ensures r.Failure? <==> AllBlank(c.pages)
    ensures r.Failure? ==> r.error == NoText(Pdf)
    ensures r.Success? ==>
      && r.value.text == Join(PdfParts(c.pages), "\n")
      && r.value.metadata.PdfMetadata?
      && r.value.metadata.pages == |c.pages|
      && (r.value.metadata.pdfTitle.Some? <==> c.info.Some? && |c.info.value| > 0)
      && (r.value.metadata.pdfAuthor.Some? <==> c.info.Some? && |c.info.value| > 0)
      && (r.value.metadata.pdfTitle.Some? ==>
            r.value.metadata.pdfTitle.value == (if "/Title" in c.info.value then c.info.value["/Title"] else ""))
      && (r.value.metadata.pdfAuthor.Some? ==>
            r.value.metadata.pdfAuthor.value == (if "/Author" in c.info.value then c.info.value["/Author"] else ""))
  {
    var parts := PdfParts(c.pages);
    var text := Join(parts, "\n");
    PdfPartsNotBlank(c.pages);
    JoinNoneBlank(parts, "\n");
    if IsBlank(text) then Failure(NoText(Pdf))
    else
      var hasInfo := c.info.Some? && |c.info.value| > 0;
      var title := if hasInfo then Some(Lookup(c.info.value, "/Title")) else None;
      var author := if hasInfo then Some(Lookup(c.info.value, "/Author")) else None;
      Success(Extracted(text, PdfMetadata(|c.pages|, title, author)))
  }

  /** `info.get(key, '')`. */
  function Lookup(info: map<string, string>, key: string): string {
    if key in info then info[key] else ""
  }

  /** The marker text for page 3. */
  lemma PageMarkerExample()
    ensures PageMarker(3) == "\n--- Page 3 ---\n"
  {
    assert NatToString(3) == "3";
  }

  /** A three-page document whose second page is blank: markers for pages 1 and 3 only,
      each followed by its page. */
  lemma ThreePageParts()
    ensures PdfParts(["A", " ", "C"]) == [PageMarker(1), "A", PageMarker(3), "C"]
  {
    var pages := ["A", " ", "C"];
    assert !IsBlank(pages[0]) by { assert pages[0][0] == 'A'; }
    assert IsBlank(pages[1]);
    assert !IsBlank(pages[2]) by { assert pages[2][0] == 'C'; }
    assert pages[1..][1..] == ["C"];
    assert KeptPages(["C"], 3) == [3];
    assert KeptPages(pages, 1) == [1, 3];
    assert MarkedPages(pages, [3]) == [PageMarker(3), "C"];
  }

  // ---------------------------------------------------------------------------------------
  // Word documents
  // ---------------------------------------------------------------------------------------

  /** The items that are not blank once stripped, in order, unstripped. */
  function NonBlank(xs: seq<string>): (r: seq<string>)
    ensures |r| <= |xs|
    ensures NoneBlank(r)
    ensures forall i :: 0 <= i < |r| ==> r[i] in xs
    ensures |r| == 0 <==> AllBlank(xs)
  {
    if |xs| == 0 then []
    else
      var rest := NonBlank(xs[1..]);
      assert forall i :: 1 <= i < |xs| ==> xs[i] == xs[1..][i - 1];
      AllBlankCons(xs);
      if IsBlank(xs[0]) then rest else [xs[0]] + rest
  }

  /** Filtering distributes over concatenation: what is kept from `a` comes before what is
      kept from `b`. */
  lemma {:induction false} NonBlankConcat(a: seq<string>, b: seq<string>)
    ensures NonBlank(a + b) == NonBlank(a) + NonBlank(b)
  {
    if |a| > 0 {
      assert (a + b)[0] == a[0];
      assert (a + b)[1..] == a[1..] + b;
      NonBlankConcat(a[1..], b);
    } else {
      assert a + b == b;
    }
  }

  /** A list without blank items is kept whole. */
  lemma {:induction false} NonBlankKeepsAll(xs: seq<string>)
    requires NoneBlank(xs)
    ensures NonBlank(xs) == xs
  {
    if |xs| > 0 {
      NonBlankKeepsAll(xs[1..]);
    }
  }

  /** The cells of all tables, in table, row, cell order. */
  function Cells(tables: seq<seq<seq<string>>>): (r: seq<string>)
    ensures |tables| == 1 ==> r == RowCells(tables[0])
  {
    if |tables| == 0 then [] else RowCells(tables[0]) + Cells(tables[1..])
  }

  /** The cells of one table: each row's cells in order, row after row. */
  function RowCells(rows: seq<seq<string>>): seq<string> {
    if |rows| == 0 then [] else rows[0] + RowCells(rows[1..])
  }

  /** A single row contributes exactly its cells, in order. */
  lemma RowCellsSingle(row: seq<string>)
    ensures RowCells([row]) == row
  {
    assert [row][1..] == [];
  }

  /** Rows are read one after another: the cells of earlier rows come first. */
  lemma {:induction false} RowCellsConcat(a: seq<seq<string>>, b: seq<seq<string>>)
    ensures RowCells(a + b) == RowCells(a) + RowCells(b)
  {
    if |a| > 0 {
      assert (a + b)[0] == a[0];
      assert (a + b)[1..] == a[1..] + b;
      RowCellsConcat(a[1..], b);
    } else {
      assert a + b == b;
    }
  }

  /** Tables are read one after another. */
  lemma {:induction false} CellsConcat(a: seq<seq<seq<string>>>, b: seq<seq<seq<string>>>)
    ensures Cells(a + b) == Cells(a) + Cells(b)
  {
    if |a| > 0 {
      assert (a + b)[1..] == a[1..] + b;
      CellsConcat(a[1..], b);
    } else {
      assert a + b == b;
    }
  }

  /** The parts collected from a Word document: non-blank paragraphs, then non-blank cells. */
  function DocxParts(c: DocxContent): (r: seq<string>)
    ensures NoneBlank(r)
    ensures |r| == |NonBlank(c.paragraphs)| + |NonBlank(Cells(c.tables))|
    ensures r[..|NonBlank(c.paragraphs)|] == NonBlank(c.paragraphs)
  {
    NonBlank(c.paragraphs) + NonBlank(Cells(c.tables))
  }

  /** The joined text is blank exactly when every paragraph and every cell is. */
  lemma DocxTextBlank(c: DocxContent)
    ensures IsBlank(Join(DocxParts(c), "\n")) <==> AllBlank(c.paragraphs) && AllBlank(Cells(c.tables))
  {
    JoinNoneBlank(DocxParts(c), "\n");
  }

  /** `_extract_from_docx` once the file has been read. */
  function ExtractDocx(c: DocxContent): (r: Result<Extracted, ExtractError>)
    ensures r.Failure? <==> AllBlank(c.paragraphs) && AllBlank(Cells(c.tables))
    ensures r.Failure? ==> r.error == NoText(Docx)
    ensures r.Success? ==>
      && r.value.text == Join(NonBlank(c.paragraphs + Cells(c.tables)), "\n")
      && r.value.metadata == DocxMetadata(|NonBlank(c.paragraphs)|, c.title.GetOr(""), c.author.GetOr(""))
  {
    var text := Join(DocxParts(c), "\n");
    DocxTextBlank(c);
    NonBlankConcat(c.paragraphs, Cells(c.tables));
    if IsBlank(text) then Failure(NoText(Docx))
    else Success(Extracted(text, DocxMetadata(|NonBlank(c.paragraphs)|, c.title.GetOr(""), c.author.GetOr(""))))
  }

  // ---------------------------------------------------------------------------------------
  // Dispatch and preview
  // ---------------------------------------------------------------------------------------

  /** The lower-cased suffix of the path, as dispatch and upload validation read it. */
  function Extension(path: string): string {
    Lower(Suffix(path))
  }

  /** The reader an extension selects, `None` for an unsupported one. */
  function FormatOf(ext: string): (r: Option<Format>)
    ensures r == Some(Pdf) <==> ext == ".pdf"
    ensures r == Some(Docx) <==> ext == ".docx" || ext == ".doc"
  {
    if ext == ".pdf" then Some(Pdf)
    else if ext == ".docx" || ext == ".doc" then Some(Docx)
    else None
  }

  /** Reading the file with the library for `f`, then assembling its text. */
  function ExtractAs(f: Format, doc: Document): (r: Result<Extracted, ExtractError>)
    ensures r.Failure? ==> r.error == Unreadable(f) || r.error == NoText(f)
    ensures f == Pdf ==>
      && (doc.asPdf.None? ==> r == Failure(Unreadable(Pdf)))
      && (doc.asPdf.Some? ==> r == ExtractPdf(doc.asPdf.value))
    ensures f == Docx ==>
      && (doc.asDocx.None? ==> r == Failure(Unreadable(Docx)))
      && (doc.asDocx.Some? ==> r == ExtractDocx(doc.asDocx.value))
  {
    match f
    case Pdf => (match doc.asPdf case None => Failure(Unreadable(Pdf)) case Some(c) => ExtractPdf(c))
    case Docx => (match doc.asDocx case None => Failure(Unreadable(Docx)) case Some(c) => ExtractDocx(c))
  }

  /** `extract(file_path)`: an unsupported extension is the only way to an
      `UnsupportedFormat` error, and a supported one reads the file with its own library. */
  function Extract(path: string, doc: Document): (r: Result<Extracted, ExtractError>)
    ensures r.Failure? && r.error.UnsupportedFormat? <==> FormatOf(Extension(path)).None?
    ensures r.Failure? && r.error.UnsupportedFormat? ==> r.error.extension == Extension(path)
    ensures FormatOf(Extension(path)).Some? ==> r == ExtractAs(FormatOf(Extension(path)).value, doc)
  {
    var ext := Extension(path);
    match FormatOf(ext)
    case None => Failure(UnsupportedFormat(ext))
    case Some(f) => ExtractAs(f, doc)
  }

  /** Python's `text[:n]`: a negative `n` counts from the end. */
  function Prefix(text: string, n: int): (r: string)
    ensures |r| <= |text| && r == text[..|r|]
    ensures n >= 0 ==> |r| == if n <= |text| then n else |text|
    ensures n < 0 ==> |r| == if |text| + n >= 0 then |text| + n else 0
  {
    if n >= 0 then (if n <= |text| then text[..n] else text)
    else if |text| + n >= 0 then text[..|text| + n]
    else ""
  }

  /** `preview_text(text, max_chars)`. */
  function Preview(text: string, maxChars: int): (r: string)
    ensures |text| <= maxChars ==> r == text
    ensures |text| > maxChars ==> r == Prefix(text, maxChars) + "..."
    ensures 0 <= maxChars < |text| ==> |r| == maxChars + 3 && r[..maxChars] == text[..maxChars]
  {
    if |text| <= maxChars then text else Prefix(text, maxChars) + "..."
  }

  /** Every preview is the text itself or a beginning of it followed by "..."; for a
      non-negative limit that beginning is a proper one. */
  lemma PreviewShape(text: string, maxChars: int)
    ensures var r := Preview(text, maxChars);
      r == text || (|r| >= 3 && |r| - 3 <= |text| && r == text[..|r| - 3] + "...")
    ensures var r := Preview(text, maxChars);
      r != text && maxChars >= 0 ==> |r| - 3 < |text|
  {
    if |text| > maxChars {
      var p := Prefix(text, maxChars);
      assert (p + "...")[..|p|] == p;
    }
  }
}
