/**
 `extract_pdf_bookmarks` (main.py:2200-2246): what the sidebar ends up holding
 after a PDF is opened. PyMuPDF is reduced to the two values the method reads
 from the open document, its table of contents and its page count; a document
 PyMuPDF cannot open is `None`.
 */
module PdfBookmarks {
  import opened Results
  import opened Decimal
  import opened Outline
  import opened OutlineBuilder

  /** What `fitz.open` exposes to the method: `get_toc()` and `page_count`. */
  datatype PdfDocument = PdfDocument(toc: seq<TocEntry>, pageCount: int)

  /** The sidebar after the call: `set_bookmarks(...)`, or `clear()`. */
  datatype Sidebar = ShowBookmarks(bookmarks: seq<Bookmark>) | Cleared

  /** At most this many synthetic page bookmarks are listed. */
  const MaxPageBookmarks := 50

  /** The title f'Page {n}': "Page " and then the decimal numeral of `n`, with no
      leading zero, which reads back as `n`. */
  function PageLabel(n: nat): (title: string)
    ensures |title| > 5
    ensures title[..5] == "Page "
    ensures forall i :: 5 <= i < |title| ==> IsDigit(title[i])
    ensures |title| > 6 ==> title[5] != '0'
    ensures ParseDecimal(title[5..]) == n
  {
    var digits := NatToString(n);
    ParseNatToString(n);
    assert ("Page " + digits)[5..] == digits;
    "Page " + digits
  }

  /** The flat list used when the PDF has no outline: one bookmark per page, up to the cap. */
  function PageBookmarks(pageCount: int): seq<Bookmark>
    requires pageCount > 0
  {
    seq(Min(pageCount, MaxPageBookmarks), i requires 0 <= i => Bookmark(PageLabel(i + 1), Some(i + 1), None, []))
  }

  /** The sidebar after `extract_pdf_bookmarks`. An exception anywhere in the `try`
      (the document failing to open, the stack popped empty) clears it. */
  function ExtractPdfBookmarks(doc: Option<PdfDocument>): Sidebar {
    match doc
    case None => Cleared
    case Some(pdf) =>
      match BuildOutline(pdf.toc)
      case Failure(_) => Cleared
      case Success(bookmarks) =>
        if bookmarks != [] then ShowBookmarks(bookmarks)
        else if pdf.pageCount > 0 then ShowBookmarks(PageBookmarks(pdf.pageCount))
        else Cleared
  }

  /** The builder returns an empty forest exactly for an empty table of contents. */
  lemma BuildOutlineEmpty(toc: seq<TocEntry>)
    requires LevelsValid(toc)
    ensures BuildOutline(toc).Success?
    ensures BuildOutline(toc).value == [] <==> toc == []
  {
    BuildOutlineFlattens(toc);
    var f := BuildOutline(toc).value;
    if f != [] {
      FlattenHead(f, 0);
    }
  }

  /** The outline case: a readable, non-empty table of contents is shown as the forest
      whose pre-order walk is the table of contents itself. */
  lemma ExtractShowsOutline(pdf: PdfDocument)
    requires pdf.toc != [] && LevelsValid(pdf.toc)
    ensures ExtractPdfBookmarks(Some(pdf)).ShowBookmarks?
    ensures Flatten(ExtractPdfBookmarks(Some(pdf)).bookmarks, 0) == Annotate(pdf.toc)
  {
    BuildOutlineEmpty(pdf.toc);
    BuildOutlineFlattens(pdf.toc);
  }

  /** A level of 0 or less anywhere clears the sidebar: no partial outline is installed. */
  lemma ExtractClearsOnBadLevel(pdf: PdfDocument)
    requires !LevelsValid(pdf.toc)
    ensures ExtractPdfBookmarks(Some(pdf)) == Cleared
  {
    BuildOutlineFlattens(pdf.toc);
  }

  /** Each synthetic bookmark is a flat, level-less entry whose title "Page k" names the
      page k it jumps to, for k = 1, 2, ... up to the cap; so no two titles are equal. */
  lemma PageBookmarksNamePages(pageCount: int)
    requires pageCount > 0
    ensures |PageBookmarks(pageCount)| == Min(pageCount, MaxPageBookmarks)
    ensures forall i :: 0 <= i < |PageBookmarks(pageCount)| ==>
      var b := PageBookmarks(pageCount)[i];
      && b.page == Some(i + 1)
      && b.title[..5] == "Page "
      && ParseDecimal(b.title[5..]) == i + 1
      && b.level == None
      && b.children == []
    ensures forall i, j :: 0 <= i < j < |PageBookmarks(pageCount)| ==>
      PageBookmarks(pageCount)[i].title != PageBookmarks(pageCount)[j].title
  {
    var bs := PageBookmarks(pageCount);
    forall i | 0 <= i < |bs|
      ensures ParseDecimal(bs[i].title[5..]) == i + 1
    {
      assert bs[i].title == PageLabel(i + 1);
    }
  }

  /** The fallback case: no outline and at least one page shows the synthetic page list. */
  lemma ExtractFallsBackToPages(pdf: PdfDocument)
    requires pdf.toc == [] && pdf.pageCount > 0
    ensures ExtractPdfBookmarks(Some(pdf)) == ShowBookmarks(PageBookmarks(pdf.pageCount))
  {
    BuildOutlineEmpty(pdf.toc);
  }

  /** No outline and no pages clears the sidebar, as does a document that cannot be opened. */
  lemma ExtractClearsWithoutPages(pdf: PdfDocument)
    requires pdf.toc == [] && pdf.pageCount <= 0
    ensures ExtractPdfBookmarks(Some(pdf)) == Cleared
    ensures ExtractPdfBookmarks(None) == Cleared
  {
    BuildOutlineEmpty(pdf.toc);
  }
}
