/**
 * The two document extractors of the bill parser.  Text recognised from an
 * image, or extracted page by page from a PDF, is cut into lines; every line
 * goes through the tokenizer on its own and the records of the lines that
 * parse are collected in document order.  The recognition and extraction
 * engines are outside the model: their output is an input here, and their
 * failure (any exception they raise) is an input too, which turns the whole
 * result into the empty record list.
 */
module Extractor {
  import opened Options
  import opened Sequences
  import opened PyText
  import opened Tokenizer

  /** The tokenizer's verdict on each line, line by line. */
  function Parsed(lines: seq<string>): seq<Option<BillRecord>> {
    Map(ParseLine, lines)
  }

  /** The records of consecutive lines, as the PDF loop collects them: at
      most one per line. */
  function ExtractLines(lines: seq<string>): (rs: seq<BillRecord>)
    ensures |rs| <= |lines|
  {
    Somes(Parsed(lines))
  }

  /** Every collected record is the record of one of the lines, and its item
      is clean. */
  lemma ExtractedRecords(lines: seq<string>)
    ensures forall k :: 0 <= k < |ExtractLines(lines)| ==>
      Some(ExtractLines(lines)[k]) in Parsed(lines) && CleanItem(ExtractLines(lines)[k].item)
  {
    var rs := ExtractLines(lines);
    SomesMembers(Parsed(lines));
    forall k | 0 <= k < |rs|
      ensures CleanItem(rs[k].item)
    {
      ParsedRecordIsClean(lines, rs[k]);
    }
  }

  lemma ParsedRecordIsClean(lines: seq<string>, r: BillRecord)
    requires Some(r) in Parsed(lines)
    ensures CleanItem(r.item)
  {
    var i :| 0 <= i < |lines| && Parsed(lines)[i] == Some(r);
    assert ParseLine(lines[i]) == Some(r);
  }

  /** The records of consecutive lines, as the image loop collects them with
      its own token-stripping tokenizer: the same records as the PDF loop. */
  function ExtractLinesOcr(lines: seq<string>): (rs: seq<BillRecord>)
    ensures rs == ExtractLines(lines)
  {
    if lines == [] then []
    else
      var head := match ParseLineOcr(lines[0]) case None => [] case Some(b) => [b];
      assert lines == [lines[0]] + lines[1..];
      ExtractLinesAppend([lines[0]], lines[1..]);
      ExtractLine(lines[0]);
      head + ExtractLinesOcr(lines[1..])
  }

  /** A single line gives its record, or nothing. */
  lemma ExtractLine(line: string)
    ensures ExtractLines([line]) == match ParseLine(line) case None => [] case Some(b) => [b]
  {
    var o := ParseLine(line);
    assert Parsed([line]) == [o];
    SomesSingle(o);
  }

  /** Collecting over two blocks of lines is collecting over each in turn:
      records keep line order, and a line's record does not depend on the
      lines around it. */
  lemma ExtractLinesAppend(a: seq<string>, b: seq<string>)
    ensures ExtractLines(a + b) == ExtractLines(a) + ExtractLines(b)
  {
    MapAppend(ParseLine, a, b);
    SomesAppend(Parsed(a), Parsed(b));
  }

  /** A line that does not parse is skipped without disturbing the others. */
  lemma ExtractSkipsUnparsed(a: seq<string>, line: string, b: seq<string>)
    requires ParseLine(line).None?
    ensures ExtractLines(a + [line] + b) == ExtractLines(a) + ExtractLines(b)
  {
    ExtractLinesAppend(a + [line], b);
    ExtractLinesAppend(a, [line]);
    ExtractUnparsedLine(line);
    assert ExtractLines(a) + [] == ExtractLines(a);
  }

  lemma ExtractUnparsedLine(line: string)
    requires ParseLine(line).None?
    ensures ExtractLines([line]) == []
  {
    ExtractLine(line);
  }

  /** When every line parses, there is one record per line, in line order. */
  lemma ExtractAllParsed(lines: seq<string>)
    requires forall i :: 0 <= i < |lines| ==> ParseLine(lines[i]).Some?
    ensures |ExtractLines(lines)| == |lines|
    ensures forall i :: 0 <= i < |lines| ==> ExtractLines(lines)[i] == ParseLine(lines[i]).value
  {
    SomesAllPresent(Parsed(lines));
  }

  /** `ocr_to_dataframe`: `None` stands for the image failing to open or the
      recognition engine raising, which yields no records.  Otherwise the
      records are those of the recognised text's lines, the same as the PDF
      loop would collect from that text. */
  function OcrToRecords(recognised: Option<string>): (rs: seq<BillRecord>)
    ensures recognised.None? ==> rs == []
    ensures recognised.Some? ==> rs == ExtractLines(SplitLines(recognised.value))
  {
    match recognised
    case None => []
    case Some(text) => ExtractLinesOcr(SplitLines(text))
  }

  /** What the PDF engine's `page.extract_text()` gives for one page: its
      text, `None` (no text layer) or an exception. */
  datatype PageText = Text(text: string) | NoText | Unreadable

  predicate AllReadable(pages: seq<PageText>) {
    forall i :: 0 <= i < |pages| ==> !pages[i].Unreadable?
  }

  /** The records of one page; a page with no text gives none.  An
      unreadable page never gets here: `PdfPages` checks for one first. */
  function PageRecords(page: PageText): (rs: seq<BillRecord>)
    ensures page.NoText? ==> rs == []
  {
    match page
    case Text(text) => if text == [] then [] else ExtractLines(SplitLines(text))
    case _ => []
  }

  /** Each page's records, page by page. */
  function PagesRecords(pages: seq<PageText>): seq<seq<BillRecord>> {
    Map(PageRecords, pages)
  }

  /** The page loop of `pdf_to_dataframe`: `None` when some page raises,
      otherwise every page's records in page order. */
  function PdfPages(pages: seq<PageText>): (r: Option<seq<BillRecord>>)
    ensures r.None? <==> !AllReadable(pages)
  {
    if AllReadable(pages) then Some(Flatten(PagesRecords(pages))) else None
  }

  lemma AllReadableAppend(a: seq<PageText>, b: seq<PageText>)
    requires AllReadable(a) && AllReadable(b)
    ensures AllReadable(a + b)
  {
    forall i | 0 <= i < |a + b|
      ensures !(a + b)[i].Unreadable?
    {
      if i < |a| {
        assert (a + b)[i] == a[i];
      } else {
        assert (a + b)[i] == b[i - |a|];
      }
    }
  }

  /** The records of a multi-page document are those of its first pages
      followed by those of the remaining pages. */
  lemma PdfPagesAppend(a: seq<PageText>, b: seq<PageText>)
    requires AllReadable(a) && AllReadable(b)
    ensures PdfPages(a + b) == Some(PdfPages(a).value + PdfPages(b).value)
  {
    AllReadableAppend(a, b);
    MapAppend(PageRecords, a, b);
    FlattenAppend(PagesRecords(a), PagesRecords(b));
  }

  /** A page without text contributes nothing. */
  lemma NoTextPageSkipped(a: seq<PageText>, b: seq<PageText>)
    requires AllReadable(a) && AllReadable(b)
    ensures PdfPages(a + [NoText] + b) == PdfPages(a + b)
  {
    assert AllReadable([NoText]);
    AllReadableAppend(a, [NoText]);
    PdfPagesAppend(a, [NoText]);
    PdfPagesAppend(a + [NoText], b);
    PdfPagesAppend(a, b);
    assert PdfPages([NoText]) == Some([]) by {
      var rss := PagesRecords([NoText]);
      assert rss == [[]];
      assert rss[1..] == [];
    }
    assert PdfPages(a).value + [] == PdfPages(a).value;
  }

  /** `pdf_to_dataframe`: `None` stands for the document failing to open;
      that, or any page raising, yields no records.  Otherwise the records
      are those of every page in page order. */
  function PdfToRecords(document: Option<seq<PageText>>): (rs: seq<BillRecord>)
    ensures document.None? ==> rs == []
    ensures document.Some? && !AllReadable(document.value) ==> rs == []
    ensures document.Some? && AllReadable(document.value) ==>
      rs == Flatten(PagesRecords(document.value))
  {
    match document
    case None => []
    case Some(pages) =>
      match PdfPages(pages)
      case None => []
      case Some(rs) => rs
  }

  /** A one-page PDF and an image whose recognised text is that page's text
      give the same records. */
  lemma PdfPageAgreesWithOcr(text: string)
    ensures PdfToRecords(Some([Text(text)])) == OcrToRecords(Some(text))
  {
    var pages := [Text(text)];
    assert AllReadable(pages);
    var rss := PagesRecords(pages);
    assert rss == [PageRecords(Text(text))];
    assert rss[1..] == [];
    assert Flatten(rss) == PageRecords(Text(text)) + [];
    if text == [] {
      assert SplitLines(text) == [];
      assert Parsed([]) == [];
    }
  }
}
