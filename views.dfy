/** ocr_app/views.py, upload_page: the text-extraction decision pipeline for
    one uploaded file. The file-name gate, the attempt at selectable text,
    the page-by-page OCR fallback with its page markers, the capture of
    errors and the creation of one OCRDocument row on success.

    The libraries the view calls (pdfminer's extract_text, PyMuPDF's
    fitz.open and page rendering, pytesseract, the ORM's create) are not
    modelled: what each of them returns or raises for the upload is an
    input (Libraries). */
module Views {
  import opened Wrappers
  import opened PyStr

  const PDF_SUFFIX := ".pdf"
  const ONLY_PDF_MESSAGE := "Only PDF files are allowed. Please upload a valid PDF document."
  const PROCESSING_ERROR_PREFIX := "An error occurred while processing the PDF: "
  const PDFMINER_SOURCE := "pdfminer"
  const PYTESSERACT_SOURCE := "pytesseract"
  /** The pattern counted as a page marker: the start of every PageMarker,
      without its line break and number. */
  const MARKER_PATTERN := "--- Page"

  /** A row of the OCRDocument table; created_at, set automatically when the
      row is created (auto_now_add), is not modelled. */
  datatype OcrDocument = OcrDocument(fileName: string, extractedText: string, ocrSource: string)

  /** What the libraries do with the saved upload. A Failure carries str(e)
      of the exception raised. */
  datatype Libraries = Libraries(
    // pdf_extract_text(full_path), before .strip()
    selectable: Result<string, string>,
    // fitz.open(full_path): for each page in order, the text pytesseract
    // reads from its rendering, or the exception raised loading, rendering
    // or reading that page
    document: Result<seq<Result<string, string>>, string>,
    // the exception raised by OCRDocument.objects.create, if any
    createFault: Option<string>)

  /** The template context the view renders (s3_file_url is always None). */
  datatype Context = Context(extractedText: Option<string>, fileName: Option<string>, error: Option<string>)

  /** A text and the tag of the strategy that produced it. */
  datatype Extracted = Extracted(text: string, source: string)

  /** What one request leaves behind: the context and the rows created. */
  datatype Outcome = Outcome(context: Context, created: seq<OcrDocument>)

  // ---------------------------------------------------------------------
  // Specification

  /** file_name.lower().endswith(".pdf"): a dot stands fourth from the end. */
  predicate IsPdfName(name: string)
    ensures IsPdfName(name) ==> |name| >= 4 && name[|name| - 4] == '.'
  {
    EndsWith(Lower(name), PDF_SUFFIX)
  }

  /** pdf_extract_text(full_path).strip(), with an exception read as "". */
  function SelectableText(attempt: Result<string, string>): (text: string)
    ensures NoSurroundingSpace(text)
  {
    match attempt
    case Success(raw) => Strip(raw)
    case Failure(_) => ""
  }

  /** The marker that opens page pageNumber (counted from 1). */
  function PageMarker(pageNumber: nat): (marker: string)
    ensures |marker| == 15 + |NatToString(pageNumber)|
    ensures marker[0] == '\n' && marker[|marker| - 1] == '\n'
  {
    "\n--- Page " + NatToString(pageNumber) + " ---\n"
  }

  /** What the loop appends for the page at index i with OCR text t. */
  function PageFragment(i: nat, t: string): (fragment: string)
    ensures |fragment| > |t| && fragment[0] == '\n' && fragment[|fragment| - 1] == '\n'
  {
    PageMarker(i + 1) + t + "\n"
  }

  function PageFragments(texts: seq<string>): seq<string> {
    seq(|texts|, i requires 0 <= i < |texts| => PageFragment(i, texts[i]))
  }

  /** The text of the OCR path for pages whose OCR texts are texts. */
  function OcrText(texts: seq<string>): (text: string)
    ensures |text| >= 2 && text[..2] == "\n\n"
  {
    "\n\n" + Concat(PageFragments(texts))
  }

  /** The index of the first page whose processing raises, if any. */
  function FirstFailedPage(pages: seq<Result<string, string>>): (k: Option<nat>)
    ensures k.Some? ==> k.value < |pages| && pages[k.value].Failure?
    ensures k.Some? ==> forall j :: 0 <= j < k.value ==> pages[j].Success?
    ensures k.None? ==> forall j :: 0 <= j < |pages| ==> pages[j].Success?
  {
    if pages == [] then None
    else if pages[0].Failure? then Some(0)
    else
      match FirstFailedPage(pages[1..])
      case None => None
      case Some(k) => Some(k + 1)
  }

  function PageTexts(pages: seq<Result<string, string>>): seq<string>
    requires forall j :: 0 <= j < |pages| ==> pages[j].Success?
  {
    seq(|pages|, j requires 0 <= j < |pages| => pages[j].value)
  }

  /** The OCR loop: the assembled text, or the first page's exception. */
  function OcrResult(pages: seq<Result<string, string>>): (result: Result<string, string>)
    ensures result.Success? <==> forall j :: 0 <= j < |pages| ==> pages[j].Success?
    ensures result.Failure? ==> Failure(result.error) in pages
  {
    match FirstFailedPage(pages)
    case Some(k) => Failure(pages[k].error)
    case None => Success(OcrText(PageTexts(pages)))
  }

  /** The body of the try block up to the database write: the text and its
      tag, or the exception that ends it. */
  function Extraction(libs: Libraries): (r: Result<Extracted, string>)
    ensures SelectableText(libs.selectable) != "" ==> r.Success?
    ensures r.Success? ==> (r.value.source == PDFMINER_SOURCE <==> SelectableText(libs.selectable) != "")
    ensures r.Success? ==> r.value.source == PDFMINER_SOURCE || r.value.source == PYTESSERACT_SOURCE
  {
    var selectable := SelectableText(libs.selectable);
    if selectable != "" then Success(Extracted(selectable, PDFMINER_SOURCE))
    else
      match libs.document
      case Failure(e) => Failure(e)
      case Success(pages) =>
        match OcrResult(pages)
        case Failure(e) => Failure(e)
        case Success(text) => Success(Extracted(text, PYTESSERACT_SOURCE))
  }

  /** upload_page for a request that carries the file name upload (None when
      the request is not a POST with a file). */
  function UploadOutcome(upload: Option<string>, libs: Libraries): (o: Outcome)
    ensures o.context.fileName == upload
    ensures |o.created| <= 1
    ensures o.created != [] ==>
      o.context.error.None? && upload == Some(o.created[0].fileName)
      && o.context.extractedText == Some(o.created[0].extractedText)
  {
    match upload
    case None => Outcome(Context(None, None, None), [])
    case Some(name) =>
      if !IsPdfName(name) then Outcome(Context(None, Some(name), Some(ONLY_PDF_MESSAGE)), [])
      else
        match Extraction(libs)
        case Failure(e) => Outcome(Context(None, Some(name), Some(PROCESSING_ERROR_PREFIX + e)), [])
        case Success(x) =>
          match libs.createFault
          case Some(e) => Outcome(Context(Some(x.text), Some(name), Some(PROCESSING_ERROR_PREFIX + e)), [])
          case None => Outcome(Context(Some(x.text), Some(name), None), [OcrDocument(name, x.text, x.source)])
  }

  // ---------------------------------------------------------------------
  // The view

  /** OCRDocument.objects: the rows of the table, in creation order. */
  class OcrDocumentTable {
    var rows: seq<OcrDocument>

    constructor ()
      ensures rows == []
    {
      rows := [];
    }

    /** OCRDocument.objects.create; fault is the exception the database
        raises, if any, and is handed back. */
    method Create(fileName: string, extractedText: string, ocrSource: string, fault: Option<string>)
      returns (raised: Option<string>)
      modifies this
      ensures raised == fault
      ensures rows == if fault.None? then old(rows) + [OcrDocument(fileName, extractedText, ocrSource)] else old(rows)
    {
      raised := fault;
      if fault.None? {
        rows := rows + [OcrDocument(fileName, extractedText, ocrSource)];
      }
    }
  }

  /** The page loop: appends one fragment per page, in page order, and gives
      up with the exception of the first page that raises. */
  method OcrPages(pages: seq<Result<string, string>>) returns (result: Result<string, string>)
    ensures result == OcrResult(pages)
  {
    var ocrResults: seq<string> := [];
    for pageNumber := 0 to |pages|
      invariant forall j :: 0 <= j < pageNumber ==> pages[j].Success?
      invariant |ocrResults| == pageNumber
      invariant forall j :: 0 <= j < pageNumber ==> ocrResults[j] == PageFragment(j, pages[j].value)
    {
      match pages[pageNumber]
      case Failure(e) =>
        FirstFailureAt(pages, pageNumber);
        return Failure(e);
      case Success(text) =>
        ocrResults := ocrResults + [PageMarker(pageNumber + 1) + text + "\n"];
    }
    assert ocrResults == PageFragments(PageTexts(pages));
    result := Success("\n\n" + Concat(ocrResults));
  }

  /** upload_page: the context it renders, and the row it adds to table. */
  method UploadPage(table: OcrDocumentTable, upload: Option<string>, libs: Libraries)
    returns (context: Context)
    modifies table
    ensures context == UploadOutcome(upload, libs).context
    ensures table.rows == old(table.rows) + UploadOutcome(upload, libs).created
  {
    var extractedText: Option<string> := None;
    var fileName: Option<string> := None;
    var error: Option<string> := None;
    if upload.Some? {
      var name := upload.value;
      fileName := Some(name);
      if !IsPdfName(name) {
        error := Some(ONLY_PDF_MESSAGE);
      } else {
        // the try block; raised is the exception that ends it, if any
        var raised: Option<string> := None;
        var ocrSource := "";
        var selectableText := SelectableText(libs.selectable);
        if selectableText != "" {
          extractedText := Some(selectableText);
          ocrSource := PDFMINER_SOURCE;
        } else {
          match libs.document {
            case Failure(e) =>
              raised := Some(e);
            case Success(pages) =>
              var ocr := OcrPages(pages);
              match ocr {
                case Failure(e) =>
                  raised := Some(e);
                case Success(text) =>
                  extractedText := Some(text);
                  ocrSource := PYTESSERACT_SOURCE;
              }
          }
        }
        if raised.None? {
          raised := table.Create(name, extractedText.value, ocrSource, libs.createFault);
        }
        if raised.Some? {
          error := Some(PROCESSING_ERROR_PREFIX + raised.value);
        }
      }
    }
    context := Context(extractedText, fileName, error);
  }

  // ---------------------------------------------------------------------
  // Properties

  /** A marker is the fixed head "\n--- Page ", the page number in decimal
      and the fixed tail " ---\n"; the number reads back from it. */
  lemma PageMarkerNumber(n: nat)
    ensures var m := PageMarker(n);
      && |m| >= 15 && m[..10] == "\n--- Page " && m[|m| - 5..] == " ---\n"
      && AllDigits(m[10..|m| - 5]) && DecimalValue(m[10..|m| - 5]) == n
  {
    var d := NatToString(n);
    var m := PageMarker(n);
    MarkerSlices("\n--- Page ", d, " ---\n");
    DecimalRoundTrip(n);
  }

  lemma MarkerSlices(head: string, d: string, tail: string)
    requires |head| == 10 && |tail| == 5
    ensures var m := head + d + tail;
      m[..10] == head && m[|m| - 5..] == tail && m[10..|m| - 5] == d
  {
  }

  /** The first page that raises is the one FirstFailedPage names. */
  lemma FirstFailureAt(pages: seq<Result<string, string>>, k: nat)
    requires k < |pages| && pages[k].Failure?
    requires forall j :: 0 <= j < k ==> pages[j].Success?
    ensures FirstFailedPage(pages) == Some(k)
    ensures OcrResult(pages) == Failure(pages[k].error)
  {
    var f := FirstFailedPage(pages);
    assert f.Some?;
    assert !(f.value < k);
    assert !(k < f.value);
  }

  /** The gate accepts exactly the names whose last four characters are a
      dot and the letters p, d, f in either case. */
  lemma PdfNameByCharacters(name: string)
    ensures IsPdfName(name) <==>
      |name| >= 4 && name[|name| - 4] == '.' && name[|name| - 3] in "pP"
      && name[|name| - 2] in "dD" && name[|name| - 1] in "fF"
  {
    var n := |name|;
    if n >= 4 {
      var tail := Lower(name)[n - 4..];
      assert tail == [LowerChar(name[n - 4]), LowerChar(name[n - 3]), LowerChar(name[n - 2]), LowerChar(name[n - 1])];
    }
  }

  /** A name that fails the gate gives the fixed message, no text and no row,
      whatever the libraries would have done. */
  lemma NonPdfRejected(name: string, libs: Libraries)
    requires !IsPdfName(name)
    ensures UploadOutcome(Some(name), libs) == Outcome(Context(None, Some(name), Some(ONLY_PDF_MESSAGE)), [])
  {
  }

  /** The selectable text is empty exactly when extract_text raised or
      returned only whitespace. */
  lemma SelectableTextEmptyIff(attempt: Result<string, string>)
    ensures SelectableText(attempt) == "" <==> attempt.Failure? || AllSpace(attempt.value)
  {
    if attempt.Success? {
      StripEmptyIff(attempt.value);
    }
  }

  /** Non-empty stripped selectable text is used as it is, tagged
      "pdfminer", and the document is never opened for OCR. */
  lemma SelectablePreferred(name: string, libs: Libraries, otherDocument: Result<seq<Result<string, string>>, string>)
    requires libs.selectable.Success? && !AllSpace(libs.selectable.value)
    ensures Extraction(libs) == Success(Extracted(Strip(libs.selectable.value), PDFMINER_SOURCE))
    ensures UploadOutcome(Some(name), libs) == UploadOutcome(Some(name), libs.(document := otherDocument))
  {
    SelectableTextEmptyIff(libs.selectable);
  }

  /** An exception from extract_text is not an error: it is read as empty
      text, exactly like whitespace-only text, and leads to the OCR path. */
  lemma SelectableFailureFallsBack(name: string, libs: Libraries, message: string)
    requires libs.selectable.Failure? || AllSpace(libs.selectable.value)
    ensures UploadOutcome(Some(name), libs) == UploadOutcome(Some(name), libs.(selectable := Failure(message)))
    ensures Extraction(libs).Success? ==> Extraction(libs).value.source == PYTESSERACT_SOURCE
  {
    SelectableTextEmptyIff(libs.selectable);
  }

  /** On the OCR path with every page read, the text is the assembled page
      fragments, tagged "pytesseract". */
  lemma OcrPathText(libs: Libraries, pages: seq<Result<string, string>>)
    requires libs.selectable.Failure? || AllSpace(libs.selectable.value)
    requires libs.document == Success(pages)
    requires forall j :: 0 <= j < |pages| ==> pages[j].Success?
    ensures Extraction(libs) == Success(Extracted(OcrText(PageTexts(pages)), PYTESSERACT_SOURCE))
  {
    SelectableTextEmptyIff(libs.selectable);
  }

  /** A document that cannot be opened ends the request with its exception:
      no text, no row. */
  lemma OpenFailureReported(name: string, libs: Libraries)
    requires IsPdfName(name) && libs.document.Failure?
    requires libs.selectable.Failure? || AllSpace(libs.selectable.value)
    ensures UploadOutcome(Some(name), libs)
      == Outcome(Context(None, Some(name), Some(PROCESSING_ERROR_PREFIX + libs.document.error)), [])
  {
    SelectableTextEmptyIff(libs.selectable);
  }

  /** A page that raises ends the request with its exception: the pages read
      before it are discarded, no text is shown and no row is created. */
  lemma PageFailureDiscardsPages(name: string, libs: Libraries, pages: seq<Result<string, string>>, k: nat)
    requires IsPdfName(name)
    requires libs.selectable.Failure? || AllSpace(libs.selectable.value)
    requires libs.document == Success(pages)
    requires k < |pages| && pages[k].Failure?
    requires forall j :: 0 <= j < k ==> pages[j].Success?
    ensures UploadOutcome(Some(name), libs)
      == Outcome(Context(None, Some(name), Some(PROCESSING_ERROR_PREFIX + pages[k].error)), [])
  {
    SelectableTextEmptyIff(libs.selectable);
    FirstFailureAt(pages, k);
  }

  /** For a name that passes the gate, exactly one of "a row is created" and
      "an error is shown" holds; the row holds the uploaded name, the text
      shown and the tag of the strategy that produced that text. */
  lemma RecordOrError(name: string, libs: Libraries)
    requires IsPdfName(name)
    ensures var o := UploadOutcome(Some(name), libs);
      && |o.created| <= 1
      && (o.created != [] <==> o.context.error.None?)
      && o.context.fileName == Some(name)
      && (o.created != [] ==>
            && o.created[0].fileName == name
            && o.context.extractedText == Some(o.created[0].extractedText)
            && (o.created[0].ocrSource == PDFMINER_SOURCE <==> SelectableText(libs.selectable) != "")
            && (o.created[0].ocrSource == PDFMINER_SOURCE || o.created[0].ocrSource == PYTESSERACT_SOURCE))
  {
  }

  /** A row is created only when nothing raised: not the document, not a
      page, not the database. */
  lemma RecordOnlyOnSuccess(name: string, libs: Libraries)
    requires IsPdfName(name)
    ensures UploadOutcome(Some(name), libs).created != [] <==> Extraction(libs).Success? && libs.createFault.None?
  {
  }

  /** Without an uploaded file nothing happens. */
  lemma NoUploadNoEffect(libs: Libraries)
    ensures UploadOutcome(None, libs) == Outcome(Context(None, None, None), [])
  {
  }

  /** A document with no pages gives just the two leading line breaks. */
  lemma OcrTextNoPages()
    ensures OcrText([]) == "\n\n"
  {
  }

  /** Adding a page appends its marker, numbered one past the pages before
      it, then its OCR text untrimmed and a line break; nothing before
      changes. */
  lemma OcrTextAppendPage(texts: seq<string>, t: string)
    ensures OcrText(texts + [t]) == OcrText(texts) + PageMarker(|texts| + 1) + t + "\n"
  {
    var fs := PageFragments(texts + [t]);
    assert fs[..|fs| - 1] == PageFragments(texts);
    var c := Concat(PageFragments(texts));
    var f := PageFragment(|texts|, t);
    assert Concat(fs) == c + f;
    assert "\n\n" + (c + f) == ("\n\n" + c) + f;
  }

  /** Two pages reading "Hello" and "World": only two line breaks separate
      "Hello" from the second marker. */
  lemma OcrTextTwoPages()
    ensures OcrText(["Hello", "World"]) == "\n\n\n--- Page 1 ---\nHello\n\n--- Page 2 ---\nWorld\n"
  {
    var none: seq<string> := [];
    var one: seq<string> := ["Hello"];
    assert none + ["Hello"] == one;
    assert one + ["World"] == ["Hello", "World"];
    assert OcrText(none) == "\n\n";
    OcrTextAppendPage(none, "Hello");
    OcrTextAppendPage(one, "World");
    FirstTwoMarkers();
    TwoPagesLiteral(PageMarker(1), PageMarker(2));
  }

  lemma FirstTwoMarkers()
    ensures PageMarker(1) == "\n--- Page 1 ---\n" && PageMarker(2) == "\n--- Page 2 ---\n"
  {
    assert NatToString(1) == "1" && NatToString(2) == "2";
  }

  lemma TwoPagesLiteral(m1: string, m2: string)
    requires m1 == "\n--- Page 1 ---\n" && m2 == "\n--- Page 2 ---\n"
    ensures "\n\n\n--- Page 1 ---\nHello\n\n--- Page 2 ---\nWorld\n"
      == "\n\n" + m1 + "Hello" + "\n" + m2 + "World" + "\n"
  {
    FirstPageLiteral(m1);
    SecondPageLiteral(m2);
    assert "\n\n\n--- Page 1 ---\nHello\n\n--- Page 2 ---\nWorld\n"
      == "\n\n\n--- Page 1 ---\nHello\n" + "\n--- Page 2 ---\nWorld\n";
  }

  lemma FirstPageLiteral(m1: string)
    requires m1 == "\n--- Page 1 ---\n"
    ensures "\n\n\n--- Page 1 ---\nHello\n" == "\n\n" + m1 + "Hello" + "\n"
  {
  }

  lemma SecondPageLiteral(m2: string)
    requires m2 == "\n--- Page 2 ---\n"
    ensures "\n--- Page 2 ---\nWorld\n" == m2 + "World" + "\n"
  {
  }

  /** How many times the page-marker pattern occurs in the OCR texts. */
  function MarkersInTexts(texts: seq<string>): nat {
    if texts == [] then 0
    else MarkersInTexts(texts[..|texts| - 1]) + Occurrences(MARKER_PATTERN, texts[|texts| - 1])
  }

  /** The head of a marker, without its final line break, holds the pattern
      once. */
  lemma MarkerHeadOnce(d: string)
    requires d != [] && AllDigits(d)
    ensures Occurrences(MARKER_PATTERN, "\n--- Page " + d + " ---") == 1
  {
    var t := d + " ---";
    var s := " Page " + t;
    var a := "\n--- Page " + t;
    assert "\n--- Page " + d + " ---" == a;
    forall i | 0 <= i <= |s| - |MARKER_PATTERN| ensures s[i] != MARKER_PATTERN[0] {
      if 6 <= i { assert s[i] == d[i - 6]; }
    }
    OccurrencesNone(MARKER_PATTERN, s);
    MarkerHead(t);
    assert a[3..][1..] == s && a[2..][1..] == a[3..] && a[1..][1..] == a[2..];
    OccurrencesStep(MARKER_PATTERN, a[3..], 1);
    OccurrencesStep(MARKER_PATTERN, a[2..], 2);
    OccurrencesStep(MARKER_PATTERN, a[1..], 0);
    OccurrencesStep(MARKER_PATTERN, a, 0);
  }

  /** The characters of a marker head that the count of MarkerHeadOnce looks at. */
  lemma MarkerHead(t: string)
    ensures var a := "\n--- Page " + t;
      a[0] == '\n' && a[1..9] == MARKER_PATTERN && a[4] == ' ' && a[4..] == " Page " + t
  {
    var h := "\n--- Page ";
    assert (h + t)[1..9] == h[1..9];
    assert (h + t)[4..] == h[4..] + t;
  }

  /** A page's fragment holds the pattern once more than its OCR text. */
  lemma FragmentMarkers(i: nat, t: string)
    ensures Occurrences(MARKER_PATTERN, PageFragment(i, t)) == 1 + Occurrences(MARKER_PATTERN, t)
  {
    var head := "\n--- Page " + NatToString(i + 1) + " ---";
    assert PageFragment(i, t) == head + ("\n" + (t + "\n"));
    OccurrencesConcat(MARKER_PATTERN, head, "\n" + (t + "\n"));
    OccurrencesConcat(MARKER_PATTERN, "\n", t + "\n");
    OccurrencesConcat(MARKER_PATTERN, t, "\n");
    MarkerHeadOnce(NatToString(i + 1));
  }

  /** The OCR text holds one marker per page plus whatever the OCR texts
      themselves hold. */
  lemma {:induction false} OcrTextMarkers(texts: seq<string>)
    ensures Occurrences(MARKER_PATTERN, OcrText(texts)) == |texts| + MarkersInTexts(texts)
    decreases |texts|
  {
    if texts == [] {
      assert OcrText(texts) == "\n\n";
    } else {
      var init := texts[..|texts| - 1];
      var t := texts[|texts| - 1];
      var o := OcrText(init);
      var f := PageFragment(|init|, t);
      assert OcrText(texts) == o + f by {
        assert init + [t] == texts;
        OcrTextAppendPage(init, t);
      }
      assert Occurrences(MARKER_PATTERN, o + f) == Occurrences(MARKER_PATTERN, o) + Occurrences(MARKER_PATTERN, f) by {
        assert '\n' !in MARKER_PATTERN;
        OccurrencesConcat(MARKER_PATTERN, o, f);
      }
      OcrTextMarkers(init);
      FragmentMarkers(|init|, t);
    }
  }

  /** When no page's OCR text contains the pattern, the number of markers is
      the page count. */
  lemma MarkersMatchPageCount(texts: seq<string>)
    requires forall i :: 0 <= i < |texts| ==> Occurrences(MARKER_PATTERN, texts[i]) == 0
    ensures Occurrences(MARKER_PATTERN, OcrText(texts)) == |texts|
  {
    NoMarkersInTexts(texts);
    OcrTextMarkers(texts);
  }

  lemma {:induction false} NoMarkersInTexts(texts: seq<string>)
    requires forall i :: 0 <= i < |texts| ==> Occurrences(MARKER_PATTERN, texts[i]) == 0
    ensures MarkersInTexts(texts) == 0
    decreases |texts|
  {
    if texts != [] {
      NoMarkersInTexts(texts[..|texts| - 1]);
    }
  }

  /** OCR text that reads like a marker is not escaped: a one-page document
      whose page reads "--- Page 2 ---" gives two markers. */
  lemma MarkerLookalikeCounted()
    ensures Occurrences(MARKER_PATTERN, OcrText(["--- Page 2 ---"])) == 2
  {
    var t: string := "--- Page 2 ---";
    var texts: seq<string> := [t];
    OcrTextMarkers(texts);
    assert texts[..0] == [];
    LookalikeOnce(t);
  }

  /** What follows the three dashes of "--- Page 2 ---" holds no marker. */
  lemma NoMarkerAfterDashes(s: string)
    requires |s| == 11 && s[0] == ' ' && s[1] == 'P' && s[2] == 'a' && s[3] == 'g'
    ensures Occurrences(MARKER_PATTERN, s) == 0
  {
    OccurrencesNone(MARKER_PATTERN, s);
  }

  lemma LookalikeOnce(t: string)
    requires t == "--- Page 2 ---"
    ensures Occurrences(MARKER_PATTERN, t) == 1
  {
    assert t[..8] == MARKER_PATTERN;
    PatternOnceAtStart(t);
  }

  /** A 14-character string that starts with the pattern followed by
      " Pag" holds it once. */
  lemma PatternOnceAtStart(t: string)
    requires |t| == 14 && t[..8] == MARKER_PATTERN
    requires t[3] == ' ' && t[4] == 'P' && t[5] == 'a' && t[6] == 'g'
    ensures Occurrences(MARKER_PATTERN, t) == 1
  {
    var b1 := t[1..];
    var b2 := b1[1..];
    var s := b2[1..];
    assert |s| == 11 && s[0] == t[3] && s[1] == t[4] && s[2] == t[5] && s[3] == t[6];
    NoMarkerAfterDashes(s);
    assert b2[1] == t[3] && b1[2] == t[3];
    OccurrencesStep(MARKER_PATTERN, b2, 1);
    OccurrencesStep(MARKER_PATTERN, b1, 2);
    OccurrencesStep(MARKER_PATTERN, t, 0);
  }


}
