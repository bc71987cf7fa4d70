# OCR upload pipeline: a Dafny model

This project models the text-extraction decision pipeline of a small Django
application that turns an uploaded PDF into plain text.

- **`upload_page`** (`ocr_app/views.py`) is the view. It checks that the file
  name ends in `.pdf`, ignoring case. It first tries the document's selectable
  text (pdfminer's `extract_text`, then stripped). If that text is empty, or
  the extractor raised, it falls back to OCR. The OCR path opens the document
  with PyMuPDF, renders every page and reads it with pytesseract. It assembles
  `"\n\n"` followed by `"\n--- Page {n} ---\n{text}\n"` for each page. On
  success it creates one `OCRDocument` row holding the uploaded file name,
  the text and the source tag (`"pdfminer"` or `"pytesseract"`). Any
  exception in the try block becomes the message
  `"An error occurred while processing the PDF: {e}"`, and then no row is
  created.
- **`extract_text_from_aws_textract`** (`ocr_app/aws_ocr.py`) post-processes a
  Textract response. It keeps the `Text` of each `LINE` block in order,
  appends `"\n"` to each and strips the result.

Layout:

- `wrappers.dfy`, module `Wrappers`: `Option` and `Result`. A `Failure`
  stands for a raised exception and carries its `str(e)`.
- `pystr.dfy`, module `PyStr`: the Python string built-ins the code relies
  on. These are `str.strip()` (with the exact `str.isspace()` character set),
  `lower()` and `endswith()`, `str()` of a page number, `"".join` and
  counting pattern occurrences.
- `aws_ocr.dfy`, module `AwsOcr`: the Textract post-processing. The loop is
  a method proved equal to a specification function, and lemmas state
  what that function guarantees.
- `views.dfy`, module `Views`: the view. The external libraries are one
  input value, `Libraries`. It holds what `extract_text` returned or raised,
  what `fitz.open` raised or, page by page, what pytesseract read or raised,
  and whether `OCRDocument.objects.create` raised. `UploadOutcome` is the
  specification of the view. `OcrPages` is the page loop. `UploadPage` is
  the view itself, a method that appends to an `OcrDocumentTable` (the
  `OCRDocument` table). Both methods are proved equal to the specification.

Facts about the code that the model keeps:

- The source tags are the literal `"pdfminer"` and `"pytesseract"`
  (ocr_app/views.py:72, 92).
- Only two line breaks separate one page's text from the next marker
  (ocr_app/views.py:89, 91). Each fragment ends in a single `"\n"` and the
  next one starts with `"\n"`. For pages "Hello" and "World" the text is
  `"\n\n\n--- Page 1 ---\nHello\n\n--- Page 2 ---\nWorld\n"`
  (`Views.OcrTextTwoPages`).
- Error messages carry only `str(e)` of the exception
  (ocr_app/views.py:187-188). The view adds no page index and no document
  name.
- OCR text that looks like a marker is not escaped. So "one marker per page"
  holds only when no page's OCR text itself contains `--- Page`
  (`Views.OcrTextMarkers`, `Views.MarkerLookalikeCounted`).

## Model

| member | source | states |
|---|---|---|
| `PyStr.Strip` | ocr_app/views.py:66 | `str.strip()` keeps a slice of its input. Only whitespace is cut off on either side, and no whitespace is left at either end. |
| `PyStr.LeadEnd` | ocr_app/views.py:66 | Scanning forward from an index, the first character that is not whitespace, or the end. Everything skipped is whitespace. |
| `PyStr.TrailStart` | ocr_app/views.py:66 | Scanning back from the end of a range, the start of the run of whitespace that ends it. The character before that run is not whitespace. |
| `PyStr.StripEmptyIff` | ocr_app/views.py:66-70 | The stripped text is empty exactly when the input is all whitespace. |
| `PyStr.StripCharacterization` | ocr_app/aws_ocr.py:21 | Any slice with only whitespace outside it and none at its own ends is what `strip()` returns, so the contract of `Strip` determines it. |
| `PyStr.StripIdempotent` | ocr_app/aws_ocr.py:21 | Stripping a stripped text changes nothing. |
| `PyStr.Lower` | ocr_app/views.py:36 | `file_name.lower()` with ASCII lowering: the same length, no capital A-Z left, and every character either kept or an ASCII capital turned into its small letter. |
| `PyStr.EndsWithIff` | ocr_app/views.py:36 | `EndsWith(s, suffix)`, the model of `s.endswith(suffix)`, holds exactly when `s` is some text followed by `suffix`. |
| `PyStr.NatToString` | ocr_app/views.py:89 | The page number is printed as a non-empty string of decimal digits with no leading zero. |
| `PyStr.DecimalRoundTrip` | ocr_app/views.py:89 | Reading the printed page number back gives the number, so different pages get different numbers. |
| `PyStr.Concat` | ocr_app/views.py:91 | `"".join(parts)`: the parts in order, so the result opens with the first part. |
| `PyStr.ConcatAppend` | ocr_app/views.py:91 | `"".join` of two runs of fragments is the join of the first followed by the join of the second. |
| `AwsOcr.BlocksOf` | ocr_app/aws_ocr.py:17 | A response without a `Blocks` key is read as having no blocks. |
| `AwsOcr.LineTexts` | ocr_app/aws_ocr.py:17-19 | At most one text comes from each block, and every text kept is the `Text` of some `LINE` block. |
| `AwsOcr.Terminated` | ocr_app/aws_ocr.py:16-19 | The text the loop accumulates: each LINE text followed by `"\n"`, so it has at least one character per line. |
| `AwsOcr.TextractText` | ocr_app/aws_ocr.py:16-21 | The text the function returns: the accumulated LINE text, stripped. It has no whitespace at either end and is no longer than the accumulated text. |
| `AwsOcr.ExtractText` | ocr_app/aws_ocr.py:16-21 | The accumulate-then-strip loop returns `TextractText(response)`, the stripped run of LINE texts each followed by `"\n"`. |
| `AwsOcr.LineTextsAppend` | ocr_app/aws_ocr.py:17-19 | The LINE texts of two runs of blocks are those of the first followed by those of the second, so the texts keep the order of their blocks. |
| `AwsOcr.LineTextsSingle` | ocr_app/aws_ocr.py:18-19 | One block contributes its text exactly when its type is `LINE`. |
| `AwsOcr.NonLineIgnored` | ocr_app/aws_ocr.py:18 | Inserting a non-LINE block anywhere leaves the returned text unchanged. |
| `AwsOcr.TerminatedAppend` | ocr_app/aws_ocr.py:19 | The accumulated text of two runs of lines is that of the first run followed by that of the second. |
| `AwsOcr.NoLinesNoText` | ocr_app/aws_ocr.py:16-21 | A response with no `Blocks` key, no blocks or no LINE blocks gives `""`. |
| `AwsOcr.NoLineBlocks` | ocr_app/aws_ocr.py:17-19 | Blocks none of which is a LINE block contribute no line at all. |
| `AwsOcr.TextractTextStripped` | ocr_app/aws_ocr.py:21 | The result has no whitespace at either end. It is empty exactly when the accumulated LINE text is all whitespace. |
| `AwsOcr.TerminatedIsJoined` | ocr_app/aws_ocr.py:19 | For one or more lines, the accumulated text is the lines joined by `"\n"` plus one final `"\n"`. |
| `AwsOcr.CleanLinesJoined` | ocr_app/aws_ocr.py:19-21 | When every LINE text is non-empty with no surrounding whitespace, the result is those texts joined by single `"\n"`. |
| `Views.SelectableText` | ocr_app/views.py:65-68 | The selectable text the view tests has no whitespace at either end, whether the extractor returned text or raised. |
| `Views.IsPdfName` | ocr_app/views.py:36 | `file_name.lower().endswith(".pdf")` with ASCII lowering. A name that passes has at least four characters, the fourth from the end a dot. |
| `Views.PageMarker` | ocr_app/views.py:89 | The marker for page n, `"\n--- Page {n} ---\n"`. It starts and ends with a line break. |
| `Views.PageMarkerNumber` | ocr_app/views.py:89 | A marker is the fixed head `"\n--- Page "`, the page number in decimal and the fixed tail `" ---\n"`. Reading the digits back gives the page number. |
| `Views.PageFragment` | ocr_app/views.py:89 | What the loop appends for page index i: the marker of page i+1, the OCR text and `"\n"`. The fragment starts and ends with a line break. |
| `Views.OcrText` | ocr_app/views.py:91 | The OCR-path text: `"\n\n"` followed by the fragments of all pages in order. It always opens with `"\n\n"`. |
| `Views.SelectableTextEmptyIff` | ocr_app/views.py:65-70 | The selectable text is empty, which sends the view to OCR, exactly when the extractor raised or returned only whitespace. |
| `Views.FirstFailedPage` | ocr_app/views.py:78-88 | Names the first page whose processing raises: that page failed and every earlier page was read. `None` means every page was read. |
| `Views.FirstFailureAt` | ocr_app/views.py:78-88 | The OCR loop ends with the exception of the first page that raises, not any later one. |
| `Views.OcrResult` | ocr_app/views.py:76-91 | The OCR loop's outcome: the assembled text exactly when every page was read, and otherwise the exception of one of the pages. |
| `Views.Extraction` | ocr_app/views.py:65-92 | The try block up to the database write. Non-empty selectable text always succeeds. A success is tagged `"pdfminer"` exactly when the selectable text was non-empty, and `"pytesseract"` otherwise. |
| `Views.UploadOutcome` | ocr_app/views.py:26-188 | The context and the rows of one request. The context's file name is the uploaded name, at most one row is created, and a row means no error, the uploaded name and the text shown. |
| `Views.OcrPages` | ocr_app/views.py:76-91 | The page loop returns `OcrResult(pages)`. That is `"\n\n"` plus one fragment per page in page order, or the first failing page's exception with the fragments gathered so far dropped. |
| `Views.OcrDocumentTable.Create` | ocr_app/views.py:96-100 | Creating a row appends exactly one row (file name, text, source) when the database does not raise, and otherwise leaves the table unchanged and hands the exception back. |
| `Views.UploadPage` | ocr_app/views.py:26-188 | The view renders the context `UploadOutcome(upload, libs).context`, and the table gains exactly the rows `UploadOutcome(upload, libs).created`. |
| `Views.PdfNameByCharacters` | ocr_app/views.py:36 | A name passes the gate exactly when its last four characters are `.` followed by p, d and f, each in either case. |
| `Views.NonPdfRejected` | ocr_app/views.py:36-37 | A name that fails the gate gives the fixed "Only PDF files are allowed…" error, no text and no row, whatever the libraries would do. |
| `Views.SelectablePreferred` | ocr_app/views.py:70-72 | Non-whitespace selectable text is used stripped and tagged `"pdfminer"`. The outcome does not depend on the document's OCR behaviour, so OCR is never invoked. |
| `Views.SelectableFailureFallsBack` | ocr_app/views.py:65-73 | An extractor exception and whitespace-only text give the same outcome. Any text extracted then is tagged `"pytesseract"`. |
| `Views.OcrPathText` | ocr_app/views.py:73-92 | On the OCR path with every page read, the text is `OcrText` of the page texts, tagged `"pytesseract"`. |
| `Views.OpenFailureReported` | ocr_app/views.py:75 | A document that fails to open gives the processing-error message with its exception, no text and no row. |
| `Views.PageFailureDiscardsPages` | ocr_app/views.py:76-91 | A page that raises gives the processing-error message with that page's exception. Earlier pages are discarded, no text is shown and no row is created. |
| `Views.RecordOrError` | ocr_app/views.py:96-100 | For a PDF name, exactly one of "one row created" and "error set" holds. The row holds the uploaded name and the text shown. Its tag is `"pdfminer"` exactly when the selectable text was non-empty, and `"pytesseract"` otherwise. |
| `Views.RecordOnlyOnSuccess` | ocr_app/views.py:43-100 | A row is created exactly when neither the extraction nor the database write raised. |
| `Views.NoUploadNoEffect` | ocr_app/views.py:26-31 | A request without an uploaded file renders no text, no name and no error, and creates no row. |
| `Views.OcrTextNoPages` | ocr_app/views.py:91 | A document with no pages gives exactly `"\n\n"`. |
| `Views.OcrTextAppendPage` | ocr_app/views.py:78-91 | Adding a page leaves the earlier text unchanged. It appends that page's marker, numbered one past the earlier pages, then its OCR text untrimmed, then `"\n"`. |
| `Views.OcrTextTwoPages` | ocr_app/views.py:89-91 | Pages "Hello" and "World" give `"\n\n\n--- Page 1 ---\nHello\n\n--- Page 2 ---\nWorld\n"`. |
| `Views.FragmentMarkers` | ocr_app/views.py:89 | A page's fragment contains `--- Page` once more than its OCR text does. |
| `Views.OcrTextMarkers` | ocr_app/views.py:78-91 | The OCR text contains `--- Page` once per page plus however often the OCR texts themselves contain it. |
| `Views.MarkersMatchPageCount` | ocr_app/views.py:78-91 | When no page's OCR text contains `--- Page`, the number of markers equals the page count. |
| `Views.MarkerLookalikeCounted` | ocr_app/views.py:89 | A one-page document whose page reads `--- Page 2 ---` yields two markers, because OCR text is not escaped. |

## Left out

- Request handling, `render` and the template (ocr_app/views.py:31-33, 191-196) are HTTP glue. A request is reduced to the uploaded file's name, or `None` when there is no POST with a file. The rendered context is a value, and `s3_file_url` is always `None`.
- `default_storage.save` and the `MEDIA_ROOT` path join (ocr_app/views.py:40-41) are file-system I/O. Any rename by the storage does not reach the stored `file_name`, and an exception there is outside the try block.
- The internals of pdfminer, PyMuPDF (rendering at zoom 2 with `alpha=False`, `Image.frombytes`) and pytesseract are foreign library calls. Their results are inputs. One page's load, render and OCR are one outcome, text or exception.
- `doc.close()` (ocr_app/views.py:93) releases a resource, which the model does not track. The code calls it only on the success path, so a document is not closed when a page raises. The model assumes `doc.close()` does not raise. If it did, the view would still show the text and set the error, and no row would be created, whereas the model creates the row.
- The commented-out S3, LLM and RAG blocks (ocr_app/views.py:9, 44-62, 102-184) are dead code.
- The boto3 client and file read of `extract_text_from_aws_textract` (ocr_app/aws_ocr.py:8-14) are network and file I/O. The response is an input.
- `AwsOcr.Block`: a LINE block without a `Text` key, which would raise `KeyError`, is not modelled, because Textract always gives LINE blocks a text.
- `PyStr.LowerChar`: lowers ASCII capitals only. Python's Unicode lowering is not modelled. No non-ASCII character lowers to `.`, `p`, `d` or `f`, so the `.pdf` test is unaffected.
- The `created_at` column of `OCRDocument` (ocr_app/models.py:8) is set automatically when the row is created (`auto_now_add`). It is not modelled: the table is a sequence of rows.
- Running the view twice on the same inputs gives the same outcome by construction, since `UploadOutcome` is a function of its inputs. No separate lemma states it.
