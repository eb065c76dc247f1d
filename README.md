# Cover letter service: text handling core

A Dafny model of the text-handling core of the cover letter web service in
`main.py`: how a résumé is turned into text (`extract_text_from_docx`,
`extract_text_from_pdf` with its intermediate `.docx` path and its
page-by-page fallback), how the upload's filename selects between them, what
`generate_cover_letter` returns, and how the two export endpoints
(`download_docx`, `download_pdf`) turn the letter into a document.

The project has four modules:

- `PyText` (`text.dfy`): the Python string built-ins the core relies on:
  `str.strip()` with CPython's whitespace set, `str.split("\n")`,
  `"\n".join`, ASCII `lower()`, `endswith`, `replace` and the Latin-1
  `encode(..., "replace").decode(...)` round trip, with their laws
  (join/split are inverse, strip is idempotent, the Latin-1 step is
  idempotent and fixes Latin-1 text).
- `Extraction` (`extraction.dfy`): résumé extraction. The libraries
  (python-docx, pdf2docx, PyPDF2, `os.remove`) are parameters that either
  return a value or raise an exception with a message.
- `Export` (`export.dfy`): the export endpoints. The python-docx `Document`
  and the FPDF object are classes whose methods append to / set fields, and
  the handlers' line loops are `for` loops proved against the line list of
  the stripped text.
- `Service` (`service.dfy`): `generate_cover_letter` as a function of the
  extraction result and of the chat completion, a parameter.

`download_docx` keeps blank lines as empty paragraphs (blank text gives one
empty paragraph, "Hello\n\nWorld" gives three); `download_pdf` writes one
`multi_cell` per non-blank line and an `ln(5)` per blank one.

A consequence the model exposes: the extension check lower-cases the
filename but the temporary path's `replace(".pdf", ".docx")` is
case-sensitive, so an upload named `CV.PDF` goes down the PDF path with an
intermediate `.docx` path equal to the path the upload was stored at
(`Extraction.UpperCaseExtensionReusesUpload`), while `cv.pdf` gets a separate
`.docx` path (`Extraction.LowerCaseExtensionGetsDocxPath`).

## Model

| member | source | states |
|---|---|---|
| PyText.Strip | main.py:38 | the result is empty exactly when the input is all whitespace, and otherwise starts and ends with a non-whitespace character |
| PyText.LeadingSpacesFacts | main.py:119 | the prefix `strip()` drops on the left is all whitespace and is followed by a non-whitespace character or the end |
| PyText.TextEndFacts | main.py:119 | what `strip()` drops on the right is all whitespace and follows a non-whitespace character or the start |
| PyText.StripIsSlice | main.py:119 | the result is the contiguous slice of the input after its whitespace prefix, followed only by whitespace |
| PyText.HasText | main.py:38 | Python truthiness of `s.strip()`; by `HasTextIff` it holds exactly when `s` has a non-whitespace character |
| PyText.Split | main.py:122 | `s.split("\n")` has at least one piece; `SplitPieces`, `JoinSplit` and `SplitJoin` pin it down as the newline-free pieces between newlines |
| PyText.Join | main.py:38 | `"\n".join(xs)`; by `JoinSplit` and `SplitJoin` it is the inverse of `Split`, by `JoinNewlines` it adds one newline per separator |
| PyText.EndsWith | main.py:71 | `s.endswith(suffix)`; `EndsWithFour` states it character by character for a four-character suffix |
| PyText.HasTextIff | main.py:38 | a string is truthy after `strip()` exactly when it holds a non-whitespace character |
| PyText.StripFixesTrimmed | main.py:100 | a string with no whitespace at either end is left unchanged by `strip()` |
| PyText.StripIdempotent | main.py:100 | stripping twice is stripping once |
| PyText.SplitPieces | main.py:122 | `split("\n")` gives one more piece than there are newlines, and no piece holds a newline |
| PyText.JoinSplit | main.py:122 | joining the pieces of `split("\n")` with newlines gives the string back |
| PyText.SplitJoin | main.py:52 | splitting a newline join of at least one newline-free piece gives the pieces back |
| PyText.SplitBlankLineBetween | main.py:143 | two newline-free lines around a blank line split into those lines with an empty piece between them |
| PyText.JoinNewlines | main.py:52 | the newlines of a join are those of the pieces plus one per separator |
| PyText.JoinEmptyIff | main.py:38 | a newline join is empty exactly when every piece is empty and there is at most one |
| PyText.Lower | main.py:71 | `lower()` keeps the length |
| PyText.LowerAt | main.py:71 | each character is lowered on its own, ASCII capitals to small letters, everything else unchanged |
| PyText.ReplaceAll | main.py:42 | `s.replace(pat, rep)`, scanning left to right over non-overlapping matches; `ReplaceAllNoMatch`, `ReplaceMatchAtStart` and `ReplaceNoMatchStep` state its steps |
| PyText.ReplaceAllNoMatch | main.py:42 | `replace` of a pattern that does not occur returns the string unchanged |
| PyText.Latin1Replace | main.py:149 | the Latin-1 round trip keeps the length |
| PyText.Latin1ReplaceAt | main.py:149 | each character is kept when it is in Latin-1 and becomes '?' otherwise |
| PyText.Latin1ReplaceIsLatin1 | main.py:149 | the result is always Latin-1, so the PDF text can be encoded |
| PyText.Latin1ReplaceFixesLatin1 | main.py:149 | the result equals the input exactly when the input is already Latin-1 |
| PyText.Latin1ReplaceIdempotent | main.py:149 | applying the round trip twice is applying it once |
| Extraction.ExtractTextFromDocx | main.py:36-38 | it raises exactly when opening the document raises, with that exception's message; otherwise the text is the non-blank paragraphs joined by newlines |
| Extraction.NonBlank | main.py:38 | the paragraph filter keeps no more than it is given; `NonBlankMembers` and `NonBlankAppend` state which paragraphs it keeps and in what order |
| Extraction.DocxText | main.py:38 | the kept paragraphs joined by newlines; `DocxTextEmptyIff` and `BlankParagraphDropped` state what it depends on |
| Extraction.NonBlankMembers | main.py:38 | a paragraph is kept exactly when it is one of the document's and has a non-whitespace character |
| Extraction.NonBlankAppend | main.py:38 | the filter distributes over concatenation, so order is kept |
| Extraction.NonBlankKeepsAll | main.py:38 | when every paragraph has text none is dropped |
| Extraction.DocxTextEmptyIff | main.py:38 | the extracted text is empty exactly when no paragraph has a non-whitespace character |
| Extraction.BlankParagraphDropped | main.py:38 | a whitespace-only paragraph anywhere does not change the extracted text |
| Extraction.PageTexts | main.py:52 | one text per page |
| Extraction.PageTextsAt | main.py:52 | a page's text is its extracted text, or "" when the page has none |
| Extraction.PagesText | main.py:52 | the page texts joined by newlines; `PagesTextNewlines` and `PagesTextSplits` state its page boundaries |
| Extraction.PagesTextNewlines | main.py:52 | no pages give ""; `n >= 1` pages give at least `n - 1` newlines |
| Extraction.PagesTextSplits | main.py:52 | when no page text holds a newline, splitting the fallback text on newlines gives the page texts back |
| Extraction.PrimaryStrategy | main.py:42-48 | the conversion path succeeds exactly when converting, reading the intermediate document and removing it all succeed, and then yields that document's extracted text |
| Extraction.FallbackStrategy | main.py:51-53 | the fallback raises exactly when reading the PDF raises, and otherwise yields the page texts joined by newlines |
| Extraction.ExtractTextFromPdf | main.py:40-53 | it raises only when both paths raise, with the fallback's exception; the conversion result wins when it exists; otherwise the result is the page join |
| Extraction.TempDocxPath | main.py:42 | `path.replace(".pdf", ".docx")`; `TempDocxPathHasNoPdf` and `TempDocxPathOfStem` state what it gives |
| Extraction.TempDocxPathHasNoPdf | main.py:42 | no ".pdf" is left in the intermediate path |
| Extraction.TempDocxPathOfStem | main.py:42 | a path that is a ".pdf"-free stem plus ".pdf" gets the same stem plus ".docx" |
| Extraction.ReplacedPrefix | main.py:42 | a prefix of the result that holds no '.' is a prefix of the input too, since every replacement starts with '.' |
| Extraction.ChooseStrategy | main.py:71 | the PDF path for a name whose lower-cased form ends in ".pdf"; `ChooseStrategyIff` states the names exactly |
| Extraction.ExtractResume | main.py:69-73 | the strategy the name selects; a PDF upload fails only when its page reader fails too, a document upload only when it cannot be opened |
| Extraction.ChooseStrategyIff | main.py:69-73 | the PDF path is taken exactly when the filename ends in '.' followed by p, d, f in either case |
| Extraction.UpperCasePdfExample | main.py:71 | "CV.PDF" goes to the PDF path |
| Extraction.InnerPdfExample | main.py:71 | "cv.pdf.docx" goes to the document path: only the name's end counts |
| Extraction.UpperCaseExtensionReusesUpload | main.py:42-44 | a name sent to the PDF path with no lower-case ".pdf" in it, stored as `prefix + "_" + name` with no ".pdf" in the prefix, gets the stored path itself as its intermediate path |
| Extraction.LowerCaseExtensionGetsDocxPath | main.py:42 | a name ending in ".pdf" is sent to the PDF path and, when its stored name holds no other ".pdf", its intermediate path ends in ".docx" instead |
| Service.GenerateCoverLetter | main.py:56-106 | a letter comes back exactly when extraction and completion both succeed, and it is the stripped answer to the prompt holding the extracted text, the job description and the word limit; every failure is a 500 carrying the message of the step that raised, extraction or completion |
| Service.CoverLetterIsStripped | main.py:100 | the returned letter has no whitespace at either end |
| Service.DocxUploadPrompt | main.py:69-73 | a `.docx` upload puts its non-blank paragraphs, joined, into the prompt |
| Service.PdfUploadSurvivesConversionFailure | main.py:40-53 | a PDF upload still yields a letter when conversion raises, provided the page reader and the completion succeed |
| Export.RequestText | main.py:119 | the request's "text" entry, or "" when it has none |
| Export.Document.constructor | main.py:121 | a new document has no paragraphs |
| Export.Document.AddParagraph | main.py:123 | the paragraph is appended, nothing else changes |
| Export.DownloadDocx | main.py:116-125 | the document's paragraphs are exactly the lines of the stripped text, in order, blank lines included, one more than its newlines; the filename is "cover_letter.docx" |
| Export.DocxExportOfBlankText | main.py:119-123 | whitespace-only text exports as one empty paragraph |
| Export.DocxExportKeepsBlankLine | main.py:119-123 | a blank line between two lines is exported as an empty paragraph between them |
| Export.DocxExportRoundTrip | main.py:36-38 | when every exported line has text, extracting the exported paragraphs gives back the stripped text (python-docx is taken to read each paragraph back as it was added) |
| Export.DocxExportThenExtract | main.py:36-38 | extracting an exported document keeps exactly its lines with text |
| Export.Pdf.constructor | main.py:138 | a new FPDF has had no `add_page()` call and has no content |
| Export.Pdf.AddPage | main.py:139 | one more `add_page()` call is recorded, nothing else changes |
| Export.Pdf.SetFont | main.py:140 | font family and size are set, nothing else changes |
| Export.Pdf.SetAutoPageBreak | main.py:141 | automatic page breaks and their margin are set, nothing else changes |
| Export.Pdf.Ln | main.py:146 | a gap of the given height is appended, nothing else changes |
| Export.Pdf.MultiCell | main.py:150 | a cell with the given width, row height and text is appended, nothing else changes |
| Export.DownloadPdf | main.py:128-153 | empty stripped text is refused with 400 "No text provided" and only then; otherwise a fresh PDF started with one `add_page()`, set to Arial 12 with automatic page breaks 15 from the bottom, named "cover_letter.pdf", holds exactly the layout of the stripped text's lines |
| Export.LineOp | main.py:144-150 | the operation one line becomes; `LineOpCases` and `LineOpKeepsLatin1` state which and with what text |
| Export.Layout | main.py:143-150 | the operations of all lines in order; `LayoutAt` states it line by line |
| Export.LayoutAt | main.py:143-150 | the layout has one operation per line, in order, each the operation its line becomes |
| Export.LineOpCases | main.py:144-150 | a line becomes a gap of 5 exactly when it is all whitespace; otherwise a full-width cell of row height 10 whose text is always Latin-1 |
| Export.LineOpKeepsLatin1 | main.py:148-150 | a line whose wrapped text is already Latin-1 is written unchanged |
| Export.SplitLastChar | main.py:143 | the last line ends with the text's last character when that is not a newline |
| Export.StrippedLinesEndWithText | main.py:132-143 | the first and last lines of non-empty stripped text are not blank |
| Export.PdfLayoutEndsWithCells | main.py:132-150 | a PDF export of non-empty text starts and ends with a cell, never with a gap |

## Left out

- The web layer (FastAPI routing, CORS, form and JSON parsing, `JSONResponse`, `FileResponse`): each handler takes its already parsed input and returns its result as a value.
- Temporary files: the name `tempfile` picks, writing the upload, saving the document (`doc.save`, `pdf.output`) and the `finally` clean-up. The upload's stored path is a parameter of `generate_cover_letter`; the intermediate `.docx` left behind when extraction raises before `os.remove` is not tracked.
- The chat completion call (client, model name, timeout, the user prompt's fixed wording) is a parameter returning the answer or raising; the prompt is modelled by the values it embeds. The `/test_openai` endpoint is not part of this model.
- Export.DownloadPdf: `addedPages` counts the `add_page()` calls only; the pages FPDF adds by itself inside `multi_cell` when a row would pass the 15-unit bottom margin are not modelled, so a long letter's page count is not stated.
- Export.DocxExportRoundTrip: relates the exported paragraph list to extraction, taking python-docx to read each paragraph back as it was added; python-docx turns a '\r' inside a line into a line break, which reads back as '\n', so text with "\r\n" line ends does not round-trip in the program the way the lemma states.
- Extraction.UpperCaseExtensionReusesUpload: the libraries are modelled as stateless functions of their arguments, so the model shows that the intermediate path is the stored upload's own path but not that the conversion then overwrites the upload, nor what the fallback reader sees afterwards.
- Library internals: python-docx reading, pdf2docx conversion, PyPDF2 text extraction and FPDF's rendering and page breaking are parameters or recorded operations.
- `textwrap.fill(paragraph, width=90)` is a parameter `wrap`; the line-breaking algorithm is not modelled.
- Logging with `print`.
- Exceptions raised outside the modelled calls (reading the upload, a request body that is not JSON, a `"text"` value that is not a string) are not modelled; in the model nothing in `download_pdf` raises, so its `except` branch returning 500 is never reached.
- Lower (`PyText.Lower`): only ASCII capitals are lowered; Python's full Unicode lower-casing is not modelled. No other character lowers to '.', 'p', 'd' or 'f', so the extension check is unaffected.
