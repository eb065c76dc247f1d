/** The two export endpoints, `download_docx` and `download_pdf`: the text
    is stripped, split into lines, and each line becomes one layout
    operation appended to a document object. */
module Export {
  import opened PyText
  import Extraction

  /** `data.get("text", "")` on the request's JSON object. */
  function RequestText(data: map<string, string>): string {
    if "text" in data then data["text"] else ""
  }

  // ---------------------------------------------------------------------
  // download_docx
  // ---------------------------------------------------------------------

  /** A python-docx `Document`, seen as the paragraphs added to it so far. */
  class Document {
    var paragraphs: seq<string>

    constructor ()
      ensures paragraphs == []
    {
      paragraphs := [];
    }

    /** `doc.add_paragraph(text)`. */
    method AddParagraph(text: string)
      modifies this
      ensures paragraphs == old(paragraphs) + [text]
    {
      paragraphs := paragraphs + [text];
    }
  }

  /** One paragraph per `"\n"`-separated line of the stripped text, in
      order, blank lines included. */
  method DownloadDocx(data: map<string, string>) returns (doc: Document, filename: string)
    ensures fresh(doc)
    ensures doc.paragraphs == Split(Strip(RequestText(data)))
    ensures |doc.paragraphs| == Newlines(Strip(RequestText(data))) + 1
    ensures filename == "cover_letter.docx"
  {
    var text := Strip(RequestText(data));
    doc := new Document();
    var lines := Split(text);
    for i := 0 to |lines|
      invariant doc.paragraphs == lines[..i]
    {
      doc.AddParagraph(lines[i]);
    }
    assert lines[..|lines|] == lines;
    SplitPieces(text);
    filename := "cover_letter.docx";
  }

  /** Exporting nothing, or only whitespace, gives one empty paragraph. */
  lemma DocxExportOfBlankText(text: string)
    requires AllSpace(text)
    ensures Split(Strip(text)) == [[]]
  {
  }

  /** A blank line between two lines is kept as an empty paragraph; for
      instance "Hello\n\nWorld" exports as "Hello", "", "World". */
  lemma DocxExportKeepsBlankLine(x: string, y: string)
    requires '\n' !in x && '\n' !in y
    requires x != [] && !IsSpace(x[0]) && y != [] && !IsSpace(y[|y| - 1])
    ensures Split(Strip(x + "\n\n" + y)) == [x, [], y]
  {
    var s := x + "\n\n" + y;
    assert s[0] == x[0] && s[|s| - 1] == y[|y| - 1];
    StripFixesTrimmed(s);
    SplitBlankLineBetween(x, y);
  }

  /** Exporting text whose lines all have text and extracting it again
      gives back the stripped text: each paragraph is one line. */
  lemma DocxExportRoundTrip(text: string)
    requires forall i | 0 <= i < |Split(Strip(text))| :: HasText(Split(Strip(text))[i])
    ensures Extraction.DocxText(Split(Strip(text))) == Strip(text)
  {
    Extraction.NonBlankKeepsAll(Split(Strip(text)));
    JoinSplit(Strip(text));
  }

  /** In general, re-extracting an exported document keeps its lines that
      have text and drops its blank ones. */
  lemma DocxExportThenExtract(text: string)
    ensures var lines := Split(Strip(text));
      forall line :: line in Extraction.NonBlank(lines) <==> line in lines && HasText(line)
  {
    var lines := Split(Strip(text));
    forall line ensures line in Extraction.NonBlank(lines) <==> line in lines && HasText(line) {
      Extraction.NonBlankMembers(lines, line);
    }
  }

  // ---------------------------------------------------------------------
  // download_pdf
  // ---------------------------------------------------------------------

  /** What the handler does to an FPDF page: `ln(h)` moves down by a gap of
      height `h`; `multi_cell(w, h, text)` writes `text` in rows of height
      `h` across width `w` (0: up to the right margin). */
  datatype LayoutOp = Gap(height: int) | Cell(width: int, height: int, text: string)

  /** An FPDF object: the number of `add_page()` calls made on it, its font
      and page-break settings, and the layout operations written so far.
      Pages FPDF adds by itself at automatic page breaks are not counted. */
  class Pdf {
    var addedPages: nat
    var fontFamily: string
    var fontSize: int
    var autoPageBreak: bool
    var breakMargin: int
    var ops: seq<LayoutOp>

    constructor ()
      ensures addedPages == 0 && ops == []
    {
      addedPages := 0;
      ops := [];
    }

    /** `pdf.add_page()`. */
    method AddPage()
      modifies this
      ensures addedPages == old(addedPages) + 1
      ensures fontFamily == old(fontFamily) && fontSize == old(fontSize)
      ensures autoPageBreak == old(autoPageBreak) && breakMargin == old(breakMargin)
      ensures ops == old(ops)
    {
      addedPages := addedPages + 1;
    }

    /** `pdf.set_font(family, size=size)`. */
    method SetFont(family: string, size: int)
      modifies this
      ensures fontFamily == family && fontSize == size
      ensures addedPages == old(addedPages) && ops == old(ops)
      ensures autoPageBreak == old(autoPageBreak) && breakMargin == old(breakMargin)
    {
      fontFamily, fontSize := family, size;
    }

    /** `pdf.set_auto_page_break(auto=auto, margin=margin)`. */
    method SetAutoPageBreak(auto: bool, margin: int)
      modifies this
      ensures autoPageBreak == auto && breakMargin == margin
      ensures addedPages == old(addedPages) && ops == old(ops)
      ensures fontFamily == old(fontFamily) && fontSize == old(fontSize)
    {
      autoPageBreak, breakMargin := auto, margin;
    }

    /** `pdf.ln(h)`. */
    method Ln(h: int)
      modifies this
      ensures ops == old(ops) + [Gap(h)]
      ensures addedPages == old(addedPages)
      ensures fontFamily == old(fontFamily) && fontSize == old(fontSize)
      ensures autoPageBreak == old(autoPageBreak) && breakMargin == old(breakMargin)
    {
      ops := ops + [Gap(h)];
    }

    /** `pdf.multi_cell(w, h, text)`. */
    method MultiCell(w: int, h: int, text: string)
      modifies this
      ensures ops == old(ops) + [Cell(w, h, text)]
      ensures addedPages == old(addedPages)
      ensures fontFamily == old(fontFamily) && fontSize == old(fontSize)
      ensures autoPageBreak == old(autoPageBreak) && breakMargin == old(breakMargin)
    {
      ops := ops + [Cell(w, h, text)];
    }
  }

  /** The operation one line of the stripped text becomes: a gap of height
      5 when it is blank after trimming, otherwise a full-width cell of row
      height 10 holding the trimmed line, wrapped by `wrap` (standing for
      `textwrap.fill(_, width=90)`) and then made Latin-1 safe. */
  function LineOp(line: string, wrap: string -> string): LayoutOp {
    var paragraph := Strip(line);
    if paragraph == [] then Gap(5) else Cell(0, 10, Latin1Replace(wrap(paragraph)))
  }

  /** The operations a text's lines become, in order. */
  function Layout(lines: seq<string>, wrap: string -> string): (ops: seq<LayoutOp>)
  {
    if lines == [] then [] else Layout(lines[..|lines| - 1], wrap) + [LineOp(lines[|lines| - 1], wrap)]
  }

  /** One operation per line, each the one its line becomes. */
  lemma {:induction false} LayoutAt(lines: seq<string>, wrap: string -> string)
    ensures |Layout(lines, wrap)| == |lines|
    ensures forall i | 0 <= i < |lines| :: Layout(lines, wrap)[i] == LineOp(lines[i], wrap)
  {
    if lines != [] {
      var init := lines[..|lines| - 1];
      LayoutAt(init, wrap);
      forall i | 0 <= i < |lines| ensures Layout(lines, wrap)[i] == LineOp(lines[i], wrap) {
        if i < |init| {
          assert init[i] == lines[i];
        }
      }
    }
  }

  datatype PdfResponse =
    | PdfFile(pdf: Pdf, filename: string)
    | JsonError(status: int, message: string)

  method DownloadPdf(data: map<string, string>, wrap: string -> string) returns (r: PdfResponse)
    // empty text (after stripping) is refused with a client error ...
    ensures r.JsonError? <==> Strip(RequestText(data)) == []
    ensures r.JsonError? ==> r.status == 400 && r.message == "No text provided"
    // ... anything else gives a document started with one `add_page()`, set
    // to Arial 12 with automatic page breaks 15 from the bottom, holding one
    // operation per line
    ensures r.PdfFile? ==>
      fresh(r.pdf) && r.filename == "cover_letter.pdf" &&
      r.pdf.addedPages == 1 && r.pdf.fontFamily == "Arial" && r.pdf.fontSize == 12 &&
      r.pdf.autoPageBreak && r.pdf.breakMargin == 15
    ensures r.PdfFile? ==> r.pdf.ops == Layout(Split(Strip(RequestText(data))), wrap)
  {
    var text := Strip(RequestText(data));
    if text == [] {
      return JsonError(400, "No text provided");
    }
    var pdf := new Pdf();
    pdf.AddPage();
    pdf.SetFont("Arial", 12);
    pdf.SetAutoPageBreak(true, 15);
    var lines := Split(text);
    for i := 0 to |lines|
      invariant pdf.addedPages == 1 && pdf.fontFamily == "Arial" && pdf.fontSize == 12
      invariant pdf.autoPageBreak && pdf.breakMargin == 15
      invariant pdf.ops == Layout(lines[..i], wrap)
    {
      assert lines[..i + 1][..i] == lines[..i];
      assert Layout(lines[..i + 1], wrap) == Layout(lines[..i], wrap) + [LineOp(lines[i], wrap)];
      var paragraph := Strip(lines[i]);
      if paragraph == [] {
        pdf.Ln(5);
        continue;
      }
      var wrapped := wrap(paragraph);
      var safeText := Latin1Replace(wrapped);
      pdf.MultiCell(0, 10, safeText);
    }
    assert lines[..|lines|] == lines;
    r := PdfFile(pdf, "cover_letter.pdf");
  }

  /** A line gives a gap exactly when it is all whitespace; otherwise its
      cell text can always be encoded in Latin-1, whatever `wrap` returns,
      so writing it never fails. */
  lemma LineOpCases(line: string, wrap: string -> string)
    ensures LineOp(line, wrap).Gap? <==> AllSpace(line)
    ensures LineOp(line, wrap).Gap? ==> LineOp(line, wrap).height == 5
    ensures LineOp(line, wrap).Cell? ==>
      LineOp(line, wrap).width == 0 && LineOp(line, wrap).height == 10 &&
      IsLatin1(LineOp(line, wrap).text)
  {
    Latin1ReplaceIsLatin1(wrap(Strip(line)));
  }

  /** A cell keeps the wrapped line unchanged when that is already Latin-1. */
  lemma LineOpKeepsLatin1(line: string, wrap: string -> string)
    requires HasText(line) && IsLatin1(wrap(Strip(line)))
    ensures LineOp(line, wrap) == Cell(0, 10, wrap(Strip(line)))
  {
    Latin1ReplaceFixesLatin1(wrap(Strip(line)));
  }

  /** The first piece of a split starts with the string's first character
      when that is not a newline. */
  lemma SplitFirstChar(s: string)
    requires s != [] && s[0] != '\n'
    ensures Split(s)[0] != [] && Split(s)[0][0] == s[0]
  {
  }

  /** The last piece of a split ends with the string's last character when
      that is not a newline. */
  lemma {:induction false} SplitLastChar(s: string)
    requires s != [] && s[|s| - 1] != '\n'
    ensures var last := Split(s)[|Split(s)| - 1];
      last != [] && last[|last| - 1] == s[|s| - 1]
  {
    var t := s[1..];
    var rest := Split(t);
    if t != [] {
      assert t[|t| - 1] == s[|s| - 1];
      SplitLastChar(t);
      if s[0] == '\n' {
        assert Split(s) == [[]] + rest;
      } else {
        assert Split(s) == [[s[0]] + rest[0]] + rest[1..];
      }
    }
  }

  /** Stripping leaves no blank line at either end, so a PDF export starts
      and ends with a cell, never with a gap. */
  lemma PdfLayoutEndsWithCells(text: string, wrap: string -> string)
    requires Strip(text) != []
    ensures var ops := Layout(Split(Strip(text)), wrap);
      |ops| >= 1 && ops[0].Cell? && ops[|ops| - 1].Cell?
  {
    var lines := Split(Strip(text));
    StrippedLinesEndWithText(text);
    LayoutAt(lines, wrap);
    LineOpCases(lines[0], wrap);
    LineOpCases(lines[|lines| - 1], wrap);
  }

  /** The first and the last line of stripped, non-empty text have text. */
  lemma StrippedLinesEndWithText(text: string)
    requires Strip(text) != []
    ensures var lines := Split(Strip(text));
      !AllSpace(lines[0]) && !AllSpace(lines[|lines| - 1])
  {
    var s := Strip(text);
    assert IsSpace('\n');
    SplitFirstChar(s);
    SplitLastChar(s);
    var lines := Split(s);
    var first := lines[0];
    var last := lines[|lines| - 1];
    assert !IsSpace(first[0]);
    assert !IsSpace(last[|last| - 1]);
  }
}
