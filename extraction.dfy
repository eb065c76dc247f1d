/** Résumé text extraction: `extract_text_from_docx`,
    `extract_text_from_pdf` with its intermediate `.docx` path and its
    page-by-page fallback, and the extension dispatch of
    `generate_cover_letter`. */
module Extraction {
  import opened PyText

  datatype Option<T> = None | Some(value: T)

  /** What a call into a library does: return a value, or raise an
      exception whose `str(e)` is `message`. */
  datatype Outcome<T> = Ok(value: T) | Raised(message: string)

  /** The libraries and file-system calls the extraction goes through,
      seen only by what they return or raise:
      - `openDocx(path)`: the texts of `Document(path).paragraphs`;
      - `convertPdf(src, dst)`: `Converter(src)`, `convert(dst)`, `close()`;
      - `remove(path)`: `os.remove(path)`;
      - `readPdfPages(path)`: `page.extract_text()` for every page of
        `PdfReader(path).pages`, `None` for a page with no text layer. */
  datatype Libraries = Libraries(
    openDocx: string -> Outcome<seq<string>>,
    convertPdf: (string, string) -> Outcome<()>,
    remove: string -> Outcome<()>,
    readPdfPages: string -> Outcome<seq<Option<string>>>)

  // ---------------------------------------------------------------------
  // extract_text_from_docx
  // ---------------------------------------------------------------------

  /** The paragraphs with a non-whitespace character, in their order. */
  function NonBlank(paragraphs: seq<string>): (r: seq<string>)
    ensures |r| <= |paragraphs|
  {
    if paragraphs == [] then []
    else if HasText(paragraphs[0]) then [paragraphs[0]] + NonBlank(paragraphs[1..])
    else NonBlank(paragraphs[1..])
  }

  /** The text `"\n".join(p.text for p in paragraphs if p.text.strip())`. */
  function DocxText(paragraphs: seq<string>): string {
    Join(NonBlank(paragraphs))
  }

  function ExtractTextFromDocx(path: string, lib: Libraries): (r: Outcome<string>)
    // the document is read from `path` and only opening it can fail
    ensures r.Raised? <==> lib.openDocx(path).Raised?
    ensures r.Raised? ==> r.message == lib.openDocx(path).message
    ensures r.Ok? ==> r.value == DocxText(lib.openDocx(path).value)
  {
    match lib.openDocx(path)
    case Raised(m) => Raised(m)
    case Ok(paragraphs) => Ok(DocxText(paragraphs))
  }

  /** A paragraph is kept exactly when it has a non-whitespace character. */
  lemma {:induction false} NonBlankMembers(paragraphs: seq<string>, p: string)
    ensures p in NonBlank(paragraphs) <==> p in paragraphs && HasText(p)
  {
    if paragraphs != [] {
      NonBlankMembers(paragraphs[1..], p);
      assert paragraphs == [paragraphs[0]] + paragraphs[1..];
    }
  }

  /** Filtering distributes over concatenation, so together with
      `NonBlankSingle` it fixes the result, order included. */
  lemma {:induction false} NonBlankAppend(a: seq<string>, b: seq<string>)
    ensures NonBlank(a + b) == NonBlank(a) + NonBlank(b)
  {
    if a == [] {
      assert a + b == b;
    } else {
      var ab := a + b;
      assert ab[0] == a[0];
      assert ab[1..] == a[1..] + b;
      NonBlankAppend(a[1..], b);
      if HasText(a[0]) {
        assert NonBlank(ab) == [a[0]] + NonBlank(a[1..] + b);
        assert NonBlank(a) == [a[0]] + NonBlank(a[1..]);
      } else {
        assert NonBlank(ab) == NonBlank(a[1..] + b);
        assert NonBlank(a) == NonBlank(a[1..]);
      }
    }
  }

  lemma NonBlankSingle(p: string)
    ensures NonBlank([p]) == if HasText(p) then [p] else []
  {
    assert [p][1..] == [];
  }

  /** When every paragraph has text, all of them are kept. */
  lemma {:induction false} NonBlankKeepsAll(paragraphs: seq<string>)
    requires forall i | 0 <= i < |paragraphs| :: HasText(paragraphs[i])
    ensures NonBlank(paragraphs) == paragraphs
  {
    if paragraphs != [] {
      NonBlankKeepsAll(paragraphs[1..]);
      assert paragraphs == [paragraphs[0]] + paragraphs[1..];
    }
  }

  /** The extracted text is empty exactly when no paragraph has a
      non-whitespace character. */
  lemma DocxTextEmptyIff(paragraphs: seq<string>)
    ensures DocxText(paragraphs) == [] <==>
            forall i | 0 <= i < |paragraphs| :: !HasText(paragraphs[i])
  {
    var kept := NonBlank(paragraphs);
    JoinEmptyIff(kept);
    if |kept| > 0 {
      NonBlankMembers(paragraphs, kept[0]);
      var i :| 0 <= i < |paragraphs| && paragraphs[i] == kept[0];
      assert HasText(paragraphs[i]);
    } else {
      forall i | 0 <= i < |paragraphs| ensures !HasText(paragraphs[i]) {
        NonBlankMembers(paragraphs, paragraphs[i]);
      }
    }
  }

  /** A whitespace-only paragraph contributes nothing: the text extracted
      with it is the text extracted without it. */
  lemma BlankParagraphDropped(before: seq<string>, p: string, after: seq<string>)
    requires !HasText(p)
    ensures DocxText(before + [p] + after) == DocxText(before + after)
  {
    NonBlankAppend(before + [p], after);
    NonBlankAppend(before, [p]);
    NonBlankSingle(p);
    NonBlankAppend(before, after);
    assert NonBlank(before) + [] == NonBlank(before);
  }

  // ---------------------------------------------------------------------
  // extract_text_from_pdf
  // ---------------------------------------------------------------------

  /** `page.extract_text() or ""` for every page. */
  function PageTexts(pages: seq<Option<string>>): (r: seq<string>)
    ensures |r| == |pages|
  {
    if pages == [] then []
    else
      var t := match pages[0] case Some(s) => s case None => "";
      [t] + PageTexts(pages[1..])
  }

  lemma {:induction false} PageTextsAt(pages: seq<Option<string>>, k: nat)
    requires k < |pages|
    ensures PageTexts(pages)[k] == if pages[k].Some? then pages[k].value else ""
  {
    if k > 0 {
      PageTextsAt(pages[1..], k - 1);
    }
  }

  /** The fallback text: `"\n".join(page.extract_text() or "" for page in pages)`. */
  function PagesText(pages: seq<Option<string>>): string {
    Join(PageTexts(pages))
  }

  /** For `n >= 1` pages the fallback text holds at least `n - 1`
      newlines, one between each two pages. */
  lemma PagesTextNewlines(pages: seq<Option<string>>)
    ensures |pages| == 0 ==> PagesText(pages) == []
    ensures |pages| >= 1 ==> Newlines(PagesText(pages)) >= |pages| - 1
  {
    if |pages| >= 1 {
      JoinNewlines(PageTexts(pages));
    }
  }

  /** When no page text holds a newline, the page boundaries are exactly
      the newlines of the fallback text. */
  lemma PagesTextSplits(pages: seq<Option<string>>)
    requires |pages| >= 1
    requires forall k | 0 <= k < |pages| :: pages[k].Some? ==> '\n' !in pages[k].value
    ensures Split(PagesText(pages)) == PageTexts(pages)
  {
    forall k | 0 <= k < |pages| ensures '\n' !in PageTexts(pages)[k] {
      PageTextsAt(pages, k);
    }
    SplitJoin(PageTexts(pages));
  }

  /** The intermediate document's path: `path.replace(".pdf", ".docx")`. */
  function TempDocxPath(path: string): string {
    ReplaceAll(path, ".pdf", ".docx")
  }

  /** The layout-aware path: convert to `.docx`, extract that, remove it.
      Any exception inside it sends `extract_text_from_pdf` to the fallback. */
  function PrimaryStrategy(path: string, lib: Libraries): (r: Outcome<string>)
    ensures r.Ok? <==>
      lib.convertPdf(path, TempDocxPath(path)).Ok? &&
      lib.openDocx(TempDocxPath(path)).Ok? &&
      lib.remove(TempDocxPath(path)).Ok?
    ensures r.Ok? ==> r.value == DocxText(lib.openDocx(TempDocxPath(path)).value)
  {
    var docx := TempDocxPath(path);
    match lib.convertPdf(path, docx)
    case Raised(m) => Raised(m)
    case Ok(_) =>
      match ExtractTextFromDocx(docx, lib)
      case Raised(m) => Raised(m)
      case Ok(text) =>
        match lib.remove(docx)
        case Raised(m) => Raised(m)
        case Ok(_) => Ok(text)
  }

  /** The direct text-layer path, read from the PDF itself. */
  function FallbackStrategy(path: string, lib: Libraries): (r: Outcome<string>)
    ensures r.Raised? <==> lib.readPdfPages(path).Raised?
    ensures r.Ok? ==> r.value == PagesText(lib.readPdfPages(path).value)
  {
    match lib.readPdfPages(path)
    case Raised(m) => Raised(m)
    case Ok(pages) => Ok(PagesText(pages))
  }

  function ExtractTextFromPdf(path: string, lib: Libraries): (r: Outcome<string>)
    // it fails only when both strategies fail, with the fallback's exception
    ensures r.Raised? <==> PrimaryStrategy(path, lib).Raised? && FallbackStrategy(path, lib).Raised?
    ensures r.Raised? ==> r.message == lib.readPdfPages(path).message
    // the layout-aware result wins whenever it is available
    ensures PrimaryStrategy(path, lib).Ok? ==> r == PrimaryStrategy(path, lib)
    // otherwise the text is the page-by-page join
    ensures PrimaryStrategy(path, lib).Raised? && lib.readPdfPages(path).Ok? ==>
      r == Ok(PagesText(lib.readPdfPages(path).value))
  {
    match PrimaryStrategy(path, lib)
    case Ok(text) => Ok(text)
    case Raised(_) => FallbackStrategy(path, lib)
  }

  // ---------------------------------------------------------------------
  // The intermediate path
  // ---------------------------------------------------------------------

  /** One step of the left-to-right scan when no match starts at 0. */
  lemma ReplaceNoMatchStep(s: string)
    requires s != [] && !OccursAt(s, ".pdf", 0)
    ensures ReplaceAll(s, ".pdf", ".docx") == [s[0]] + ReplaceAll(s[1..], ".pdf", ".docx")
  {
    if |s| < 4 {
      assert ReplaceAll(s[1..], ".pdf", ".docx") == s[1..];
      assert s == [s[0]] + s[1..];
    }
  }

  /** A ".pdf" at the start is replaced and the scan goes on after it. */
  lemma ReplaceMatchAtStart(s: string)
    requires OccursAt(s, ".pdf", 0)
    ensures ReplaceAll(s, ".pdf", ".docx") == ".docx" + ReplaceAll(s[4..], ".pdf", ".docx")
  {
    assert s[..4] == ".pdf";
  }

  /** The first character of the result is '.' when the source starts with
      ".pdf", and the source's first character otherwise. */
  lemma ReplaceFirstChar(s: string)
    requires ReplaceAll(s, ".pdf", ".docx") != []
    ensures s != []
    ensures ReplaceAll(s, ".pdf", ".docx")[0] == if OccursAt(s, ".pdf", 0) then '.' else s[0]
  {
    if |s| >= 4 && s[..4] == ".pdf" {
      assert OccursAt(s, ".pdf", 0);
    } else if s != [] {
      ReplaceNoMatchStep(s);
    }
  }

  /** A result that starts with a dot-free word came from a source that
      starts with the same word, since every replacement starts with '.'. */
  lemma {:induction false} ReplacedPrefix(s: string, w: string)
    requires '.' !in w
    ensures |w| <= |ReplaceAll(s, ".pdf", ".docx")| && ReplaceAll(s, ".pdf", ".docx")[..|w|] == w ==>
            |w| <= |s| && s[..|w|] == w
  {
    var r := ReplaceAll(s, ".pdf", ".docx");
    if w != [] && |w| <= |r| && r[..|w|] == w {
      ReplaceFirstChar(s);
      assert r[0] == r[..|w|][0];
      ReplaceNoMatchStep(s);
      var r' := ReplaceAll(s[1..], ".pdf", ".docx");
      PrefixOfCons(s[0], r', w);
      DotFreeTail(w);
      ReplacedPrefix(s[1..], w[1..]);
      PrefixFromTail(s, w);
    }
  }

  lemma DotFreeTail(w: string)
    requires w != [] && '.' !in w
    ensures '.' !in w[1..]
  {
    forall k | 0 <= k < |w[1..]| ensures w[1..][k] != '.' {
      assert w[1..][k] == w[k + 1];
    }
  }

  lemma PrefixOfCons(c: char, t: string, w: string)
    requires w != [] && |w| <= 1 + |t| && ([c] + t)[..|w|] == w
    ensures |w| - 1 <= |t| && t[..|w| - 1] == w[1..]
  {
    assert ([c] + t)[..|w|][1..] == t[..|w| - 1];
  }

  lemma PrefixFromTail(s: string, w: string)
    requires s != [] && w != [] && s[0] == w[0]
    requires |w| - 1 <= |s[1..]| && s[1..][..|w| - 1] == w[1..]
    ensures |w| <= |s| && s[..|w|] == w
  {
    assert s[..|w|] == [s[0]] + s[1..][..|w| - 1];
    assert w == [w[0]] + w[1..];
  }

  /** Occurrences in a tail are occurrences `|c|` further on. */
  lemma OccursAtShift(c: string, t: string, i: nat)
    ensures OccursAt(c + t, ".pdf", |c| + i) <==> OccursAt(t, ".pdf", i)
  {
    if i + 4 <= |t| {
      assert (c + t)[|c| + i..|c| + i + 4] == t[i..i + 4];
    }
  }

  lemma ContainsTail(c: string, t: string)
    ensures Contains(t, ".pdf") ==> Contains(c + t, ".pdf")
  {
    if Contains(t, ".pdf") {
      var i: nat :| i <= |t| && OccursAt(t, ".pdf", i);
      OccursAtShift(c, t, i);
    }
  }

  /** Putting ".docx" in front of a string without ".pdf" creates none. */
  lemma DocxPrefixNoPdf(t: string)
    requires !Contains(t, ".pdf")
    ensures !Contains(".docx" + t, ".pdf")
  {
    var r := ".docx" + t;
    forall i: nat | i <= |r| ensures !OccursAt(r, ".pdf", i) {
      if i >= 5 {
        OccursAtShift(".docx", t, i - 5);
      } else if i + 4 <= |r| {
        assert r[i] == ".docx"[i];
        assert r[i..i + 4][0] == r[i];
        if i == 0 {
          assert r[i..i + 4][1] == r[1] == 'd';
        }
      }
    }
  }

  /** Putting one character in front of a string without ".pdf" creates
      none, unless the character is '.' and the string starts with "pdf". */
  lemma CharPrefixNoPdf(c: char, t: string)
    requires !Contains(t, ".pdf")
    requires c == '.' ==> !(|t| >= 3 && t[..3] == "pdf")
    ensures !Contains([c] + t, ".pdf")
  {
    var r := [c] + t;
    forall i: nat | i <= |r| ensures !OccursAt(r, ".pdf", i) {
      if i >= 1 {
        OccursAtShift([c], t, i - 1);
      } else if 4 <= |r| {
        assert r[1..4] == t[..3];
        assert ".pdf"[1..] == "pdf";
        assert r[0..4][0] == c && r[0..4][1..] == r[1..4];
      }
    }
  }

  /** After `replace(".pdf", ".docx")` no ".pdf" is left in the path. */
  lemma {:induction false} TempDocxPathHasNoPdf(path: string)
    ensures !Contains(TempDocxPath(path), ".pdf")
    decreases |path|
  {
    if |path| < 4 {
      assert TempDocxPath(path) == path;
    } else if path[..4] == ".pdf" {
      var tail := path[4..];
      TempDocxPathHasNoPdf(tail);
      assert TempDocxPath(path) == ".docx" + TempDocxPath(tail);
      DocxPrefixNoPdf(TempDocxPath(tail));
    } else {
      assert !OccursAt(path, ".pdf", 0);
      ReplaceNoMatchStep(path);
      var tail := path[1..];
      var r' := TempDocxPath(tail);
      TempDocxPathHasNoPdf(tail);
      ReplacedPrefix(tail, "pdf");
      assert path[..4] == [path[0]] + tail[..3];
      CharPrefixNoPdf(path[0], r');
    }
  }

  /** A path that ends in ".pdf", with no other ".pdf" in it, gets the same
      stem with ".docx". */
  lemma {:induction false} TempDocxPathOfStem(stem: string)
    requires !Contains(stem, ".pdf")
    ensures TempDocxPath(stem + ".pdf") == stem + ".docx"
  {
    if stem == [] {
      assert stem + ".pdf" == ".pdf";
      assert ".pdf"[4..] == [];
    } else {
      var s := stem + ".pdf";
      var rest := stem[1..];
      StemNoMatchAtStart(stem);
      ReplaceNoMatchStep(s);
      assert TempDocxPath(s) == [s[0]] + TempDocxPath(s[1..]);
      assert s[1..] == rest + ".pdf";
      NoPdfInTail(stem);
      TempDocxPathOfStem(rest);
      assert TempDocxPath(s[1..]) == rest + ".docx";
      assert stem + ".docx" == [stem[0]] + (rest + ".docx");
    }
  }

  /** Dropping the first character of a string without ".pdf" leaves one. */
  lemma NoPdfInTail(stem: string)
    requires stem != [] && !Contains(stem, ".pdf")
    ensures !Contains(stem[1..], ".pdf")
  {
    ContainsTail([stem[0]], stem[1..]);
    assert [stem[0]] + stem[1..] == stem;
  }

  /** A non-empty stem without ".pdf", followed by ".pdf", does not start
      with ".pdf". */
  lemma StemNoMatchAtStart(stem: string)
    requires stem != [] && !Contains(stem, ".pdf")
    ensures !OccursAt(stem + ".pdf", ".pdf", 0)
  {
    var s := stem + ".pdf";
    if |stem| >= 4 {
      assert s[..4] == stem[..4];
      assert !OccursAt(stem, ".pdf", 0);
    } else {
      assert s[|stem|] == '.';
      assert s[..4][|stem|] == s[|stem|];
    }
  }

  // ---------------------------------------------------------------------
  // Dispatch on the uploaded file's name
  // ---------------------------------------------------------------------

  datatype Strategy = PdfExtraction | DocxExtraction

  /** `resume.filename.lower().endswith(".pdf")` picks the PDF path. */
  function ChooseStrategy(filename: string): Strategy {
    if EndsWith(Lower(filename), ".pdf") then PdfExtraction else DocxExtraction
  }

  /** The PDF path is taken exactly when the name ends in a dot followed by
      'p', 'd', 'f' in either case. */
  lemma ChooseStrategyIff(filename: string)
    ensures ChooseStrategy(filename) == PdfExtraction <==>
      var n := |filename|;
      n >= 4 && filename[n - 4] == '.' && filename[n - 3] in "pP" &&
      filename[n - 2] in "dD" && filename[n - 1] in "fF"
  {
    var n := |filename|;
    var low := Lower(filename);
    EndsWithFour(low, ".pdf");
    if n >= 4 {
      LowerAt(filename, n - 4);
      LowerAt(filename, n - 3);
      LowerAt(filename, n - 2);
      LowerAt(filename, n - 1);
      LowerCharToLetter(filename[n - 3], 'p');
      LowerCharToLetter(filename[n - 2], 'd');
      LowerCharToLetter(filename[n - 1], 'f');
    }
  }

  /** An upper-case extension still selects the PDF path. */
  lemma UpperCasePdfExample()
    ensures ChooseStrategy("CV.PDF") == PdfExtraction
  {
    ChooseStrategyIff("CV.PDF");
  }

  /** Only the last extension counts: a ".pdf" earlier in the name does not. */
  lemma InnerPdfExample()
    ensures ChooseStrategy("cv.pdf.docx") == DocxExtraction
  {
    ChooseStrategyIff("cv.pdf.docx");
  }

  /** Two strings without ".pdf" joined by an underscore hold no ".pdf":
      an occurrence across the join would have to contain the underscore. */
  lemma NoPdfAcrossUnderscore(a: string, t: string)
    requires !Contains(a, ".pdf") && !Contains(t, ".pdf")
    ensures !Contains(a + "_" + t, ".pdf")
  {
    var s := a + "_" + t;
    assert s == (a + "_") + t;
    forall i: nat | i <= |s| ensures !OccursAt(s, ".pdf", i) {
      if i + 4 <= |a| {
        assert s[i..i + 4] == a[i..i + 4];
        assert !OccursAt(a, ".pdf", i);
      } else if i > |a| {
        OccursAtShift(a + "_", t, i - |a| - 1);
      } else if i + 4 <= |s| {
        assert s[|a|] == '_';
        assert s[i..i + 4][|a| - i] == s[|a|];
      }
    }
  }

  /** The upload is stored under the temporary name `prefix + "_" +
      filename`. When the name is sent to the PDF path only because of an
      upper-case letter in its extension (such as "CV.PDF" or
      "Jeff_CV.PDF"), the case-sensitive `replace(".pdf", ".docx")` finds
      nothing, so the intermediate document's path is the upload's own path. */
  lemma UpperCaseExtensionReusesUpload(prefix: string, filename: string)
    requires !Contains(prefix, ".pdf") && !Contains(filename, ".pdf")
    requires ChooseStrategy(filename) == PdfExtraction
    ensures TempDocxPath(prefix + "_" + filename) == prefix + "_" + filename
  {
    NoPdfAcrossUnderscore(prefix, filename);
    ReplaceAllNoMatch(prefix + "_" + filename, ".pdf", ".docx");
  }

  /** A ".pdf" upload whose stored name does not happen to hold ".pdf" gets
      an intermediate path that differs from its own. */
  lemma LowerCaseExtensionGetsDocxPath(prefix: string, stem: string)
    requires !Contains(prefix + "_" + stem, ".pdf")
    ensures ChooseStrategy(stem + ".pdf") == PdfExtraction
    ensures TempDocxPath(prefix + "_" + stem + ".pdf") == prefix + "_" + stem + ".docx"
  {
    var n := |stem + ".pdf"|;
    assert (stem + ".pdf")[n - 4..] == ".pdf";
    ChooseStrategyIff(stem + ".pdf");
    assert prefix + "_" + stem + ".pdf" == (prefix + "_" + stem) + ".pdf";
    TempDocxPathOfStem(prefix + "_" + stem);
  }

  /** The résumé text, by the strategy its name selects; the file itself was
      stored at `tmpPath`. */
  function ExtractResume(filename: string, tmpPath: string, lib: Libraries): (r: Outcome<string>)
    // a PDF upload fails only when the page reader fails too; a document
    // upload only when it cannot be opened
    ensures r.Raised? && ChooseStrategy(filename) == PdfExtraction ==> lib.readPdfPages(tmpPath).Raised?
    ensures r.Raised? && ChooseStrategy(filename) == DocxExtraction ==> lib.openDocx(tmpPath).Raised?
  {
    match ChooseStrategy(filename)
    case PdfExtraction => ExtractTextFromPdf(tmpPath, lib)
    case DocxExtraction => ExtractTextFromDocx(tmpPath, lib)
  }
}
