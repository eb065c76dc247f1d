/** `generate_cover_letter`: extract the résumé's text by the strategy its
    filename selects, put it into the prompt with the job description and
    the word limit, and return the model's answer stripped. Every exception
    becomes a server error carrying `str(e)`. */
module Service {
  import opened PyText
  import opened Extraction

  /** The system message sent with every prompt. */
  const SystemMessage: string := "You are a helpful assistant that writes professional cover letters."

  /** The chat request: the system message and the values the user prompt's
      fixed template embeds. */
  datatype Prompt = Prompt(system: string, wordCount: int, resume: string, jobDescription: string)

  /** The JSON answer: `{"cover_letter": ...}` or `{"error": ...}` with a
      status code. */
  datatype Response = CoverLetter(text: string) | ServerError(status: int, error: string)

  /** `complete(p)` stands for the chat completion call and reading
      `choices[0].message.content` from its answer. */
  function GenerateCoverLetter(
    filename: string, jobDescription: string, wordCount: int, tmpPath: string,
    lib: Libraries, complete: Prompt -> Outcome<string>): (r: Response)
    // a cover letter comes back exactly when extraction and generation
    // both succeed ...
    ensures r.CoverLetter? <==>
      ExtractResume(filename, tmpPath, lib).Ok? &&
      complete(Prompt(SystemMessage, wordCount, ExtractResume(filename, tmpPath, lib).value, jobDescription)).Ok?
    // ... and it is the stripped answer to the prompt holding the extracted
    // text, the job description and the word limit unchanged
    ensures r.CoverLetter? ==>
      var answer := complete(Prompt(SystemMessage, wordCount, ExtractResume(filename, tmpPath, lib).value, jobDescription));
      r.text == Strip(answer.value)
    // every failure is a 500 carrying the failing step's message
    ensures r.ServerError? ==> r.status == 500
    ensures ExtractResume(filename, tmpPath, lib).Raised? ==>
      r.error == ExtractResume(filename, tmpPath, lib).message
    ensures ExtractResume(filename, tmpPath, lib).Ok? ==>
      var answer := complete(Prompt(SystemMessage, wordCount, ExtractResume(filename, tmpPath, lib).value, jobDescription));
      answer.Raised? ==> r.error == answer.message
  {
    match ExtractResume(filename, tmpPath, lib)
    case Raised(m) => ServerError(500, m)
    case Ok(resumeText) =>
      match complete(Prompt(SystemMessage, wordCount, resumeText, jobDescription))
      case Raised(m) => ServerError(500, m)
      case Ok(content) => CoverLetter(Strip(content))
  }

  /** The returned letter has no leading or trailing whitespace, so
      stripping it again changes nothing. */
  lemma CoverLetterIsStripped(
    filename: string, jobDescription: string, wordCount: int, tmpPath: string,
    lib: Libraries, complete: Prompt -> Outcome<string>)
    ensures var r := GenerateCoverLetter(filename, jobDescription, wordCount, tmpPath, lib, complete);
      r.CoverLetter? ==>
        Strip(r.text) == r.text &&
        (r.text != [] ==> !IsSpace(r.text[0]) && !IsSpace(r.text[|r.text| - 1]))
  {
    var r := GenerateCoverLetter(filename, jobDescription, wordCount, tmpPath, lib, complete);
    if r.CoverLetter? {
      var answer := complete(Prompt(SystemMessage, wordCount, ExtractResume(filename, tmpPath, lib).value, jobDescription));
      StripIdempotent(answer.value);
    }
  }

  /** A `.docx` upload whose paragraphs are read is put into the prompt as
      its non-blank paragraphs joined by newlines. */
  lemma DocxUploadPrompt(
    filename: string, jobDescription: string, wordCount: int, tmpPath: string,
    lib: Libraries, complete: Prompt -> Outcome<string>)
    requires ChooseStrategy(filename) == DocxExtraction
    requires lib.openDocx(tmpPath).Ok?
    ensures ExtractResume(filename, tmpPath, lib) == Ok(DocxText(lib.openDocx(tmpPath).value))
    ensures complete(Prompt(SystemMessage, wordCount, DocxText(lib.openDocx(tmpPath).value), jobDescription)).Ok? ==>
      GenerateCoverLetter(filename, jobDescription, wordCount, tmpPath, lib, complete).CoverLetter?
  {
  }

  /** A PDF upload yields a cover letter even when the layout-aware
      conversion raises, as long as the page-by-page reader works and the
      model answers. */
  lemma PdfUploadSurvivesConversionFailure(
    filename: string, jobDescription: string, wordCount: int, tmpPath: string,
    lib: Libraries, complete: Prompt -> Outcome<string>)
    requires ChooseStrategy(filename) == PdfExtraction
    requires lib.convertPdf(tmpPath, TempDocxPath(tmpPath)).Raised?
    requires lib.readPdfPages(tmpPath).Ok?
    requires complete(Prompt(SystemMessage, wordCount, PagesText(lib.readPdfPages(tmpPath).value), jobDescription)).Ok?
    ensures GenerateCoverLetter(filename, jobDescription, wordCount, tmpPath, lib, complete).CoverLetter?
  {
    assert ExtractResume(filename, tmpPath, lib) == Ok(PagesText(lib.readPdfPages(tmpPath).value));
  }
}
