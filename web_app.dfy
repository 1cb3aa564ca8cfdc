/** The Flask app's `/upload` and `/ask` handlers over its two module-level
    globals: `extracted_text` and `qa_function`. The binding held in
    `qa_function` is modelled by the document text it was set up with. HTTP
    parsing, the file system and the model call are parameters. */
module WebApp {
  import opened Wrappers
  import opened Text
  import opened Ocr
  import opened Answering

  const NoFileSelected := "No file selected"
  const ApiKeyRequired := "API key is required"
  const NotPdf := "Please upload a PDF file"
  const VeryLittleText := "Very little text extracted from PDF"
  const ProcessingFailed := "Processing failed: "
  const NotReady := "Please upload and process a PDF first"
  const QuestionRequired := "Question is required"

  /** How many characters of the text the upload reply previews. */
  const PreviewLength: nat := 500

  /** What `/upload` reads from the request: the filename of the `file` part
      (None when there is no such part) and the `api_key` form field (None
      when absent). */
  datatype UploadRequest = UploadRequest(file: Option<string>, apiKey: Option<string>)

  /** The JSON object `/upload` replies with. */
  datatype UploadResponse =
    | UploadError(message: string)
    | UploadSuccess(textLength: nat, preview: string)

  /** The JSON object `/ask` replies with. */
  datatype AskResponse = AskError(message: string) | Answer(answer: string)

  /** The two globals: `extracted_text`, and `qa_function` as the document text
      its binding answers about. */
  datatype Globals = Globals(extractedText: string, qaBinding: Option<string>)

  /** The globals when the app starts. */
  const Initial := Globals("", None)

  /** A binding, when there is one, is to a text that passed the content gate. */
  ghost predicate BindingHasContent(g: Globals) {
    g.qaBinding.Some? ==> EnoughContent(g.qaBinding.value)
  }

  /** The filename is present and non-empty. */
  predicate HasFileName(req: UploadRequest) {
    req.file.Some? && req.file.value != ""
  }

  /** `api_key` is truthy: present and non-empty. It is not stripped. */
  predicate HasApiKey(req: UploadRequest) {
    req.apiKey.Some? && req.apiKey.value != ""
  }

  /** `filename.lower().endswith('.pdf')`. */
  predicate IsPdfName(filename: string) {
    EndsWith(Lower(filename), ".pdf")
  }

  /** Only the last four characters decide the extension check, and they are
      compared in any letter case: `Report.Pdf` passes, `report.pdf.txt` and
      `pdf` do not. */
  lemma {:induction false} PdfSuffixIgnoresCase(filename: string)
    ensures IsPdfName(filename) <==>
      |filename| >= 4 && Lower(filename[|filename| - 4..]) == ".pdf"
  {
    if |filename| >= 4 {
      LowerSuffix(filename, |filename| - 4);
    }
  }

  /** The first validation failure of an upload, in the handler's order: the
      `file` part, its filename, the API key, the `.pdf` suffix. */
  function Validate(req: UploadRequest): Option<string> {
    if req.file.None? then Some(NoFileSelected)
    else if req.file.value == "" then Some(NoFileSelected)
    else if req.apiKey.None? || req.apiKey.value == "" then Some(ApiKeyRequired)
    else if !IsPdfName(req.file.value) then Some(NotPdf)
    else None
  }

  /** `upload_file` as a transition of the globals. `recognition` is what
      extraction did (its pages, or the exception it raised); `setupError` is
      the exception `setup_gemini_qa` raised, if any, and `cleanupError` the
      one `os.remove` raised, if any. */
  function UploadStep(g: Globals, req: UploadRequest, recognition: Result<seq<Page>>,
                      setupError: Option<string>, cleanupError: Option<string>)
    : (Globals, UploadResponse)
  {
    if Validate(req).Some? then (g, UploadError(Validate(req).value))
    else match recognition
      case Failure(e) => (g, UploadError(ProcessingFailed + e))
      case Success(pages) =>
        var text := ExtractedText(pages);
        if !EnoughContent(text) then (Globals(text, g.qaBinding), UploadError(VeryLittleText))
        else if setupError.Some? then (Globals(text, g.qaBinding), UploadError(ProcessingFailed + setupError.value))
        else
          var bound := Globals(text, Some(text));
          match cleanupError
          case Some(e) => (bound, UploadError(ProcessingFailed + e))
          case None => (bound, UploadSuccess(|text|, Prefix(text, PreviewLength)))
  }

  /** `request.json.get('question')` is falsy: absent or empty. */
  predicate QuestionMissing(question: Option<string>) {
    question.None? || question.value == ""
  }

  /** `ask_question`: its reply, and the prompts the model was sent (none or
      one). */
  function AskStep(qaBinding: Option<string>, question: Option<string>, generate: string -> Reply)
    : (AskResponse, seq<string>)
  {
    if qaBinding.None? then (AskError(NotReady), [])
    else if QuestionMissing(question) then (AskError(QuestionRequired), [])
    else
      (Answer(AnswerQuestion(WebTemplate, qaBinding.value, question.value, generate)),
       [Prompt(WebTemplate, qaBinding.value, question.value)])
  }

  /** The running app: the two globals as fields. Each method is one whole
      request; requests are handled one at a time. */
  class App {
    var extractedText: string
    var qaBinding: Option<string>

    function Snapshot(): Globals
      reads this
    {
      Globals(extractedText, qaBinding)
    }

    ghost predicate Valid()
      reads this
    {
      BindingHasContent(Snapshot())
    }

    /** The globals at import time: no text, no binding. */
    constructor ()
      ensures Valid()
      ensures Snapshot() == Initial
    {
      extractedText := "";
      qaBinding := None;
    }

    /** `upload_file`: validate, extract, gate on content, bind. */
    method UploadFile(req: UploadRequest, recognition: Result<seq<Page>>,
                      setupError: Option<string>, cleanupError: Option<string>)
      returns (response: UploadResponse)
      requires Valid()
      modifies this
      ensures Valid()
      ensures (Snapshot(), response) == UploadStep(old(Snapshot()), req, recognition, setupError, cleanupError)
    {
      if req.file.None? {
        return UploadError(NoFileSelected);
      }
      var filename := req.file.value;
      if filename == "" {
        return UploadError(NoFileSelected);
      }
      if req.apiKey.None? || req.apiKey.value == "" {
        return UploadError(ApiKeyRequired);
      }
      if !EndsWith(Lower(filename), ".pdf") {
        return UploadError(NotPdf);
      }
      if recognition.Failure? {
        return UploadError(ProcessingFailed + recognition.error);
      }
      var text := ExtractText(recognition.value);
      extractedText := text;
      if |Strip(text)| < MinContent {
        return UploadError(VeryLittleText);
      }
      if setupError.Some? {
        return UploadError(ProcessingFailed + setupError.value);
      }
      qaBinding := Some(text);
      if cleanupError.Some? {
        return UploadError(ProcessingFailed + cleanupError.value);
      }
      response := UploadSuccess(|text|, Prefix(text, PreviewLength));
    }

    /** `ask_question`: needs a binding, then a question; only then is the
        binding called, once, and always about a text that passed the
        content gate. */
    method AskQuestion(question: Option<string>, generate: string -> Reply)
      returns (response: AskResponse, prompts: seq<string>)
      requires Valid()
      ensures (response, prompts) == AskStep(qaBinding, question, generate)
      ensures prompts != [] ==> qaBinding.Some? && EnoughContent(qaBinding.value)
    {
      if qaBinding == None {
        return AskError(NotReady), [];
      }
      if question.None? || question.value == "" {
        return AskError(QuestionRequired), [];
      }
      var document := qaBinding.value;
      var answer := AnswerQuestion(WebTemplate, document, question.value, generate);
      response, prompts := Answer(answer), [Prompt(WebTemplate, document, question.value)];
    }
  }

  /** The validation order, each outcome in both directions: a missing part or
      an empty filename is "No file selected"; then a missing or empty key is
      "API key is required", whatever the extension; then a name without a
      case-insensitive `.pdf` suffix is "Please upload a PDF file". */
  lemma {:induction false} ValidationOrder(req: UploadRequest)
    ensures Validate(req) == Some(NoFileSelected) <==> !HasFileName(req)
    ensures Validate(req) == Some(ApiKeyRequired) <==> HasFileName(req) && !HasApiKey(req)
    ensures Validate(req) == Some(NotPdf) <==>
      HasFileName(req) && HasApiKey(req) && !IsPdfName(req.file.value)
    ensures Validate(req) == None <==>
      HasFileName(req) && HasApiKey(req) && IsPdfName(req.file.value)
  {
  }

  /** A rejected request changes neither global, and its reply does not depend
      on the document, the model set-up or the clean-up. */
  lemma {:induction false} RejectedUploadChangesNothing(g: Globals, req: UploadRequest,
                                     recognition: Result<seq<Page>>, setupError: Option<string>, cleanupError: Option<string>,
                                     otherRecognition: Result<seq<Page>>, otherSetup: Option<string>, otherCleanup: Option<string>)
    requires Validate(req).Some?
    ensures UploadStep(g, req, recognition, setupError, cleanupError) == (g, UploadError(Validate(req).value))
    ensures UploadStep(g, req, recognition, setupError, cleanupError)
      == UploadStep(g, req, otherRecognition, otherSetup, otherCleanup)
  {
  }

  /** When extraction raises, neither global is assigned and the reply is
      "Processing failed: " with the exception's message. */
  lemma {:induction false} ExtractionFailureChangesNothing(g: Globals, req: UploadRequest, error: string,
                                                           setupError: Option<string>, cleanupError: Option<string>)
    requires Validate(req) == None
    ensures UploadStep(g, req, Failure(error), setupError, cleanupError) == (g, UploadError(ProcessingFailed + error))
  {
  }

  /** Too little text: `extracted_text` is already overwritten, but the old
      binding (none, or one to an earlier document) stays. */
  lemma {:induction false} ShortTextKeepsOldBinding(g: Globals, req: UploadRequest, pages: seq<Page>,
                                                    setupError: Option<string>, cleanupError: Option<string>)
    requires Validate(req) == None
    requires |ExtractedText(pages)| < MinContent
    ensures UploadStep(g, req, Success(pages), setupError, cleanupError) ==
      (Globals(ExtractedText(pages), g.qaBinding), UploadError(VeryLittleText))
  {
    ExtractedTextIsStripped(pages);
  }

  /** When `setup_gemini_qa` raises on a text that passed the gate,
      `extracted_text` is already overwritten, the old binding stays, and the
      reply is "Processing failed: " with the exception's message. */
  lemma {:induction false} SetupFailureKeepsOldBinding(g: Globals, req: UploadRequest, pages: seq<Page>,
                                                       error: string, cleanupError: Option<string>)
    requires Validate(req) == None
    requires |ExtractedText(pages)| >= MinContent
    ensures UploadStep(g, req, Success(pages), Some(error), cleanupError) ==
      (Globals(ExtractedText(pages), g.qaBinding), UploadError(ProcessingFailed + error))
  {
    ExtractedTextIsStripped(pages);
  }

  /** An upload succeeds exactly when validation passes, extraction returns,
      the text passes the content gate, and neither the model set-up nor the
      clean-up raises. Then the binding is to exactly the new text,
      `text_length` is its length (at least ten) and `preview` is its first
      500 characters, or all of it when it is shorter. */
  lemma {:induction false} SuccessfulUpload(g: Globals, req: UploadRequest, recognition: Result<seq<Page>>,
                                            setupError: Option<string>, cleanupError: Option<string>)
    ensures UploadStep(g, req, recognition, setupError, cleanupError).1.UploadSuccess? <==>
      Validate(req) == None && recognition.Success?
      && EnoughContent(ExtractedText(recognition.value)) && setupError == None && cleanupError == None
    ensures UploadStep(g, req, recognition, setupError, cleanupError).1.UploadSuccess? ==>
      var text := ExtractedText(recognition.value);
      var (g', response) := UploadStep(g, req, recognition, setupError, cleanupError);
      && g' == Globals(text, Some(text))
      && response.textLength == |text| >= MinContent
      && |response.preview| == (if |text| <= PreviewLength then |text| else PreviewLength)
      && response.preview == text[..|response.preview|]
  {
    if UploadStep(g, req, recognition, setupError, cleanupError).1.UploadSuccess? {
      ExtractedTextIsStripped(recognition.value);
    }
  }

  /** When `os.remove` raises after the binding was made, the reply is a
      "Processing failed" error, yet both globals already hold the new text. */
  lemma {:induction false} CleanupFailureAfterBinding(g: Globals, req: UploadRequest, pages: seq<Page>, error: string)
    requires Validate(req) == None
    requires |ExtractedText(pages)| >= MinContent
    ensures UploadStep(g, req, Success(pages), None, Some(error)) ==
      (Globals(ExtractedText(pages), Some(ExtractedText(pages))), UploadError(ProcessingFailed + error))
  {
    ExtractedTextIsStripped(pages);
  }

  /** `qa_function` either keeps its value or is bound to exactly the text just
      extracted, and only to a text that passed the content gate and only when
      the model set-up returned; so the invariant that a binding has content
      is kept by every upload. */
  lemma {:induction false} UploadKeepsBindingInvariant(g: Globals, req: UploadRequest, recognition: Result<seq<Page>>,
                                                       setupError: Option<string>, cleanupError: Option<string>)
    requires BindingHasContent(g)
    ensures var g' := UploadStep(g, req, recognition, setupError, cleanupError).0;
      && BindingHasContent(g')
      && (g'.qaBinding == g.qaBinding || g'.qaBinding == Some(g'.extractedText))
      && (g'.qaBinding != g.qaBinding ==>
            recognition.Success? && setupError == None && g'.extractedText == ExtractedText(recognition.value))
  {
  }

  /** The two globals can disagree: after an upload with too little text,
      `extracted_text` is the new text while `qa_function` still answers about
      the previous document. */
  lemma {:induction false} StaleBindingAfterShortUpload()
    ensures var g := Globals("Invoice 2024", Some("Invoice 2024"));
      var req := UploadRequest(Some("scan.PDF"), Some("key"));
      var g' := UploadStep(g, req, Success([["  ok  ", "x"]]), None, None).0;
      g'.extractedText == "ok" && g'.qaBinding == Some("Invoice 2024")
  {
    var req := UploadRequest(Some("scan.PDF"), Some("key"));
    assert Validate(req) == None by { UpperCaseExtensionExample(); }
    ShortExample();
    ShortTextKeepsOldBinding(Globals("Invoice 2024", Some("Invoice 2024")), req, [["  ok  ", "x"]], None, None);
  }

  lemma {:induction false} UpperCaseExtensionExample()
    ensures IsPdfName("scan.PDF")
  {
    PdfSuffixIgnoresCase("scan.PDF");
    assert "scan.PDF"[4..] == ".PDF";
    assert Lower("F") == "f";
    assert Lower("DF") == "df" by { assert "DF"[1..] == "F"; }
    assert Lower("PDF") == "pdf" by { assert "PDF"[1..] == "DF"; }
    assert Lower(".PDF") == ".pdf" by { assert ".PDF"[1..] == "PDF"; }
  }

  lemma {:induction false} ShortExample()
    ensures ExtractedText([["  ok  ", "x"]]) == "ok"
  {
    var page: Page := ["  ok  ", "x"];
    assert Strip("  ok  ") == "ok" by { StripUnique("  ok  ", "  ", "ok", "  "); }
    assert Strip("x") == "x" by { StripTrimmed("x"); }
    assert page[..1] == ["  ok  "];
    assert page[..1][..0] == [];
    assert KeptOnPage(page) == ["ok"];
    assert [page][..0] == [];
    assert KeptFragments([page]) == ["ok"];
  }

  /** Without a binding every question is rejected, and the model is not
      called. */
  lemma {:induction false} AskNeedsBinding(question: Option<string>, generate: string -> Reply)
    ensures AskStep(None, question, generate) == (AskError(NotReady), [])
  {
  }

  /** The model is called exactly when there is a binding and a non-empty
      question; it is then called once, with the bound document's prompt, and
      its answer is the reply. A rejected request calls nothing. */
  lemma {:induction false} AskCallsModelOnlyWhenAccepted(qaBinding: Option<string>, question: Option<string>, generate: string -> Reply)
    ensures var (response, prompts) := AskStep(qaBinding, question, generate);
      && (prompts != [] <==> qaBinding.Some? && !QuestionMissing(question))
      && (response.AskError? <==> prompts == [])
      && (qaBinding.Some? && QuestionMissing(question) ==> response == AskError(QuestionRequired))
      && (prompts != [] ==>
            prompts == [Prompt(WebTemplate, qaBinding.value, question.value)]
            && response == Answer(AnswerQuestion(WebTemplate, qaBinding.value, question.value, generate)))
  {
  }

  /** Only falsiness is checked: a whitespace-only question reaches the model. */
  lemma {:induction false} BlankQuestionIsAsked(document: string, generate: string -> Reply)
    ensures AskStep(Some(document), Some(" "), generate).1 == [Prompt(WebTemplate, document, " ")]
  {
  }
}
