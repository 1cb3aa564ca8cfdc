# OCR PDF question answering — a verified model

The repository turns a scanned PDF into text with OCR and then answers
questions about that text with a Gemini model. It has two front ends that
share the same extraction code:

- a Flask web app (`app.py`) with an `/upload` handler and an `/ask` handler,
  over two module-level globals: `extracted_text` and `qa_function`;
- a command-line tool (`main_gemini.py`) whose `main` reads an API key,
  extracts the text, and answers console questions until `exit` or `quit`.

This project models the decision logic of both front ends in Dafny and proves
what it promises:

- `wrappers.dfy`: `Option` and `Result`.
- `text.dfy`: the Python string operations the code relies on: `str.strip()`
  over the full `str.isspace` character set, `lower()`, `endswith`,
  `"\n".join` and the clamped slice `s[:n]`. `Split` is not called by the
  code; `SplitJoin` and `ExtractedTextSplits` use it to show that the newline
  join can be undone.
- `ocr.dfy`: the post-processing in `extract_text_from_pdf`. The recogniser's
  output is an input, given as a sequence of pages, each the strings
  recognised on it. `ExtractText` keeps the source's nested loops and is
  proved against the function `ExtractedText`.
- `answering.dfy`: `answer_question` for both front ends, that is the prompt
  layout and the wrapping of a model exception into an answer string. The
  model call is a function parameter `generate` that either returns text or
  raises with a message.
- `web_app.dfy`: the class `App` whose fields are the two globals. Its methods
  `UploadFile` and `AskQuestion` are proved against the transition functions
  `UploadStep` and `AskStep`, and lemmas state which global changes on which
  path. `qa_function` is modelled as the document text it was bound to
  (`None` before any successful upload).
- `cli.dfy`: `main` of the command-line tool. `Run` covers the key check,
  extraction and the content gate, and `Chat` is the `while True` loop over
  the lines typed at the console.

## Model

| member | source | states |
|---|---|---|
| Text.Strip | app.py:34 | the result of `strip()` has no whitespace at either end and is no longer than its input |
| Text.IsSpace | app.py:34 | the characters `strip()` removes: exactly those for which Python's `str.isspace()` holds |
| Text.StripShape | app.py:34 | what `strip()` removes is only whitespace: the input is some whitespace, then the stripped text, then more whitespace |
| Text.StripUnique | main_gemini.py:82 | whenever a string is whitespace, then a trimmed middle, then whitespace, `strip()` returns exactly that middle |
| Text.StripIdempotent | app.py:34 | a property of the modelled `strip()`: stripping twice is stripping once |
| Text.StripTrimmed | app.py:95 | a string with no whitespace at either end is its own stripped form |
| Text.Lower | app.py:85 | `lower()` keeps the length and replaces each ASCII capital by its small letter, character by character |
| Text.LowerAt | main_gemini.py:83 | the lowered string's character at each position is the lowered character of the input at that position |
| Text.EndsWith | app.py:85 | `s.endswith(suffix)`: the suffix is no longer than `s` and equals its last characters |
| Text.Prefix | app.py:107 | `s[:n]` is the first `n` characters, or all of `s` when it is shorter |
| Text.Join | app.py:41 | `sep.join(parts)`: empty for no parts, the part itself for one, otherwise the parts in order with `sep` between neighbours and nothing before the first or after the last |
| Text.SplitJoin | app.py:41 | splitting the newline-joined parts at newlines gives the parts back when none contains a newline |
| Text.JoinTrimmed | main_gemini.py:27 | joining non-empty trimmed parts gives a trimmed text, empty exactly when there are no parts |
| Ocr.KeptOnPage | main_gemini.py:18-22 | a page's kept strings are at most as many as its fragments, each trimmed and longer than one character |
| Ocr.KeptFragments | main_gemini.py:12-25 | every kept string of the document is trimmed and longer than one character |
| Ocr.Survives | app.py:34-35 | a fragment is kept when its stripped form is longer than one character |
| Ocr.ExtractedText | app.py:21-41 | the text `extract_text_from_pdf` returns: the kept fragments of all pages joined by newlines |
| Ocr.EnoughContent | main_gemini.py:68 | the content gate: the stripped text has at least ten characters |
| Ocr.ExtractText | app.py:21-41 | the nested loops return exactly the kept fragments of all pages, in page order then recognition order, joined by newlines |
| Ocr.KeptOnPageAppend | app.py:33-36 | recognition order is kept: a page split in two keeps the first part's strings, then the second's |
| Ocr.KeptFragmentsAppend | app.py:27-39 | page order is kept: a document split in two keeps its first pages' strings, then the rest's |
| Ocr.KeptFragmentsFlatten | main_gemini.py:13-25 | page boundaries do not matter: the result is what one page holding every fragment in order gives |
| Ocr.NothingSurvives | app.py:35-36 | a page none of whose fragments survives stripping keeps nothing |
| Ocr.EmptyPageAddsNothing | app.py:38-39 | a page that keeps nothing adds nothing, wherever it is in the document |
| Ocr.BarrenPageAddsNothing | main_gemini.py:24-25 | a page none of whose fragments survives can be removed from anywhere in the document without changing the result |
| Ocr.KeptComesFromPage | app.py:34-36 | every kept string is the stripped form, longer than one character, of one of the page's fragments |
| Ocr.SurvivorIsKept | main_gemini.py:20-22 | the stripped form of every fragment longer than one character once stripped is kept |
| Ocr.KeptOnPageMembership | app.py:33-36 | both directions: a string is kept exactly when it is the stripped form of a fragment and longer than one character |
| Ocr.ExtractedTextShape | app.py:41 | the joined text has no separator or whitespace at either end, and is empty exactly when nothing survived |
| Ocr.ExtractedTextIsStripped | main_gemini.py:68 | the extracted text is its own stripped form, so the content gate passes exactly when the text has at least ten characters |
| Ocr.StripSubstring | main_gemini.py:20 | stripping introduces no character that was not in the fragment |
| Ocr.KeptHasNoNewlines | main_gemini.py:18-25 | when no fragment contains a newline, no kept string does |
| Ocr.ExtractedTextSplits | main_gemini.py:27 | when no fragment contains a newline and something survived, splitting the text at newlines gives exactly the kept strings in order |
| Answering.AnswerQuestion | app.py:57-61 | the model's text when it returns, and `Error: ` (or `Error generating response: ` on the command line) followed by the exception's message when it raises; it never raises |
| Answering.Prompt | app.py:48-55 | the prompt is the template's header, the document text, the separator, the question and the footer, in that order |
| Answering.DocumentBeforeQuestion | app.py:48-55 | the prompt holds the whole document text, then the whole question after it |
| Answering.PromptDeterminesQuestion | main_gemini.py:34-43 | for one document, different questions give different prompts |
| Answering.PromptDeterminesDocument | main_gemini.py:34-43 | for one question, different documents give different prompts |
| WebApp.PdfSuffixIgnoresCase | app.py:85 | the extension check looks only at the last four characters, in any letter case |
| WebApp.IsPdfName | app.py:85 | `filename.lower().endswith('.pdf')` |
| WebApp.HasFileName | app.py:73-80 | the request has a `file` part whose filename is not empty |
| WebApp.HasApiKey | app.py:77-82 | the `api_key` field is present and not empty; it is not stripped |
| WebApp.Validate | app.py:73-85 | the first failing check in the handler's order (file part, filename, API key, `.pdf` suffix) with its error message, or none |
| WebApp.UploadStep | app.py:69-113 | `upload_file` as a transition of the two globals and its reply, on every path: rejection, extraction exception, short text, set-up exception, clean-up exception, success |
| WebApp.QuestionMissing | app.py:122-123 | the question is absent or empty: falsy |
| WebApp.AskStep | app.py:115-128 | `ask_question`'s reply and the prompts sent: no binding, then a falsy question, are rejected with no prompt; otherwise one prompt about the bound document, and the answer |
| WebApp.UpperCaseExtensionExample | app.py:85 | `scan.PDF` passes the extension check |
| WebApp.ValidationOrder | app.py:73-85 | each rejection in both directions, in the handler's order: file part and filename, then API key (before the extension), then the `.pdf` suffix |
| WebApp.RejectedUploadChangesNothing | app.py:113 | a rejected request changes neither global and its reply does not depend on the document or on the clean-up |
| WebApp.ExtractionFailureChangesNothing | app.py:90-93 | when extraction raises, neither global changes and the reply is `Processing failed: ` with the message |
| WebApp.ShortTextKeepsOldBinding | app.py:93-96 | too little text overwrites `extracted_text` but keeps the previous `qa_function`, none or an older binding |
| WebApp.SetupFailureKeepsOldBinding | app.py:93-99 | when `setup_gemini_qa` raises on a text that passed the gate, `extracted_text` is already overwritten, `qa_function` keeps its previous value, and the reply is `Processing failed: ` with the message |
| WebApp.SuccessfulUpload | app.py:99-108 | success happens exactly when validation, extraction, the gate, the model set-up and the clean-up all pass; then the binding is the new text, `text_length` its length and `preview` its first 500 characters |
| WebApp.CleanupFailureAfterBinding | app.py:99-111 | when `os.remove` raises, the reply is `Processing failed`, yet both globals already hold the new text |
| WebApp.UploadKeepsBindingInvariant | app.py:93-99 | `qa_function` either keeps its value or becomes the text just extracted, and only a text that passed the gate and only when the model set-up returned |
| WebApp.StaleBindingAfterShortUpload | app.py:93-96 | concretely, after a short upload `extracted_text` is the new text while `qa_function` still answers about the earlier document |
| WebApp.ShortExample | app.py:33-41 | concretely, the fragments `"  ok  "` and `"x"` give the text `ok` |
| WebApp.App.constructor | app.py:18-19 | the app starts with empty text and no binding |
| WebApp.App.UploadFile | app.py:69-113 | for requests handled one at a time, the new globals and the reply are those of `UploadStep`, and a binding is always to a text that passed the gate |
| WebApp.App.AskQuestion | app.py:115-128 | for requests handled one at a time, the reply and the prompts sent are those of `AskStep`, and a prompt is only ever built from a document that passed the content gate |
| WebApp.AskNeedsBinding | app.py:119-120 | without a binding every question is rejected and the model is not called |
| WebApp.AskCallsModelOnlyWhenAccepted | app.py:119-128 | the model is called exactly when there is a binding and a non-empty question, once, with the bound document's prompt, and its answer is the reply |
| WebApp.BlankQuestionIsAsked | app.py:122-124 | a whitespace-only question is not rejected: it reaches the model |
| Cli.StopIndex | main_gemini.py:81-84 | the first line that is `exit` or `quit` once stripped, in any letter case, or the number of lines when none is |
| Cli.AskedQuestions | main_gemini.py:82-90 | the questions asked are non-blank and trimmed |
| Cli.IsExitCommand | main_gemini.py:83 | `question.lower() in ['exit', 'quit']`, applied by its callers to the stripped line |
| Cli.Replies | main_gemini.py:89-91 | one exchange per asked question, in order, the `k`-th answered by the `k`-th model call |
| Cli.RepliesAnswer | main_gemini.py:89-91 | exchange `k` pairs question `k` with the answer `answer_question` gives for it on the `k`-th call |
| Cli.RepeatedQuestionCanGetNewAnswer | main_gemini.py:45-48 | asking one question twice makes two calls: a failure on the first and a text on the second give an error answer and then the text |
| Cli.ChatsAbout | main_gemini.py:81-91 | the loop's outcome is quitting exactly when some line is an exit command, and its exchanges are the replies to the non-blank stripped lines before the first exit command |
| Cli.Chat | main_gemini.py:81-91 | the loop stops at the first exit command or when input runs out, asks exactly the non-blank stripped lines before that, in order, and each answer is `answer_question`'s |
| Cli.Run | main_gemini.py:52-91 | an empty key returns before extraction; an extraction exception ends `main`; too little text returns before any line is read; an exception from setting up the model ends `main` before any line is read; otherwise the loop runs on the extracted text |
| Cli.QuitsIffSomeExitLine | main_gemini.py:82-84 | the loop ends on a quit exactly when some line is an exit command once stripped |
| Cli.ExitCommandExamples | main_gemini.py:83 | a tab-and-space-padded `QuIt` and `EXIT` are exit commands, `exit now` is not |
| Cli.AskedComesFromLine | main_gemini.py:82-90 | every asked question is a non-blank stripped line |
| Cli.NonBlankLineIsAsked | main_gemini.py:86-90 | every non-blank stripped line is asked |
| Cli.AskedBeforeExit | main_gemini.py:81-90 | both directions: a string is asked exactly when it is a non-blank stripped line before the first exit command, and no exit command is ever asked |

## Left out

- The OCR libraries (`easyocr.Reader`, `readtext`, `convert_from_path`, the `np.array` conversion): their output is an input of the model, a sequence of pages of strings. Bounding boxes and confidences are not modelled.
- The Gemini client (`genai.configure`, `GenerativeModel`, `generate_content`): `generate_content` is a network call, modelled as the function parameter `generate`. In the web app each `/ask` request is given its own `generate`. On the command line `generate(k)` is the `k`-th call, so a repeated question can get a different reply. An exception raised while setting up the client inside `setup_gemini_qa` is the parameter `setupError`. In the web app it becomes a `Processing failed: ` reply. On the command line it ends `main` with the `SetupRaised` outcome.
- The API key is not part of the modelled binding, because it only configures the client.
- Flask itself: routing, `jsonify`, `render_template`, `request` parsing, and the 50 MB `MAX_CONTENT_LENGTH` limit. A request whose JSON body is missing, or whose `question` is not a string, is not modelled; `question` is an optional string.
- The file system: `os.makedirs`, `secure_filename`, `file.save` and `os.remove`. An exception from `os.remove` is the parameter `cleanupError`. An exception from `file.save`, raised outside the handler's `try`, is not modelled.
- Console I/O in `main_gemini.py` (`input`, `print`): the key line and the question lines are inputs. `EOFError` on the key prompt is not modelled. `EOFError` in the loop is the `InputExhausted` outcome.
- Concurrent requests: the model handles `/upload` and `/ask` requests one at a time, each as one step of `App`. `app.run` starts Flask's development server, which is threaded, so handlers can interleave. `upload_file` re-reads the global `extracted_text` at the content gate (app.py:95), the binding (app.py:99) and the reply (app.py:106-107). Another upload can overwrite it between those points, for example with a short text that another request just rejected. The first upload then binds that text and reports its length. So under interleaving, `BindingHasContent` and the `UploadFile` and `AskQuestion` contracts do not hold.
- `ask_question`'s own `except` branch (app.py:129-130): `answer_question` catches every exception from the model, so in the model that branch cannot be reached.
- Text.Lower: folds only the ASCII letters, while Python's `lower()` folds every Unicode letter. The comparisons are still decided the same way: the lowered text is only compared with `exit`, `quit` and the suffix `.pdf`, and every non-ASCII character lowers to a string that still holds a non-ASCII character, except the Kelvin sign, which lowers to `k`, not one of `e`, `x`, `i`, `t`, `q`, `u`, `.`, `p`, `d`, `f`. For example, `İ` lowers to `i` followed by a combining dot. So a non-ASCII character never lowers into a match, and each comparison has the same outcome in the model and in Python, even though the lowered strings themselves can differ.
- Per-session contexts, a fast path for PDFs that already hold text, page batching, timeouts, image preprocessing and non-PDF formats do not exist in these files, so they are not modelled. The content gate is the one the code has: fewer than ten characters after stripping is refused.
