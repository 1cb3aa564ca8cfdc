/** `main` of the command-line tool: read the API key, extract the document's
    text, apply the content gate, then answer questions line by line until
    `exit` or `quit`. Console input is given as the sequence of lines typed
    after the key; running out of lines is `input()` raising `EOFError`.
    Every question makes a new call to the model, so the model is given per
    call: `generate(k)` is what the call for the `k`-th asked question does
    with its prompt. */
module Cli {
  import opened Wrappers
  import opened Text
  import opened Ocr
  import opened Answering

  /** One question that reached the model and the answer printed for it. */
  datatype Exchange = Exchange(question: string, answer: string)

  /** How `main` ends. */
  datatype Outcome =
    | MissingApiKey                      // returned after the key prompt
    | ExtractionRaised(message: string)  // extraction raised; `main` does not catch it
    | TooLittleText                      // returned at the content gate
    | SetupRaised(message: string)       // `setup_gemini_qa` raised; `main` does not catch it
    | Quit                               // left the loop on `exit` or `quit`
    | InputExhausted                     // `input()` raised `EOFError`

  /** `question.lower() in ['exit', 'quit']`; callers apply it to the
      stripped line. */
  predicate IsExitCommand(question: string) {
    Lower(question) == "exit" || Lower(question) == "quit"
  }

  /** The index of the first line that is an exit command once stripped, or
      the number of lines when there is none. */
  function StopIndex(lines: seq<string>): (k: nat)
    ensures k <= |lines|
    ensures forall i :: 0 <= i < k ==> !IsExitCommand(Strip(lines[i]))
    ensures k < |lines| ==> IsExitCommand(Strip(lines[k]))
  {
    if lines == [] || IsExitCommand(Strip(lines[0])) then 0
    else 1 + StopIndex(lines[1..])
  }

  /** The stripped non-blank lines, in order: the questions that would be
      asked if none of the lines were an exit command. */
  function AskedQuestions(lines: seq<string>): (questions: seq<string>)
    ensures |questions| <= |lines|
    ensures forall k :: 0 <= k < |questions| ==> questions[k] != "" && IsTrimmed(questions[k])
  {
    if lines == [] then []
    else
      var q := Strip(lines[|lines| - 1]);
      AskedQuestions(lines[..|lines| - 1]) + (if q == "" then [] else [q])
  }

  /** Each question with the answer `answer_question` gives for it, in
      order; the `k`-th question is answered by the `k`-th call. */
  function Replies(document: string, questions: seq<string>, generate: nat -> (string -> Reply)): (exchanges: seq<Exchange>)
    ensures |exchanges| == |questions|
  {
    if questions == [] then []
    else
      var q := questions[|questions| - 1];
      Replies(document, questions[..|questions| - 1], generate)
        + [Exchange(q, AnswerQuestion(CliTemplate, document, q, generate(|questions| - 1)))]
  }

  /** Every exchange pairs its question with the answer for it. */
  lemma {:induction false} RepliesAnswer(document: string, questions: seq<string>, generate: nat -> (string -> Reply), k: nat)
    requires k < |questions|
    ensures Replies(document, questions, generate)[k]
      == Exchange(questions[k], AnswerQuestion(CliTemplate, document, questions[k], generate(k)))
  {
    if k < |questions| - 1 {
      RepliesAnswer(document, questions[..|questions| - 1], generate, k);
    }
  }

  /** Asking the same question twice makes two calls, and their answers can
      differ: a failure the first time and an answer on the retry. */
  lemma {:induction false} RepeatedQuestionCanGetNewAnswer(generate: nat -> (string -> Reply))
    requires generate(0)(Prompt(CliTemplate, "doc", "What?")) == Raised("busy")
    requires generate(1)(Prompt(CliTemplate, "doc", "What?")) == Generated("42")
    ensures Replies("doc", ["What?", "What?"], generate)
      == [Exchange("What?", "Error generating response: busy"), Exchange("What?", "42")]
  {
    var first := AnswerQuestion(CliTemplate, "doc", "What?", generate(0));
    assert first == "Error generating response: " + "busy" == "Error generating response: busy";
    assert AnswerQuestion(CliTemplate, "doc", "What?", generate(1)) == "42";
    assert ["What?"][..0] == [];
    assert Replies("doc", ["What?"], generate) == [Exchange("What?", first)];
    assert ["What?", "What?"][..1] == ["What?"];
  }

  /** What the question loop does with `lines` against `document`: it stops
      at the first exit command (or when input runs out), it asks exactly the
      non-blank stripped lines before that point, in order, and each answer is
      what `answer_question` gives for its question. */
  ghost predicate ChatsAbout(document: string, lines: seq<string>, generate: nat -> (string -> Reply),
                             outcome: Outcome, exchanges: seq<Exchange>)
  {
    && outcome == (if StopIndex(lines) < |lines| then Quit else InputExhausted)
    && exchanges == Replies(document, AskedQuestions(lines[..StopIndex(lines)]), generate)
  }

  /** The `while True` loop of `main`. */
  method Chat(document: string, lines: seq<string>, generate: nat -> (string -> Reply))
    returns (outcome: Outcome, exchanges: seq<Exchange>)
    ensures ChatsAbout(document, lines, generate, outcome, exchanges)
  {
    exchanges := [];
    var i := 0;
    while true
      invariant i <= StopIndex(lines)
      invariant exchanges == Replies(document, AskedQuestions(lines[..i]), generate)
      decreases |lines| - i
    {
      if i == |lines| {
        return InputExhausted, exchanges;
      }
      var question := Strip(lines[i]);
      if IsExitCommand(question) {
        break;
      }
      assert i < StopIndex(lines);
      AskedQuestionsStep(lines, i);
      i := i + 1;
      if question == "" {
        continue;
      }
      var answer := AnswerQuestion(CliTemplate, document, question, generate(|exchanges|));
      RepliesAppend(document, AskedQuestions(lines[..i - 1]), question, generate);
      exchanges := exchanges + [Exchange(question, answer)];
    }
    outcome := Quit;
  }

  lemma {:induction false} AskedQuestionsStep(lines: seq<string>, i: nat)
    requires i < |lines|
    ensures Strip(lines[i]) == "" ==> AskedQuestions(lines[..i + 1]) == AskedQuestions(lines[..i])
    ensures Strip(lines[i]) != "" ==>
      AskedQuestions(lines[..i + 1]) == AskedQuestions(lines[..i]) + [Strip(lines[i])]
  {
    assert lines[..i + 1][..i] == lines[..i];
  }

  lemma {:induction false} RepliesAppend(document: string, questions: seq<string>, q: string, generate: nat -> (string -> Reply))
    ensures Replies(document, questions + [q], generate)
      == Replies(document, questions, generate)
         + [Exchange(q, AnswerQuestion(CliTemplate, document, q, generate(|questions|)))]
  {
    assert (questions + [q])[..|questions|] == questions;
  }

  /** `main`: an empty key (after stripping) returns before any extraction; an
      exception from extraction ends the program; a text below the content
      gate returns before the model is set up or any line is read; an
      exception from setting up the model ends the program before any line
      is read; otherwise the question loop runs on the extracted text. */
  method Run(apiKeyLine: string, recognition: Result<seq<Page>>, setupError: Option<string>,
             lines: seq<string>, generate: nat -> (string -> Reply))
    returns (outcome: Outcome, exchanges: seq<Exchange>)
    ensures Strip(apiKeyLine) == "" ==> outcome == MissingApiKey && exchanges == []
    ensures Strip(apiKeyLine) != "" && recognition.Failure? ==>
      outcome == ExtractionRaised(recognition.error) && exchanges == []
    ensures Strip(apiKeyLine) != "" && recognition.Success? && !EnoughContent(ExtractedText(recognition.value)) ==>
      outcome == TooLittleText && exchanges == []
    ensures (Strip(apiKeyLine) != "" && recognition.Success? && EnoughContent(ExtractedText(recognition.value))
             && setupError.Some?) ==>
      outcome == SetupRaised(setupError.value) && exchanges == []
    ensures (Strip(apiKeyLine) != "" && recognition.Success? && EnoughContent(ExtractedText(recognition.value))
             && setupError.None?) ==>
      ChatsAbout(ExtractedText(recognition.value), lines, generate, outcome, exchanges)
  {
    var apiKey := Strip(apiKeyLine);
    if apiKey == "" {
      return MissingApiKey, [];
    }
    if recognition.Failure? {
      return ExtractionRaised(recognition.error), [];
    }
    var extractedText := ExtractText(recognition.value);
    if |Strip(extractedText)| < MinContent {
      return TooLittleText, [];
    }
    if setupError.Some? {
      return SetupRaised(setupError.value), [];
    }
    outcome, exchanges := Chat(extractedText, lines, generate);
  }

  /** The loop ends on `quit`/`exit` exactly when some line is one, in any
      letter case, once stripped. */
  lemma {:induction false} QuitsIffSomeExitLine(lines: seq<string>)
    ensures StopIndex(lines) < |lines| <==>
      exists k :: 0 <= k < |lines| && IsExitCommand(Strip(lines[k]))
  {
  }

  /** Exit commands are recognised after stripping and in any letter case. */
  lemma {:induction false} ExitCommandExamples()
    ensures IsExitCommand(Strip("\tQuIt  "))
    ensures IsExitCommand("EXIT")
    ensures !IsExitCommand("exit now")
  {
    StripUnique("\tQuIt  ", "\t", "QuIt", "  ");
    assert LowerChar('Q') == 'q' && LowerChar('I') == 'i';
    assert Lower("QuIt") == "quit";
    assert LowerChar('E') == 'e' && LowerChar('X') == 'x' && LowerChar('T') == 't';
    assert Lower("EXIT") == "exit";
  }

  /** Every asked question is the stripped form of a line and is not blank. */
  lemma {:induction false} AskedComesFromLine(lines: seq<string>, q: string)
    requires q in AskedQuestions(lines)
    ensures exists k :: 0 <= k < |lines| && Strip(lines[k]) == q && q != ""
  {
    var init := lines[..|lines| - 1];
    if q in AskedQuestions(init) {
      AskedComesFromLine(init, q);
      var k :| 0 <= k < |init| && Strip(init[k]) == q && q != "";
      assert lines[k] == init[k];
    } else {
      assert Strip(lines[|lines| - 1]) == q;
    }
  }

  /** Every line that is not blank once stripped is asked, stripped. */
  lemma {:induction false} NonBlankLineIsAsked(lines: seq<string>, k: nat)
    requires k < |lines| && Strip(lines[k]) != ""
    ensures Strip(lines[k]) in AskedQuestions(lines)
  {
    var init := lines[..|lines| - 1];
    if k < |init| {
      assert init[k] == lines[k];
      NonBlankLineIsAsked(init, k);
    } else {
      assert lines[|lines| - 1] == lines[k];
    }
  }

  /** Blank lines are skipped and every other line before the exit command is
      asked: a string is asked exactly when it is a non-blank stripped line
      before the first exit command. In particular no exit command and no
      blank string ever reaches the model. */
  lemma {:induction false} AskedBeforeExit(lines: seq<string>, q: string)
    ensures q in AskedQuestions(lines[..StopIndex(lines)]) <==>
      exists k :: 0 <= k < StopIndex(lines) && Strip(lines[k]) == q && q != ""
    ensures q in AskedQuestions(lines[..StopIndex(lines)]) ==> !IsExitCommand(q)
  {
    var before := lines[..StopIndex(lines)];
    if q in AskedQuestions(before) {
      AskedComesFromLine(before, q);
      var k :| 0 <= k < |before| && Strip(before[k]) == q && q != "";
      assert before[k] == lines[k];
    }
    forall k | 0 <= k < StopIndex(lines) && Strip(lines[k]) == q && q != ""
      ensures q in AskedQuestions(before)
    {
      assert before[k] == lines[k];
      NonBlankLineIsAsked(before, k);
    }
  }
}
