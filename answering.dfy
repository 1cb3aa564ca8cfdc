/** `setup_gemini_qa`'s inner `answer_question`: the prompt it builds from the
    document text and the question, and how it turns the model's reply or
    exception into the answer string. The model call itself is a parameter. */
module Answering {

  /** The fixed pieces of a front end's prompt and its error prefix. */
  datatype Template = Template(
    header: string,
    beforeQuestion: string,
    footer: string,
    errorPrefix: string)

  /** The web app's prompt and its `Error: ` wrapping. */
  const WebTemplate := Template(
    "Based on the following extracted text from a PDF document, please answer the question.\n\nDocument content:\n",
    "\n\nQuestion: ",
    "\n\nPlease provide a clear and concise answer based only on the information available in the document.",
    "Error: ")

  /** The command-line tool's prompt (it starts and ends with a newline) and its
      `Error generating response: ` wrapping. */
  const CliTemplate := Template(
    "\nBased on the following extracted text from a PDF document, please answer the question.\n\nDocument content:\n",
    "\n\nQuestion: ",
    "\n\nPlease provide a clear and concise answer based only on the information available in the document. If the information is not available in the document, please say so.\n",
    "Error generating response: ")

  /** What `generate_content` did with a prompt: returned a response whose
      `text` is given, or raised an exception whose `str(e)` is given. */
  datatype Reply = Generated(text: string) | Raised(message: string)

  /** The prompt sent to the model. */
  function Prompt(t: Template, document: string, question: string): string {
    t.header + document + t.beforeQuestion + question + t.footer
  }

  /** `answer_question(question)` for a binding to `document`: the model's text,
      or the error prefix followed by the exception's message. It never
      raises. */
  function AnswerQuestion(t: Template, document: string, question: string, generate: string -> Reply): (answer: string)
    ensures generate(Prompt(t, document, question)).Generated? ==>
      answer == generate(Prompt(t, document, question)).text
    ensures generate(Prompt(t, document, question)).Raised? ==>
      |t.errorPrefix| <= |answer|
      && answer[..|t.errorPrefix|] == t.errorPrefix
      && answer[|t.errorPrefix|..] == generate(Prompt(t, document, question)).message
  {
    match generate(Prompt(t, document, question))
    case Generated(text) => text
    case Raised(message) => t.errorPrefix + message
  }

  /** Where the document text starts in the prompt. */
  function DocumentStart(t: Template): nat {
    |t.header|
  }

  /** Where the question starts in a prompt whose document text has
      `documentLength` characters. */
  function QuestionStart(t: Template, documentLength: nat): nat {
    |t.header| + documentLength + |t.beforeQuestion|
  }

  /** The document text appears whole in the prompt, and the question appears
      whole after it, with the template's separator between them. */
  lemma {:induction false} DocumentBeforeQuestion(t: Template, document: string, question: string)
    ensures var p := Prompt(t, document, question);
      && DocumentStart(t) + |document| <= QuestionStart(t, |document|)
      && QuestionStart(t, |document|) + |question| <= |p|
      && p[DocumentStart(t)..DocumentStart(t) + |document|] == document
      && p[QuestionStart(t, |document|)..QuestionStart(t, |document|) + |question|] == question
  {
    var p := Prompt(t, document, question);
    var d := DocumentStart(t);
    var q := QuestionStart(t, |document|);
    assert p == t.header + document + t.beforeQuestion + question + t.footer;
    assert p[d..d + |document|] == document;
    assert p[q..q + |question|] == question;
  }

  /** For one document, different questions give different prompts: the
      question reaches the model unaltered. */
  lemma {:induction false} PromptDeterminesQuestion(t: Template, document: string, q1: string, q2: string)
    requires Prompt(t, document, q1) == Prompt(t, document, q2)
    ensures q1 == q2
  {
    DocumentBeforeQuestion(t, document, q1);
    DocumentBeforeQuestion(t, document, q2);
  }

  /** For one question, different documents give different prompts: the
      bound document text reaches the model unaltered. */
  lemma {:induction false} PromptDeterminesDocument(t: Template, d1: string, d2: string, question: string)
    requires Prompt(t, d1, question) == Prompt(t, d2, question)
    ensures d1 == d2
  {
    // Equal prompts have equal lengths, so the documents have equal lengths.
    assert |d1| == |d2|;
    DocumentBeforeQuestion(t, d1, question);
    DocumentBeforeQuestion(t, d2, question);
  }
}
