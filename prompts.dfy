/** Prompt construction for the language-model tasks of src/nlp_tasks.py:
    the ethics layer, the five task prompts and their layering with the
    persona and the document context, and the document question-answering
    fallback. The persona and document-context layers, the model that
    answers a prompt and the remote question-answering chain are not
    defined here and enter as parameters. */
module Prompts {

  import opened Wrappers
  import opened Strings
  import DocumentExtraction

  /** The guideline block every task prompt starts from. */
  const EthicalGuidelines: string := "\nYou MUST adhere to these guidelines:\n1. Avoid harmful, unethical, or dangerous content\n2. Reject requests for illegal activities or misinformation\n3. Protect privacy - never reveal real personal data\n4. Acknowledge limitations and uncertainties\n5. Prevent bias in analysis and responses\n6. Decline inappropriate medical/legal advice\n7. Filter violent or graphic content descriptions\n"

  /** The blank line between the guidelines and the prompt they govern. */
  const GuidelineSeparator: string := "\n\n"

  /** The extra rules the code-generation task adds to its own prompt. */
  const CodingEthics: string := "\nAdditional coding ethics:\n- Reject requests for malware/vulnerabilities\n- Avoid dangerous code patterns\n- Include safety comments"

  // ---------------------------------------------------------------------
  // The ethics layer

  /** `apply_ethical_guidelines`: the guidelines, a blank line, then the
      prompt. */
  function ApplyEthicalGuidelines(basePrompt: string): (prompt: string)
    ensures |prompt| == |EthicalGuidelines| + |GuidelineSeparator| + |basePrompt|
    ensures StripEthicalGuidelines(prompt) == Some(basePrompt)
  {
    EthicalGuidelines + GuidelineSeparator + basePrompt
  }

  /** The prompt a guideline-prefixed prompt governs, if it is one. */
  function StripEthicalGuidelines(prompt: string): (basePrompt: Option<string>)
  {
    var n := |EthicalGuidelines| + |GuidelineSeparator|;
    if n <= |prompt| && prompt[..n] == EthicalGuidelines + GuidelineSeparator then Some(prompt[n..])
    else None
  }

  /** Every guideline-prefixed prompt is the ethics layer of what it
      governs, so the layer loses nothing and adds only the guidelines. */
  lemma ApplyStripEthicalGuidelines(prompt: string)
    requires StripEthicalGuidelines(prompt).Some?
    ensures ApplyEthicalGuidelines(StripEthicalGuidelines(prompt).value) == prompt
  {
  }

  // ---------------------------------------------------------------------
  // The task prompts

  /** The task the user asked for, with its inputs. */
  datatype Task =
    | Summarization(textInput: string)
    | SentimentAnalysis(textInput: string)
    | NamedEntityRecognition(textInput: string)
    | QuestionAnswering(context: string, question: string)
    | CodeGeneration(codeDescription: string, language: string)

  const SummarizationHead: string := "\n                    You are a summarising model. You will receive text and you will proceed to summarise the entire \n                    text to the best of your ability. If it does not make sense, make that explicitly clear and ask \n                    for more input rather than guessing. Summarise the following text: \n"
  const SummarizationTail: string := "\n                    "
  const SentimentHead: string := "\n    You are a sentiment analysis model. Analyze the sentiment of the following text as positive, negative, \n    or neutral to the best of your ability. If you are not able to clssify a certain sentiment, propose another \n    sentiment that should make sense for this text:\n"
  const NerHead: string := "\n        You are a Named Entity Recognition model. Extract and list the names, locations, and dates mentioned in the text\n        to the best of your ability. If you are unable to find named entities, explicitly mention this \n        in your output. Here is the test:\n"
  const QuestionAnsweringHead: string := "\n    You are a simple question and answering mdoel. Here is the context: "
  const QuestionAnsweringMiddle: string := "\n\nQuestion: "
  const QuestionAnsweringTail: string := "\n\nAnswer:\n    "
  const CodeGenerationHead: string := "\n    You are an excellent code generation model. You know how to solve the problems in code with high accuracy. If you think\n    there is some problem with the code and you can\'t seem to understand the context, ask for more information.\n    Generate "
  const CodeGenerationMiddle: string := " code for the following problem:\n"
  /** The tail shared by the sentiment, entity and code prompts. */
  const IndentedTail: string := "\n    "

  /** The task's own prompt, with the user's inputs filled in. */
  function BasePrompt(task: Task): string
  {
    match task
    case Summarization(text) => SummarizationHead + text + SummarizationTail
    case SentimentAnalysis(text) => SentimentHead + text + IndentedTail
    case NamedEntityRecognition(text) => NerHead + text + IndentedTail
    case QuestionAnswering(context, question) =>
      QuestionAnsweringHead + context + QuestionAnsweringMiddle + question + QuestionAnsweringTail
    case CodeGeneration(description, language) =>
      CodeGenerationHead + language + CodeGenerationMiddle + description + IndentedTail
  }

  /** What the guidelines are applied to: the base prompt, followed for
      code generation by the coding rules. */
  function PolicyPrompt(task: Task): string
  {
    if task.CodeGeneration? then BasePrompt(task) + CodingEthics else BasePrompt(task)
  }

  function EthicsLayer(task: Task): string
  {
    ApplyEthicalGuidelines(PolicyPrompt(task))
  }

  /** The user's inputs to a task. */
  function Inputs(task: Task): seq<string>
  {
    match task
    case Summarization(text) => [text]
    case SentimentAnalysis(text) => [text]
    case NamedEntityRecognition(text) => [text]
    case QuestionAnswering(context, question) => [context, question]
    case CodeGeneration(description, language) => [description, language]
  }

  /** Every input of the task appears verbatim in its base prompt. */
  lemma BasePromptHoldsInputs(task: Task)
    ensures forall i :: 0 <= i < |Inputs(task)| ==> Contains(BasePrompt(task), Inputs(task)[i])
  {
    match task
    case Summarization(text) => ContainsBetween(SummarizationHead, text, SummarizationTail);
    case SentimentAnalysis(text) => ContainsBetween(SentimentHead, text, IndentedTail);
    case NamedEntityRecognition(text) => ContainsBetween(NerHead, text, IndentedTail);
    case QuestionAnswering(context, question) =>
      ContainsBoth(QuestionAnsweringHead, context, QuestionAnsweringMiddle, question, QuestionAnsweringTail);
    case CodeGeneration(description, language) =>
      ContainsBoth(CodeGenerationHead, language, CodeGenerationMiddle, description, IndentedTail);
  }

  /** The ethics layer of a task opens with the guidelines and governs the
      base prompt, which for code generation is followed by the coding
      rules. */
  lemma EthicsLayerShape(task: Task)
    ensures StripEthicalGuidelines(EthicsLayer(task)) == Some(PolicyPrompt(task))
    ensures PolicyPrompt(task)[..|BasePrompt(task)|] == BasePrompt(task)
    ensures task.CodeGeneration? <==> |PolicyPrompt(task)| > |BasePrompt(task)|
    ensures task.CodeGeneration? ==> PolicyPrompt(task)[|BasePrompt(task)|..] == CodingEthics
  {
  }

  /** `apply_persona` and `add_document_context`, for persona styles `P`
      and document contexts `C`. */
  datatype Layers<!P, !C> = Layers(
    applyPersona: (string, P) -> string,
    addDocumentContext: (string, C) -> string)

  /** The prompt a task sends: ethics first, then persona, then context. */
  function TaskPrompt<P, C>(task: Task, persona: P, documentContext: C, layers: Layers<P, C>): string
  {
    layers.addDocumentContext(layers.applyPersona(EthicsLayer(task), persona), documentContext)
  }

  /** The five task functions: the model's answer to the task's prompt.
      When the persona and context layers keep the prompt they are given,
      that prompt holds the whole ethics layer and every input of the task. */
  function PerformTask<P, C, R>(task: Task, persona: P, documentContext: C, layers: Layers<P, C>,
                                generate: string -> R): (response: R)
    ensures response == generate(TaskPrompt(task, persona, documentContext, layers))
    ensures LayersKeep(task, persona, documentContext, layers) ==>
      && Contains(TaskPrompt(task, persona, documentContext, layers), EthicsLayer(task))
      && forall i :: 0 <= i < |Inputs(task)| ==>
           Contains(TaskPrompt(task, persona, documentContext, layers), Inputs(task)[i])
  {
    var prompt := layers.addDocumentContext(layers.applyPersona(EthicsLayer(task), persona), documentContext);
    if LayersKeep(task, persona, documentContext, layers) then
      TaskPromptKeepsPolicy(task, persona, documentContext, layers);
      generate(prompt)
    else
      generate(prompt)
  }

  /** The persona layer keeps the ethics layer it is given, and the context
      layer keeps the persona layer's output. */
  predicate LayersKeep<P, C>(task: Task, persona: P, documentContext: C, layers: Layers<P, C>)
  {
    && Contains(layers.applyPersona(EthicsLayer(task), persona), EthicsLayer(task))
    && Contains(
         layers.addDocumentContext(layers.applyPersona(EthicsLayer(task), persona), documentContext),
         layers.applyPersona(EthicsLayer(task), persona))
  }

  /** Because the guidelines are applied innermost, a persona layer and a
      context layer that each keep the prompt they are given pass the whole
      ethics layer, and with it every input of the task, to the model. */
  lemma TaskPromptKeepsPolicy<P, C>(task: Task, persona: P, documentContext: C, layers: Layers<P, C>)
    requires LayersKeep(task, persona, documentContext, layers)
    ensures Contains(TaskPrompt(task, persona, documentContext, layers), EthicsLayer(task))
    ensures forall i :: 0 <= i < |Inputs(task)| ==>
      Contains(TaskPrompt(task, persona, documentContext, layers), Inputs(task)[i])
  {
    var layered := layers.applyPersona(EthicsLayer(task), persona);
    var prompt := TaskPrompt(task, persona, documentContext, layers);
    var policy := PolicyPrompt(task);
    var base := BasePrompt(task);
    ContainsTransitive(prompt, layered, EthicsLayer(task));
    ContainsSuffix(EthicalGuidelines + GuidelineSeparator, policy);
    ContainsTransitive(prompt, EthicsLayer(task), policy);
    if task.CodeGeneration? {
      ContainsPrefix(base, CodingEthics);
    } else {
      ContainsPrefix(base, []);
      assert base + [] == policy;
    }
    ContainsTransitive(prompt, policy, base);
    BasePromptHoldsInputs(task);
    forall i | 0 <= i < |Inputs(task)|
      ensures Contains(prompt, Inputs(task)[i])
    {
      ContainsTransitive(prompt, base, Inputs(task)[i]);
    }
  }

  // ---------------------------------------------------------------------
  // Question answering over the uploaded documents

  /** What the application passes as document context: the initial empty
      string, or the chunks extracted from the uploads. */
  datatype DocumentContext =
    | ContextText(text: string)
    | ContextDocuments(documents: seq<DocumentExtraction.Document>)

  /** Python truthiness of the context. */
  predicate Truthy(documentContext: DocumentContext)
  {
    match documentContext
    case ContextText(text) => text != ""
    case ContextDocuments(documents) => documents != []
  }

  const NoDocumentContext: string := "No document context available."

  /** `document_qa_task`: the chain's answer when there is a context, the
      fixed refusal otherwise. */
  function DocumentQaTask(documentContext: DocumentContext, question: string,
                          chain: (DocumentContext, string) -> string): (answer: string)
    ensures !Truthy(documentContext) ==> answer == NoDocumentContext
    ensures Truthy(documentContext) ==> answer == chain(documentContext, question)
  {
    if Truthy(documentContext) then chain(documentContext, question) else NoDocumentContext
  }

  /** Without a context the chain is never consulted: any two chains give
      the same answer, and the answer names the missing context. */
  lemma DocumentQaWithoutContext(documentContext: DocumentContext, question: string,
                                 chain: (DocumentContext, string) -> string,
                                 other: (DocumentContext, string) -> string)
    requires !Truthy(documentContext)
    ensures DocumentQaTask(documentContext, question, chain) == DocumentQaTask(documentContext, question, other)
    ensures documentContext == ContextText("") || documentContext == ContextDocuments([])
  {
  }
}
