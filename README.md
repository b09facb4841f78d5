# Abstraction Layer for LLMs — a verified model of its core

This project is a Dafny model of the two core modules of the Streamlit
application *Abstraction Layer for LLMs*. The properties below are proved
about that model.

- `src/data_processing.py` holds two kinds of code:
  - **document extraction**: uploaded PDF, CSV and TXT files become a list of
    metadata-tagged chunks;
  - **text utilities**: stopword removal, normalisation, special-character
    removal and tokenisation.
- `src/nlp_tasks.py` holds three kinds of code:
  - the **chat history** kept in the session state and its rendering as a
    transcript;
  - the **prompt construction** for the five language-model tasks. The
    ethics guidelines are applied innermost, then the persona, then the
    document context.
  - the **document question-answering** fallback.

The files are:

| file | module | models |
|---|---|---|
| `wrappers.dfy` | `Wrappers` | `Option` |
| `strings.dfy` | `Strings` | the Python string built-ins the core is made of |
| `text_processing.dfy` | `TextProcessing` | the four text utilities |
| `document_extraction.dfy` | `DocumentExtraction` | `cached_process_documents`, `process_documents` |
| `chat_history.dfy` | `ChatHistory` | `init_chat_history`, `add_to_history`, `get_history_text` |
| `prompts.dfy` | `Prompts` | the ethics layer, the task prompts and `document_qa_task` |

`Strings` models these built-ins:

- `str.split()` with no separator. Whitespace is exactly the set `str.isspace()` accepts, which is also what `\s` matches in a `str` regular expression.
- `str.split(c)`.
- `sep.join(parts)`.
- ASCII case mapping.
- The order-keeping filter behind a conditional list comprehension and a character-class deletion.

Document extraction is imperative in the source, so it is modelled as
methods with loops. `CachedProcessDocuments` walks the batch and appends
chunks. Its loop invariants tie the chunks built so far to the
specification function `Assemble`, and the lemmas about `Assemble` state
what the batch contains. The chat history is a field the source updates in
place, so it is a class `SessionState` whose methods reassign it.

The file parsers, the language model, the persona and document-context
layers and the remote question-answering chain are code the core calls but
does not define. They are parameters of the operations that use them:

- `Parsers` holds the PDF, CSV and UTF-8 parsers.
- `Layers` holds the persona and document-context layers.
- A `generate` function stands for the language model.
- A `chain` function stands for the question-answering chain.

The text extraction in src/data_processing.py returns a list of chunks.
The flat-text behaviour, with pages and rows joined by newlines into one
string, belongs to the variant under `Full Integration LLM/` and is not
what this model follows.

## Model

| member | source | states |
|---|---|---|
| Strings.Split | src/data_processing.py:65 | every token of `str.split()` is non-empty and holds no whitespace |
| Strings.SplitJoin | src/data_processing.py:65-67 | splitting words joined by single spaces gives back the words |
| Strings.SplitWeave | src/data_processing.py:65 | interleaving words with whitespace runs (empty only at the ends) and splitting gives back exactly the words |
| Strings.SplitDecomposes | src/data_processing.py:65 | every string is its tokens interleaved with whitespace runs that separate them, so split discards only whitespace |
| Strings.SplitEmpty | src/data_processing.py:77 | split returns no token exactly when the string is all whitespace |
| Strings.JoinSplitSingleSpaced | src/data_processing.py:71 | a single-spaced string is rebuilt exactly by joining its tokens with single spaces |
| Strings.JoinWordsSingleSpaced | src/data_processing.py:67 | joining words with single spaces gives a single-spaced string, non-empty when there is a word |
| Strings.FilterSpec | src/data_processing.py:66 | the comprehension keeps only elements that pass, in order, and exactly as many as pass |
| Strings.FilterUnique | src/data_processing.py:66 | any in-order selection of exactly the passing elements is the filter's result |
| Strings.FlatMapConcat | src/data_processing.py:15-47 | concatenating per-element outputs distributes over concatenation of the input |
| Strings.JoinSplitOn | src/nlp_tasks.py:16 | joining the pieces of `s.split(c)` with `c` gives back `s` |
| Strings.SplitOnJoin | src/nlp_tasks.py:16 | splitting at `c` pieces free of `c` joined by `c` gives back the pieces |
| Strings.SplitNoUpper | src/data_processing.py:71 | splitting a lower-cased string gives lower-cased tokens |
| Strings.JoinNoUpper | src/data_processing.py:71 | joining lower-cased parts gives a lower-cased string |
| TextProcessing.RemoveStopwords | src/data_processing.py:62-67 | the output is single-spaced, none of its tokens is a stopword in any letter case, and it keeps as many tokens as the input has non-stopwords |
| TextProcessing.RemoveStopwordsTokens | src/data_processing.py:64-67 | the output's tokens are exactly the input's non-stopword tokens, in order |
| TextProcessing.RemoveStopwordsIdempotent | src/data_processing.py:62-67 | removing stopwords twice is the same as once |
| TextProcessing.NormalizeText | src/data_processing.py:69-71 | the output is single-spaced, has no upper-case letter and has the same tokens as the lower-cased input |
| TextProcessing.NormalizeIdempotent | src/data_processing.py:69-71 | normalising twice is the same as once |
| TextProcessing.NormalizeFixedPoints | src/data_processing.py:69-71 | a string is left unchanged exactly when it is single-spaced and has no upper-case letter |
| TextProcessing.RemoveSpecialCharacters | src/data_processing.py:73-74 | every kept character is a letter, a digit or whitespace, and as many are kept as the input has |
| TextProcessing.RemoveSpecialCharactersDeletesOnly | src/data_processing.py:73-74 | the output is the input with characters deleted, order kept |
| TextProcessing.RemoveSpecialCharactersIdempotent | src/data_processing.py:73-74 | cleaning twice is the same as once |
| TextProcessing.RemoveSpecialCharactersUnique | src/data_processing.py:73-74 | the output is the only in-order selection of all the input's letters, digits and whitespace |
| TextProcessing.Tokenize | src/data_processing.py:76-77 | tokens are non-empty and free of whitespace, and there are none exactly when the text is all whitespace |
| TextProcessing.NormalizeExample | test/test_data_processing.py:19-22 | `"   This    is   A Test.   "` normalises to `"this is a test."` |
| TextProcessing.TokenizeExample | test/test_data_processing.py:31-34 | `"Hello world"` tokenises to `["Hello", "world"]` |
| TextProcessing.StopwordSentenceRemoved | test/test_data_processing.py:12-14 | the test sentence loses `is`, `a` and `with` and becomes `"This sample sentence stopwords."` |
| TextProcessing.StopwordTestAsWritten | test/test_data_processing.py:15-16 | the lower-cased output of the test sentence still holds `is` and `a` as substrings, so the test's check fails |
| TextProcessing.StopwordTestIntended | test/test_data_processing.py:15-16 | for every input, no token of the output is `is`, `a` or `with` in any letter case |
| DocumentExtraction.CachedProcessDocuments | src/data_processing.py:12-47 | the loop over files, pages and rows produces exactly the batch's specified chunks |
| DocumentExtraction.ProcessDocuments | src/data_processing.py:49-57 | the result is the assembly of the readable files, in order, under lower-cased names |
| DocumentExtraction.AssembleConcat | src/data_processing.py:15-47 | the chunks of earlier files precede those of later files, with nothing mixed |
| DocumentExtraction.SkippedFile | src/data_processing.py:25-46 | an unsupported or unparseable file adds nothing and does not disturb the files around it |
| DocumentExtraction.FileChunksEmpty | src/data_processing.py:16-46 | a file adds nothing exactly when its suffix is unsupported, its parser failed, its PDF pages hold no text or its table has no rows |
| DocumentExtraction.PageChunksSpec | src/data_processing.py:19-23 | each PDF chunk is a page with text, tagged with its 1-based page number and the file name, in increasing page order, one per page with text |
| DocumentExtraction.PageChunksComplete | src/data_processing.py:19-23 | every page with text has its chunk |
| DocumentExtraction.PageChunksEmpty | src/data_processing.py:19-23 | a PDF yields no chunk exactly when no page has text |
| DocumentExtraction.RowChunksSpec | src/data_processing.py:30-33 | data row `i` becomes chunk `i`: its cells joined by single spaces, tagged with row `i + 1` |
| DocumentExtraction.FileChunksOrigin | src/data_processing.py:16-41 | every chunk names its file and carries the position kind of the file's type |
| DocumentExtraction.AssembleOrigin | src/data_processing.py:15-47 | every chunk of a batch comes from a supported file of that batch |
| DocumentExtraction.FileDataLowerCase | src/data_processing.py:51-56 | the names handed to extraction have no upper-case letter |
| DocumentExtraction.ProcessedSourcesLowerCase | src/data_processing.py:49-57 | every chunk `process_documents` returns names a lower-cased source |
| DocumentExtraction.BlankPdfExample | test/test_data_processing.py:37-49 | a one-page PDF with a blank page yields no chunk |
| DocumentExtraction.CsvExample | test/test_data_processing.py:52-64 | the CSV `col1,col2 / value1,value2` yields the single chunk `"value1 value2"` for row 1 |
| DocumentExtraction.TxtExample | test/test_data_processing.py:67-79 | the text file yields one whole-file chunk with its decoded text |
| ChatHistory.SessionState.InitChatHistory | src/nlp_tasks.py:7-9 | creates an empty history only when there is none, and keeps an existing one |
| ChatHistory.SessionState.AddToHistory | src/nlp_tasks.py:11-13 | appends exactly one entry with the given role and message; fails, changing nothing, when there is no history |
| ChatHistory.SessionState.GetHistoryText | src/nlp_tasks.py:15-16 | a transcript exists exactly when the history does and is empty exactly for the empty history; when the history is non-empty and no role or content holds a line feed, it splits at line feeds into one line per entry |
| ChatHistory.Capitalize | src/nlp_tasks.py:16 | the first character is upper-cased and the rest lower-cased |
| ChatHistory.CapitalizeIdempotent | src/nlp_tasks.py:16 | capitalising twice is the same as once |
| ChatHistory.RenderHistoryEmpty | src/nlp_tasks.py:15-16 | only the empty history renders as the empty string |
| ChatHistory.RenderAppend | src/nlp_tasks.py:11-16 | adding an entry appends one line and keeps the earlier transcript as its prefix |
| ChatHistory.HistoryLines | src/nlp_tasks.py:15-16 | when no entry spans several lines, the transcript splits at line feeds into one `Role: content` line per entry, in order |
| ChatHistory.HistoryExample | test/test_nlp_tasks.py:4-16 | the test session renders as `"User: Hello\nAssistant: Hi there!"` |
| Prompts.ApplyEthicalGuidelines | src/nlp_tasks.py:29-30 | the layer puts exactly the guidelines and a blank line in front of the prompt, so stripping them gives the prompt back |
| Prompts.ApplyStripEthicalGuidelines | src/nlp_tasks.py:18-30 | every guideline-prefixed prompt is the ethics layer of what it governs |
| Prompts.BasePromptHoldsInputs | src/nlp_tasks.py:35-102 | every user input of a task appears verbatim in its base prompt |
| Prompts.EthicsLayerShape | src/nlp_tasks.py:103-107 | the guidelines govern the base prompt, followed by the coding rules exactly for code generation |
| Prompts.PerformTask | src/nlp_tasks.py:33-111 | each task answers with the model's response to the ethics, persona and context layering; when the persona and context layers keep the prompt they are given, that prompt holds the whole ethics layer and every input of the task |
| Prompts.TaskPromptKeepsPolicy | src/nlp_tasks.py:41-46 | with ethics innermost, layers that keep their argument pass the whole ethics layer and every input of the task to the model |
| Prompts.DocumentQaTask | src/nlp_tasks.py:132-138 | the chain answers only when the context is truthy, and the fixed refusal is returned otherwise |
| Prompts.DocumentQaWithoutContext | src/nlp_tasks.py:132-138 | without a context the chain is never consulted, and the context is the empty string or the empty list |

## Left out

- Logging: the `logging` calls are left out because they do not change any result.
- The Streamlit cache on `cached_process_documents` is left out because the operation is a function of its batch, so a cached answer equals a recomputed one. `CachedProcessDocuments` states that function.
- The parsers are not modelled. PyPDF2, pandas and UTF-8 decoding are the `Parsers` parameter.
  - A PDF page whose `extract_text()` returns `None` is the empty string here.
  - A PDF whose reading raises part-way is modelled by the parser returning only the pages read before the exception. Those pages are kept, as in the source.
  - Stringification of CSV cells happens inside the parser.
- DocumentExtraction.RowChunks numbers rows `index + 1` from the position of the row. This equals pandas' `index + 1` only for the default integer index `read_csv` builds. When the data rows have one more field than the header, `read_csv` makes the first column the index. Then the source tags a row from that column's value: for `"a,b\n4,x,y\n"` it tags the row 5 where the model tags it 1. A non-numeric value there, as in `"a,b\n4,x,y\nk,z,w\n"`, makes `index + 1` raise inside the `try`, and the rows appended before the raise stay in the result. The model's `csvRows` parser returns all rows or none, so it captures neither the value-based tags nor this partial output.
- The language model (`llm.generate_response`) is the `generate` parameter of `Prompts.PerformTask`.
- `get_conversational_chain` (src/nlp_tasks.py:114-129) is left out: it builds a remote Gemini question-answering chain, which is the `chain` parameter of `Prompts.DocumentQaTask`. The question-answering template it fills is not modelled.
- `apply_persona` and `add_document_context` are the `Layers` parameter.
  - llm_abstraction.py of `src/` is not part of this model.
  - `Prompts.TaskPromptKeepsPolicy` assumes each layer keeps its argument. It does not fix the persona wording or the context format.
- TextProcessing.NormalizeText lower-cases ASCII letters only. Python's `str.lower` also lower-cases other scripts, so for text with non-ASCII capitals the model differs from the source.
  - For `TextProcessing.RemoveStopwords` the restriction changes nothing: no non-ASCII word lower-cases to one of the ten stopwords.
- DocumentExtraction.ProcessDocuments lower-cases file names with ASCII case mapping only. Python's `str.lower` at src/data_processing.py:54 also lower-cases other scripts. So for a name with non-ASCII capitals, such as `ÉTÉ.TXT`, the source tags chunks `été.txt` while the model tags them `ÉtÉ.txt`. Suffix dispatch is the same in both: no non-ASCII capital lower-cases into `.pdf`, `.csv` or `.txt`.
- ChatHistory.Capitalize maps ASCII letters only. Python's `str.capitalize` title-cases the first character and lower-cases the rest across all of Unicode.
- ChatHistory.SessionState.AddToHistory models the source's exception, raised when no history exists, as a `false` result with nothing changed. `GetHistoryText` models the same exception as `None`.
- The Streamlit user interface in `src/app.py` is left out. So is the variant under `Full Integration LLM/`, which produces one flat string per batch instead of chunks.
- Some test checks in `test/test_data_processing.py` are not restated: they compare the extraction's list result as if it were a string (lines 49, 64, 79). The model states instead what the list holds (`BlankPdfExample`, `CsvExample`, `TxtExample`).
- The special-character test sentence (lines 25-28) is not evaluated as a concrete example. The contract of `TextProcessing.RemoveSpecialCharacters` already excludes `,`, `!` and `?` from every output.
- The stopword test (lines 12-16) is listed under Findings.

## Findings

| source | as written | input that shows it | evidently intended | confidence | as-written member | corrected member |
|---|---|---|---|---|---|---|
| test/test_data_processing.py:15-16 | checks that each of `is`, `a` and `with` is not a substring of the lower-cased output | `"This is a sample sentence with stopwords."`: the output `"This sample sentence stopwords."` lower-cases to a string holding `is` (in `this`) and `a` (in `sample`) | no token of the output is one of the stopwords, in any letter case | high; not executed | TextProcessing.StopwordTestAsWritten | TextProcessing.StopwordTestIntended |
