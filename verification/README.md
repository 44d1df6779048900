# Crop disease and soil advisor: retrieval and prompt composition

This project is a Dafny model of the core of a small advisory web app. The app
answers questions about crop disease and soil. It picks relevant documents from
a local text corpus, builds a prompt around them, and sends the prompt to a
hosted chat-completion model. The model covers the three pieces of `app.py`
that hold logic:

- `retrieve_context`: splits the question into words, lower-cased. It keeps
  every corpus document whose lower-cased text contains one of those words as a
  substring. It then keeps the first two and joins them with `"\n"`.
- The prompt built in `ask_llm`: framing line, context, question and
  instruction line. Also the request `ask_llm` sends: one user message, model
  `llama-3.1-8b-instant`, temperature 0.2.
- The combined query built in `home` from the form fields. Its four labelled
  lines are `User Question:`, `Region:`, `Temperature: … °C` and
  `Climate Type:`. This combined query, not the raw question, is what `home`
  hands to `ask_llm`. So it is also what retrieval matches against.

Modules:

- `Text` (`text.dfy`) holds the Python string operations the core uses:
  - `Split` is `str.split()` with no separator, over the full `str.isspace()`
    character set;
  - `Lower` is `str.lower()` on ASCII letters;
  - `Contains` is `word in text`;
  - `Join` is `sep.join`.

  It also holds two tools of the model itself, with no counterpart in the app.
  `OccursInOrder` says that several pieces occur in a text one after another.
  `SplitOn` cuts a text at every occurrence of one character; it serves the
  query parser below.
- `Retrieval` (`retrieval.dfy`) holds `retrieve_context`. `Matching` is the list
  the loop appends to. `Selected` is `context[:2]`. `RetrieveContext` is the
  joined result. `RetrieveContextLoop` is the loop written the way the source
  writes it. `MatchPositions` is a reference description of which corpus
  positions match.
- `Templates` (`templates.dfy`) holds `FinalQuery`, the combined query, and
  `Prompt`. It also holds `ParseFinalQuery`, the model's inverse of the query
  layout, which the app does not have; it exists to state that every field
  can be read back from the combined query.
- `Advisor` (`advisor.dfy`) holds `ask_llm` and the POST branch of `home`. The
  completion service is passed in as a plain function from request to reply.
- `Results` (`results.dfy`) holds `Option` and `Result`. `Option` is the
  parser's result, `None` for a text without the query layout. `Result` stands
  in for the exceptions `ask_llm` can raise.

The corpus is a `seq<string>` of document texts in directory-listing order.

## Model

| member | source | states |
|---|---|---|
| Text.Split | app.py:18 | every word `question.split()` yields is non-empty and holds no whitespace |
| Text.SplitEmptyIff | app.py:18 | `split()` yields no words exactly when the text is empty or all whitespace |
| Text.SplitJoinRoundTrip | app.py:18 | splitting undoes joining with single spaces, for any list of non-empty whitespace-free words |
| Text.SplitAppend | app.py:18 | two texts that meet at whitespace split independently: the words of the whole are the words of the first followed by those of the second |
| Text.SplitLower | app.py:18 | lower-casing a text keeps its word boundaries and lower-cases each word: `s.lower().split()` equals `[w.lower() for w in s.split()]` |
| Text.Lower | app.py:18 | definition: ASCII letters lower-cased, every other character kept |
| Text.Contains | app.py:18 | definition; properties in the rows below |
| Text.Join | app.py:20 | definition; properties in the rows below |
| Text.JoinEmptyIff | app.py:20 | with a non-empty separator, `sep.join(parts)` is empty exactly when there are no parts or the only part is empty |
| Text.OccursInOrderContains | app.py:25-35 | every piece of an in-order occurrence is a substring of the text |
| Text.JoinSplitOn | app.py:156-161 | inverse of the line layout used by the query round trip: rejoining a text's lines with the line break gives the text back |
| Text.SplitOnJoin | app.py:156-161 | the other half of that inverse: lines joined with line breaks are read back as the same lines, when no line holds a line break |
| Retrieval.Matches | app.py:18 | definition; properties in the rows below |
| Retrieval.Matching | app.py:14-19 | the loop appends no more documents than the corpus holds, and every appended document matches the question |
| Retrieval.NoMatchNothingKept | app.py:15-19 | when no corpus document matches, the loop appends nothing |
| Retrieval.Take | app.py:20 | slicing to the first n documents gives a prefix of the list with min(n, length) elements |
| Retrieval.Selected | app.py:20 | the context is built from at most two documents, each matching the question |
| Retrieval.RetrieveContext | app.py:12-20 | definition; properties in the rows below |
| Retrieval.MatchPositions | app.py:15-19 | reference description: a strictly increasing list of corpus positions |
| Retrieval.MatchPositionsExact | app.py:15-19 | the reference list holds exactly those corpus positions whose document matches |
| Retrieval.MatchingAtPositions | app.py:15-19 | the appended documents are the matching documents, each once, in corpus order: the k-th is the document at the k-th matching position |
| Retrieval.SelectedFirstMatches | app.py:15-20 | the context is built from exactly the first min(2, matches) matching documents, in corpus order |
| Retrieval.MatchingAppend | app.py:15-19 | scanning a corpus followed by more documents appends the matches of the extra documents after those of the original corpus |
| Retrieval.AppendKeepsSelection | app.py:15-20 | adding documents at the end of the corpus only extends the selection, and a selection that already has two documents does not change, nor does the context |
| Retrieval.MatchedDocNonEmpty | app.py:18 | a matching document is never empty, because every question word is non-empty |
| Retrieval.RetrieveEmptyIff | app.py:18-20 | the context is the empty string exactly when no corpus document matches |
| Retrieval.BlankQuestionEmptyContext | app.py:18-20 | an empty or whitespace-only question selects nothing and gives the empty context for every corpus |
| Retrieval.MatchesIgnoresCase | app.py:18 | whether a document matches depends only on the lower-cased question and the lower-cased document |
| Retrieval.QuestionCaseInsensitive | app.py:18-20 | changing the case of letters in the question changes neither the matched documents nor the context |
| Retrieval.CorpusCaseInsensitive | app.py:15-19 | changing the case of letters in the documents does not change which corpus positions are selected |
| Retrieval.ThreeMatchesKeepFirstTwo | app.py:20 | with three matching documents the context is the first two joined by a newline |
| Retrieval.MatchesByWord | app.py:18 | a document that contains, with the same letters, a word that stands between whitespace in the question matches it |
| Retrieval.BlightExample | app.py:12-20 | the question "What causes blight in tomato plants?" against the one-document corpus "Tomato blight causes yellowing leaves." returns that document whole |
| Retrieval.RetrieveContextLoop | app.py:12-20 | the scan-test-append loop followed by `context[:2]` and the newline join computes exactly `RetrieveContext` |
| Templates.FinalQuery | app.py:156-161 | definition; properties in the rows below |
| Templates.FinalQueryText | app.py:156-161 | the combined query is fixed label chunks interleaved with the four fields, in the order question, region, temperature, climate |
| Templates.FinalQueryHoldsFields | app.py:156-161 | every form field, whatever it holds, appears verbatim in the combined query |
| Templates.FinalQueryRoundTrip | app.py:156-161 | every field can be read back unchanged from the combined query, blank fields included, so each field appears verbatim on its own labelled line |
| Templates.ParseFinalQuery | app.py:156-161 | the model's inverse of the query layout: a text it accepts yields fields that hold no line break |
| Templates.ParseFinalQuerySound | app.py:156-161 | any text that has the combined query's line layout is exactly the combined query of the fields read from it |
| Templates.CombinedQueryWords | app.py:156-163 | the words of the combined query are `User Question:`, the question's words, `Region:`, the region's words, `Temperature:`, the temperature's words, `°C Climate Type:`, then the climate's words |
| Templates.Prompt | app.py:25-35 | definition; properties in the rows below |
| Templates.PromptLayout | app.py:25-35 | the prompt holds the framing line, the context, the question and the instruction line in that order without overlap, and the context and question appear verbatim |
| Templates.PromptFraming | app.py:25-35 | whatever the context and question, the prompt starts with the framing line and ends with the instruction line |
| Advisor.ChatRequest | app.py:37-41 | definition; properties in the rows below |
| Advisor.AskRequest | app.py:23-41 | definition; properties in the rows below |
| Advisor.AskLlm | app.py:22-43 | definition; properties in the rows below |
| Advisor.Home | app.py:146-163 | definition; properties in the rows below |
| Advisor.FirstChoice | app.py:43 | an answer comes back exactly when the service replied with at least one choice, and it is the first choice's text verbatim; a raised service error becomes a failure |
| Advisor.AskRequestShape | app.py:22-41 | the request carries model `llama-3.1-8b-instant` and temperature 0.2, and has one user message; that message holds the framing, the context retrieved for the question, and the question, in order |
| Advisor.AskLlmOneRequest | app.py:37-43 | the answer depends on the service only through its reply to that single request |
| Advisor.HomeOneRequest | app.py:156-163 | the page `home` shows depends on the service only through its reply to the one request `ask_llm` makes for the combined query |
| Advisor.HomeRequestHoldsFields | app.py:156-163 | the one message `home` sends holds, in order, the framing, the context retrieved for the combined query, the combined query and the instruction, and so every form field verbatim |
| Advisor.LabelWordsAlwaysMatch | app.py:156-163 | because `home` retrieves with the combined query, a document that contains any label word, ignoring case, matches every request |
| Advisor.CombinedQuerySelectsForBlankQuestion | app.py:150-163 | a blank question retrieves nothing by itself, yet the combined query that `home` actually uses selects any document that mentions `climate` |

## Left out

- Flask routing, form parsing, the HTML page and its rendering (app.py:10,
  45-142, 145-153, 165-169) are web transport and markup. The form reaches the
  model as the four strings of `FormFields`.
- Loading `.env` and building the global `Groq` client (app.py:6-8) are process
  set-up. The remote completion call (app.py:37-41) is foreign network I/O, so
  it is a function parameter about which nothing is assumed.
- Directory listing and file reading (app.py:15-17) are filesystem I/O. The
  corpus is a given list of texts, because the order of `os.listdir` is
  unspecified. File names play no part in retrieval. Read errors are not
  modelled.
- Text.Lower: `str.lower()` is modelled on ASCII letters only. Full Unicode
  lower-casing can change a string's length and is not modelled.
- `message.content` can be `None` in the client library. The model takes each
  choice's text to be a string.
- Python exceptions become values: a raised service error becomes
  `ServiceFailed`, and an empty `choices` list, which raises `IndexError` in
  the source, becomes `NoChoice`.
- Templates.FinalQueryRoundTrip: holds only for fields without line breaks,
  because the source inserts fields verbatim and a field holding a line break
  makes the layout ambiguous.
- Retrieval matches against the combined query, labels included, and not
  against the raw question. The model keeps this behaviour as written and
  states its consequence in `Advisor.LabelWordsAlwaysMatch` and
  `Advisor.CombinedQuerySelectsForBlankQuestion`.
