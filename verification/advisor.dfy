/**
 `ask_llm` and the POST branch of `home`: retrieve context, build the prompt,
 send one chat-completion request and return the first choice's text. The
 remote service is a parameter: a function from request to reply, about
 which nothing is assumed.
 */
module Advisor {
  import opened Text
  import opened Results
  import opened Retrieval
  import opened Templates

  /** The model identifier every request names. */
  const ModelName: string := "llama-3.1-8b-instant"

  /** The sampling temperature every request carries. */
  const SamplingTemperature: real := 0.2

  const UserRole: string := "user"

  datatype Message = Message(role: string, content: string)

  datatype CompletionRequest = CompletionRequest(model: string, messages: seq<Message>, temperature: real)

  /** A completion response, each choice reduced to its message text. */
  datatype CompletionResponse = CompletionResponse(choices: seq<string>)

  /** What the call to the service yields: a response, or an error it raised
      (network, authentication). */
  datatype ServiceReply = Replied(response: CompletionResponse) | Raised

  /** Why no answer came back: the service raised, or its response had no
      choice to index. */
  datatype AdviceError = ServiceFailed | NoChoice

  type CompletionService = CompletionRequest -> ServiceReply

  /** The request `ask_llm` sends for a prompt: one user message. */
  function ChatRequest(prompt: string): CompletionRequest {
    CompletionRequest(ModelName, [Message(UserRole, prompt)], SamplingTemperature)
  }

  /** The request `ask_llm(question)` sends, with the context retrieved for
      that same question. */
  function AskRequest(corpus: seq<string>, question: string): CompletionRequest {
    ChatRequest(Prompt(RetrieveContext(corpus, question), question))
  }

  /** The text of the first choice of the service's response, with the error
      the service raises and a missing first choice as failures. */
  function FirstChoice(reply: ServiceReply): (r: Result<string, AdviceError>)
    ensures r.Success? <==> reply.Replied? && |reply.response.choices| > 0
    ensures r.Success? ==> r.value == reply.response.choices[0]
    ensures reply.Raised? ==> r == Failure(ServiceFailed)
  {
    match reply
    case Raised => Failure(ServiceFailed)
    case Replied(response) =>
      if |response.choices| == 0 then Failure(NoChoice) else Success(response.choices[0])
  }

  /** `ask_llm(question)`. */
  function AskLlm(corpus: seq<string>, question: string, service: CompletionService): Result<string, AdviceError> {
    FirstChoice(service(AskRequest(corpus, question)))
  }

  /** The POST branch of `home`: the combined query is both what retrieval
      matches against and the question the prompt carries. */
  function Home(corpus: seq<string>, form: FormFields, service: CompletionService): Result<string, AdviceError> {
    AskLlm(corpus, FinalQuery(form), service)
  }

  /** What the service is given: one user message holding the framing, the
      context retrieved for the question and the question, in that order,
      under the fixed model name and temperature. */
  lemma AskRequestShape(corpus: seq<string>, question: string)
    ensures AskRequest(corpus, question).model == "llama-3.1-8b-instant"
    ensures AskRequest(corpus, question).temperature == 0.2
    ensures |AskRequest(corpus, question).messages| == 1
    ensures AskRequest(corpus, question).messages[0].role == "user"
    ensures OccursInOrder(AskRequest(corpus, question).messages[0].content,
                          [FramingLine, RetrieveContext(corpus, question), question, InstructionLine])
  {
    PromptLayout(RetrieveContext(corpus, question), question);
  }

  /** The answer depends on the service only through its reply to that one
      request: two services that agree on it give the same answer. */
  lemma AskLlmOneRequest(corpus: seq<string>, question: string, s1: CompletionService, s2: CompletionService)
    requires s1(AskRequest(corpus, question)) == s2(AskRequest(corpus, question))
    ensures AskLlm(corpus, question, s1) == AskLlm(corpus, question, s2)
  {
  }

  /** `home` asks through the same single request as `ask_llm` on the combined
      query: two services that agree on that request give the same page. */
  lemma HomeOneRequest(corpus: seq<string>, form: FormFields, s1: CompletionService, s2: CompletionService)
    requires s1(AskRequest(corpus, FinalQuery(form))) == s2(AskRequest(corpus, FinalQuery(form)))
    ensures Home(corpus, form, s1) == Home(corpus, form, s2)
  {
  }

  /** The one message `home` sends holds the context retrieved for the combined
      query, the combined query itself, and so every form field verbatim. */
  lemma HomeRequestHoldsFields(corpus: seq<string>, form: FormFields)
    ensures OccursInOrder(AskRequest(corpus, FinalQuery(form)).messages[0].content,
                          [FramingLine, RetrieveContext(corpus, FinalQuery(form)), FinalQuery(form), InstructionLine])
    ensures Contains(AskRequest(corpus, FinalQuery(form)).messages[0].content, form.question)
    ensures Contains(AskRequest(corpus, FinalQuery(form)).messages[0].content, form.region)
    ensures Contains(AskRequest(corpus, FinalQuery(form)).messages[0].content, form.temperature)
    ensures Contains(AskRequest(corpus, FinalQuery(form)).messages[0].content, form.climate)
  {
    var query := FinalQuery(form);
    var message := AskRequest(corpus, query).messages[0].content;
    AskRequestShape(corpus, query);
    PromptLayout(RetrieveContext(corpus, query), query);
    FinalQueryHoldsFields(form);
    ContainsTransitive(message, query, form.question);
    ContainsTransitive(message, query, form.region);
    ContainsTransitive(message, query, form.temperature);
    ContainsTransitive(message, query, form.climate);
  }

  /** The label words the combined query always adds to the question's words. */
  const LabelWords: seq<string> := ["User", "Question:", "Region:", "Temperature:", "\U{B0}C", "Climate", "Type:"]

  /** Because `home` retrieves with the combined query, a document that holds
      any label word (say `climate`, in any case) matches every request,
      whatever the question and the other fields are. */
  lemma LabelWordsAlwaysMatch(form: FormFields, doc: string, k: nat)
    requires k < |LabelWords|
    requires Contains(Lower(doc), Lower(LabelWords[k]))
    ensures Matches(FinalQuery(form), doc)
  {
    CombinedQueryWords(form);
    var words := Split(FinalQuery(form));
    var q, r, t := |Split(form.question)|, |Split(form.region)|, |Split(form.temperature)|;
    var at :=
      if k < 2 then k
      else if k == 2 then 2 + q
      else if k == 3 then 3 + q + r
      else 4 + q + r + t + (k - 4);
    assert words[at] == LabelWords[k];
  }

  /** The wiring in one statement: a blank question retrieves nothing on its
      own, yet the combined query `home` actually retrieves with selects any
      document that mentions `climate`. */
  lemma CombinedQuerySelectsForBlankQuestion(corpus: seq<string>, form: FormFields, i: nat)
    requires AllSpace(form.question)
    requires i < |corpus| && Contains(Lower(corpus[i]), "climate")
    ensures RetrieveContext(corpus, form.question) == []
    ensures RetrieveContext(corpus, FinalQuery(form)) != []
  {
    BlankQuestionEmptyContext(corpus, form.question);
    assert Lower(LabelWords[5]) == "climate";
    LabelWordsAlwaysMatch(form, corpus[i], 5);
    RetrieveEmptyIff(corpus, FinalQuery(form));
  }
}
