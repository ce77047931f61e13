/** `QueryAgent.answer_question`: ask the language model, and fall back to
    the web search when its answer is missing, empty or flagged. The two
    remote services are parameters: `model` maps a question to the model's
    (already stripped) answer, or `None` when the call failed; `search`
    maps a question to the outcome of the search call. */
module Resolver {
  import opened Wrappers
  import opened Classifier
  import opened Search

  /** An outbound call made while resolving a question. */
  datatype Call =
    | ModelCall(question: string)
    | SearchCall(question: string)

  /** The final answer together with the outbound calls made, in order. */
  datatype Resolution = Resolution(answer: Option<string>, calls: seq<Call>)

  /** Reference meaning: a model answer is kept when it is present,
      non-empty and contains no indicator fragment. */
  ghost predicate Acceptable(answer: Option<string>) {
    answer.Some? && answer.value != "" && !Flagged(answer.value)
  }

  /** `not answer or self.requires_real_time_info(answer)`. */
  predicate NeedsFallback(answer: Option<string>)
    ensures NeedsFallback(answer) <==> !Acceptable(answer)
  {
    match answer
    case None => true
    case Some(a) => a == "" || RequiresRealTimeInfo(a)
  }

  /** Resolves one question. The model is always asked first; the search is
      asked, once, exactly when the model's answer is not acceptable, and
      its result is then returned as it is. */
  function AnswerQuestion(question: string, model: string -> Option<string>,
                          search: string -> SearchOutcome): (r: Resolution)
    ensures Acceptable(model(question)) ==>
      r.answer == model(question) && r.calls == [ModelCall(question)]
    ensures !Acceptable(model(question)) ==>
      r.answer == GetRealTimeAnswer(search(question)) &&
      r.calls == [ModelCall(question), SearchCall(question)]
  {
    var answer := model(question);
    if NeedsFallback(answer) then
      Resolution(GetRealTimeAnswer(search(question)), [ModelCall(question), SearchCall(question)])
    else
      Resolution(answer, [ModelCall(question)])
  }

  /** Every outbound call carries the question itself, the model is called
      exactly once and first, and the search at most once. */
  lemma CallsCarryQuestion(question: string, model: string -> Option<string>,
                           search: string -> SearchOutcome)
    ensures var r := AnswerQuestion(question, model, search);
      && 1 <= |r.calls| <= 2
      && r.calls[0] == ModelCall(question)
      && forall k :: 1 <= k < |r.calls| ==> r.calls[k] == SearchCall(question)
  {
  }

  /** When the model's answer is acceptable the search service has no
      influence on the result. */
  lemma SearchNotConsulted(question: string, model: string -> Option<string>,
                           search1: string -> SearchOutcome, search2: string -> SearchOutcome)
    requires Acceptable(model(question))
    ensures AnswerQuestion(question, model, search1) == AnswerQuestion(question, model, search2)
  {
  }

  /** Conversely, when the model's answer is not acceptable the result is
      whatever the search path yields, and the model answer is discarded. */
  lemma FallbackIgnoresModelAnswer(question: string, model1: string -> Option<string>,
                                   model2: string -> Option<string>, search: string -> SearchOutcome)
    requires !Acceptable(model1(question)) && !Acceptable(model2(question))
    ensures AnswerQuestion(question, model1, search).answer == AnswerQuestion(question, model2, search).answer
  {
  }

  /** A failed model call followed by a successful search without results
      resolves to no answer at all: the resolver does not guarantee one. */
  lemma MayResolveToNothing(question: string)
    ensures AnswerQuestion(question, q => None, q => Replied(OkStatus, [])).answer == None
  {
  }

  /** Every answer the resolver gives is the model's acceptable answer, one
      of the two search sentinels, or a ranking of the search snippets. */
  lemma AnswerOrigins(question: string, model: string -> Option<string>,
                      search: string -> SearchOutcome)
    ensures var a := AnswerQuestion(question, model, search).answer;
      a.Some? ==>
        || (Acceptable(model(question)) && a == model(question))
        || a.value == StatusSentinel
        || a.value == ErrorSentinel
        || (search(question).Replied? && search(question).status == OkStatus &&
            ExtractSnippets(search(question).results).Some? &&
            a.value == RankSnippets(ExtractSnippets(search(question).results).value))
  {
  }

  /** An answer that opens with a disclaimer is discarded in favour of the
      search result. */
  lemma DisclaimerFallsBack(question: string, rest: string, search: string -> SearchOutcome)
    ensures AnswerQuestion(question, q => Some("As of my last update" + rest), search).answer
            == GetRealTimeAnswer(search(question))
  {
    DisclaimerFlagged(rest);
  }

  /** A plain factual answer is returned unchanged, without a search. */
  lemma FactualAnswerKept(question: string, search: string -> SearchOutcome)
    ensures AnswerQuestion(question, q => Some("Paris is the capital of France."), search)
            == Resolution(Some("Paris is the capital of France."), [ModelCall(question)])
  {
    FactualAnswerNotFlagged();
  }
}
