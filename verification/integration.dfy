/** The response construction of `on_message` in agent_integration.py: one
    queue message in, one response out. Queue wiring and agent registration
    are not part of this model. */
module Integration {
  import opened Wrappers
  import Search
  import opened Resolver

  /** The agent's identifier, sent as the `action` of every response. */
  const AgentIdentifier: string := "general_questions"

  /** The response text when no usable answer was found. */
  const FailureResponse: string := "Could not process the question."

  /** The fields of an incoming request that the handler reads. */
  datatype Request = Request(action: string, userIdentifier: string, promptIdentifier: string)

  /** The response message sent back. */
  datatype Response = Response(
    action: string,
    userIdentifier: string,
    promptIdentifier: string,
    actionSuccessful: bool,
    actionResponse: string)

  /** Everything handling one message does: its outbound calls and the
      messages it sends. */
  datatype Handling = Handling(calls: seq<Call>, sent: seq<Response>)

  /** Python truthiness of an optional string. */
  predicate Truthy(answer: Option<string>) {
    answer.Some? && answer.value != ""
  }

  /** Builds the response for a request from the resolver's answer. */
  function BuildResponse(message: Request, answer: Option<string>): (r: Response)
    ensures r.action == AgentIdentifier
    ensures r.userIdentifier == message.userIdentifier
    ensures r.promptIdentifier == message.promptIdentifier
    ensures r.actionSuccessful <==> answer.Some? && answer.value != ""
    ensures r.actionSuccessful ==> r.actionResponse == answer.value
    ensures !r.actionSuccessful ==> r.actionResponse == FailureResponse
    ensures r.actionResponse != ""
  {
    Response(
      AgentIdentifier,
      message.userIdentifier,
      message.promptIdentifier,
      Truthy(answer),
      if Truthy(answer) then answer.value else FailureResponse)
  }

  /** Reads an answer back out of a response. */
  function AnswerOf(r: Response): Option<string> {
    if r.actionSuccessful then Some(r.actionResponse) else None
  }

  /** The response loses exactly the difference between `None` and `""`:
      reading it back gives the answer when that is truthy, else `None`. */
  lemma ResponseRoundTrip(message: Request, answer: Option<string>)
    ensures AnswerOf(BuildResponse(message, answer)) == (if Truthy(answer) then answer else None)
  {
  }

  /** The response depends on the request only through its identifiers:
      the question text is not echoed. */
  lemma ResponseIgnoresQuestion(m1: Request, m2: Request, answer: Option<string>)
    requires m1.userIdentifier == m2.userIdentifier && m1.promptIdentifier == m2.promptIdentifier
    ensures BuildResponse(m1, answer) == BuildResponse(m2, answer)
  {
  }

  /** Handles one message: resolve `message.action`, then send one response. */
  function OnMessage(message: Request, model: string -> Option<string>,
                     search: string -> Search.SearchOutcome): (h: Handling)
    ensures |h.sent| == 1
    ensures 1 <= |h.calls| <= 2
    ensures forall k :: 0 <= k < |h.calls| ==> h.calls[k].question == message.action
    ensures h.calls == AnswerQuestion(message.action, model, search).calls
    ensures h.sent[0].action == AgentIdentifier
    ensures h.sent[0].userIdentifier == message.userIdentifier
    ensures h.sent[0].promptIdentifier == message.promptIdentifier
    ensures h.sent[0].actionResponse != ""
  {
    var resolution := AnswerQuestion(message.action, model, search);
    CallsCarryQuestion(message.action, model, search);
    Handling(resolution.calls, [BuildResponse(message, resolution.answer)])
  }

  /** Exactly when the resolver produces a non-empty answer is the response
      marked successful, and then it carries that answer. */
  lemma OnMessageSuccess(message: Request, model: string -> Option<string>,
                         search: string -> Search.SearchOutcome)
    ensures var answer := AnswerQuestion(message.action, model, search).answer;
      var r := OnMessage(message, model, search).sent[0];
      && (r.actionSuccessful <==> Truthy(answer))
      && (r.actionSuccessful ==> Some(r.actionResponse) == answer)
  {
  }

  /** Whenever resolution ends without a usable answer, the response is
      marked failed and carries the fixed failure text. */
  lemma UnansweredFails(message: Request, model: string -> Option<string>,
                        search: string -> Search.SearchOutcome)
    requires !Truthy(AnswerQuestion(message.action, model, search).answer)
    ensures var r := OnMessage(message, model, search).sent[0];
      !r.actionSuccessful && r.actionResponse == FailureResponse
  {
  }

  /** A search reply without results still yields a response, marked failed. */
  lemma NoResultsStillAnswered(message: Request)
    ensures var r := OnMessage(message, q => None, q => Search.Replied(Search.OkStatus, [])).sent[0];
      !r.actionSuccessful && r.actionResponse == FailureResponse
  {
    UnansweredFails(message, q => None, q => Search.Replied(Search.OkStatus, []));
  }
}
