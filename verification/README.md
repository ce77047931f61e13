# Answer-resolution policy of the general-questions agent

This project models, in Dafny, the decision logic of `QueryAgent`
(`query_agent.py`) and the response construction of the message handler
`on_message` (`agent_integration.py`). It proves properties of that model.

A question is first put to a language model. The model's answer is dropped
when it is missing, empty, or contains one of ten fixed "I lack real-time
information" or "generic non-answer" fragments. In that case the agent runs
a web search instead and reduces the returned snippets to one answer string.
The message handler turns the final answer into a response record that
always carries a non-empty text.

The model is split into modules that follow the source:

- `Wrappers` (`wrappers.dfy`): `Option`, standing in for Python's `None`-or-value.
- `Text` (`text.dfy`): the Python string operations the policy uses. It covers
  substring containment (`in`), ASCII `lower()`, `strip()` over Python's
  whitespace characters, `" ".join` and slicing. Containment is tied to the reference definition
  `IsInfix` and stripping to `IsStripOf`; `IsSubsequence` describes
  order-preserving selections.
- `Classifier` (`classifier.dfy`): `requires_real_time_info` and its ten fragments.
- `Search` (`search.dfy`): `get_real_time_answer` from the point where the HTTP
  call has produced a status and a body. It covers the status branch, the
  exception branch, snippet extraction, the keyword filter, the 2-versus-1 take
  and the final strip.
- `Resolver` (`resolver.dfy`): `answer_question`. The two remote services are
  function parameters, and the result also records which outbound calls were
  made, in order.
- `Integration` (`integration.dfy`): the response built by `on_message`.

Behaviours of the code worth knowing before reading the proofs:

- `answer_question` can return `None`. A search reply with status 200 and no
  results falls off the end of `get_real_time_answer` (query_agent.py:52 has
  no `else`), and `answer_question` passes that `None` on.
  `Resolver.MayResolveToNothing` proves this. Only the message handler
  guarantees a non-empty text (agent_integration.py:72), as
  `Integration.UnansweredFails` shows for every input.
- Only `on_message` substitutes "Could not process the question." for a
  missing answer. app.py returns the raw answer.
- A non-200 status returns the text "Sorry, I couldn't retrieve information
  at the moment." directly (query_agent.py:70-72).
- The keyword list contains "is", matched as a substring of the lower-cased
  snippet. So "Weather is sunny." is relevant through the keyword `is`. For
  the three snippets of `Search.MayorSnippets` the answer is the two relevant
  snippets joined by a space (`Search.MayorExample`).
- The indicator list is exactly the ten fragments at query_agent.py:92-101.

## Model

| member | source | states |
|---|---|---|
| Text.Contains | query_agent.py:104 | Python's `fragment in text` holds exactly when the fragment is a contiguous infix of the text, with case-sensitive character equality. |
| Text.AnyContained | query_agent.py:104 | `any(f in text for f in fragments)` holds exactly when some fragment of the list is an infix of the text. |
| Text.Lower | query_agent.py:60 | Lower-casing keeps the length, turns each ASCII capital into its lower-case letter, leaves no capital behind and changes no other character. |
| Text.Strip | query_agent.py:69 | `strip()` yields a contiguous piece of its input with only whitespace outside it, and that piece neither starts nor ends with whitespace. It is empty exactly when the input is all whitespace. |
| Text.StripUnique | query_agent.py:69 | That description of `strip()` has exactly one solution for any input, so it fully specifies the operation. |
| Text.StripIdempotent | query_agent.py:69 | Stripping an already stripped answer changes nothing. |
| Text.Take | query_agent.py:65-67 | `xs[:k]` is the prefix of `xs` of length `min(k, len(xs))`. |
| Text.Join | query_agent.py:65-67 | `sep.join` of no parts is empty, of one part is that part, and of two parts is the first, the separator and the second. |
| Classifier.RequiresRealTimeInfo | query_agent.py:88-104 | The classifier is true exactly when one of the ten fragments (seven real-time, three generic) occurs verbatim in the answer. |
| Classifier.EmptyNotFlagged | query_agent.py:92-104 | The empty answer is never flagged. |
| Classifier.FlaggedUpwardClosed | query_agent.py:104 | A flagged answer stays flagged when any text is added before or after it. |
| Classifier.FragmentWitness | query_agent.py:92-101 | Every one of the ten fragments contains `A`, `I`, `C` or `k`. |
| Classifier.NotFlaggedWithoutInitials | query_agent.py:92-101 | An answer with no `A`, `I`, `C` or `k` contains none of the fragments. |
| Classifier.LowerCaseIndicatorNotFlagged | query_agent.py:93 | Matching is case-sensitive: "as of my last update" in lower case is not flagged. |
| Classifier.DisclaimerFlagged | query_agent.py:93 | Every answer opening with "As of my last update" is flagged, whatever follows. |
| Classifier.FactualAnswerNotFlagged | query_agent.py:92-104 | "Paris is the capital of France." is not flagged. |
| Search.ExtractSnippets | query_agent.py:53 | Extraction succeeds exactly when every result has a snippet, and then yields the snippets in result order. |
| Search.IsRelevant | query_agent.py:55-60 | A snippet is relevant exactly when one of the ten keywords occurs in its lower-cased text. |
| Search.RelevanceIgnoresCase | query_agent.py:60 | A snippet and its lower-cased form are equally relevant. |
| Search.RelevantSnippets | query_agent.py:58-61 | The filter returns an order-preserving subsequence of the snippets in their original casing. It contains every relevant snippet and only relevant ones, and it is empty exactly when no snippet is relevant. |
| Search.RelevantSnippetsAppend | query_agent.py:58-61 | Filtering distributes over concatenation of snippet lists. |
| Search.FirstRelevantLeads | query_agent.py:58-65 | The first relevant snippet of the list heads the filtered list. |
| Search.Selected | query_agent.py:64-67 | At most two snippets are used, each one of the input snippets, in their original order, and none only when there are no snippets. When some snippet is relevant, the selection is the first two relevant snippets, or the only one when just one is relevant; otherwise it is exactly the first snippet. |
| Search.RankSnippets | query_agent.py:64-69 | The answer is the strip of the selected snippets joined by one space. |
| Search.RankNoSnippets | query_agent.py:64-69 | Ranking an empty list gives the empty string. |
| Search.RankWithoutRelevant | query_agent.py:66-69 | With no relevant snippet, the answer is the first snippet, stripped. |
| Search.RankWithRelevant | query_agent.py:64-69 | With relevant snippets, the answer is the first relevant one stripped, or the first two joined by one space and then stripped. |
| Search.RankTwoRelevant | query_agent.py:64-69 | With exactly two relevant snippets and no whitespace at the outer ends, the answer is the two joined by one space. |
| Search.GetRealTimeAnswer | query_agent.py:45-76 | The search result is `None` exactly for a status-200 reply with no results. An exception gives "Error retrieving real-time information.", as does a result without a snippet. Any other status gives "Sorry, I couldn't retrieve information at the moment." Otherwise the answer is the strip of the selected snippets joined by a space. |
| Search.FailureKindsDistinct | query_agent.py:70-76 | An error status and an exception give different answers. |
| Search.NoResultsGiveNoAnswer | query_agent.py:49-52 | The search gives no answer at all exactly when the reply has status 200 and no results. |
| Search.HeadlineRelevant | query_agent.py:55-60 | "The mayor is currently John Smith." is relevant. |
| Search.WeatherRelevant | query_agent.py:55-60 | "Weather is sunny." is relevant, through the keyword "is". |
| Search.KeywordsAbsentFromTrivia | query_agent.py:55 | No keyword occurs in "random trivia.". |
| Search.RandomTriviaNotRelevant | query_agent.py:55-60 | "Random trivia." contains no keyword. |
| Search.MayorRelevantSnippets | query_agent.py:58-61 | Of the three example snippets, the filter keeps the first and the third. |
| Search.MayorExample | query_agent.py:64-69 | The three example snippets rank to the first and third joined by a space. |
| Search.PairsAbsentFromFirst | query_agent.py:55 | "title", "current", "is" and "latest" do not occur in "first unrelated sentence.". |
| Search.KeywordsAbsentFromFirst | query_agent.py:55 | No keyword occurs in "first unrelated sentence.". |
| Search.PairsAbsentFromSecond | query_agent.py:55 | "role", "current", "now" and "latest" do not occur in "second unrelated sentence.". |
| Search.KeywordsAbsentFromSecond | query_agent.py:55 | No keyword occurs in "second unrelated sentence.". |
| Search.UnrelatedNoneRelevant | query_agent.py:58-61 | Neither of the two unrelated example sentences is relevant. |
| Search.UnrelatedExample | query_agent.py:66-69 | Two unrelated sentences rank to the first one alone. |
| Resolver.NeedsFallback | query_agent.py:83 | Fallback is needed exactly when the model answer is missing, empty or flagged. |
| Resolver.AnswerQuestion | query_agent.py:78-86 | An acceptable model answer is returned unchanged after a single model call. Otherwise the search result is returned as it is, after one model call and then one search call, both with the question. |
| Resolver.CallsCarryQuestion | query_agent.py:82-85 | The model is called first and exactly once, the search at most once, and both with the question itself. |
| Resolver.SearchNotConsulted | query_agent.py:82-86 | When the model answer is acceptable, the search service cannot affect the result. |
| Resolver.FallbackIgnoresModelAnswer | query_agent.py:83-85 | When the model answer is not acceptable, it has no influence on the final answer. |
| Resolver.MayResolveToNothing | query_agent.py:83-86 | A failed model call followed by a status-200 search reply without results resolves to `None`. |
| Resolver.AnswerOrigins | query_agent.py:78-86 | Every answer is the acceptable model answer, one of the two search sentinels, or the ranking of the search snippets. |
| Resolver.DisclaimerFallsBack | query_agent.py:82-86 | Every model answer opening with "As of my last update" is replaced by the search result. |
| Resolver.FactualAnswerKept | query_agent.py:82-86 | "Paris is the capital of France." is returned unchanged and no search is made. |
| Integration.BuildResponse | agent_integration.py:67-73 | The response has action "general_questions" and copies both identifiers. It is successful exactly when the answer is present and non-empty, and then carries that answer. Otherwise it carries "Could not process the question.", so the text is never empty. |
| Integration.ResponseRoundTrip | agent_integration.py:71-72 | Reading the answer back from a response recovers it when it was truthy, and gives `None` otherwise. |
| Integration.ResponseIgnoresQuestion | agent_integration.py:67-70 | The response depends on the request only through its two identifiers. |
| Integration.OnMessage | agent_integration.py:57-76 | Handling a message sends exactly one response. The outbound calls are exactly those `answer_question` makes for `message.action`: the model first, the search only on fallback. The response has the fixed action, both identifiers copied, and a non-empty text. |
| Integration.OnMessageSuccess | agent_integration.py:61-72 | The response is successful exactly when the resolver's answer for `message.action` is non-empty, and then it carries that answer. |
| Integration.UnansweredFails | agent_integration.py:64-72 | Whenever resolution ends with no answer or an empty one, the response is marked failed and carries "Could not process the question.". |
| Integration.NoResultsStillAnswered | agent_integration.py:64-72 | When the model gives nothing and the search replies 200 with no results, a failed response with "Could not process the question." is still sent. |

## Left out

- The language-model call (query_agent.py:8-37) is left out: the URL, the API key from the environment, the prompt template, the generation parameters and the JSON indexing. It is the parameter `model`, and its result is taken to be already stripped (line 30). A failed call is `None`.
- The search request (query_agent.py:43-46) is left out: the URL, the API-key header and the HTTP GET. The traversal of `webPages.value` (line 49) is also left out. These are the `SearchOutcome` value: a status plus the result objects, or an exception. A body without `webPages` or without `value`, or whose `value` is falsy (null, 0, "", false, {}), behaves like `Replied(200, [])` and gives `None`. A body that makes the traversal raise (a `webPages` that is not an object, a `value` that is a non-empty string) is the exception case.
- A snippet field that is not a string is not modelled. Snippets are strings, or absent, which raises and gives the error sentinel.
- Text.Lower: lower-cases ASCII letters only, where Python's `str.lower()` covers Unicode. Every keyword is ASCII and none contains `k` or ends in `i`. The only non-ASCII characters Python lower-cases into ASCII are the Kelvin sign (to `k`) and `İ` (to `i` plus a combining dot), so the relevance verdict is the same either way. The returned snippets keep their original casing in both.
- Text.Strip uses the set of characters for which Python's `str.isspace()` holds. Unicode normalisation is not modelled.
- The `print` logging is not modelled.
- app.py is not modelled. It is an HTTP wrapper, and its only decision is the 400 reply for an empty question.
- agent_integration.py lines 1-55 and 78-94 are not modelled: environment and queue configuration, agent registration and unregistration, consumer wiring and signal-driven shutdown. They are I/O and lifecycle around helpers that are not part of this model. The `send_message` call is the `sent` list of `Integration.Handling`.
- The remote calls have no timeouts and no retries, and no concurrency is modelled. Each message is handled by one sequential resolution.
