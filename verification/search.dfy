/** The web-search fallback of `QueryAgent.get_real_time_answer`, from the
    moment the HTTP call has produced an outcome: the status check, the
    exception handler, snippet extraction and the keyword ranker. */
module Search {
  import opened Wrappers
  import opened Text

  /** Words whose presence (in the lower-cased snippet) makes a snippet relevant. */
  const Keywords: seq<string> :=
    ["currently", "title", "role", "current", "today", "now", "is", "latest", "update", "position"]

  /** The only status treated as success. */
  const OkStatus: int := 200

  /** Returned when the search service answers with any other status. */
  const StatusSentinel: string := "Sorry, I couldn't retrieve information at the moment."

  /** Returned when anything in the search block raises. */
  const ErrorSentinel: string := "Error retrieving real-time information."

  /** What the search call produced. `Replied` carries the status and the
      result objects of the parsed body, each with its `snippet` field if
      present; `Raised` is an exception from the request or from decoding
      the body. */
  datatype SearchOutcome =
    | Replied(status: int, results: seq<Option<string>>)
    | Raised

  // ---------------------------------------------------------------------
  // Snippet extraction
  // ---------------------------------------------------------------------

  /** `[result['snippet'] for result in results]`: `None` when some result has
      no `snippet` field, which raises in the source. */
  function ExtractSnippets(results: seq<Option<string>>): (r: Option<seq<string>>)
    ensures r.Some? <==> forall k :: 0 <= k < |results| ==> results[k].Some?
    ensures r.Some? ==> |r.value| == |results|
    ensures r.Some? ==> forall k :: 0 <= k < |results| ==> r.value[k] == results[k].value
  {
    if |results| == 0 then Some([])
    else match (results[0], ExtractSnippets(results[1..]))
      case (Some(s), Some(rest)) => Some([s] + rest)
      case _ => None
  }

  // ---------------------------------------------------------------------
  // Relevance
  // ---------------------------------------------------------------------

  /** Reference meaning: some keyword occurs in the lower-cased snippet. */
  ghost predicate Relevant(snippet: string) {
    exists k :: 0 <= k < |Keywords| && IsInfix(Keywords[k], Lower(snippet))
  }

  /** `any(keyword in snippet.lower() for keyword in keywords)`. */
  function IsRelevant(snippet: string): (b: bool)
    ensures b <==> Relevant(snippet)
  {
    AnyContained(Keywords, Lower(snippet))
  }

  /** Relevance ignores ASCII case. */
  lemma RelevanceIgnoresCase(snippet: string)
    ensures IsRelevant(Lower(snippet)) == IsRelevant(snippet)
  {
    LowerIdempotent(snippet);
  }

  ghost predicate NoneRelevant(snippets: seq<string>) {
    forall k :: 0 <= k < |snippets| ==> !Relevant(snippets[k])
  }

  /** The relevant snippets, in their original order and casing. */
  function RelevantSnippets(snippets: seq<string>): (r: seq<string>)
    ensures IsSubsequence(r, snippets)
    ensures forall k :: 0 <= k < |r| ==> Relevant(r[k])
    ensures forall k :: 0 <= k < |snippets| && Relevant(snippets[k]) ==> snippets[k] in r
    ensures r == [] <==> NoneRelevant(snippets)
  {
    if |snippets| == 0 then []
    else
      var rest := RelevantSnippets(snippets[1..]);
      assert forall k :: 1 <= k < |snippets| ==> snippets[k] == snippets[1..][k - 1];
      if IsRelevant(snippets[0]) then [snippets[0]] + rest else rest
  }

  /** Filtering distributes over concatenation; with the one-element cases
      this determines `RelevantSnippets` completely. */
  lemma {:induction false} RelevantSnippetsAppend(a: seq<string>, b: seq<string>)
    ensures RelevantSnippets(a + b) == RelevantSnippets(a) + RelevantSnippets(b)
    decreases |a|
  {
    if |a| == 0 {
      assert a + b == b;
    } else {
      assert (a + b)[1..] == a[1..] + b;
      RelevantSnippetsAppend(a[1..], b);
    }
  }

  /** The first relevant snippet heads the filtered list. */
  lemma {:induction false} FirstRelevantLeads(snippets: seq<string>, k: nat)
    requires k < |snippets| && Relevant(snippets[k])
    requires forall j :: 0 <= j < k ==> !Relevant(snippets[j])
    ensures |RelevantSnippets(snippets)| > 0 && RelevantSnippets(snippets)[0] == snippets[k]
    decreases k
  {
    if k > 0 {
      FirstRelevantLeads(snippets[1..], k - 1);
    }
  }

  // ---------------------------------------------------------------------
  // Ranking
  // ---------------------------------------------------------------------

  /** The snippets that go into the answer: the first two relevant ones, or
      failing that the first snippet. */
  function Selected(snippets: seq<string>): (c: seq<string>)
    ensures |c| <= 2
    ensures IsSubsequence(c, snippets)
    ensures forall k :: 0 <= k < |c| ==> c[k] in snippets
    ensures c == [] <==> snippets == []
    ensures !NoneRelevant(snippets) ==> forall k :: 0 <= k < |c| ==> Relevant(c[k])
    ensures !NoneRelevant(snippets) ==>
      && c <= RelevantSnippets(snippets)
      && |c| == (if |RelevantSnippets(snippets)| >= 2 then 2 else |RelevantSnippets(snippets)|)
    ensures NoneRelevant(snippets) && snippets != [] ==> c == [snippets[0]]
  {
    var relevant := RelevantSnippets(snippets);
    var c := if |relevant| > 0 then Take(relevant, 2) else Take(snippets, 1);
    assert IsSubsequence(c, snippets) by {
      if |relevant| > 0 {
        SubsequencePrefix(relevant, snippets, |c|);
      }
    }
    assert forall k :: 0 <= k < |c| ==> c[k] in snippets by {
      forall k | 0 <= k < |c| ensures c[k] in snippets {
        SubsequenceMembers(c, snippets, c[k]);
      }
    }
    c
  }

  /** The ranked answer for a list of snippets. */
  function RankSnippets(snippets: seq<string>): (r: string)
    ensures IsStripOf(r, Join(" ", Selected(snippets)))
  {
    Strip(Join(" ", Selected(snippets)))
  }

  /** With no snippets there is nothing to join, and the answer is empty. */
  lemma RankNoSnippets()
    ensures RankSnippets([]) == ""
  {
  }

  /** With no relevant snippet, the answer is the first snippet, stripped. */
  lemma RankWithoutRelevant(snippets: seq<string>)
    requires snippets != [] && NoneRelevant(snippets)
    ensures RankSnippets(snippets) == Strip(snippets[0])
  {
  }

  /** With relevant snippets, the answer joins the first one or two of them
      with a single space, then strips. */
  lemma RankWithRelevant(snippets: seq<string>)
    requires !NoneRelevant(snippets)
    ensures var relevant := RelevantSnippets(snippets);
      && (|relevant| == 1 ==> RankSnippets(snippets) == Strip(relevant[0]))
      && (|relevant| >= 2 ==> RankSnippets(snippets) == Strip(relevant[0] + " " + relevant[1]))
  {
    var relevant := RelevantSnippets(snippets);
    if |relevant| >= 2 {
      assert Selected(snippets) == [relevant[0], relevant[1]];
      assert Join(" ", [relevant[0], relevant[1]]) == relevant[0] + " " + Join(" ", [relevant[1]]);
    }
  }

  // ---------------------------------------------------------------------
  // The whole reducer
  // ---------------------------------------------------------------------

  /** The answer of the web-search fallback for a given search outcome:
      a sentinel for each kind of failure, `None` for a successful reply
      without results, and otherwise the ranked snippets. */
  function GetRealTimeAnswer(outcome: SearchOutcome): (r: Option<string>)
    ensures r.None? <==> outcome.Replied? && outcome.status == OkStatus && outcome.results == []
    ensures outcome.Raised? ==> r == Some(ErrorSentinel)
    ensures outcome.Replied? && outcome.status != OkStatus ==> r == Some(StatusSentinel)
    ensures outcome.Replied? && outcome.status == OkStatus && ExtractSnippets(outcome.results).None? ==>
      r == Some(ErrorSentinel)
    ensures (outcome.Replied? && outcome.status == OkStatus && outcome.results != [] &&
             ExtractSnippets(outcome.results).Some?) ==>
      r.Some? && IsStripOf(r.value, Join(" ", Selected(ExtractSnippets(outcome.results).value)))
  {
    match outcome
    case Raised => Some(ErrorSentinel)
    case Replied(status, results) =>
      if status != OkStatus then Some(StatusSentinel)
      else if |results| == 0 then None
      else match ExtractSnippets(results)
        case None => Some(ErrorSentinel)
        case Some(snippets) => Some(RankSnippets(snippets))
  }

  /** The two failure kinds are told apart by their sentinels. */
  lemma FailureKindsDistinct(status: int, results: seq<Option<string>>)
    requires status != OkStatus
    ensures GetRealTimeAnswer(Raised) != GetRealTimeAnswer(Replied(status, results))
  {
  }

  /** A successful reply without results is the only way to get no answer. */
  lemma NoResultsGiveNoAnswer(outcome: SearchOutcome)
    ensures GetRealTimeAnswer(outcome).None? <==> outcome == Replied(OkStatus, [])
  {
  }

  // ---------------------------------------------------------------------
  // Worked examples
  // ---------------------------------------------------------------------

  const MayorSnippets: seq<string> :=
    ["The mayor is currently John Smith.", "Random trivia.", "Weather is sunny."]

  /** The lower-cased "Random trivia.". */
  lemma LowerRandomTrivia()
    ensures Lower("Random trivia.") == "random trivia."
  {
  }

  /** Absence stated per keyword carries over to absence per index. */
  lemma KeywordsAbsent(h: string)
    requires forall w | w in Keywords :: !IsInfix(w, h)
    ensures forall k | 0 <= k < |Keywords| :: !IsInfix(Keywords[k], h)
  {
    forall k | 0 <= k < |Keywords| ensures !IsInfix(Keywords[k], h) {
      assert Keywords[k] in Keywords;
    }
  }

  /** No keyword occurs in "random trivia.". */
  lemma KeywordsAbsentFromTrivia()
    ensures forall k | 0 <= k < |Keywords| :: !IsInfix(Keywords[k], "random trivia.")
  {
    var low := "random trivia.";
    forall w | w in Keywords ensures !IsInfix(w, low) {
      if w == "currently" || w == "current" {
        NotInfixByMissingChar(w, low, 'c');
      } else if w == "title" || w == "role" || w == "latest" {
        NotInfixByMissingChar(w, low, 'l');
      } else if w == "today" {
        NotInfixByMissingChar(w, low, 'y');
      } else if w == "now" {
        NotInfixByMissingChar(w, low, 'w');
      } else if w == "is" {
        NotInfixByMissingChar(w, low, 's');
      } else if w == "update" {
        NotInfixByMissingChar(w, low, 'u');
      } else {
        NotInfixByMissingChar(w, low, 'p');
      }
    }
    KeywordsAbsent(low);
  }

  /** "Random trivia." mentions no keyword. */
  lemma RandomTriviaNotRelevant()
    ensures !IsRelevant("Random trivia.")
  {
    LowerRandomTrivia();
    KeywordsAbsentFromTrivia();
  }

  /** "is" matches inside any word, so this headline is relevant. */
  lemma HeadlineRelevant()
    ensures IsRelevant("The mayor is currently John Smith.")
  {
    var low := Lower("The mayor is currently John Smith.");
    assert low[10] == 'i' && low[11] == 's';
    assert OccursAt(Keywords[6], low, 10);
  }

  /** "Weather is sunny." is relevant through the keyword "is". */
  lemma WeatherRelevant()
    ensures IsRelevant("Weather is sunny.")
  {
    var low := Lower("Weather is sunny.");
    assert low[8] == 'i' && low[9] == 's';
    assert OccursAt(Keywords[6], low, 8);
  }

  /** Filtering three snippets keeps exactly the relevant ones, in order. */
  lemma {:induction false} RelevantOfThree(x: string, y: string, z: string)
    ensures RelevantSnippets([x, y, z]) ==
      (if IsRelevant(x) then [x] else []) + (if IsRelevant(y) then [y] else []) +
      (if IsRelevant(z) then [z] else [])
  {
    assert [x, y, z][1..] == [y, z];
    assert [y, z][1..] == [z];
    assert [z][1..] == [];
    assert RelevantSnippets([z]) == (if IsRelevant(z) then [z] else []);
    assert RelevantSnippets([y, z]) == (if IsRelevant(y) then [y] else []) + RelevantSnippets([z]);
  }

  /** Filtering the three example snippets keeps the first and the last. */
  lemma MayorRelevantSnippets()
    ensures RelevantSnippets(MayorSnippets) == [MayorSnippets[0], MayorSnippets[2]]
  {
    HeadlineRelevant();
    RandomTriviaNotRelevant();
    WeatherRelevant();
    RelevantOfThree(MayorSnippets[0], MayorSnippets[1], MayorSnippets[2]);
  }

  /** When exactly two snippets are relevant and their outer ends are not
      whitespace, the answer is the two joined by one space. */
  lemma RankTwoRelevant(snippets: seq<string>, x: string, y: string)
    requires RelevantSnippets(snippets) == [x, y]
    requires x != [] && !IsSpace(x[0])
    requires y != [] && !IsSpace(y[|y| - 1])
    ensures RankSnippets(snippets) == x + " " + y
  {
    RankWithRelevant(snippets);
    var joined := x + " " + y;
    assert joined[0] == x[0] && joined[|joined| - 1] == y[|y| - 1];
    StripNoop(joined);
  }

  /** The example answer neither begins nor ends with whitespace. */
  lemma MayorEnds()
    ensures MayorSnippets[0] != [] && !IsSpace(MayorSnippets[0][0])
    ensures MayorSnippets[2] != [] && !IsSpace(MayorSnippets[2][|MayorSnippets[2]| - 1])
  {
  }

  /** Because "is" is a keyword matched as a substring, "Weather is sunny."
      is relevant too, and the answer joins both relevant snippets. */
  lemma MayorExample()
    ensures RankSnippets(MayorSnippets) == MayorSnippets[0] + " " + MayorSnippets[2]
  {
    MayorRelevantSnippets();
    MayorEnds();
    RankTwoRelevant(MayorSnippets, MayorSnippets[0], MayorSnippets[2]);
  }

  const UnrelatedSnippets: seq<string> := ["First unrelated sentence.", "Second unrelated sentence."]

  /** The lower-cased first example sentence. */
  lemma LowerFirstUnrelated()
    ensures Lower(UnrelatedSnippets[0]) == "first unrelated sentence."
  {
  }

  /** The lower-cased second example sentence. */
  lemma LowerSecondUnrelated()
    ensures Lower(UnrelatedSnippets[1]) == "second unrelated sentence."
  {
  }

  /** The keywords whose letters all occur in the first example sentence:
      each is absent because one of its adjacent pairs never occurs there. */
  lemma PairsAbsentFromFirst()
    ensures !IsInfix("title", "first unrelated sentence.")
    ensures !IsInfix("current", "first unrelated sentence.")
    ensures !IsInfix("is", "first unrelated sentence.")
    ensures !IsInfix("latest", "first unrelated sentence.")
  {
    var low := "first unrelated sentence.";
    NotInfixByPair("title", low, 0);    // "ti"
    NotInfixByPair("current", low, 0);  // "cu"
    NotInfixByPair("is", low, 0);       // "is"
    NotInfixByPair("latest", low, 3);   // "es"
  }

  /** No keyword occurs in the first example sentence (not even "is"). */
  lemma KeywordsAbsentFromFirst()
    ensures forall k | 0 <= k < |Keywords| :: !IsInfix(Keywords[k], "first unrelated sentence.")
  {
    var low := "first unrelated sentence.";
    PairsAbsentFromFirst();
    forall w | w in Keywords ensures !IsInfix(w, low) {
      if w == "currently" {
        NotInfixByMissingChar(w, low, 'y');
      } else if w == "role" || w == "today" || w == "now" {
        NotInfixByMissingChar(w, low, 'o');
      } else if w == "update" || w == "position" {
        NotInfixByMissingChar(w, low, 'p');
      }
    }
    KeywordsAbsent(low);
  }

  /** The keywords whose letters all occur in the second example sentence:
      each is absent because one of its adjacent pairs never occurs there. */
  lemma PairsAbsentFromSecond()
    ensures !IsInfix("role", "second unrelated sentence.")
    ensures !IsInfix("current", "second unrelated sentence.")
    ensures !IsInfix("now", "second unrelated sentence.")
    ensures !IsInfix("latest", "second unrelated sentence.")
  {
    var low := "second unrelated sentence.";
    NotInfixByPair("role", low, 0);     // "ro"
    NotInfixByPair("current", low, 0);  // "cu"
    NotInfixByPair("now", low, 0);      // "no"
    NotInfixByPair("latest", low, 3);   // "es"
  }

  /** No keyword occurs in the second example sentence. */
  lemma KeywordsAbsentFromSecond()
    ensures forall k | 0 <= k < |Keywords| :: !IsInfix(Keywords[k], "second unrelated sentence.")
  {
    var low := "second unrelated sentence.";
    PairsAbsentFromSecond();
    forall w | w in Keywords ensures !IsInfix(w, low) {
      if w == "currently" || w == "today" {
        NotInfixByMissingChar(w, low, 'y');
      } else if w == "title" || w == "is" {
        NotInfixByMissingChar(w, low, 'i');
      } else if w == "update" || w == "position" {
        NotInfixByMissingChar(w, low, 'p');
      }
    }
    KeywordsAbsent(low);
  }

  /** Neither example sentence is relevant. */
  lemma UnrelatedNoneRelevant()
    ensures NoneRelevant(UnrelatedSnippets)
  {
    LowerFirstUnrelated();
    LowerSecondUnrelated();
    KeywordsAbsentFromFirst();
    KeywordsAbsentFromSecond();
  }

  /** The first example sentence neither begins nor ends with whitespace. */
  lemma UnrelatedEnds()
    ensures Strip(UnrelatedSnippets[0]) == UnrelatedSnippets[0]
  {
    assert UnrelatedSnippets[0][0] == 'F' && UnrelatedSnippets[0][24] == '.';
    StripNoop(UnrelatedSnippets[0]);
  }

  /** With no relevant snippet only the first one is used, unfiltered. */
  lemma UnrelatedExample()
    ensures RankSnippets(UnrelatedSnippets) == UnrelatedSnippets[0]
  {
    UnrelatedNoneRelevant();
    RankWithoutRelevant(UnrelatedSnippets);
    UnrelatedEnds();
  }
}
