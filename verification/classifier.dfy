/** The fallback classifier of `QueryAgent.requires_real_time_info`: decides
    whether a language-model answer disclaims real-time knowledge or is a
    generic non-answer, by case-sensitive substring search. */
module Classifier {
  import opened Text

  /** Phrases by which the model admits it lacks real-time information. */
  const RealTimeIndicators: seq<string> := [
    "As of my last update",
    "I'm not able to provide real-time",
    // One fragment, written in three pieces to keep it on the page.
    "I'd love to help! " + "However, I'm a large language model, " + "I don't have real-time access",
    "I am an AI and do not have real-time access",
    "check the current date",
    "I can't provide real-time data",
    "I'm not currently able to share the time."
  ]

  /** Phrases of a generic, unhelpful answer. */
  const GenericResponses: seq<string> := ["I'm not sure", "I don't know", "Could you rephrase?"]

  /** Both families, searched in this order. */
  const Indicators: seq<string> := RealTimeIndicators + GenericResponses

  /** Reference meaning: some indicator fragment occurs verbatim in `answer`. */
  ghost predicate Flagged(answer: string) {
    exists k :: 0 <= k < |Indicators| && IsInfix(Indicators[k], answer)
  }

  /** The classifier: true iff `answer` contains one of the ten fragments. */
  function RequiresRealTimeInfo(answer: string): (b: bool)
    ensures b <==> Flagged(answer)
  {
    AnyContained(Indicators, answer)
  }

  /** Every fragment contains one of `A`, `I`, `C` and `k`; an answer
      without those four characters therefore contains no fragment. */
  lemma FragmentWitness(k: int)
    requires 0 <= k < |Indicators|
    ensures 'A' in Indicators[k] || 'I' in Indicators[k] || 'C' in Indicators[k] || 'k' in Indicators[k]
  {
    var f := Indicators[k];
    if k == 4 {
      // "check the current date"
      assert f[4] == 'k';
    } else {
      assert f[0] == 'A' || f[0] == 'I' || f[0] == 'C';
    }
  }

  /** The empty answer is never flagged, since every fragment is non-empty. */
  lemma EmptyNotFlagged()
    ensures !RequiresRealTimeInfo("")
  {
  }

  /** Flagging is upward closed: text around a flagged answer keeps it flagged. */
  lemma {:induction false} FlaggedUpwardClosed(answer: string, p: string, s: string)
    requires RequiresRealTimeInfo(answer)
    ensures RequiresRealTimeInfo(p + answer + s)
  {
    SomeInfixExtend(Indicators, answer, p, s);
  }

  /** An answer lacking the capitals `A`, `I`, `C` and the letter `k` cannot
      contain any fragment. */
  lemma {:induction false} NotFlaggedWithoutInitials(a: string)
    requires 'A' !in a && 'I' !in a && 'C' !in a && 'k' !in a
    ensures !RequiresRealTimeInfo(a)
  {
    forall k | 0 <= k < |Indicators| ensures !IsInfix(Indicators[k], a) {
      FragmentWitness(k);
      var f := Indicators[k];
      if 'A' in f {
        NotInfixByMissingChar(f, a, 'A');
      } else if 'I' in f {
        NotInfixByMissingChar(f, a, 'I');
      } else if 'C' in f {
        NotInfixByMissingChar(f, a, 'C');
      } else {
        NotInfixByMissingChar(f, a, 'k');
      }
    }
  }

  /** Matching is case-sensitive: the first indicator in lower case is not flagged. */
  lemma LowerCaseIndicatorNotFlagged()
    ensures !RequiresRealTimeInfo("as of my last update")
  {
    var a := "as of my last update";
    assert 'A' !in a;
    assert 'I' !in a;
    assert 'C' !in a;
    assert 'k' !in a;
    NotFlaggedWithoutInitials(a);
  }

  /** An answer opening with the first indicator is flagged. */
  lemma {:induction false} DisclaimerFlagged(rest: string)
    ensures RequiresRealTimeInfo("As of my last update" + rest)
  {
    var phrase := "As of my last update";
    assert OccursAt(Indicators[0], phrase, 0);
    FlaggedUpwardClosed(phrase, "", rest);
    assert "" + phrase + rest == phrase + rest;
  }

  /** A plain factual answer contains no indicator and is not flagged. */
  lemma FactualAnswerNotFlagged()
    ensures !RequiresRealTimeInfo("Paris is the capital of France.")
  {
    var a := "Paris is the capital of France.";
    assert 'A' !in a;
    assert 'I' !in a;
    assert 'C' !in a;
    assert 'k' !in a;
    NotFlaggedWithoutInitials(a);
  }
}
