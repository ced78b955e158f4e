/** The chat handler's use of the matcher: a found, non-empty answer is
    passed, with the user's query, to the paraphrasing model; anything else
    gets a fixed fallback message. The paraphrasing call itself is external
    and is represented only by the request the handler would make. */
module ChatReply {
  import opened FaqMatcher

  /** The reply shown to the user when no usable FAQ answer was found. */
  const FallbackMessage: string :=
    "I'm sorry, I couldn't find a specific answer to your question in our FAQ. For more help, you can contact our customer support team at [email address] or call us at [phone number]."

  /** What the handler does next: ask the paraphraser to rephrase `context`
      for `query`, or show a fixed message. */
  datatype Reply = AskParaphraser(query: string, context: string) | Fallback(message: string)

  /** The handler's branch on the matcher's answer. The answer counts as
      found only when it is present and non-empty (Python truthiness); the
      matched question is not used. */
  function Decide(query: string, found: Lookup): (r: Reply)
    ensures r.AskParaphraser? <==> found.Match? && found.answer != []
    ensures r.AskParaphraser? ==> r.query == query && r.context == found.answer
    ensures r.Fallback? ==> r.message == FallbackMessage
  {
    match found
    case Match(_, a) => if a != [] then AskParaphraser(query, a) else Fallback(FallbackMessage)
    case NoMatch => Fallback(FallbackMessage)
  }

  /** The whole response step for one query over a loaded corpus: match,
      then branch. The loaded corpus is always present here because the
      handler stops earlier when loading failed. */
  function Respond(query: string, corpus: Corpus, scores: seq<real>): (r: Reply)
    requires |scores| == |corpus|
    ensures r.AskParaphraser? ==>
      r.query == query && exists k :: IsFirstMax(scores, k) && corpus[k].answer == r.context
  {
    Decide(query, FindMostRelevant(Some(corpus), scores))
  }

  /** The paraphraser is asked exactly when the corpus is non-empty, the
      best score reaches the threshold and the first best entry has a
      non-empty answer; it is then given that entry's answer. In every other
      case the reply is the fallback message. */
  lemma RespondAsksParaphraserIff(query: string, corpus: Corpus, scores: seq<real>)
    requires |scores| == |corpus|
    ensures Respond(query, corpus, scores).AskParaphraser? <==>
      |corpus| > 0 && Max(scores) >= RelevanceThreshold && corpus[ArgMax(scores)].answer != []
    ensures Respond(query, corpus, scores).AskParaphraser? ==>
      Respond(query, corpus, scores) == AskParaphraser(query, corpus[ArgMax(scores)].answer)
    ensures !Respond(query, corpus, scores).AskParaphraser? ==>
      Respond(query, corpus, scores) == Fallback(FallbackMessage)
  {
    if |corpus| > 0 {
      ArgMaxScoreIsMax(scores);
      if Max(scores) >= RelevanceThreshold {
        MatchIsFirstMaxEntry(corpus, scores, ArgMax(scores));
      }
    }
  }

  /** No score reaches the threshold (in particular: every score is 0, as
      for an empty query): the user gets the fallback message. */
  lemma WeakScoresGiveFallback(query: string, corpus: Corpus, scores: seq<real>)
    requires |scores| == |corpus|
    requires forall j | 0 <= j < |scores| :: scores[j] < RelevanceThreshold
    ensures Respond(query, corpus, scores) == Fallback(FallbackMessage)
  {
    BelowThresholdNoMatch(Some(corpus), scores);
  }

  /** A matched entry whose answer is the empty string is treated like no
      match at all. */
  lemma EmptyAnswerGivesFallback(query: string, corpus: Corpus, scores: seq<real>, k: int)
    requires |scores| == |corpus|
    requires IsFirstMax(scores, k) && scores[k] >= RelevanceThreshold
    requires corpus[k].answer == []
    ensures Respond(query, corpus, scores) == Fallback(FallbackMessage)
  {
    MatchIsFirstMaxEntry(corpus, scores, k);
  }
}
