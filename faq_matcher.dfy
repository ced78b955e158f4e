/** The retrieval decision of the FAQ chatbot: given the FAQ corpus and one
    similarity score per corpus question, pick the best-scoring entry (the
    first one on ties) and keep it only when its score reaches the relevance
    threshold.

    The scores themselves (TF-IDF vectors compared by cosine similarity) are
    an input here: the model starts where the similarity vector exists. */
module FaqMatcher {

  /** One FAQ record; identified only by its position in the corpus. */
  datatype Entry = Entry(question: string, answer: string)

  /** The FAQ corpus in load order. */
  type Corpus = seq<Entry>

  /** A value that may be absent (the corpus is absent when loading failed). */
  datatype Option<T> = None | Some(value: T)

  /** What the matcher hands back: nothing, or the question and answer of
      the chosen entry. */
  datatype Lookup = NoMatch | Match(question: string, answer: string)

  /** A best score strictly below this value is rejected. */
  const RelevanceThreshold: real := 0.2

  /** k is the first position holding the largest value of s. */
  predicate IsFirstMax(s: seq<real>, k: int)
  {
    && 0 <= k < |s|
    && (forall j | 0 <= j < |s| :: s[j] <= s[k])
    && (forall j | 0 <= j < k :: s[j] < s[k])
  }

  /** Index of the largest score, lowest index on ties (first occurrence). */
  function ArgMax(s: seq<real>): (k: nat)
    requires |s| > 0
    ensures IsFirstMax(s, k)
  {
    if |s| == 1 then 0
    else
      var k := ArgMax(s[..|s| - 1]);
      if s[k] < s[|s| - 1] then |s| - 1 else k
  }

  /** Largest value of a non-empty sequence, defined independently of ArgMax
      (it folds from the front rather than from the back). */
  function Max(s: seq<real>): real
    requires |s| > 0
  {
    if |s| == 1 then s[0]
    else
      var m := Max(s[1..]);
      if s[0] < m then m else s[0]
  }

  /** Max is an upper bound of s and is one of its elements. */
  lemma {:induction false} MaxIsLargestElement(s: seq<real>)
    requires |s| > 0
    ensures Max(s) in s
    ensures forall j | 0 <= j < |s| :: s[j] <= Max(s)
  {
    if |s| > 1 {
      MaxIsLargestElement(s[1..]);
      forall j | 0 <= j < |s| ensures s[j] <= Max(s) {
        if j > 0 {
          assert s[j] == s[1..][j - 1];
        }
      }
    }
  }

  /** The score at the chosen index is the maximum score. */
  lemma ArgMaxScoreIsMax(s: seq<real>)
    requires |s| > 0
    ensures s[ArgMax(s)] == Max(s)
  {
    MaxIsLargestElement(s);
  }

  /** The first-maximum position is unique, so ArgMax is exactly the index
      that satisfies IsFirstMax. */
  lemma ArgMaxIsTheFirstMax(s: seq<real>, k: int)
    requires |s| > 0
    ensures IsFirstMax(s, k) <==> k == ArgMax(s)
  {
  }

  /** Two entries with the same maximal score: the lower index wins, the
      higher one is never chosen. */
  lemma TieGoesToLowerIndex(s: seq<real>, i: nat, j: nat)
    requires i < j < |s|
    requires s[i] == s[j]
    requires forall m | 0 <= m < |s| :: s[m] <= s[i]
    ensures ArgMax(s) <= i
    ensures ArgMax(s) != j
  {
  }

  /** The matcher. An absent or empty corpus gives NoMatch before any score
      is looked at. Otherwise the first best-scoring entry is kept when its
      score is at least the threshold; its question and answer are returned
      together. */
  function FindMostRelevant(corpus: Option<Corpus>, scores: seq<real>): (r: Lookup)
    requires corpus.Some? && |corpus.value| > 0 ==> |scores| == |corpus.value|
    ensures corpus.None? || corpus.value == [] ==> r == NoMatch
    ensures r.Match? <==> corpus.Some? && |corpus.value| > 0 && Max(scores) >= RelevanceThreshold
    ensures r.Match? ==>
      exists k :: IsFirstMax(scores, k) && corpus.value[k] == Entry(r.question, r.answer)
  {
    if corpus.None? || |corpus.value| == 0 then NoMatch
    else
      var k := ArgMax(scores);
      ArgMaxScoreIsMax(scores);
      if scores[k] < RelevanceThreshold then NoMatch
      else Match(corpus.value[k].question, corpus.value[k].answer)
  }

  /** When the first best-scoring entry clears the threshold, the result is
      exactly that entry's question and answer. */
  lemma MatchIsFirstMaxEntry(corpus: Corpus, scores: seq<real>, k: int)
    requires |scores| == |corpus|
    requires IsFirstMax(scores, k)
    requires scores[k] >= RelevanceThreshold
    ensures FindMostRelevant(Some(corpus), scores) == Match(corpus[k].question, corpus[k].answer)
  {
    ArgMaxIsTheFirstMax(scores, k);
  }

  /** Every score strictly below the threshold: no match. */
  lemma BelowThresholdNoMatch(corpus: Option<Corpus>, scores: seq<real>)
    requires corpus.Some? && |corpus.value| > 0 ==> |scores| == |corpus.value|
    requires forall j | 0 <= j < |scores| :: scores[j] < RelevanceThreshold
    ensures FindMostRelevant(corpus, scores) == NoMatch
  {
    if corpus.Some? && |corpus.value| > 0 {
      MaxIsLargestElement(scores);
    }
  }

  /** A best score exactly equal to the threshold is accepted: the
      comparison that rejects is strict. */
  lemma ThresholdIsInclusive(corpus: Corpus, scores: seq<real>, k: int)
    requires |scores| == |corpus|
    requires IsFirstMax(scores, k)
    requires scores[k] == RelevanceThreshold
    ensures FindMostRelevant(Some(corpus), scores) == Match(corpus[k].question, corpus[k].answer)
  {
    MatchIsFirstMaxEntry(corpus, scores, k);
  }

  /** A query sharing no term with the corpus (or an empty query) scores 0
      everywhere, and then there is never a match. */
  lemma AllZeroScoresNoMatch(corpus: Option<Corpus>, scores: seq<real>)
    requires corpus.Some? && |corpus.value| > 0 ==> |scores| == |corpus.value|
    requires forall j | 0 <= j < |scores| :: scores[j] == 0.0
    ensures FindMostRelevant(corpus, scores) == NoMatch
  {
    BelowThresholdNoMatch(corpus, scores);
  }

  /** An absent or empty corpus answers NoMatch whatever the scores are:
      the scores are not consulted at all on that path. */
  lemma EmptyCorpusIgnoresScores(corpus: Option<Corpus>, scores1: seq<real>, scores2: seq<real>)
    requires corpus.None? || corpus.value == []
    ensures FindMostRelevant(corpus, scores1) == FindMostRelevant(corpus, scores2) == NoMatch
  {
  }

  /** A match is always a whole corpus entry: its question and answer sit
      side by side in the corpus, at an index that holds the best score. */
  lemma MatchComesFromOneEntry(corpus: Corpus, scores: seq<real>)
    requires |scores| == |corpus|
    requires FindMostRelevant(Some(corpus), scores).Match?
    ensures Entry(FindMostRelevant(Some(corpus), scores).question,
                  FindMostRelevant(Some(corpus), scores).answer) in corpus
    ensures exists k | 0 <= k < |corpus| ::
      corpus[k] == Entry(FindMostRelevant(Some(corpus), scores).question,
                         FindMostRelevant(Some(corpus), scores).answer)
      && scores[k] == Max(scores) && scores[k] >= RelevanceThreshold
  {
    var k := ArgMax(scores);
    ArgMaxScoreIsMax(scores);
    ArgMaxIsTheFirstMax(scores, k);
  }
}
