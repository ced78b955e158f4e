# E-commerce FAQ chatbot: the retrieval decision

The chatbot answers a customer's question by finding the closest entry in a
fixed FAQ corpus of (question, answer) pairs. If the match is good enough,
it passes that entry's answer to a generative model to rephrase. Otherwise
it replies with a fixed fallback message. This project models that decision
in Dafny and proves its properties:

- `FaqMatcher` (faq_matcher.dfy) models `find_most_relevant_question`. It
  returns no match for an absent or empty corpus. Otherwise it takes the
  first index of the highest similarity score (numpy's `argmax` rule). It
  rejects that entry when its score is strictly below 0.2, and it returns
  the question and answer of that one entry.
- `ChatReply` (chat_reply.dfy) models the chat handler's branch on that
  result. A present, non-empty answer is sent with the query to the
  paraphraser. Anything else gets the fixed fallback text.

The similarity scores are an input: a `seq<real>` with one score per corpus
question, in corpus order. This matches how the handler builds the index
from exactly the corpus's question column. Everything is a pure function,
as in the source: the corpus and the scores are never changed.

Two behaviours of the code to note:
- An absent or empty corpus is not an error: the function returns
  `None, None` for it (app.py:26-27), and no score is consulted.
- A match returns only the question and answer, not the score (app.py:47).

## Model

| member | source | states |
|---|---|---|
| FaqMatcher.ArgMax | app.py:36 | the chosen index is a valid index, its score is at least every score, and every earlier index scores strictly less (first occurrence on ties) |
| FaqMatcher.MaxIsLargestElement | app.py:36-39 | the maximum score is one of the scores and bounds all of them |
| FaqMatcher.ArgMaxScoreIsMax | app.py:36-39 | the score read at the chosen index equals the maximum score, defined independently of the argmax |
| FaqMatcher.ArgMaxIsTheFirstMax | app.py:36 | an index is the first maximum if and only if it is the one the argmax picks, so the choice is fully determined |
| FaqMatcher.TieGoesToLowerIndex | app.py:36 | when two indices share the top score, the higher one is never chosen and the choice is at or below the lower one |
| FaqMatcher.FindMostRelevant | app.py:24-47 | an absent or empty corpus gives no match; otherwise there is a match exactly when the maximum score is at least 0.2, and the match is the question and answer of one entry at the first maximum |
| FaqMatcher.MatchIsFirstMaxEntry | app.py:36-47 | when the first best-scoring entry reaches the threshold, the result is exactly that entry's question and answer |
| FaqMatcher.BelowThresholdNoMatch | app.py:42-43 | if every score is strictly below 0.2, the result is no match |
| FaqMatcher.ThresholdIsInclusive | app.py:42-47 | a best score exactly equal to 0.2 is accepted and its entry returned |
| FaqMatcher.AllZeroScoresNoMatch | app.py:33-43 | if every score is 0 (an empty query, or only unknown terms), the result is no match |
| FaqMatcher.EmptyCorpusIgnoresScores | app.py:26-27 | for an absent or empty corpus the result is no match whatever score sequences (of any length) are supplied, so no scoring is needed |
| FaqMatcher.MatchComesFromOneEntry | app.py:46-47 | a returned question and answer form one corpus entry, at an index holding the maximum score, which is at least 0.2 |
| ChatReply.Decide | app.py:159-164 | the paraphraser is asked exactly when an answer was found and is non-empty, and it gets the user's query and that answer; otherwise the reply is the fixed fallback text |
| ChatReply.Respond | app.py:152-164 | a paraphrase request carries the user's query and the answer of an entry at the first maximum score |
| ChatReply.RespondAsksParaphraserIff | app.py:152-164 | the paraphraser is asked if and only if the corpus is non-empty, the maximum score is at least 0.2 and the first best entry's answer is non-empty, and then it gets that answer; in every other case the reply is the fallback message |
| ChatReply.WeakScoresGiveFallback | app.py:152-164 | if no score reaches 0.2, the user gets the fallback message |
| ChatReply.EmptyAnswerGivesFallback | app.py:159-164 | a matched entry with an empty answer is treated as no match and gets the fallback message |

## Left out

- TF-IDF fitting, query vectorisation and cosine similarity (app.py:5-6, 30, 33, 116-117) are floating-point library code. The model takes their output as the score sequence. Whether the scores lie in [0, 1] is not needed by any proof, so it is not assumed.
- Scores are exact reals and the threshold is the exact real 0.2. The source compares IEEE doubles, where the literal 0.2 is the double nearest one fifth, slightly above it. No double lies strictly between the two, so `s < 0.2` on doubles and `s < 1/5` on reals agree for every double score `s`: no boundary case is lost.
- NaN scores, which numpy's `argmax` would pick first, are not modelled; cosine similarity does not produce them.
- Loading the corpus from JSON (`load_faq_data`, app.py:10-22) is file I/O. Its failure is represented only by the absent corpus, `Option.None`.
- The Gemini call and its prompt (`get_gemini_response`, app.py:49-72) are an external network service. The model stops at the request it would receive, `Reply.AskParaphraser`.
- The Streamlit page, the API-key lookup, session-state caching and the chat history (app.py:77-170, apart from lines 152-164) are UI plumbing. The handler's early stop when the corpus failed to load (app.py:144-147) is why `ChatReply.Respond` takes a corpus that is present.
- Answers are modelled as strings. A non-string answer cell, and its truthiness, are not modelled.
