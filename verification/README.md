# Answer ranking and selection of the PDF question-answering agent

This project models the part of the agent that turns model predictions into
answers. `QueryHandler.query_model` asks a question-answering model about
every text chunk. It keeps the candidates whose confidence reaches the
threshold (0.3 by default) and ranks them by descending confidence with
Python's stable `sorted`. It returns their answer texts, or
`["Data Not Available"]` when no candidate is kept. `AIAgent.process_and_notify`
pools the chunks of all documents in document order and runs every question
against the whole pool. For each question it keeps the first ranked answer
that is not `"Data Not Available"`, and it wraps the `{question, answer}`
records under the key `"questions"`.

Modules:

- `Scoring` (`scoring.dfy`): a prediction (answer text and score), the model
  as a pure function `Predictor = (string, string) -> Prediction`, the
  sentinel string and the default threshold.
- `Ranking` (`ranking.dfy`): the stable descending sort as an insertion sort
  on candidates. It is proved sorted, a permutation and stable. A stable order
  is stated without positions: for every score `v`, the candidates scoring `v`
  keep their relative order (`Stable`). The lemma `StableSortUnique` shows
  these properties fix the output completely.
- `QueryHandler` (`query_handler.dfy`): the threshold filter (`Confident`),
  the ranking and `QueryModel`.
- `Agent` (`ai_agent.dfy`): chunk pooling (`Pool`), first-non-sentinel
  selection (`FirstAvailable`) and `ProcessAndNotify`. The source's document
  loop and question loop are the methods `PoolChunks` and `AnswerAll`.

Parameters stand in for everything outside the core:

- Text extraction plus chunking of one document is a `Chunker`.
- The model is a `Predictor`.
- The payload is returned as a map rather than posted.

Scores are `real`, because the code only compares them.

Notes on the code that shape the model:

- A failing model call is not caught (`handlers/query_handler.py:21-24`): it
  raises and ends the whole run. The model's `Predictor` is total, so this case
  does not arise.
- The recorded answer is the first ranked text that differs from
  `"Data Not Available"` (`ai_agent.py:38`). So a prediction whose text is
  literally that string is skipped over, and `AnswerIsBestCandidate`
  therefore requires the best candidate's text to differ from `Sentinel`.
  `AnswerUnavailableIff` states exactly when the sentinel is recorded.
- The agent builds its `QueryHandler` without a threshold (`ai_agent.py:14`),
  so every question uses the default 0.3 (`handlers/query_handler.py:7`,
  `DefaultThreshold`).

## Model

| member | source | states |
|---|---|---|
| QueryHandler.QueryModel | handlers/query_handler.py:12-41 | The result is never empty. If no candidate survives the threshold, the result is exactly the sentinel list. Otherwise it has one entry per surviving candidate, and its texts are those candidates' answers with the same multiplicities. |
| QueryHandler.Confident | handlers/query_handler.py:17-31 | Every chunk prediction whose score is at least the threshold (inclusive) is kept, and the filtered list is never longer than the input. |
| QueryHandler.ConfidentMember | handlers/query_handler.py:19-31 | A prediction is kept if and only if it is one of the chunk predictions and its score is at least the threshold. |
| QueryHandler.ConfidentCount | handlers/query_handler.py:19-31 | The filter keeps exactly as many candidates as there are predictions reaching the threshold. |
| QueryHandler.ConfidentWithScore | handlers/query_handler.py:19-31 | For any score at or above the threshold, the candidates with that score come through the filter complete and in chunk order. |
| QueryHandler.NoConfidentCandidate | handlers/query_handler.py:33-35 | No candidate survives if and only if every chunk scores below the threshold. In that case, including an empty chunk list, the result is exactly `["Data Not Available"]`. |
| QueryHandler.ThresholdInclusive | handlers/query_handler.py:27 | A chunk whose score equals the threshold is kept, and its answer appears in the result. |
| QueryHandler.ResultLength | handlers/query_handler.py:19-41 | When some chunk reaches the threshold, the result length equals the number of chunks with score at least the threshold. |
| QueryHandler.AnswersFromConfidentChunks | handlers/query_handler.py:27-41 | Every returned text is either the sentinel of an empty outcome or the answer of a chunk that reached the threshold. Chunks below the threshold never contribute. |
| QueryHandler.RankedIsStableDescending | handlers/query_handler.py:38-41 | The ranked candidates have non-increasing scores and are a permutation of the surviving candidates. Equal-score candidates stay in chunk order. The result lists their answers in ranked order. For every score at or above the threshold, the ranking holds exactly the chunks' candidates with that score, in chunk order. |
| QueryHandler.QueryModelIsAnyStableRanking | handlers/query_handler.py:38-41 | Any non-increasing, stable arrangement of the surviving candidates gives exactly the returned answer list. So the result is what Python's stable `sorted(..., reverse=True)` produces. |
| QueryHandler.TopAnswerIsFirstMax | handlers/query_handler.py:27-41 | When some chunk passes, the lemma yields the chunk the first returned answer belongs to. That chunk reaches the threshold, its score is maximal over all chunks, and among the chunks with that score it is the earliest. |
| Ranking.SortByScore | handlers/query_handler.py:38 | The sorted candidates have non-increasing scores and are a permutation of the input. |
| Ranking.SortStable | handlers/query_handler.py:38 | The sort is stable: for every score, the candidates with that score keep their input order. |
| Ranking.StableSortUnique | handlers/query_handler.py:38 | Two sorted, mutually stable arrangements of the same candidates are equal, so the stable descending order is unique. |
| Ranking.SortHeadIsFirstMax | handlers/query_handler.py:38 | The first sorted candidate has the maximal score. It is the earliest input candidate with that score. |
| Ranking.SortAnswers | handlers/query_handler.py:38-41 | Sorting keeps the multiset of answer texts. |
| Agent.PoolAppend | ai_agent.py:20-29 | The pool of two document lists placed one after the other is the first pool followed by the second. |
| Agent.PoolCons | ai_agent.py:20-29 | The pool is the first document's chunks followed by the pool of the remaining documents. |
| Agent.PoolMember | ai_agent.py:20-29 | A chunk is in the pool if and only if some document's chunk list contains it. |
| Agent.PoolChunks | ai_agent.py:20-29 | The document loop's result is the pool: every document's chunks in document order. |
| Agent.AnswerAll | ai_agent.py:31-39 | There is one record per question, in question order. Each record carries its question and the selection from that question's query over the whole pool. |
| Agent.FirstAvailable | ai_agent.py:38 | The selection is the sentinel if and only if every response is the sentinel. Otherwise it is a response that appears in the list, and every response before its first occurrence is the sentinel. |
| Agent.ProcessAndNotify | ai_agent.py:19-42 | The payload has the single key `"questions"`. It holds one record per input question, in input order, each with the input question. Each answer is the selection from the query over the pool of all documents' chunks. |
| Agent.NoDocumentsUnavailable | ai_agent.py:20-38 | With an empty document list the pool is empty, and every question's answer is the sentinel. |
| Agent.AnswerUnavailableIff | ai_agent.py:37-38 | A question's answer is the sentinel if and only if every chunk reaching the threshold answers with the sentinel text, which holds vacuously when none reaches it. |
| Agent.AnswerFromConfidentChunk | ai_agent.py:37-38 | Any answer other than the sentinel is the answer text of a chunk that reached the threshold. |
| Agent.AnswerIsBestCandidate | ai_agent.py:37-38 | Suppose the earliest chunk of maximal score reaches the threshold and its text is not the sentinel. Then that chunk's text is the recorded answer. |

## Left out

- Text extraction and chunking (`DocumentHandler`, not part of this model): each document's chunk list comes from the opaque `Chunker` parameter.
- The transformers pipeline, the tokenizer and model loading (`AIAgent.__init__`, `QueryHandler.__init__`): these are library calls. The model is the pure `Predictor` parameter, and the handler's threshold is a parameter of `QueryModel`.
- Configuration defaults (`config/config.py`, the `or Config...` fallbacks in `AIAgent.__init__`): they only read environment variables. The model name selects both the tokenizer, and so the chunking, and the question-answering model, so its effect is folded into the `Chunker` and `Predictor` parameters. The Slack token and channel only address the delivery, which is left out below.
- Slack delivery and `json.dumps(..., indent=4)`: network I/O and library serialisation. `ProcessAndNotify` returns the payload map instead of posting it.
- The progress callback `update_status_func`: it only formats status strings and does not affect the result.
- Floating-point scores: scores are exact reals. NaN scores, which fail every comparison in Python, are not modelled.
- Model failures and exceptions: the predictor is total. In the source, an exception from the model aborts the run.
- The declared return type `-> str` of `query_model`: the code returns a list. The model follows the code.
