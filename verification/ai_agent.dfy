/**
 `AIAgent.process_and_notify`: pool the chunks of every document, ask every
 question against the whole pool, keep the first ranked answer that is not
 the sentinel, and wrap the per-question records under the key "questions".

 Text extraction and chunking are one opaque function per document, the
 model is the `Predictor` parameter, and the payload is handed over as a map
 instead of being pretty-printed and posted to Slack.
 */
module Agent {
  import opened Scoring
  import opened Ranking
  import opened QueryHandler

  /** The raw bytes of one PDF file. */
  type Document = seq<bv8>

  /** `chunk_text(extract_text())` for one document. */
  type Chunker = Document -> seq<string>

  /** One `{"question": ..., "answer": ...}` entry of the report. */
  datatype Record = Record(question: string, answer: string)

  /** The single key of the payload. */
  const QuestionsKey: string := "questions"

  /** `all_text_chunks` after the document loop: each document's chunks
      appended in turn. */
  function Pool(docs: seq<Document>, chunker: Chunker): seq<string>
  {
    if |docs| == 0 then []
    else Pool(docs[..|docs| - 1], chunker) + chunker(docs[|docs| - 1])
  }

  /** The pool splits at any document boundary. */
  lemma {:induction false} PoolAppend(a: seq<Document>, b: seq<Document>, chunker: Chunker)
    ensures Pool(a + b, chunker) == Pool(a, chunker) + Pool(b, chunker)
  {
    if |b| == 0 {
      assert a + b == a;
    } else {
      var n := |b| - 1;
      assert (a + b)[..|a + b| - 1] == a + b[..n];
      PoolAppend(a, b[..n], chunker);
    }
  }

  /** The pool is the first document's chunks followed by the pool of the rest. */
  lemma {:induction false} PoolCons(docs: seq<Document>, chunker: Chunker)
    requires |docs| > 0
    ensures Pool(docs, chunker) == chunker(docs[0]) + Pool(docs[1..], chunker)
  {
    var first: seq<Document> := [docs[0]];
    assert docs == first + docs[1..];
    PoolAppend(first, docs[1..], chunker);
    assert Pool(first, chunker) == chunker(docs[0]) by {
      assert first[..0] == [];
      assert Pool(first, chunker) == Pool([], chunker) + chunker(docs[0]);
    }
  }

  /** A chunk is pooled exactly when some document produced it. */
  lemma {:induction false} PoolMember(docs: seq<Document>, chunker: Chunker, c: string)
    ensures c in Pool(docs, chunker) <==> exists d :: 0 <= d < |docs| && c in chunker(docs[d])
  {
    if |docs| > 0 {
      var n := |docs| - 1;
      PoolMember(docs[..n], chunker, c);
      if c in chunker(docs[n]) {
      } else if c in Pool(docs[..n], chunker) {
        var d :| 0 <= d < n && c in chunker(docs[..n][d]);
        assert docs[..n][d] == docs[d];
      } else {
        forall d | 0 <= d < |docs|
          ensures c !in chunker(docs[d])
        {
          if d < n {
            assert docs[..n][d] == docs[d];
          }
        }
      }
    }
  }

  /** `next((r for r in responses if r != SENTINEL), SENTINEL)`. */
  function FirstAvailable(responses: seq<string>): (r: string)
    ensures r == Sentinel || r in responses
    ensures r == Sentinel <==> forall i :: 0 <= i < |responses| ==> responses[i] == Sentinel
    ensures r != Sentinel ==>
              exists k :: 0 <= k < |responses| && responses[k] == r
                          && forall j :: 0 <= j < k ==> responses[j] == Sentinel
  {
    if |responses| == 0 then Sentinel
    else if responses[0] != Sentinel then responses[0]
    else
      var r := FirstAvailable(responses[1..]);
      assert forall i :: 1 <= i < |responses| ==> responses[i] == responses[1..][i - 1];
      r
  }

  /** The answer recorded for one question against the pooled chunks, with the
      handler's default threshold. */
  function Answer(pool: seq<string>, question: string, predict: Predictor): string
  {
    FirstAvailable(QueryModel(pool, question, DefaultThreshold, predict))
  }

  /** The document loop: extends the pool with each document's chunks in turn. */
  method PoolChunks(docs: seq<Document>, chunker: Chunker) returns (allChunks: seq<string>)
    ensures allChunks == Pool(docs, chunker)
  {
    allChunks := [];
    for d := 0 to |docs|
      invariant allChunks == Pool(docs[..d], chunker)
    {
      assert docs[..d + 1][..d] == docs[..d];
      allChunks := allChunks + chunker(docs[d]);
    }
    assert docs[..|docs|] == docs;
  }

  /** The question loop: one record per question, in question order, each
      answered against the same pool. */
  method AnswerAll(pool: seq<string>, questions: seq<string>, predict: Predictor) returns (records: seq<Record>)
    ensures |records| == |questions|
    ensures forall i :: 0 <= i < |questions| ==>
              records[i] == Record(questions[i], Answer(pool, questions[i], predict))
  {
    records := [];
    for q := 0 to |questions|
      invariant |records| == q
      invariant forall i :: 0 <= i < q ==>
                  records[i] == Record(questions[i], Answer(pool, questions[i], predict))
    {
      var responses := QueryModel(pool, questions[q], DefaultThreshold, predict);
      var answer := FirstAvailable(responses);
      records := records + [Record(questions[q], answer)];
    }
  }

  /** With no documents the pool is empty, and every question gets the sentinel. */
  lemma NoDocumentsUnavailable(chunker: Chunker, question: string, predict: Predictor)
    ensures Answer(Pool([], chunker), question, predict) == Sentinel
  {
  }

  /** Runs the pipeline and returns the payload that would be posted. */
  method ProcessAndNotify(docs: seq<Document>, questions: seq<string>, chunker: Chunker, predict: Predictor)
    returns (payload: map<string, seq<Record>>)
    ensures payload.Keys == {QuestionsKey}
    ensures |payload[QuestionsKey]| == |questions|
    ensures forall i :: 0 <= i < |questions| ==>
              payload[QuestionsKey][i] == Record(questions[i], Answer(Pool(docs, chunker), questions[i], predict))
  {
    var allChunks := PoolChunks(docs, chunker);
    var allResponses := AnswerAll(allChunks, questions, predict);
    payload := map[QuestionsKey := allResponses];
  }

  // ---------------------------------------------------------------------------
  // What the selected answer is

  /** The answer is the sentinel exactly when every chunk that reaches the
      threshold answers with the sentinel text itself (vacuously so when no
      chunk reaches it). */
  lemma {:induction false} AnswerUnavailableIff(pool: seq<string>, question: string, predict: Predictor)
    ensures Answer(pool, question, predict) == Sentinel <==>
            forall i :: 0 <= i < |pool| && predict(pool[i], question).score >= DefaultThreshold
                        ==> predict(pool[i], question).answer == Sentinel
  {
    var r := QueryModel(pool, question, DefaultThreshold, predict);
    var a := FirstAvailable(r);
    if a != Sentinel {
      AnswerFromConfidentChunk(pool, question, predict);
    } else {
      forall i | 0 <= i < |pool| && predict(pool[i], question).score >= DefaultThreshold
        ensures predict(pool[i], question).answer == Sentinel
      {
        var p := predict(pool[i], question);
        var ps := Candidates(pool, question, predict);
        assert ps[i] == p;
        ConfidentMember(ps, DefaultThreshold, p);
        var valid := Passing(pool, question, DefaultThreshold, predict);
        var k :| 0 <= k < |valid| && valid[k] == p;
        assert Answers(valid)[k] == p.answer;
        assert p.answer in multiset(r);
      }
    }
  }

  /** Any answer other than the sentinel is the answer of a chunk that
      reached the threshold. */
  lemma {:induction false} AnswerFromConfidentChunk(pool: seq<string>, question: string, predict: Predictor)
    ensures Answer(pool, question, predict) != Sentinel ==>
            exists i :: 0 <= i < |pool| && predict(pool[i], question).score >= DefaultThreshold
                        && predict(pool[i], question).answer == Answer(pool, question, predict)
  {
    var a := Answer(pool, question, predict);
    if a != Sentinel {
      AnswersFromConfidentChunks(pool, question, DefaultThreshold, predict, a);
    }
  }

  /** When the earliest chunk of maximal score reaches the threshold and its
      answer is not the sentinel text, that answer is the one recorded. */
  lemma AnswerIsBestCandidate(pool: seq<string>, question: string, predict: Predictor, k: int)
    requires 0 <= k < |pool|
    requires predict(pool[k], question).score >= DefaultThreshold
    requires forall i :: 0 <= i < |pool| ==> predict(pool[i], question).score <= predict(pool[k], question).score
    requires forall j :: 0 <= j < k ==> predict(pool[j], question).score < predict(pool[k], question).score
    requires predict(pool[k], question).answer != Sentinel
    ensures Answer(pool, question, predict) == predict(pool[k], question).answer
  {
    var k' := TopAnswerIsFirstMax(pool, question, DefaultThreshold, predict);
    assert k' == k;
  }
}
