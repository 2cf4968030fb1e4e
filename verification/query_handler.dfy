/**
 `QueryHandler.query_model`: ask the model about every chunk, keep the
 candidates whose confidence reaches the threshold, rank them by descending
 confidence (stably), and return their answer texts, or the one-element list
 holding the sentinel when no candidate is confident enough.
 */
module QueryHandler {
  import opened Scoring
  import opened Ranking

  /** The model's prediction for every chunk, in chunk order. */
  function Candidates(chunks: seq<string>, question: string, predict: Predictor): (r: seq<Prediction>)
    ensures |r| == |chunks|
    ensures forall i :: 0 <= i < |chunks| ==> r[i] == predict(chunks[i], question)
  {
    seq(|chunks|, i requires 0 <= i < |chunks| => predict(chunks[i], question))
  }

  /** The candidates whose score reaches `threshold` (inclusive), in their
      original order: the `valid_responses` list built by the loop. Every
      prediction that reaches the threshold is kept; `ConfidentMember` adds
      that nothing else is. */
  function Confident(ps: seq<Prediction>, threshold: real): (r: seq<Prediction>)
    ensures |r| <= |ps|
    ensures forall i {:trigger ps[i] in r} :: 0 <= i < |ps| && ps[i].score >= threshold ==> ps[i] in r
  {
    if |ps| == 0 then []
    else
      var init, last := ps[..|ps| - 1], ps[|ps| - 1];
      assert ps == init + [last];
      Confident(init, threshold) + (if last.score >= threshold then [last] else [])
  }

  /** The candidates of one query that survive the threshold. */
  function Passing(chunks: seq<string>, question: string, threshold: real, predict: Predictor): seq<Prediction>
  {
    Confident(Candidates(chunks, question, predict), threshold)
  }

  /** The surviving candidates in ranked order. */
  function Ranked(chunks: seq<string>, question: string, threshold: real, predict: Predictor): seq<Prediction>
  {
    SortByScore(Passing(chunks, question, threshold, predict))
  }

  /** `query_model(chunks, question)` for a handler built with `threshold`. */
  function QueryModel(chunks: seq<string>, question: string, threshold: real, predict: Predictor): (r: seq<string>)
    ensures |r| >= 1
    ensures |Passing(chunks, question, threshold, predict)| == 0 ==> r == [Sentinel]
    ensures |Passing(chunks, question, threshold, predict)| > 0 ==>
              && |r| == |Passing(chunks, question, threshold, predict)|
              && multiset(r) == multiset(Answers(Passing(chunks, question, threshold, predict)))
  {
    var valid := Passing(chunks, question, threshold, predict);
    if |valid| == 0 then [Sentinel]
    else
      var ranked := SortByScore(valid);
      assert |ranked| == |multiset(ranked)| == |multiset(valid)| == |valid|;
      SortAnswers(valid);
      Answers(ranked)
  }

  // ---------------------------------------------------------------------------
  // The threshold filter

  /** A candidate survives exactly when it occurs among the predictions and
      its score is at least the threshold: equality is enough. */
  lemma {:induction false} ConfidentMember(ps: seq<Prediction>, threshold: real, p: Prediction)
    ensures p in Confident(ps, threshold) <==> p in ps && p.score >= threshold
  {
    if |ps| > 0 {
      var init := ps[..|ps| - 1];
      ConfidentMember(init, threshold, p);
      assert ps == init + [ps[|ps| - 1]];
    }
  }

  /** The indices of the predictions that reach the threshold. */
  function ConfidentIndices(ps: seq<Prediction>, threshold: real): set<int>
  {
    set i | 0 <= i < |ps| && ps[i].score >= threshold
  }

  /** The filter keeps one candidate per prediction that reaches the threshold. */
  lemma {:induction false} ConfidentCount(ps: seq<Prediction>, threshold: real)
    ensures |Confident(ps, threshold)| == |ConfidentIndices(ps, threshold)|
  {
    if |ps| > 0 {
      var n := |ps| - 1;
      var init := ps[..n];
      var kept: seq<Prediction> := if ps[n].score >= threshold then [ps[n]] else [];
      assert |Confident(ps, threshold)| == |Confident(init, threshold)| + |kept| by {
        assert Confident(ps, threshold) == Confident(init, threshold) + kept;
      }
      ConfidentCount(init, threshold);
      ConfidentIndicesSnoc(ps, threshold);
    }
  }

  /** Appending one prediction adds its index exactly when it reaches the
      threshold. */
  lemma ConfidentIndicesSnoc(ps: seq<Prediction>, threshold: real)
    requires |ps| > 0
    ensures |ConfidentIndices(ps, threshold)|
            == |ConfidentIndices(ps[..|ps| - 1], threshold)|
               + (if ps[|ps| - 1].score >= threshold then 1 else 0)
  {
    var n := |ps| - 1;
    var before := ConfidentIndices(ps[..n], threshold);
    var added: set<int> := if ps[n].score >= threshold then {n} else {};
    assert ConfidentIndices(ps, threshold) == before + added;
    assert n !in before;
  }

  /** For any score the filter keeps, the group of candidates with that score
      is left whole and in order. */
  lemma {:induction false} ConfidentWithScore(ps: seq<Prediction>, threshold: real, v: real)
    requires v >= threshold
    ensures WithScore(Confident(ps, threshold), v) == WithScore(ps, v)
  {
    if |ps| > 0 {
      var n := |ps| - 1;
      var init, last := ps[..n], ps[n];
      ConfidentWithScore(init, threshold, v);
      assert ps == init + [last];
      WithScoreConcat(init, [last], v);
      WithScoreConcat(Confident(init, threshold), if last.score >= threshold then [last] else [], v);
    }
  }

  // ---------------------------------------------------------------------------
  // Properties of query_model

  /** The result is the sentinel alone exactly when no chunk scores at least
      the threshold; with no chunks at all this is always the case. */
  lemma NoConfidentCandidate(chunks: seq<string>, question: string, threshold: real, predict: Predictor)
    ensures |Passing(chunks, question, threshold, predict)| == 0 <==>
            forall i :: 0 <= i < |chunks| ==> predict(chunks[i], question).score < threshold
    ensures (forall i :: 0 <= i < |chunks| ==> predict(chunks[i], question).score < threshold) ==>
            QueryModel(chunks, question, threshold, predict) == [Sentinel]
  {
    var ps := Candidates(chunks, question, predict);
    ConfidentCount(ps, threshold);
    if exists i :: 0 <= i < |chunks| && predict(chunks[i], question).score >= threshold {
      var i :| 0 <= i < |chunks| && predict(chunks[i], question).score >= threshold;
      assert i in ConfidentIndices(ps, threshold);
    } else {
      assert ConfidentIndices(ps, threshold) == {};
    }
  }

  /** A chunk whose score equals the threshold is kept: its answer is returned. */
  lemma ThresholdInclusive(chunks: seq<string>, question: string, threshold: real, predict: Predictor, i: int)
    requires 0 <= i < |chunks|
    requires predict(chunks[i], question).score == threshold
    ensures predict(chunks[i], question).answer in QueryModel(chunks, question, threshold, predict)
  {
    var ps := Candidates(chunks, question, predict);
    ConfidentMember(ps, threshold, ps[i]);
    var p := ps[i];
    var valid := Passing(chunks, question, threshold, predict);
    var k :| 0 <= k < |valid| && valid[k] == p;
    assert Answers(valid)[k] == p.answer;
    assert p.answer in multiset(Answers(valid));
  }

  /** When some candidate survives, one answer is returned per chunk that
      reaches the threshold. */
  lemma ResultLength(chunks: seq<string>, question: string, threshold: real, predict: Predictor)
    requires exists i :: 0 <= i < |chunks| && predict(chunks[i], question).score >= threshold
    ensures |QueryModel(chunks, question, threshold, predict)|
            == |set i | 0 <= i < |chunks| && predict(chunks[i], question).score >= threshold|
  {
    var ps := Candidates(chunks, question, predict);
    assert |Confident(ps, threshold)| > 0 by {
      NoConfidentCandidate(chunks, question, threshold, predict);
    }
    ConfidentCount(ps, threshold);
    assert ConfidentIndices(ps, threshold)
        == set i | 0 <= i < |chunks| && predict(chunks[i], question).score >= threshold;
  }

  /** An answer text of a surviving candidate comes from a prediction that reached the threshold. */
  lemma ConfidentAnswerSource(ps: seq<Prediction>, threshold: real, a: string) returns (i: int)
    requires a in multiset(Answers(Confident(ps, threshold)))
    ensures 0 <= i < |ps| && ps[i].score >= threshold && ps[i].answer == a
  {
    var valid := Confident(ps, threshold);
    var k :| 0 <= k < |valid| && Answers(valid)[k] == a;
    ConfidentMember(ps, threshold, valid[k]);
    i :| 0 <= i < |ps| && ps[i] == valid[k];
  }

  /** Every returned text is the sentinel of an empty result or the answer of
      a chunk that reached the threshold; chunks below it never contribute. */
  lemma AnswersFromConfidentChunks(chunks: seq<string>, question: string, threshold: real, predict: Predictor, a: string)
    requires a in QueryModel(chunks, question, threshold, predict)
    ensures (a == Sentinel && |Passing(chunks, question, threshold, predict)| == 0)
            || exists i :: 0 <= i < |chunks| && predict(chunks[i], question).score >= threshold
                           && predict(chunks[i], question).answer == a
  {
    var ps := Candidates(chunks, question, predict);
    if |Confident(ps, threshold)| > 0 {
      assert a in multiset(QueryModel(chunks, question, threshold, predict));
      var i := ConfidentAnswerSource(ps, threshold, a);
      assert predict(chunks[i], question) == ps[i];
    }
  }

  /** The ranked candidates are in non-increasing score order, are a
      rearrangement of the surviving ones, keep equally scored candidates in
      chunk order, and the returned texts are their answers in that order.
      For every score that reaches the threshold, the ranking holds exactly
      the chunks' candidates with that score, in chunk order. */
  lemma {:induction false} RankedIsStableDescending(chunks: seq<string>, question: string, threshold: real, predict: Predictor)
    requires |Passing(chunks, question, threshold, predict)| > 0
    ensures SortedDesc(Ranked(chunks, question, threshold, predict))
    ensures multiset(Ranked(chunks, question, threshold, predict)) == multiset(Passing(chunks, question, threshold, predict))
    ensures Stable(Ranked(chunks, question, threshold, predict), Passing(chunks, question, threshold, predict))
    ensures QueryModel(chunks, question, threshold, predict) == Answers(Ranked(chunks, question, threshold, predict))
    ensures forall v :: v >= threshold ==>
              WithScore(Ranked(chunks, question, threshold, predict), v)
              == WithScore(Candidates(chunks, question, predict), v)
  {
    SortStable(Passing(chunks, question, threshold, predict));
    forall v | v >= threshold
      ensures WithScore(Ranked(chunks, question, threshold, predict), v)
              == WithScore(Candidates(chunks, question, predict), v)
    {
      ConfidentWithScore(Candidates(chunks, question, predict), threshold, v);
    }
  }

  /** The result does not depend on how the sort is implemented: ANY
      non-increasing, stable arrangement of the surviving candidates yields
      exactly the returned answer list. */
  lemma {:induction false} QueryModelIsAnyStableRanking(chunks: seq<string>, question: string, threshold: real, predict: Predictor,
                                                          ranking: seq<Prediction>)
    requires |Passing(chunks, question, threshold, predict)| > 0
    requires SortedDesc(ranking)
    requires Stable(ranking, Passing(chunks, question, threshold, predict))
    ensures QueryModel(chunks, question, threshold, predict) == Answers(ranking)
  {
    var valid := Passing(chunks, question, threshold, predict);
    SortStable(valid);
    StableSortUnique(ranking, SortByScore(valid));
  }

  /** The head of the ranking survived the filter and scores at least as
      high as every prediction, filtered out or not. */
  lemma {:induction false} TopIsMax(ps: seq<Prediction>, threshold: real)
    requires |Confident(ps, threshold)| > 0
    ensures |SortByScore(Confident(ps, threshold))| > 0
    ensures SortByScore(Confident(ps, threshold))[0] in ps
    ensures SortByScore(Confident(ps, threshold))[0].score >= threshold
    ensures forall i :: 0 <= i < |ps| ==> ps[i].score <= SortByScore(Confident(ps, threshold))[0].score
  {
    var valid := Confident(ps, threshold);
    var sorted := SortByScore(valid);
    SortHeadIsMax(valid);
    var top := sorted[0];
    assert top in valid by {
      assert top in multiset(sorted);
    }
    ConfidentMember(ps, threshold, top);
    forall i | 0 <= i < |ps|
      ensures ps[i].score <= top.score
    {
      if ps[i].score >= threshold {
        ConfidentMember(ps, threshold, ps[i]);
        var kk :| 0 <= kk < |valid| && valid[kk] == ps[i];
      }
    }
  }

  /** The head of the ranking also heads the group of predictions sharing its score. */
  lemma TopHeadsItsGroup(ps: seq<Prediction>, threshold: real)
    requires |Confident(ps, threshold)| > 0
    requires |SortByScore(Confident(ps, threshold))| > 0
    requires SortByScore(Confident(ps, threshold))[0].score >= threshold
    ensures |WithScore(ps, SortByScore(Confident(ps, threshold))[0].score)| > 0
    ensures WithScore(ps, SortByScore(Confident(ps, threshold))[0].score)[0] == SortByScore(Confident(ps, threshold))[0]
  {
    var valid := Confident(ps, threshold);
    var sorted := SortByScore(valid);
    var top := sorted[0];
    var m := top.score;
    SortStable(valid);
    ConfidentWithScore(ps, threshold, m);
    assert sorted == [top] + sorted[1..];
    WithScoreCons(top, sorted[1..], m);
  }

  /** The head of the ranking is the earliest candidate of maximal score
      among ALL predictions, not only the surviving ones. */
  lemma {:induction false} FirstMaxSurvives(ps: seq<Prediction>, threshold: real) returns (k: int)
    requires |Confident(ps, threshold)| > 0
    ensures 0 <= k < |ps| && ps[k].score >= threshold
    ensures |SortByScore(Confident(ps, threshold))| > 0 && SortByScore(Confident(ps, threshold))[0] == ps[k]
    ensures forall i :: 0 <= i < |ps| ==> ps[i].score <= ps[k].score
    ensures forall j :: 0 <= j < k ==> ps[j].score < ps[k].score
  {
    TopIsMax(ps, threshold);
    var top := SortByScore(Confident(ps, threshold))[0];
    assert |WithScore(ps, top.score)| > 0 && WithScore(ps, top.score)[0] == top by {
      TopHeadsItsGroup(ps, threshold);
    }
    WithScoreHead(ps, top.score);
    k :| 0 <= k < |ps| && ps[k] == WithScore(ps, top.score)[0] && ps[k].score == top.score
         && forall j :: 0 <= j < k ==> ps[j].score != top.score;
  }

  /** When some chunk passes, the first returned answer belongs to a chunk of
      maximal score over ALL chunks, and to the earliest such chunk: `k`. */
  lemma {:induction false} TopAnswerIsFirstMax(chunks: seq<string>, question: string, threshold: real, predict: Predictor)
    returns (k: int)
    requires exists i :: 0 <= i < |chunks| && predict(chunks[i], question).score >= threshold
    ensures 0 <= k < |chunks| && predict(chunks[k], question).score >= threshold
    ensures QueryModel(chunks, question, threshold, predict)[0] == predict(chunks[k], question).answer
    ensures forall i :: 0 <= i < |chunks| ==> predict(chunks[i], question).score <= predict(chunks[k], question).score
    ensures forall j :: 0 <= j < k ==> predict(chunks[j], question).score < predict(chunks[k], question).score
  {
    var ps := Candidates(chunks, question, predict);
    var valid := Confident(ps, threshold);
    assert |valid| > 0 by {
      NoConfidentCandidate(chunks, question, threshold, predict);
    }
    k := FirstMaxSurvives(ps, threshold);
    assert QueryModel(chunks, question, threshold, predict)[0] == ps[k].answer by {
      assert QueryModel(chunks, question, threshold, predict) == Answers(SortByScore(valid));
    }
  }
}
