/**
 The vocabulary shared by the query handler and the agent: what the
 question-answering model returns for one (chunk, question) pair, the
 sentinel answer, and the default confidence threshold.
 */
module Scoring {

  /** One candidate answer: the span the model extracted and its confidence.
      Scores are only ever compared, so they are modelled as reals. */
  datatype Prediction = Prediction(answer: string, score: real)

  /** The model call `predict(context, question)`, an opaque pure function. */
  type Predictor = (string, string) -> Prediction

  /** The answer reported when no candidate is good enough. */
  const Sentinel: string := "Data Not Available"

  /** The query handler's default `confidence_threshold`. */
  const DefaultThreshold: real := 0.3

  /** The answer texts of `s`, in order. */
  function Answers(s: seq<Prediction>): (r: seq<string>)
    ensures |r| == |s|
    ensures forall i :: 0 <= i < |s| ==> r[i] == s[i].answer
  {
    if |s| == 0 then [] else [s[0].answer] + Answers(s[1..])
  }
}
