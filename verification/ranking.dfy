/**
 Python's `sorted(candidates, key=score, reverse=True)`, modelled as a stable
 insertion sort on candidates by descending score.

 Stability is stated without positions: for every score value `v`, the
 candidates carrying score `v` appear in the output in exactly the order they
 had in the input (`Stable`). Together with `SortedDesc` this pins the
 output down completely (`StableSortUnique`).
 */
module Ranking {
  import opened Scoring

  /** Scores never increase from left to right. */
  predicate SortedDesc(s: seq<Prediction>) {
    forall i, j :: 0 <= i < j < |s| ==> s[i].score >= s[j].score
  }

  /** The candidates of `s` whose score is exactly `v`, in their order in `s`. */
  function WithScore(s: seq<Prediction>, v: real): (r: seq<Prediction>)
    ensures |r| <= |s|
  {
    if |s| == 0 then []
    else (if s[0].score == v then [s[0]] else []) + WithScore(s[1..], v)
  }

  /** `a` keeps every group of equally scored candidates of `b` in `b`'s order. */
  ghost predicate Stable(a: seq<Prediction>, b: seq<Prediction>) {
    forall v :: WithScore(a, v) == WithScore(b, v)
  }

  /** Places `x` before the first candidate of `s` that does not beat it, so an
      earlier candidate stays ahead of later ones with the same score. */
  function Insert(x: Prediction, s: seq<Prediction>): (r: seq<Prediction>)
    ensures |r| == |s| + 1
    ensures multiset(r) == multiset(s) + multiset{x}
  {
    if |s| == 0 then [x]
    else if x.score >= s[0].score then [x] + s
    else
      assert s == [s[0]] + s[1..];
      [s[0]] + Insert(x, s[1..])
  }

  lemma WithScoreMember(s: seq<Prediction>, v: real, p: Prediction)
    ensures p in WithScore(s, v) <==> p in s && p.score == v
  {
    if |s| > 0 {
      WithScoreMember(s[1..], v, p);
      assert s == [s[0]] + s[1..];
    }
  }

  /** Inserting into a sorted list keeps it sorted. */
  lemma {:induction false} InsertSorted(x: Prediction, s: seq<Prediction>)
    requires SortedDesc(s)
    ensures SortedDesc(Insert(x, s))
  {
    if |s| > 0 && x.score < s[0].score {
      var t := Insert(x, s[1..]);
      InsertSorted(x, s[1..]);
      forall i | 0 <= i < |t|
        ensures t[i].score <= s[0].score
      {
        assert t[i] in multiset(t);
        if t[i] != x {
          assert t[i] in multiset(s[1..]);
          var j :| 0 <= j < |s[1..]| && s[1..][j] == t[i];
          assert s[j + 1] == t[i];
        }
      }
      assert Insert(x, s) == [s[0]] + t;
    }
  }

  /** Stable descending sort by score. */
  function SortByScore(s: seq<Prediction>): (r: seq<Prediction>)
    ensures SortedDesc(r)
    ensures multiset(r) == multiset(s)
  {
    if |s| == 0 then []
    else
      assert s == [s[0]] + s[1..];
      var t := SortByScore(s[1..]);
      InsertSorted(s[0], t);
      Insert(s[0], t)
  }

  lemma WithScoreCons(x: Prediction, s: seq<Prediction>, v: real)
    ensures x.score == v ==> WithScore([x] + s, v) == [x] + WithScore(s, v)
    ensures x.score != v ==> WithScore([x] + s, v) == WithScore(s, v)
  {
    assert ([x] + s)[1..] == s;
  }

  /** Picking out a score group distributes over concatenation. */
  lemma {:induction false} WithScoreConcat(a: seq<Prediction>, b: seq<Prediction>, v: real)
    ensures WithScore(a + b, v) == WithScore(a, v) + WithScore(b, v)
  {
    if |a| > 0 {
      WithScoreConcat(a[1..], b, v);
      assert (a + b)[1..] == a[1..] + b;
    } else {
      assert a + b == b;
    }
  }

  /** Letting `x` move past a candidate `s0` that strictly beats it cannot
      reorder a score group: the two never share a score. */
  lemma OvertakeStable(x: Prediction, s0: Prediction, tail: seq<Prediction>, t: seq<Prediction>, v: real)
    requires x.score < s0.score
    requires WithScore(t, v) == WithScore([x] + tail, v)
    ensures WithScore([s0] + t, v) == WithScore([x] + ([s0] + tail), v)
  {
    WithScoreCons(s0, t, v);
    WithScoreCons(s0, tail, v);
    WithScoreCons(x, [s0] + tail, v);
    if s0.score == v {
      WithScoreCons(x, tail, v);
      assert WithScore([x] + ([s0] + tail), v) == [s0] + WithScore(tail, v);
    } else {
      assert WithScore([s0] + t, v) == WithScore([x] + tail, v);
      WithScoreCons(x, tail, v);
    }
  }

  /** Inserting the front candidate keeps every score group in order: `x` only
      moves past candidates that strictly beat it. */
  lemma {:induction false} InsertStable(x: Prediction, s: seq<Prediction>, v: real)
    ensures WithScore(Insert(x, s), v) == WithScore([x] + s, v)
  {
    if |s| > 0 && x.score < s[0].score {
      var s0, tail := s[0], s[1..];
      var t := Insert(x, tail);
      assert Insert(x, s) == [s0] + t;
      assert s == [s0] + tail;
      InsertStable(x, tail, v);
      OvertakeStable(x, s0, tail, t, v);
    }
  }

  /** The sort keeps every group of equally scored candidates in input order. */
  lemma {:induction false} SortStable(s: seq<Prediction>)
    ensures Stable(SortByScore(s), s)
  {
    if |s| > 0 {
      SortStable(s[1..]);
      forall v
        ensures WithScore(SortByScore(s), v) == WithScore(s, v)
      {
        InsertStable(s[0], SortByScore(s[1..]), v);
        WithScoreCons(s[0], SortByScore(s[1..]), v);
        WithScoreCons(s[0], s[1..], v);
        assert s == [s[0]] + s[1..];
      }
    }
  }

  /** Every candidate of `b` reappears in any stable rearrangement `a` of it. */
  lemma StableNonEmpty(a: seq<Prediction>, b: seq<Prediction>)
    requires Stable(a, b)
    requires |b| > 0
    ensures |a| > 0
  {
    WithScoreMember(b, b[0].score, b[0]);
    WithScoreMember(a, b[0].score, b[0]);
    assert WithScore(a, b[0].score) == WithScore(b, b[0].score);
  }

  /** Two sorted, mutually stable lists start with the same candidate. */
  lemma StableSameHead(a: seq<Prediction>, b: seq<Prediction>)
    requires SortedDesc(a) && SortedDesc(b)
    requires Stable(a, b)
    requires |a| > 0 && |b| > 0
    ensures a[0] == b[0]
  {
    var a0, b0 := a[0], b[0];
    WithScoreMember(a, a0.score, a0);
    WithScoreMember(b, a0.score, a0);
    assert WithScore(a, a0.score) == WithScore(b, a0.score);
    WithScoreMember(b, b0.score, b0);
    WithScoreMember(a, b0.score, b0);
    assert WithScore(a, b0.score) == WithScore(b, b0.score);
    var i :| 0 <= i < |b| && b[i] == a0;
    var j :| 0 <= j < |a| && a[j] == b0;
    assert a0.score == b0.score;
    var m := a0.score;
    assert a == [a0] + a[1..];
    assert b == [b0] + b[1..];
    WithScoreCons(a0, a[1..], m);
    WithScoreCons(b0, b[1..], m);
    assert WithScore(a, m) == WithScore(b, m);
    assert WithScore(a, m)[0] == a0;
  }

  /** Removing a common head keeps two lists mutually stable. */
  lemma StableTails(x: Prediction, a: seq<Prediction>, b: seq<Prediction>)
    requires Stable([x] + a, [x] + b)
    ensures Stable(a, b)
  {
    forall v
      ensures WithScore(a, v) == WithScore(b, v)
    {
      WithScoreCons(x, a, v);
      WithScoreCons(x, b, v);
      var H: seq<Prediction> := if x.score == v then [x] else [];
      assert WithScore([x] + a, v) == WithScore([x] + b, v);
      assert (H + WithScore(a, v))[|H|..] == WithScore(a, v);
      assert (H + WithScore(b, v))[|H|..] == WithScore(b, v);
    }
  }

  /** Sortedness and stability determine the order completely: there is only
      one stable descending rearrangement of a candidate list. */
  lemma {:induction false} StableSortUnique(a: seq<Prediction>, b: seq<Prediction>)
    requires SortedDesc(a) && SortedDesc(b)
    requires Stable(a, b)
    ensures a == b
  {
    if |a| > 0 {
      StableNonEmpty(b, a);
    }
    if |b| > 0 {
      StableNonEmpty(a, b);
    }
    if |a| > 0 {
      StableSameHead(a, b);
      assert a == [a[0]] + a[1..];
      assert b == [a[0]] + b[1..];
      StableTails(a[0], a[1..], b[1..]);
      StableSortUnique(a[1..], b[1..]);
    }
  }

  /** The first candidate of `s` with score `v` heads `WithScore(s, v)`. */
  lemma {:induction false} WithScoreHead(s: seq<Prediction>, v: real)
    requires |WithScore(s, v)| > 0
    ensures exists k :: 0 <= k < |s| && s[k] == WithScore(s, v)[0] && s[k].score == v
                        && forall j :: 0 <= j < k ==> s[j].score != v
  {
    if s[0].score == v {
    } else {
      assert WithScore(s, v) == WithScore(s[1..], v);
      WithScoreHead(s[1..], v);
      var k :| 0 <= k < |s[1..]| && s[1..][k] == WithScore(s[1..], v)[0] && s[1..][k].score == v
               && forall j :: 0 <= j < k ==> s[1..][j].score != v;
      assert forall j :: 1 <= j < k + 1 ==> s[j] == s[1..][j - 1];
    }
  }

  /** The winner of the sort scores at least as high as every candidate. */
  lemma SortHeadIsMax(s: seq<Prediction>)
    requires |s| > 0
    ensures |SortByScore(s)| == |s|
    ensures forall i :: 0 <= i < |s| ==> s[i].score <= SortByScore(s)[0].score
  {
    var r := SortByScore(s);
    assert |r| == |multiset(r)| == |multiset(s)| == |s|;
    forall i | 0 <= i < |s|
      ensures s[i].score <= r[0].score
    {
      assert s[i] in multiset(r);
      var j :| 0 <= j < |r| && r[j] == s[i];
    }
  }

  /** The winner of the sort has the top score, and among the candidates with
      that score it is the earliest one. */
  lemma {:induction false} SortHeadIsFirstMax(s: seq<Prediction>)
    requires |s| > 0
    ensures |SortByScore(s)| > 0
    ensures forall i :: 0 <= i < |s| ==> s[i].score <= SortByScore(s)[0].score
    ensures exists k :: 0 <= k < |s| && s[k] == SortByScore(s)[0]
                        && forall j :: 0 <= j < k ==> s[j].score < SortByScore(s)[0].score
  {
    SortHeadIsMax(s);
    var r := SortByScore(s);
    var m := r[0].score;
    assert WithScore(s, m)[0] == r[0] by {
      SortStable(s);
      WithScoreMember(r, m, r[0]);
      assert WithScore(r, m) == WithScore(s, m);
      assert r == [r[0]] + r[1..];
      WithScoreCons(r[0], r[1..], m);
    }
    WithScoreHead(s, m);
  }

  /** Sorting does not change which answer texts are present, nor how often. */
  lemma {:induction false} InsertAnswers(x: Prediction, s: seq<Prediction>)
    ensures multiset(Answers(Insert(x, s))) == multiset(Answers(s)) + multiset{x.answer}
  {
    if |s| == 0 {
    } else if x.score >= s[0].score {
      assert Insert(x, s) == [x] + s;
      assert Answers([x] + s) == [x.answer] + Answers(s) by {
        assert ([x] + s)[1..] == s;
      }
    } else {
      var t := Insert(x, s[1..]);
      assert Insert(x, s) == [s[0]] + t;
      assert Answers([s[0]] + t) == [s[0].answer] + Answers(t) by {
        assert ([s[0]] + t)[1..] == t;
      }
      InsertAnswers(x, s[1..]);
      assert Answers(s) == [s[0].answer] + Answers(s[1..]);
    }
  }

  lemma {:induction false} SortAnswers(s: seq<Prediction>)
    ensures multiset(Answers(SortByScore(s))) == multiset(Answers(s))
  {
    if |s| > 0 {
      var t := SortByScore(s[1..]);
      assert SortByScore(s) == Insert(s[0], t);
      SortAnswers(s[1..]);
      InsertAnswers(s[0], t);
      assert Answers(s) == [s[0].answer] + Answers(s[1..]);
    }
  }
}
