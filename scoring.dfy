/**
 * Scoring a finished attempt. `calculateResults` maps each display position through the
 * shuffled order; `generateResultUrl`, which computes the score written into the result
 * link, does not (see `LinkScoreAsWritten`).
 */
module Scoring {
  import opened Wrappers
  import opened Quiz

  /** Index into `questions` of the question shown at display position `i` (`undefined` past the order). */
  function QuestionIndex(shuffle: bool, order: seq<nat>, i: nat): Option<nat> {
    if !shuffle then Some(i) else if i < |order| then Some(order[i]) else None
  }

  /** Position `i` has a recorded answer equal to the correct option of the question shown there. */
  predicate CorrectAt(questions: seq<Question>, shuffle: bool, order: seq<nat>, answers: map<nat, int>, i: nat) {
    match QuestionIndex(shuffle, order, i)
    case Some(q) => q < |questions| && i in answers && answers[i] == questions[q].correctAnswer
    case None => false
  }

  /** Number of correct positions among `0..k-1`. */
  function CorrectCount(questions: seq<Question>, shuffle: bool, order: seq<nat>, answers: map<nat, int>, k: nat): (n: nat)
    ensures n <= k
  {
    if k == 0 then 0
    else CorrectCount(questions, shuffle, order, answers, k - 1) + (if CorrectAt(questions, shuffle, order, answers, k - 1) then 1 else 0)
  }

  /** The score of an attempt: correct positions among all of them. */
  function Score(questions: seq<Question>, shuffle: bool, order: seq<nat>, answers: map<nat, int>): nat {
    CorrectCount(questions, shuffle, order, answers, |questions|)
  }

  /** `calculateResults`: the for-loop that accumulates the score. */
  method CalculateResults(questions: seq<Question>, shuffle: bool, order: seq<nat>, answers: map<nat, int>)
    returns (score: nat)
    ensures score == Score(questions, shuffle, order, answers)
    ensures score <= |questions|
  {
    score := 0;
    var i := 0;
    while i < |questions|
      invariant 0 <= i <= |questions|
      invariant score == CorrectCount(questions, shuffle, order, answers, i)
    {
      var correct := match QuestionIndex(shuffle, order, i)
        case Some(q) => if q < |questions| then Some(questions[q].correctAnswer) else None
        case None => None;
      if i in answers && correct.Some? && answers[i] == correct.value {
        score := score + 1;
      }
      i := i + 1;
    }
  }

  /** Reference definition: the score is the number of correctly answered positions. */
  lemma {:induction false} CountIsCardinality(questions: seq<Question>, shuffle: bool, order: seq<nat>, answers: map<nat, int>, k: nat)
    ensures CorrectCount(questions, shuffle, order, answers, k) ==
      |set i | 0 <= i < k && CorrectAt(questions, shuffle, order, answers, i)|
  {
    if k > 0 {
      CountIsCardinality(questions, shuffle, order, answers, k - 1);
      var before := set i | 0 <= i < k - 1 && CorrectAt(questions, shuffle, order, answers, i);
      var now := set i | 0 <= i < k && CorrectAt(questions, shuffle, order, answers, i);
      if CorrectAt(questions, shuffle, order, answers, k - 1) {
        assert now == before + {k - 1};
      } else {
        assert now == before;
      }
    }
  }

  /** Unanswered positions never count: the score is at most the number of answered positions. */
  lemma {:induction false} ScoreAtMostAnswered(questions: seq<Question>, shuffle: bool, order: seq<nat>, answers: map<nat, int>, k: nat)
    ensures CorrectCount(questions, shuffle, order, answers, k) <= |set i | 0 <= i < k && i in answers|
  {
    if k > 0 {
      ScoreAtMostAnswered(questions, shuffle, order, answers, k - 1);
      var before := set i | 0 <= i < k - 1 && i in answers;
      var now := set i | 0 <= i < k && i in answers;
      if k - 1 in answers {
        assert now == before + {k - 1};
      } else {
        assert now == before;
      }
    }
  }

  /** Every position correct exactly when the score is the number of questions. */
  lemma {:induction false} FullScoreIff(questions: seq<Question>, shuffle: bool, order: seq<nat>, answers: map<nat, int>, k: nat)
    ensures CorrectCount(questions, shuffle, order, answers, k) == k <==>
      forall i :: 0 <= i < k ==> CorrectAt(questions, shuffle, order, answers, i)
  {
    if k > 0 {
      FullScoreIff(questions, shuffle, order, answers, k - 1);
    }
  }

  /** Position `i` counts in the result link: its answer equals `questions[i]`'s correct option. */
  predicate LinkCorrectAt(questions: seq<Question>, answers: map<nat, int>, i: nat)
    requires i < |questions|
  {
    i in answers && answers[i] == questions[i].correctAnswer
  }

  function LinkCount(questions: seq<Question>, answers: map<nat, int>, k: nat): (n: nat)
    requires k <= |questions|
    ensures n <= k
  {
    if k == 0 then 0
    else LinkCount(questions, answers, k - 1) + (if LinkCorrectAt(questions, answers, k - 1) then 1 else 0)
  }

  /** `generateResultUrl`'s scoring loop, as written: it ignores the shuffled order. */
  method LinkScoreAsWritten(questions: seq<Question>, answers: map<nat, int>) returns (score: nat)
    ensures score == LinkCount(questions, answers, |questions|)
  {
    score := 0;
    var i := 0;
    while i < |questions|
      invariant 0 <= i <= |questions|
      invariant score == LinkCount(questions, answers, i)
    {
      if i in answers && answers[i] == questions[i].correctAnswer {
        score := score + 1;
      }
      i := i + 1;
    }
  }

  /** With shuffling off, the result link carries the score the student was shown. */
  lemma {:induction false} LinkScoreAgreesWhenNotShuffled(questions: seq<Question>, order: seq<nat>, answers: map<nat, int>, k: nat)
    requires k <= |questions|
    ensures LinkCount(questions, answers, k) == CorrectCount(questions, false, order, answers, k)
  {
    if k > 0 {
      LinkScoreAgreesWhenNotShuffled(questions, order, answers, k - 1);
    }
  }

  function SampleQuestion(correct: int): Question {
    Question(correct, MultipleChoice, "q", ["a", "b", "c", "d"], correct, "", "", "", [])
  }

  /**
   * With shuffling on, the two scores differ: two questions shown in swapped order and both
   * answered correctly score 2 on screen and 0 in the result link.
   */
  lemma LinkScoreDiffersWhenShuffled()
    ensures var questions := [SampleQuestion(0), SampleQuestion(1)];
      var answers := map[0 := 1, 1 := 0];
      Score(questions, true, [1, 0], answers) == 2 && LinkCount(questions, answers, 2) == 0
  {
    var questions := [SampleQuestion(0), SampleQuestion(1)];
    var answers := map[0 := 1, 1 := 0];
    assert CorrectAt(questions, true, [1, 0], answers, 0);
    assert CorrectAt(questions, true, [1, 0], answers, 1);
    assert !LinkCorrectAt(questions, answers, 0);
    assert !LinkCorrectAt(questions, answers, 1);
  }
}
