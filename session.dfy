/**
 The questionnaire session: which question is on screen and the answers
 recorded so far. The page shows question `qIndex` while `qIndex` is below
 the number of questions; pressing "Volgende" records the chosen option and
 moves on; "Opnieuw starten" starts over.
 */
module Questionnaire {
  import opened Wrappers
  import opened QuestionStore
  import opened Likert

  class Session {
    /** The number of questions in the (cached) question store. */
    const total: nat
    /** Position of the question on screen; `total` or more means finished. */
    var qIndex: nat
    /** The recorded scores, one per answered question, in question order. */
    var answers: seq<int>

    /**
     The session invariant: exactly one answer per passed question, never
     past the last question, and every answer a score of 1 to 5.
     */
    predicate Valid()
      reads this
    {
      && |answers| == qIndex <= total
      && ValidScores(answers)
    }

    /** A fresh session: first question, nothing answered. */
    constructor (total: nat)
      ensures this.total == total
      ensures qIndex == 0 && answers == []
      ensures Valid()
    {
      this.total := total;
      qIndex := 0;
      answers := [];
    }

    /** The results page is shown once the index is no longer below the question count. */
    predicate IsComplete()
      reads this
    {
      !(qIndex < total)
    }

    /** A valid session with no questions at all is complete from the start. */
    lemma EmptyStoreIsComplete()
      requires Valid() && total == 0
      ensures IsComplete() && answers == []
    {
    }

    /** A valid complete session holds exactly one valid score per question. */
    lemma CompleteHasAllAnswers()
      requires Valid() && IsComplete()
      ensures |answers| == total
      ensures ValidScores(answers)
    {
    }

    /** The question on screen, or `None` on the results page. */
    function CurrentQuestion(questions: seq<Row>): (q: Option<Row>)
      reads this
      requires |questions| == total
      ensures q.Some? <==> !IsComplete()
      ensures q.Some? ==> 0 <= qIndex < |questions| && q.value == questions[qIndex]
    {
      if qIndex < total then Some(questions[qIndex]) else None
    }

    /**
     Pressing "Volgende" with `choice` selected. The button only exists while
     a question is shown, so on the results page nothing changes. Otherwise
     the score is appended only when no answer for this question exists yet,
     and the index always moves on by one.
     */
    method Submit(choice: string)
      requires choice in OPTIONS
      modifies this
      ensures old(qIndex) < total ==> qIndex == old(qIndex) + 1
      ensures old(qIndex) < total && |old(answers)| == old(qIndex) ==>
                answers == old(answers) + [AnswerValue(choice)]
      ensures old(qIndex) < total && |old(answers)| != old(qIndex) ==> answers == old(answers)
      ensures old(qIndex) >= total ==> qIndex == old(qIndex) && answers == old(answers)
      ensures old(Valid()) ==> Valid()
    {
      if qIndex < total {
        if |answers| == qIndex {
          answers := answers + [AnswerValue(choice)];
        }
        qIndex := qIndex + 1;
      }
    }

    /** "Opnieuw starten": back to the first question with no answers. */
    method Reset()
      modifies this
      ensures qIndex == 0 && answers == []
      ensures Valid()
    {
      qIndex := 0;
      answers := [];
    }
  }

  /**
   The whole questionnaire from a fresh session: one press of "Volgende" per
   question, with `choices[k]` selected for question `k`. Afterwards the
   session is complete and holds the scores of the choices, in order.
   */
  method AnswerAll(s: Session, choices: seq<string>)
    requires s.Valid() && s.qIndex == 0
    requires |choices| == s.total
    requires forall i :: 0 <= i < |choices| ==> choices[i] in OPTIONS
    modifies s
    ensures s.Valid() && s.IsComplete()
    ensures s.answers == AnswerValues(choices)
  {
    var k := 0;
    while k < |choices|
      invariant 0 <= k <= |choices|
      invariant s.Valid() && s.qIndex == k
      invariant s.answers == AnswerValues(choices[..k])
    {
      assert choices[..k + 1] == choices[..k] + [choices[k]];
      AnswerValuesAppend(choices[..k], choices[k]);
      s.Submit(choices[k]);
      k := k + 1;
    }
    assert choices[..k] == choices;
  }

  /** Scoring one more choice appends its score. */
  lemma {:induction false} AnswerValuesAppend(choices: seq<string>, c: string)
    requires forall i :: 0 <= i < |choices| ==> choices[i] in OPTIONS
    requires c in OPTIONS
    ensures AnswerValues(choices + [c]) == AnswerValues(choices) + [AnswerValue(c)]
  {
    if choices == [] {
      assert choices + [c] == [c];
    } else {
      assert (choices + [c])[1..] == choices[1..] + [c];
      AnswerValuesAppend(choices[1..], c);
    }
  }
}
