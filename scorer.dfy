/**
 The results page: once every question has an answer, the answers are
 attached to the questions and turned into the two normalised axis
 scores, the quadrant and the topic list.
 */
module Scorer {
  import opened Wrappers
  import opened QuestionStore
  import opened Axes
  import opened Quadrants
  import opened Topics
  import opened Likert

  /**
   A group of axis questions that is empty leaves the division by the
   maximum score without a value.
   */
  datatype ScoreError = NoXAxisQuestions | NoYAxisQuestions

  datatype Report = Report(xNorm: int, yNorm: int, quadrant: Quadrant, topics: seq<TopicMean>)

  /**
   Scores the answers `answers[i]` given to the questions `qs[i]`. The x
   score is computed first, so an empty x group is reported even when the
   y group is empty too.
   */
  function Score(qs: seq<Row>, answers: seq<int>): (r: Result<Report, ScoreError>)
    requires |qs| == |answers|
    ensures r == Err(NoXAxisQuestions) <==> AxisCount(AttachAnswers(qs, answers), X) == 0
    ensures r == Err(NoYAxisQuestions) <==>
      AxisCount(AttachAnswers(qs, answers), X) > 0 && AxisCount(AttachAnswers(qs, answers), Y) == 0
    ensures r.Ok? ==>
      var rs := AttachAnswers(qs, answers);
      var cx, cy := AxisCount(rs, X), AxisCount(rs, Y);
      && NearestEven(100 * AxisSum(rs, X), 5 * cx, r.value.xNorm)
      && NearestEven(100 * AxisSum(rs, Y), 5 * cy, r.value.yNorm)
  {
    var rs := AttachAnswers(qs, answers);
    var cx, cy := AxisCount(rs, X), AxisCount(rs, Y);
    if cx == 0 then Err(NoXAxisQuestions)
    else if cy == 0 then Err(NoYAxisQuestions)
    else
      var x, y := Normalise(AxisSum(rs, X), cx), Normalise(AxisSum(rs, Y), cy);
      Ok(Report(x, y, Classify(x, y), TopicAverages(rs)))
  }

  /**
   The chart point and the quadrant, for answers of 1 to 5: when both axis
   groups are non-empty, both axis scores are in 20..100 (so on the 0..100
   chart), the quadrant is active exactly when the x score reaches 50 and
   motivated exactly when the y score does.
   */
  lemma ScoreAxes(qs: seq<Row>, answers: seq<int>)
    requires |qs| == |answers|
    requires ValidScores(answers)
    ensures Score(qs, answers).Ok? ==>
      var rep := Score(qs, answers).value;
      && 20 <= rep.xNorm <= 100 && 20 <= rep.yNorm <= 100
      && (rep.quadrant.Active() <==> rep.xNorm >= THRESHOLD)
      && (rep.quadrant.Motivated() <==> rep.yNorm >= THRESHOLD)
  {
    var rs := AttachAnswers(qs, answers);
    if Score(qs, answers).Ok? {
      AttachValidAnswers(qs, answers);
      var sx, cx, sy, cy := AxisSum(rs, X), AxisCount(rs, X), AxisSum(rs, Y), AxisCount(rs, Y);
      AxisSumBounds(rs, X);
      AxisSumBounds(rs, Y);
      NormaliseBounds(sx, cx);
      NormaliseBounds(sy, cy);
    }
  }

  /**
   The topic list of the results page, for answers of 1 to 5: one entry
   per topic that occurs and none for any other, each with that topic's
   sum and count, by non-increasing mean, every mean in 1..5.
   */
  lemma ScoreTopics(qs: seq<Row>, answers: seq<int>)
    requires |qs| == |answers|
    requires ValidScores(answers)
    ensures Score(qs, answers).Ok? ==>
      TopicReport(Score(qs, answers).value.topics, AttachAnswers(qs, answers))
  {
    var rs := AttachAnswers(qs, answers);
    if Score(qs, answers).Ok? {
      AttachValidAnswers(qs, answers);
      assert Score(qs, answers).value.topics == TopicAverages(rs);
      TopicAveragesCorrect(rs);
    }
  }

  /** Without questions there is nothing on either axis: no score, and no topics either. */
  lemma EmptyStore()
    ensures Score([], []) == Err(NoXAxisQuestions)
    ensures TopicAverages(AttachAnswers([], [])) == []
  {
    assert AttachAnswers([], []) == [];
  }

  /** Two x-axis questions answered 5 and 1: x is 60, and the y group is empty. */
  lemma TwoXQuestions()
    ensures
      var qs := [Row(1, Some("a"), true, false, None), Row(2, Some("b"), true, false, None)];
      var rs := AttachAnswers(qs, [5, 1]);
      && AxisSum(rs, X) == 6 && AxisCount(rs, X) == 2
      && Normalise(6, 2) == 60
      && Score(qs, [5, 1]) == Err(NoYAxisQuestions)
  {
    var qs := [Row(1, Some("a"), true, false, None), Row(2, Some("b"), true, false, None)];
    var rs := AttachAnswers(qs, [5, 1]);
    assert rs == [Answered(qs[0], 5), Answered(qs[1], 1)];
    assert rs[1..] == [Answered(qs[1], 1)];
    assert rs[1..][1..] == [];
    assert AxisSum(rs[1..], X) == 1;
    assert AxisCount(rs[1..], X) == 1;
    NearestEvenUnique(600, 10, Normalise(6, 2), 60);
  }

  /** Four questions on two topics: "A" on x then y, "B" on x then y. */
  const FOUR_QUESTIONS: seq<Row> := [
    Row(1, Some("q1"), true, false, Some("A")), Row(2, Some("q2"), false, true, Some("A")),
    Row(3, Some("q3"), true, false, Some("B")), Row(4, Some("q4"), false, true, Some("B"))
  ]

  /** Answered 4, 2, 3, 5: each axis sums to 7 over two rows, which normalises to 70. */
  lemma FourQuestionsAxes()
    ensures
      var rs := AttachAnswers(FOUR_QUESTIONS, [4, 2, 3, 5]);
      && AxisSum(rs, X) == 7 && AxisCount(rs, X) == 2
      && AxisSum(rs, Y) == 7 && AxisCount(rs, Y) == 2
      && Normalise(7, 2) == 70
  {
    var qs := FOUR_QUESTIONS;
    var rs := AttachAnswers(qs, [4, 2, 3, 5]);
    assert rs == [Answered(qs[0], 4), Answered(qs[1], 2), Answered(qs[2], 3), Answered(qs[3], 5)];
    AxisAppend(rs[..2], rs[2..], X);
    AxisAppend(rs[..2], rs[2..], Y);
    assert rs[..2] + rs[2..] == rs;
    assert rs[..2][1..] == [rs[1]] && rs[2..][1..] == [rs[3]];
    NearestEvenUnique(700, 10, Normalise(7, 2), 70);
  }

  /** Grouping the example's answered rows: "A" sums 6 over 2 rows, "B" 8 over 2, in that order. */
  lemma FourQuestionsGroup(rs: seq<Answered>)
    requires rs == AttachAnswers(FOUR_QUESTIONS, [4, 2, 3, 5])
    ensures Group(rs) == [TopicMean("A", 6, 2), TopicMean("B", 8, 2)]
  {
    var qs := FOUR_QUESTIONS;
    assert rs == [Answered(qs[0], 4), Answered(qs[1], 2), Answered(qs[2], 3), Answered(qs[3], 5)];
    var p1, p2, p3 := rs[..1], rs[..2], rs[..3];
    assert p3[..2] == p2 && p2[..1] == p1 && p1[..0] == [];
    assert Group(p1) == [TopicMean("A", 4, 1)];
    assert Group(p2) == [TopicMean("A", 6, 2)];
    assert AddTo([TopicMean("A", 6, 2)], "B", 3) == [TopicMean("A", 6, 2), TopicMean("B", 3, 1)];
    assert Group(p3) == [TopicMean("A", 6, 2), TopicMean("B", 3, 1)];
    var g3 := [TopicMean("A", 6, 2), TopicMean("B", 3, 1)];
    assert AddTo(g3[1..], "B", 5) == [TopicMean("B", 8, 2)];
    assert AddTo(g3, "B", 5) == [TopicMean("A", 6, 2), TopicMean("B", 8, 2)];
    assert rs[..|rs| - 1] == p3;
  }

  /** Sorting the example's groups puts "B" (mean 4) before "A" (mean 3). */
  lemma FourQuestionsSort()
    ensures SortDescending([TopicMean("A", 6, 2), TopicMean("B", 8, 2)]) ==
      [TopicMean("B", 8, 2), TopicMean("A", 6, 2)]
  {
    var gs := [TopicMean("A", 6, 2), TopicMean("B", 8, 2)];
    assert gs[1..] == [TopicMean("B", 8, 2)];
    assert SortDescending(gs[1..]) == [TopicMean("B", 8, 2)];
  }

  /** Answered 4, 2, 3, 5: "B" (8 over 2, mean 4) is listed before "A" (6 over 2, mean 3). */
  lemma FourQuestionsTopics()
    ensures TopicAverages(AttachAnswers(FOUR_QUESTIONS, [4, 2, 3, 5])) ==
      [TopicMean("B", 8, 2), TopicMean("A", 6, 2)]
  {
    FourQuestionsGroup(AttachAnswers(FOUR_QUESTIONS, [4, 2, 3, 5]));
    FourQuestionsSort();
  }

  /**
   The whole results page for that example: scores (70, 70), active and
   motivated, topic "B" before topic "A".
   */
  lemma FourQuestions()
    ensures Score(FOUR_QUESTIONS, [4, 2, 3, 5]) ==
      Ok(Report(70, 70, ActiveMotivated, [TopicMean("B", 8, 2), TopicMean("A", 6, 2)]))
  {
    FourQuestionsAxes();
    FourQuestionsTopics();
  }
}
