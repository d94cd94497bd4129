# FitKompas questionnaire — a Dafny model

FitKompas is a one-page Streamlit questionnaire (`app.py`). It loads Likert
questions from a spreadsheet and shows them one at a time. Each question
gets one of five answers, scored 1 to 5. When every question has an
answer, the page computes an activity score ("actief", x axis) and a
motivation score ("gemotiveerd", y axis), each scaled to 0..100. It places
the respondent in one of four quadrants and lists the mean answer per
topic ("thema"), highest first.

This project models the logic of that page:

| file | module | what it models |
|---|---|---|
| `wrappers.dfy` | `Wrappers` | `Option` for empty spreadsheet cells, `Result` for scoring errors |
| `store.dfy` | `QuestionStore` | spreadsheet rows and the rule that drops rows without question text |
| `likert.dfy` | `Likert` | the five fixed answer options and the score of a chosen option |
| `session.dfy` | `Questionnaire` | the session (question index and recorded answers) as a class with `Submit` and `Reset` |
| `axis.dfy` | `Axes` | the answer column, axis sums and counts, rounding, normalisation to 0..100 |
| `quadrant.dfy` | `Quadrants` | the four-way quadrant classification at threshold 50 |
| `topics.dfy` | `Topics` | grouping by topic, exact means as (sum, count), sorting by mean, highest first |
| `scorer.dfy` | `Scorer` | the whole results page as one function, plus its properties and worked examples |

Modelling choices:

- **Empty cells.** A text or topic cell that pandas reads as NaN is `None`.
  For the axis columns, the source only asks whether the cell is filled
  (`notna()`). So `onXAxis` / `onYAxis` are booleans: any non-empty cell
  counts, whatever it holds.
- **Session.** The session is a class with a `qIndex: nat` field and an
  `answers: seq<int>` field. `total`, the question count, is a `const`
  because the sheet is loaded once and cached.
- **Submit.** `Submit` keeps the source's guard (append only when
  `|answers| == qIndex`). It does not assume the session invariant. Its
  contract says what happens in both cases, and that the invariant `Valid()`
  is preserved.
- **Rounding.** Python's `round` rounds a tie to the even neighbour. The
  model applies that rule to the exact quotient `100 * score / (5 * count)`,
  computed in integers (`RoundHalfEven`). Its contract, `NearestEven`, says
  the result is a nearest integer, ties going to the even one.
  `NearestEvenUnique` proves that this fixes the result uniquely.
- **Topic means.** A mean is kept as a (sum, count) pair. Two means are
  compared by cross-multiplication (`AtLeast`). `AtLeastIsMeanOrder`
  proves this matches comparing the real means.
- **Empty axis group.** In the source, an empty x or y group means dividing
  by a maximum score of 0, with no guard. The model's `Score` returns
  `Err(NoXAxisQuestions)` or `Err(NoYAxisQuestions)` in that case.
  `Normalise` itself requires a non-empty group.

Error cases the code does not raise:

- The code raises no error for an invalid choice or for a press after the
  last question. The radio widget only returns one of the five options
  (app.py:95), so `Submit` requires its choice to be one of them. No
  "Volgende" button exists on the results page (app.py:80-101), so
  `Submit` changes nothing there.
- Rows with an empty topic cell belong to no topic, because `groupby`
  drops NaN keys (app.py:148).

## Model

| member | source | states |
|---|---|---|
| `QuestionStore.HasText` | app.py:67 | the row mask: a row is a question exactly when its text cell is present and not the empty string; `FilterRows` states that exactly these rows are kept |
| `QuestionStore.FilterRows` | app.py:58-68 | every kept row has a non-empty question text; each row with a text is kept exactly as often as it occurs and no other row is kept |
| `QuestionStore.FilterRowsAppend` | app.py:67 | filtering keeps spreadsheet order: it distributes over concatenation |
| `QuestionStore.FilterRowsIdempotent` | app.py:67 | filtering a filtered sheet changes nothing |
| `QuestionStore.FilterRowsKeepsQuestions` | app.py:67 | a sheet whose rows all have a text comes back unchanged |
| `Likert.IndexOf` | app.py:99 | `opties.index`: the position of the first occurrence of the label |
| `Likert.AnswerValue` | app.py:87-99 | a chosen option records its position plus one, a score in 1..5 |
| `Likert.OptionsDistinct` | app.py:87-93 | the five option labels are pairwise different |
| `Likert.AnswerValueOfPosition` | app.py:87-99 | the option at position k records exactly k + 1 |
| `Likert.AnswerValues` | app.py:95-99 | the scores of a sequence of choices, in order, each in 1..5 and naming its option |
| `Questionnaire.Session.constructor` | app.py:74-77 | a new session starts at question 0 with no answers and satisfies the invariant: as many answers as passed questions, never past the last question, every answer in 1..5 |
| `Questionnaire.Session.Valid` | app.py:74-100 | the session invariant: one recorded answer per passed question, the index never past the question count, every answer in 1..5; the constructor establishes it and `Submit` and `Reset` preserve it |
| `Questionnaire.Session.IsComplete` | app.py:80-101 | the results page is shown exactly when the index is not below the question count; `CurrentQuestion` states that a question is shown exactly otherwise, and `CompleteHasAllAnswers` what a complete session holds |
| `Questionnaire.Session.EmptyStoreIsComplete` | app.py:72-80 | with zero questions a valid session is complete at once, with no answers |
| `Questionnaire.Session.CompleteHasAllAnswers` | app.py:101-103 | a valid complete session has exactly one answer in 1..5 per question, which is what the answer-column assignment needs |
| `Questionnaire.Session.CurrentQuestion` | app.py:80-83 | a question is shown exactly while the index is below the question count, and it is the question at that index |
| `Questionnaire.Session.Submit` | app.py:97-100 | while a question is shown, the index moves on by exactly one; the score is appended only when no answer exists yet for that index, otherwise nothing is appended; on the results page nothing changes; the invariant is preserved |
| `Questionnaire.Session.Reset` | app.py:153-155 | from any state: index 0, no answers, invariant holds |
| `Questionnaire.AnswerAll` | app.py:80-100 | `total` presses of "Volgende" from a fresh session leave it complete, holding exactly the choices' scores in order |
| `Questionnaire.AnswerValuesAppend` | app.py:99 | answering one more question appends that choice's score |
| `Axes.AttachAnswers` | app.py:103 | the answer column: row i gets answer i; lengths must agree |
| `Axes.AttachValidAnswers` | app.py:103 | scores in 1..5 give a valid answer column |
| `Axes.AxisSum` | app.py:106-107 | the sum of the answers on the rows whose axis cell is filled; `AxisSumBounds`, `EmptyAxisSumsToZero` and `AxisAppend` state its properties |
| `Axes.AxisCount` | app.py:108-109 | an axis group never has more rows than the sheet |
| `Axes.AxisSumBounds` | app.py:106-109 | with answers in 1..5, an axis sum lies between the group size and the maximum `5 × count` |
| `Axes.EmptyAxisSumsToZero` | app.py:106-107 | an empty axis group sums to 0 |
| `Axes.AxisAppend` | app.py:106-109 | axis sums and counts add up over consecutive parts of the sheet |
| `Axes.RoundHalfEven` | app.py:110-111 | the result is an integer nearest to n / d; on a tie it is the even one |
| `Axes.NearestEvenUnique` | app.py:110-111 | at most one integer is nearest with ties to even, so `RoundHalfEven` is the only such value |
| `Axes.Normalise` | app.py:108-111 | `round(score / (5 × count) × 100)` is within half a step of the exact percentage |
| `Axes.NormaliseBounds` | app.py:106-111 | a group sum between count and 5 × count normalises into 20..100, hence into 0..100 |
| `Axes.NormaliseExtremes` | app.py:106-111 | all fives give 100, all ones give 20 |
| `Quadrants.Classify` | app.py:114-129 | the quadrant is active exactly when x ≥ 50 and motivated exactly when y ≥ 50 |
| `Quadrants.Label` | app.py:115-127 | the `kwadrant` name of each quadrant; `LabelsDistinct` states the four names differ and `Boundaries` which name each corner gets |
| `Quadrants.ExactlyOneBranch` | app.py:114-129 | exactly one of the four if/elif guards holds for any scores, and the chain yields that branch's quadrant |
| `Quadrants.LabelsDistinct` | app.py:115-127 | the four quadrant names are pairwise different |
| `Quadrants.ClassifyMonotone` | app.py:114-129 | raising a score never leaves the active or motivated half |
| `Quadrants.Boundaries` | app.py:114-129 | (50,50) is "Wél actief & wél gemotiveerd"; (49,50), (50,49), (49,49) are the other three |
| `Topics.TopicCountPositive` | app.py:148 | a topic has rows exactly when some row carries it |
| `Topics.TopicSumOfAbsent` | app.py:148 | a topic without rows sums to 0 |
| `Topics.TopicSumBounds` | app.py:148 | with answers in 1..5, a topic's sum lies between its count and 5 × its count |
| `Topics.AddToFind` | app.py:148 | adding an answer for topic t updates only t's entry (or creates it with count 1) |
| `Topics.AddToDistinct` | app.py:148 | adding an answer keeps every topic listed at most once |
| `Topics.Group` | app.py:148 | `groupby("thema")` with its sum and count per topic; `GroupCorrect` states it lists each occurring topic once with that topic's sum and count, and no other topic |
| `Topics.GroupCorrect` | app.py:148 | grouping gives one entry for each topic that occurs and none for any other, each with that topic's sum and count |
| `Topics.AtLeastIsMeanOrder` | app.py:148 | comparing by cross-multiplication is comparing the real means |
| `Topics.Insert` | app.py:148 | insertion is a permutation adding one entry and keeps a list in non-increasing mean order |
| `Topics.SortDescending` | app.py:148 | the sorted list is a permutation of its input, in non-increasing mean order |
| `Topics.InsertDistinct` | app.py:148 | inserting a new topic keeps topics unique |
| `Topics.SortDistinct` | app.py:148 | sorting keeps topics unique |
| `Topics.PermutationFind` | app.py:148 | two permutations without repeated topics hold the same entry for every topic |
| `Topics.DescendingMeans` | app.py:148 | neighbour order of the means extends to every pair |
| `Topics.MeanBounds` | app.py:148 | a mean of answers in 1..5 lies in 1..5 |
| `Topics.TopicAverages` | app.py:148 | the whole topic expression: group, then sort by mean, highest first; `TopicAveragesCorrect` states its result satisfies `TopicReport` |
| `Topics.TopicAveragesCorrect` | app.py:148 | the topic list covers exactly the topics that occur, each once with its sum and count, in non-increasing order of mean, every mean in 1..5 |
| `Topics.DisplayTenths` | app.py:150 | the displayed mean, in tenths, is nearest to the exact mean |
| `Topics.DisplayTenthsBounds` | app.py:150 | a mean in 1..5 is displayed between 1.0 and 5.0 |
| `Scorer.Score` | app.py:103-148 | an error exactly when the x group is empty, or when the x group is not empty and the y group is; otherwise each axis score is within half a step of its exact percentage |
| `Scorer.ScoreAxes` | app.py:106-129 | with answers in 1..5, both axis scores lie in 20..100, and the quadrant is active/motivated exactly when the x/y score reaches 50 |
| `Scorer.ScoreTopics` | app.py:148 | with answers in 1..5, the result's topic list covers exactly the topics that occur, each once with its sum and count, in non-increasing order of mean in 1..5 |
| `Scorer.EmptyStore` | app.py:72-148 | with no questions the x group is empty and there are no topics |
| `Scorer.TwoXQuestions` | app.py:106-111 | two x questions answered 5 and 1 give x score 60; the empty y group is reported |
| `Scorer.FourQuestionsAxes` | app.py:106-111 | in the two-topic example each axis sums 7 over 2 rows and normalises to 70 |
| `Scorer.FourQuestionsGroup` | app.py:148 | in the two-topic example, grouping gives A (6 over 2) then B (8 over 2), in order of first appearance |
| `Scorer.FourQuestionsSort` | app.py:148 | sorting those groups puts B (mean 4) before A (mean 3) |
| `Scorer.FourQuestionsTopics` | app.py:148 | the example's topic list is B then A |
| `Scorer.FourQuestions` | app.py:103-148 | the two-topic example gives scores (70, 70), active and motivated, topics listed B (mean 4) before A (mean 3) |

## Left out

- The password gate (app.py:10-20). It is a fixed passphrase compare wired into Streamlit's stop/rerun flow.
- Styling, header, logo, headings and messages (app.py:7, 22-53, 82-85, 102, 113, 131-132, 147). They are presentation only.
- The per-quadrant explanation text and colour (app.py:116-128). They are authored content, and only the quadrant names are modelled.
- Excel reading, column renaming and caching (app.py:55-66, 71). These are pandas I/O; the model starts from rows with the renamed columns.
- The "richting" (direction) column. Scoring never reads it.
- The `int()` conversion of the "# vraag" cell for display. The ordinal is an `int` field.
- The Plotly chart (app.py:135-144). It is presentation only.
- Streamlit's rerun model: `st.experimental_rerun`, widget keys, and the global session state (app.py:95-97, 156). Each method call stands for one button press.
- Questionnaire.Session.Reset: the source offers the button only on the results page (app.py:153). The model allows `Reset` from any state.
- Questionnaire.Session.Submit: the source can only press the button while a question is shown. The model makes a press on the results page a no-op.
- Axes.Normalise: floating point is not modelled. The source divides in IEEE floats and rounds with `round`. The model rounds the exact quotient half-to-even, so it can differ from the float result near a tie.
- Scorer.Score: the source has no guard for an empty axis group. Depending on the numpy version, the 0/0 then gives an error or a NaN score that falls into the last quadrant branch. The model reports an error instead.
- Scorer.Score: if the answer count differs from the question count, pandas fails on the column assignment (app.py:103). The model requires the lengths to agree; a valid complete session guarantees it (`CompleteHasAllAnswers`).
- Topics.TopicAverages: the tie order is not the source's. pandas groups topics in sorted key order, then sorts by mean with an unstable quicksort, so equal means come out in no promised order. The model groups by first appearance and sorts stably. The contracts state only the order of the means, not the order among ties.
- Topics.DisplayTenths: the source rounds the float mean with `round(score, 1)`. The model rounds the exact mean half-to-even in tenths.
