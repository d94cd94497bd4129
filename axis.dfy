/**
 The two axis scores. The answers are attached to the questions as a new
 column; the "actief" (x) score sums the answers of the rows whose "x-as"
 cell is filled, the "gemotiveerd" (y) score those whose "y-as" cell is
 filled, and each sum is scaled to 0..100 against five points per row.
 */
module Axes {
  import opened QuestionStore
  import opened Likert

  /** A question together with the score given for it. */
  datatype Answered = Answered(row: Row, answer: int)

  datatype Axis = X | Y

  predicate OnAxis(r: Row, axis: Axis) {
    match axis
    case X => r.onXAxis
    case Y => r.onYAxis
  }

  /** Every row of the answer column holds a valid score (see `ValidScores`). */
  predicate ValidAnswers(rs: seq<Answered>) {
    forall i :: 0 <= i < |rs| ==> 1 <= rs[i].answer <= 5
  }

  /** Adds the answer column: row `i` receives answer `i`. The lengths must agree. */
  function AttachAnswers(qs: seq<Row>, answers: seq<int>): (rs: seq<Answered>)
    requires |qs| == |answers|
    ensures |rs| == |qs|
    ensures forall i :: 0 <= i < |rs| ==> rs[i].row == qs[i] && rs[i].answer == answers[i]
  {
    seq(|qs|, i requires 0 <= i < |qs| => Answered(qs[i], answers[i]))
  }

  /** Scores in 1..5 give a column of valid answers. */
  lemma AttachValidAnswers(qs: seq<Row>, answers: seq<int>)
    requires |qs| == |answers|
    requires ValidScores(answers)
    ensures ValidAnswers(AttachAnswers(qs, answers))
  {
  }

  /** The sum of the answers on rows that belong to `axis`. */
  function AxisSum(rs: seq<Answered>, axis: Axis): int {
    if rs == [] then 0
    else (if OnAxis(rs[0].row, axis) then rs[0].answer else 0) + AxisSum(rs[1..], axis)
  }

  /** The number of rows that belong to `axis`. */
  function AxisCount(rs: seq<Answered>, axis: Axis): (n: nat)
    ensures n <= |rs|
  {
    if rs == [] then 0
    else (if OnAxis(rs[0].row, axis) then 1 else 0) + AxisCount(rs[1..], axis)
  }

  /** With every answer in 1..5, an axis sum lies between its row count and five times it. */
  lemma {:induction false} AxisSumBounds(rs: seq<Answered>, axis: Axis)
    requires ValidAnswers(rs)
    ensures AxisCount(rs, axis) <= AxisSum(rs, axis) <= 5 * AxisCount(rs, axis)
  {
    if rs != [] {
      AxisSumBounds(rs[1..], axis);
    }
  }

  /** No row on the axis: the sum is zero. */
  lemma {:induction false} EmptyAxisSumsToZero(rs: seq<Answered>, axis: Axis)
    requires AxisCount(rs, axis) == 0
    ensures AxisSum(rs, axis) == 0
  {
    if rs != [] {
      EmptyAxisSumsToZero(rs[1..], axis);
    }
  }

  /** Axis sums and counts add up over consecutive parts of the sheet. */
  lemma {:induction false} AxisAppend(a: seq<Answered>, b: seq<Answered>, axis: Axis)
    ensures AxisSum(a + b, axis) == AxisSum(a, axis) + AxisSum(b, axis)
    ensures AxisCount(a + b, axis) == AxisCount(a, axis) + AxisCount(b, axis)
  {
    if a == [] {
      assert a + b == b;
    } else {
      assert (a + b)[0] == a[0];
      assert (a + b)[1..] == a[1..] + b;
      AxisAppend(a[1..], b, axis);
    }
  }

  /**
   `r` is an integer nearest to `n / d`, and on a tie (`n / d` exactly
   halfway between two integers) it is the even one.
   */
  predicate NearestEven(n: int, d: int, r: int)
    requires d > 0
  {
    && -d <= 2 * (n - r * d) <= d
    && ((2 * (n - r * d) == d || 2 * (n - r * d) == -d) ==> r % 2 == 0)
  }

  /**
   `n / d` rounded to the nearest integer, a tie going to the even
   neighbour (the rule of Python's `round`), computed on the exact quotient.
   */
  function RoundHalfEven(n: int, d: int): (r: int)
    requires d > 0
    ensures NearestEven(n, d, r)
  {
    var q, m := n / d, n % d;
    assert n == q * d + m;
    assert (q + 1) * d == q * d + d;
    if 2 * m < d then q
    else if 2 * m > d then q + 1
    else if q % 2 == 0 then q
    else q + 1
  }

  /** Multiplying by a non-negative factor keeps the order. */
  lemma MulMonotone(a: int, b: int, d: int)
    requires a <= b && d >= 0
    ensures a * d <= b * d
  {
    assert b * d - a * d == (b - a) * d;
  }

  /**
   Two rounding errors `es` and `er` of at most half a step, whose
   difference is `k` steps of size `d`: then `k` is 0, or the two are
   the two sides of a tie.
   */
  lemma ErrorsPinDown(d: int, es: int, er: int, k: int, kd: int)
    requires d > 0
    requires -d <= 2 * es <= d && -d <= 2 * er <= d
    requires es - er == kd
    requires k >= 2 ==> kd >= 2 * d
    requires k <= -2 ==> kd <= -2 * d
    requires k == 1 ==> kd == d
    requires k == -1 ==> kd == -d
    ensures k == 0 || (k == 1 && 2 * er == -d) || (k == -1 && 2 * er == d)
  {
  }

  /** At most one integer is nearest to `n / d` with ties to even, so `RoundHalfEven` is the only one. */
  lemma NearestEvenUnique(n: int, d: int, r: int, s: int)
    requires d > 0
    requires NearestEven(n, d, r) && NearestEven(n, d, s)
    ensures r == s
  {
    var k := r - s;
    var kd := k * d;
    assert n - s * d - (n - r * d) == kd by {
      assert r * d - s * d == (r - s) * d;
    }
    if k >= 2 {
      MulMonotone(2, k, d);
    } else if k <= -2 {
      MulMonotone(k, -2, d);
    }
    ErrorsPinDown(d, n - s * d, n - r * d, k, kd);
  }

  /**
   `round(score / maximum * 100)` for a group of `count` rows, with maximum
   `5 * count`. The source divides without a guard, so an empty group has
   no value here; callers check for it first.
   */
  function Normalise(score: int, count: nat): (r: int)
    requires count > 0
    ensures NearestEven(100 * score, 5 * count, r)
  {
    RoundHalfEven(100 * score, 5 * count)
  }

  /** A group's score of `count` to `5 * count` normalises into 20..100, hence into 0..100. */
  lemma NormaliseBounds(score: int, count: nat)
    requires count > 0
    requires count <= score <= 5 * count
    ensures 20 <= Normalise(score, count) <= 100
  {
    var r, d := Normalise(score, count), 5 * count;
    assert -d <= 2 * (100 * score - r * d) <= d;
    if r > 100 {
      MulMonotone(101, r, d);
    }
    if r < 20 {
      MulMonotone(r, 19, d);
    }
  }

  /** All answers 5 on an axis give 100; all answers 1 give 20. */
  lemma NormaliseExtremes(count: nat)
    requires count > 0
    ensures Normalise(5 * count, count) == 100
    ensures Normalise(count, count) == 20
  {
    var d := 5 * count;
    assert 100 * (5 * count) - 100 * d == 0 && 100 * count - 20 * d == 0;
    NearestEvenUnique(100 * (5 * count), d, Normalise(5 * count, count), 100);
    NearestEvenUnique(100 * count, d, Normalise(count, count), 20);
  }
}
