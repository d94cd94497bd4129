/**
 The question store: the rows of the questionnaire spreadsheet after the
 columns have been renamed ("# vraag", "vraag", "x-as", "y-as", "thema"),
 and the rule that drops rows without a question text.
 */
module QuestionStore {
  import opened Wrappers

  /**
   One spreadsheet row. An empty cell of the text or topic column is `None`;
   an axis column only matters through whether its cell is filled, so
   `onXAxis` / `onYAxis` say whether the "x-as" / "y-as" cell is non-empty.
   */
  datatype Row = Row(
    ordinal: int,
    text: Option<string>,
    onXAxis: bool,
    onYAxis: bool,
    topic: Option<string>)

  /** A row is a question when its text cell is filled and not the empty string. */
  predicate HasText(r: Row) {
    r.text.Some? && r.text.value != ""
  }

  /**
   The rows that are questions, in spreadsheet order: every row kept has a
   text, every row with a text is kept as many times as it occurs, nothing
   else is kept.
   */
  function FilterRows(rows: seq<Row>): (qs: seq<Row>)
    ensures forall i :: 0 <= i < |qs| ==> HasText(qs[i])
    ensures forall r :: multiset(qs)[r] == if HasText(r) then multiset(rows)[r] else 0
  {
    if rows == [] then []
    else
      assert rows == [rows[0]] + rows[1..];
      if HasText(rows[0]) then [rows[0]] + FilterRows(rows[1..])
      else FilterRows(rows[1..])
  }

  /** Filtering keeps the relative order of rows: it distributes over concatenation. */
  lemma {:induction false} FilterRowsAppend(a: seq<Row>, b: seq<Row>)
    ensures FilterRows(a + b) == FilterRows(a) + FilterRows(b)
  {
    if a == [] {
      assert a + b == b;
    } else {
      assert (a + b)[0] == a[0];
      assert (a + b)[1..] == a[1..] + b;
      FilterRowsAppend(a[1..], b);
    }
  }

  /** Filtering an already filtered sheet changes nothing (the cached sheet is stable). */
  lemma {:induction false} FilterRowsIdempotent(rows: seq<Row>)
    ensures FilterRows(FilterRows(rows)) == FilterRows(rows)
  {
    if rows != [] {
      FilterRowsIdempotent(rows[1..]);
      if HasText(rows[0]) {
        var tail := FilterRows(rows[1..]);
        assert ([rows[0]] + tail)[0] == rows[0];
        assert ([rows[0]] + tail)[1..] == tail;
      }
    }
  }

  /** A sheet whose rows all have a text is returned unchanged. */
  lemma {:induction false} FilterRowsKeepsQuestions(rows: seq<Row>)
    requires forall i :: 0 <= i < |rows| ==> HasText(rows[i])
    ensures FilterRows(rows) == rows
  {
    if rows != [] {
      FilterRowsKeepsQuestions(rows[1..]);
    }
  }
}
