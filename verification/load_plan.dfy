/**
  The pure part of loading one table: collect the rows of its document
  stream, then build the TRUNCATE statement and the INSERT statement that the
  loader sends, in that order, for the table.
 */
module LoadPlan {
  import opened Wrappers
  import opened Values
  import opened SqlText
  import opened SqlReader
  import opened Extract

  /** The two statements for one staging table, in the order they are sent. */
  datatype TablePlan = TablePlan(truncate: string, insert: string)

  /**
    One table of `load_data`: the rows of the stream's error-free prefix,
    rendered into an INSERT statement, preceded by the TRUNCATE statement.
    With no document before the first decode error, the INSERT is the bare
    template, with nothing after `VALUES`. The VALUES section can be cut back
    out of the INSERT; `PlanReadsBack`, `PlanWithoutColumnsUnreadable` and
    `EmptyStreamPlanUnreadable` state what it reads back as.
   */
  method PlanTable(schema: string, table: string, columns: seq<string>, stream: seq<Decoded>)
    returns (plan: TablePlan)
    ensures plan.truncate == TruncateStatement(schema, table)
    ensures plan.insert == InsertHead(schema, table) + ValuesBody(Collected(stream, columns)) + InsertTail
    ensures ValuesSection(plan.insert, schema, table) == ValuesBody(Collected(stream, columns))
    ensures CleanPrefix(stream) == 0 ==> plan.insert == InsertHead(schema, table) + InsertTail
  {
    var rows := CollectRows(stream, columns);
    var insert := BuildInsert(rows, schema, table);
    var truncate := TruncateStatement(schema, table);
    if |rows| == 0 {
      NoRowsUnreadable(rows);
      assert insert == InsertHead(schema, table) + InsertTail;
    }
    plan := TablePlan(truncate, insert);
  }

  /**
    With at least one document before the first decode error and at least
    one column, the VALUES body of the table's INSERT reads back as the
    stored text of every projected value, row by row.
   */
  lemma PlanReadsBack(columns: seq<string>, stream: seq<Decoded>)
    requires |columns| > 0 && CleanPrefix(stream) > 0
    ensures ReadValues(ValuesBody(Collected(stream, columns))) == Some(StoredRows(Collected(stream, columns)))
  {
    var rows := Collected(stream, columns);
    CollectedRows(stream, columns);
    assert forall i :: 0 <= i < |rows| ==> |rows[i]| == |columns|;
    ValuesRoundTrip(rows);
  }

  /** With documents but no columns, the VALUES body cannot be read. */
  lemma PlanWithoutColumnsUnreadable(columns: seq<string>, stream: seq<Decoded>)
    requires |columns| == 0 && CleanPrefix(stream) > 0
    ensures ReadValues(ValuesBody(Collected(stream, columns))) == None
  {
    var rows := Collected(stream, columns);
    CollectedRows(stream, columns);
    assert |rows[0]| == 0;
    EmptyRowSpoilsValues(rows, 0);
  }

  /**
    With no document before the first decode error, the VALUES body is empty
    and is not a VALUES list: the INSERT is not a valid statement, yet it is
    still sent after the TRUNCATE.
   */
  lemma EmptyStreamPlanUnreadable(columns: seq<string>, stream: seq<Decoded>)
    requires CleanPrefix(stream) == 0
    ensures ValuesBody(Collected(stream, columns)) == ""
    ensures ReadValues(ValuesBody(Collected(stream, columns))) == None
  {
    CollectedRows(stream, columns);
    NoRowsUnreadable(Collected(stream, columns));
  }

  /** The configured columns `x` and `y` and a document holding only `x = 1`
      give the row `('1','')`. */
  lemma MissingFieldExample()
    ensures var doc := map["x" := Other("1")];
            RenderRow(Collected([Doc(doc)], ["x", "y"])[0]) == "('1','')"
  {
    var doc := map["x" := Other("1")];
    var row := Collected([Doc(doc)], ["x", "y"])[0];
    assert row == [Other("1"), Text("")];
    assert Escape("1") == "1" by {
      assert "1"[1..] == "";
    }
    assert Literal(Other("1")) == "'1'";
    assert Literal(Text("")) == "''";
    assert Literals(row) == ["'1'", "''"];
    assert Join(",", Literals(row)) == "'1'" + "," + "''";
  }
}
