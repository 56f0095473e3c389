/**
  A reader for the VALUES body of the loader's INSERT statement, following
  the SQL rules for quoted string literals: a literal opens with `'`, a pair
  `''` inside it stands for one quote, and a lone `'` closes it. Rows are
  parenthesised, comma-separated literal lists; rows are separated by a comma
  and a newline.

  The reader is the partner of the renderer in `SqlText`: reading a rendered
  body back gives exactly the stored text of every value, row by row, so the
  escaping cannot let a value break out of its literal. The reader follows
  standard quoting only: a backslash is an ordinary character, and so is
  U+0000, which PostgreSQL refuses in text values.
 */
module SqlReader {
  import opened Wrappers
  import opened Values
  import opened SqlText

  /** A successful read with `p` put in front of the text read. */
  function Prefixed(p: string, r: Option<(string, string)>): Option<(string, string)>
  {
    match r
    case None => None
    case Some((t, rest)) => Some((p + t, rest))
  }

  /** Reads the rest of a literal whose opening quote has been consumed;
      returns its text and what follows the closing quote. */
  function ReadQuoted(s: string): (r: Option<(string, string)>)
    ensures r.Some? ==> |r.value.1| < |s|
    decreases |s|
  {
    if |s| == 0 then None
    else if s[0] == '\'' then
      if |s| >= 2 && s[1] == '\'' then Prefixed("'", ReadQuoted(s[2..]))
      else Some(("", s[1..]))
    else Prefixed([s[0]], ReadQuoted(s[1..]))
  }

  function ReadLiteral(s: string): (r: Option<(string, string)>)
    ensures r.Some? ==> |r.value.1| < |s|
  {
    if |s| > 0 && s[0] == '\'' then ReadQuoted(s[1..]) else None
  }

  /** Reads `lit, lit, ..., lit)` and returns the texts and what follows `)`. */
  function ReadFields(s: string): (r: Option<(seq<string>, string)>)
    ensures r.Some? ==> |r.value.1| < |s|
    decreases |s|
  {
    match ReadLiteral(s)
    case None => None
    case Some((t, rest)) =>
      if |rest| > 0 && rest[0] == ',' then
        match ReadFields(rest[1..])
        case None => None
        case Some((ts, after)) => Some(([t] + ts, after))
      else if |rest| > 0 && rest[0] == ')' then Some(([t], rest[1..]))
      else None
  }

  function ReadRow(s: string): (r: Option<(seq<string>, string)>)
    ensures r.Some? ==> |r.value.1| < |s|
  {
    if |s| > 0 && s[0] == '(' then ReadFields(s[1..]) else None
  }

  /**
    Reads a whole VALUES body: one or more rows separated by a comma and a
    newline, up to the end. SQL requires at least one row after `VALUES`, so
    an empty body is not read as zero rows.
   */
  function ReadValues(s: string): Option<seq<seq<string>>>
    decreases |s|
  {
    match ReadRow(s)
    case None => None
    case Some((fields, rest)) =>
      if |rest| == 0 then Some([fields])
      else if |rest| >= 2 && rest[..2] == ",\n" then
        match ReadValues(rest[2..])
        case None => None
        case Some(more) => Some([fields] + more)
      else None
  }

  /* ---------------------------------------------------------------------- */
  /* Reading back what the renderer wrote                                    */
  /* ---------------------------------------------------------------------- */

  lemma ReadQuotedPair(more: string)
    ensures ReadQuoted("''" + more) == Prefixed("'", ReadQuoted(more))
  {
    assert ("''" + more)[2..] == more;
  }

  lemma ReadQuotedChar(c: char, more: string)
    requires c != '\''
    ensures ReadQuoted([c] + more) == Prefixed([c], ReadQuoted(more))
  {
    assert ([c] + more)[1..] == more;
  }

  lemma ReadQuotedClose(rest: string)
    requires |rest| == 0 || rest[0] != '\''
    ensures ReadQuoted("'" + rest) == Some(("", rest))
  {
    assert ("'" + rest)[1..] == rest;
  }

  lemma EscapeCons(t: string)
    requires |t| > 0
    ensures Escape(t) == (if t[0] == '\'' then "''" else [t[0]]) + Escape(t[1..])
  {
  }

  /** One character of `t` read back from its escape. */
  lemma ReadQuotedEscapeStep(t: string, rest: string)
    requires |t| > 0
    requires ReadQuoted(Escape(t[1..]) + "'" + rest) == Some((t[1..], rest))
    ensures ReadQuoted(Escape(t) + "'" + rest) == Some((t, rest))
  {
    var more := Escape(t[1..]) + "'" + rest;
    EscapeCons(t);
    if t[0] == '\'' {
      assert Escape(t) + "'" + rest == "''" + more;
      QuoteStep(t, more, rest);
    } else {
      assert Escape(t) + "'" + rest == [t[0]] + more;
      PlainStep(t, more, rest);
    }
  }

  lemma QuoteStep(t: string, more: string, rest: string)
    requires |t| > 0 && t[0] == '\''
    requires ReadQuoted(more) == Some((t[1..], rest))
    ensures ReadQuoted("''" + more) == Some((t, rest))
  {
    ReadQuotedPair(more);
    assert "'" + t[1..] == t;
  }

  lemma PlainStep(t: string, more: string, rest: string)
    requires |t| > 0 && t[0] != '\''
    requires ReadQuoted(more) == Some((t[1..], rest))
    ensures ReadQuoted([t[0]] + more) == Some((t, rest))
  {
    ReadQuotedChar(t[0], more);
    assert [t[0]] + t[1..] == t;
  }

  /** The closing quote of an escaped text is the first lone quote. */
  lemma {:induction false} ReadQuotedEscape(t: string, rest: string)
    requires |rest| == 0 || rest[0] != '\''
    ensures ReadQuoted(Escape(t) + "'" + rest) == Some((t, rest))
    decreases |t|
  {
    if |t| == 0 {
      assert Escape(t) + "'" + rest == "'" + rest;
      ReadQuotedClose(rest);
    } else {
      ReadQuotedEscape(t[1..], rest);
      ReadQuotedEscapeStep(t, rest);
    }
  }

  /** A literal read back gives the stored text of its value. */
  lemma LiteralRoundTrip(v: Value, rest: string)
    requires |rest| == 0 || rest[0] != '\''
    ensures ReadLiteral(Literal(v) + rest) == Some((Stored(v), rest))
  {
    var s := Literal(v) + rest;
    assert s[1..] == Escape(Stored(v)) + "'" + rest;
    ReadQuotedEscape(Stored(v), rest);
  }

  lemma LiteralsTail(row: seq<Value>)
    requires |row| > 0
    ensures Literals(row)[1..] == Literals(row[1..])
    ensures StoredRow(row) == [Stored(row[0])] + StoredRow(row[1..])
  {
  }

  lemma ReadFieldsMore(s: string, t: string, tail: string)
    requires ReadLiteral(s) == Some((t, "," + tail))
    ensures ReadFields(s) == (match ReadFields(tail)
                              case None => None
                              case Some((ts, after)) => Some(([t] + ts, after)))
  {
    assert ("," + tail)[1..] == tail;
  }

  lemma ReadFieldsLast(s: string, t: string, rest: string)
    requires ReadLiteral(s) == Some((t, ")" + rest))
    ensures ReadFields(s) == Some(([t], rest))
  {
    assert (")" + rest)[1..] == rest;
  }

  /** The fields of a row with columns read back as the stored texts, in column order. */
  lemma {:induction false} FieldsRoundTrip(row: seq<Value>, rest: string)
    requires |row| > 0
    ensures ReadFields(Join(",", Literals(row)) + ")" + rest) == Some((StoredRow(row), rest))
    decreases |row|
  {
    var lits := Literals(row);
    LiteralsTail(row);
    if |row| == 1 {
      assert Join(",", lits) + ")" + rest == Literal(row[0]) + (")" + rest);
      LiteralRoundTrip(row[0], ")" + rest);
      ReadFieldsLast(Join(",", lits) + ")" + rest, Stored(row[0]), rest);
      assert StoredRow(row) == [Stored(row[0])];
    } else {
      var tail := Join(",", Literals(row[1..])) + ")" + rest;
      assert Join(",", lits) + ")" + rest == Literal(row[0]) + ("," + tail);
      LiteralRoundTrip(row[0], "," + tail);
      ReadFieldsMore(Join(",", lits) + ")" + rest, Stored(row[0]), tail);
      FieldsRoundTrip(row[1..], rest);
    }
  }

  /** A rendered row with columns reads back as its stored texts. */
  lemma RowRoundTrip(row: seq<Value>, rest: string)
    requires |row| > 0
    ensures ReadRow(RenderRow(row) + rest) == Some((StoredRow(row), rest))
  {
    var fields := Join(",", Literals(row)) + ")" + rest;
    assert RenderRow(row) + rest == "(" + fields;
    assert ("(" + fields)[1..] == fields;
    FieldsRoundTrip(row, rest);
  }

  /** A rendered row without columns is not a row at all. */
  lemma EmptyRowUnreadable(rest: string)
    ensures ReadRow(RenderRow([]) + rest) == None
  {
  }

  lemma RenderedRowsTail(rows: seq<seq<Value>>)
    requires |rows| > 0
    ensures RenderedRows(rows)[1..] == RenderedRows(rows[1..])
    ensures StoredRows(rows) == [StoredRow(rows[0])] + StoredRows(rows[1..])
  {
  }

  lemma ReadValuesMore(s: string, fields: seq<string>, tail: string)
    requires ReadRow(s) == Some((fields, ",\n" + tail))
    ensures ReadValues(s) == (match ReadValues(tail)
                              case None => None
                              case Some(more) => Some([fields] + more))
  {
    assert (",\n" + tail)[..2] == ",\n";
    assert (",\n" + tail)[2..] == tail;
  }

  lemma ReadValuesLast(s: string, fields: seq<string>)
    requires ReadRow(s) == Some((fields, ""))
    ensures ReadValues(s) == Some([fields])
  {
  }

  lemma ValuesBodyCons(rows: seq<seq<Value>>)
    requires |rows| > 1
    ensures ValuesBody(rows) == RenderRow(rows[0]) + (",\n" + ValuesBody(rows[1..]))
  {
    RenderedRowsTail(rows);
  }

  /**
    Round trip of the VALUES body: when there is at least one row and every
    row has at least one column, reading the rendered body gives back, row by
    row and column by column, the stored text of every value (its first 200
    characters).
   */
  lemma {:induction false} ValuesRoundTrip(rows: seq<seq<Value>>)
    requires |rows| > 0
    requires forall i :: 0 <= i < |rows| ==> |rows[i]| > 0
    ensures ReadValues(ValuesBody(rows)) == Some(StoredRows(rows))
    ensures |ValuesBody(rows)| > 0
    decreases |rows|
  {
    RenderedRowsTail(rows);
    if |rows| == 1 {
      assert ValuesBody(rows) == RenderRow(rows[0]) + "";
      RowRoundTrip(rows[0], "");
      ReadValuesLast(ValuesBody(rows), StoredRow(rows[0]));
      assert StoredRows(rows) == [StoredRow(rows[0])];
    } else {
      var tail := ValuesBody(rows[1..]);
      ValuesBodyCons(rows);
      RowRoundTrip(rows[0], ",\n" + tail);
      ValuesRoundTrip(rows[1..]);
      ReadValuesMore(ValuesBody(rows), StoredRow(rows[0]), tail);
    }
  }

  /**
    No rows: the body is empty, so the statement has nothing between `VALUES`
    and its end, and the body is not a VALUES list.
   */
  lemma NoRowsUnreadable(rows: seq<seq<Value>>)
    requires |rows| == 0
    ensures ValuesBody(rows) == ""
    ensures ReadValues(ValuesBody(rows)) == None
  {
    assert RenderedRows(rows) == [];
  }

  /**
    The zero-column quirk: as soon as one row has no columns, its `)` leaves
    the VALUES body unreadable, whatever the other rows hold.
   */
  lemma {:induction false} EmptyRowSpoilsValues(rows: seq<seq<Value>>, k: nat)
    requires k < |rows| && |rows[k]| == 0
    ensures ReadValues(ValuesBody(rows)) == None
    ensures |ValuesBody(rows)| > 0
    decreases |rows|
  {
    RenderedRowsTail(rows);
    if |rows| == 1 {
      assert ValuesBody(rows) == ")";
    } else {
      var tail := ValuesBody(rows[1..]);
      ValuesBodyCons(rows);
      if |rows[0]| == 0 {
        EmptyRowUnreadable(",\n" + tail);
      } else {
        RowRoundTrip(rows[0], ",\n" + tail);
        EmptyRowSpoilsValues(rows[1..], k - 1);
        ReadValuesMore(ValuesBody(rows), StoredRow(rows[0]), tail);
      }
    }
  }
}
