/**
  Rendering of the two SQL statements the loader sends for each staging
  table: the TRUNCATE statement and the multi-row INSERT statement whose
  VALUES body inlines every projected value as a quoted string literal.

  The loops of the loader are modelled as methods that follow them step by
  step (`BuildRow`, `BuildValues`); `RenderRow` and `Join` are the reference
  description of what those loops produce.
 */
module SqlText {
  import opened Values

  /** The number of characters of `str(value)` kept in a literal. */
  const MaxLiteral: nat := 200

  /** Python's `s[:200]`. */
  function Truncate(s: string): (t: string)
    ensures |t| == if |s| <= MaxLiteral then |s| else MaxLiteral
    ensures t <= s
  {
    if |s| <= MaxLiteral then s else s[..MaxLiteral]
  }

  /** Python's `s[:-k]` for a positive `k`: drop the last `k` characters, or
      everything when there are fewer. */
  function DropTail(s: string, k: nat): (t: string)
    requires k > 0
    ensures |s| >= k ==> |t| == |s| - k
    ensures |s| < k ==> t == ""
    ensures t <= s
  {
    if |s| >= k then s[..|s| - k] else ""
  }

  /** The number of single quotes in `t`. */
  function CountQuotes(t: string): nat
  {
    if |t| == 0 then 0
    else (if t[0] == '\'' then 1 else 0) + CountQuotes(t[1..])
  }

  /** Python's `t.replace("'", "''")`: every single quote doubled. */
  function Escape(t: string): (e: string)
    ensures |e| == |t| + CountQuotes(t)
  {
    if |t| == 0 then ""
    else (if t[0] == '\'' then "''" else [t[0]]) + Escape(t[1..])
  }

  /** True when every single quote of `e` is the first or second of an adjacent pair. */
  predicate QuotesPaired(e: string)
  {
    if |e| == 0 then true
    else if e[0] == '\'' then |e| >= 2 && e[1] == '\'' && QuotesPaired(e[2..])
    else QuotesPaired(e[1..])
  }

  /** Replaces each pair `''` by one quote, reading left to right. */
  function Unescape(e: string): string
  {
    if |e| == 0 then ""
    else if e[0] == '\'' && |e| >= 2 && e[1] == '\'' then "'" + Unescape(e[2..])
    else [e[0]] + Unescape(e[1..])
  }

  /** The SQL string literal for one value: quoted, truncated, then escaped. */
  function Literal(v: Value): string
  {
    "'" + Escape(Truncate(Show(v))) + "'"
  }

  /** The text a value's literal stands for under the standard SQL quoting
      rule: the first 200 characters of `str(value)`. */
  function Stored(v: Value): string
  {
    Truncate(Show(v))
  }

  /** `parts` separated by `sep`, with no separator before the first or after the last. */
  function Join(sep: string, parts: seq<string>): string
  {
    if |parts| == 0 then ""
    else if |parts| == 1 then parts[0]
    else parts[0] + sep + Join(sep, parts[1..])
  }

  /** Every part followed by `sep`, as an accumulating loop builds it. */
  function Terminated(sep: string, parts: seq<string>): string
  {
    if |parts| == 0 then ""
    else Terminated(sep, parts[..|parts| - 1]) + parts[|parts| - 1] + sep
  }

  /** The literal of every value of a row, in column order. */
  function Literals(row: seq<Value>): seq<string>
  {
    seq(|row|, i requires 0 <= i < |row| => Literal(row[i]))
  }

  /** The stored text of every value of a row, in column order. */
  function StoredRow(row: seq<Value>): seq<string>
  {
    seq(|row|, i requires 0 <= i < |row| => Stored(row[i]))
  }

  function StoredRows(rows: seq<seq<Value>>): seq<seq<string>>
  {
    seq(|rows|, i requires 0 <= i < |rows| => StoredRow(rows[i]))
  }

  /**
    One rendered row, without its separator. A row with columns is its
    literals, comma separated, in parentheses. A row without columns renders
    as a lone `)`: the loader's `row[:-1]` then removes the opening
    parenthesis instead of a trailing comma.
   */
  function RenderRow(row: seq<Value>): string
  {
    if |row| == 0 then ")" else "(" + Join(",", Literals(row)) + ")"
  }

  function RenderedRows(rows: seq<seq<Value>>): seq<string>
  {
    seq(|rows|, i requires 0 <= i < |rows| => RenderRow(rows[i]))
  }

  /** The VALUES body: the rendered rows joined by a comma and a newline. */
  function ValuesBody(rows: seq<seq<Value>>): string
  {
    Join(",\n", RenderedRows(rows))
  }

  const TruncatePrefix: string := "TRUNCATE TABLE "

  /** `schema.table`, the target both statements name. */
  function QualifiedName(schema: string, table: string): string
  {
    schema + "." + table
  }

  /** The TRUNCATE statement for a staging table. */
  function TruncateStatement(schema: string, table: string): (r: string)
    ensures |r| == |TruncatePrefix| + |QualifiedName(schema, table)| + 1
    ensures r[..|TruncatePrefix|] == TruncatePrefix
    ensures r[|TruncatePrefix|..|r| - 1] == QualifiedName(schema, table)
    ensures r[|r| - 1] == ';'
  {
    "TRUNCATE TABLE " + schema + "." + table + ";"
  }

  /** The INSERT template up to its target. */
  const InsertInto: string := "\n            INSERT INTO "

  /** The text of the INSERT template up to the VALUES body. */
  function InsertHead(schema: string, table: string): string
  {
    InsertInto + QualifiedName(schema, table) + "\n            VALUES\n                "
  }

  /** The text of the INSERT template after the VALUES body. */
  const InsertTail: string := "\n            ;\n            "

  /** The VALUES body an INSERT statement built on `schema` and `table` carries. */
  function ValuesSection(stmt: string, schema: string, table: string): string
  {
    var h := |InsertHead(schema, table)|;
    if h + |InsertTail| <= |stmt| then stmt[h..|stmt| - |InsertTail|] else ""
  }

  /* ---------------------------------------------------------------------- */
  /* Properties of a single literal                                          */
  /* ---------------------------------------------------------------------- */

  /** A literal is the quoted, escaped truncation; its body is the truncated
      length plus one character per quote in the truncated prefix. */
  lemma LiteralShape(v: Value)
    ensures Literal(v) == "'" + Escape(Stored(v)) + "'"
    ensures Stored(v) <= Show(v)
    ensures |Stored(v)| == if |Show(v)| <= MaxLiteral then |Show(v)| else MaxLiteral
    ensures |Literal(v)| == |Stored(v)| + CountQuotes(Stored(v)) + 2
    ensures 2 <= |Literal(v)| <= 2 * MaxLiteral + 2
  {
    CountQuotesBound(Stored(v));
  }

  lemma {:induction false} CountQuotesBound(t: string)
    ensures CountQuotes(t) <= |t|
    ensures CountQuotes(t) == 0 <==> '\'' !in t
  {
    if |t| > 0 {
      CountQuotesBound(t[1..]);
      assert t == [t[0]] + t[1..];
    }
  }

  /** Truncation happens before escaping, so a literal body can be longer
      than the limit: any quote among the first 200 characters of a long
      value pushes it past 200. */
  lemma LiteralBodyCanExceedLimit(v: Value)
    requires |Show(v)| >= MaxLiteral
    requires '\'' in Show(v)[..MaxLiteral]
    ensures |Escape(Stored(v))| > MaxLiteral
  {
    CountQuotesBound(Stored(v));
  }

  /** An escaped text has its quotes in adjacent pairs. */
  lemma {:induction false} EscapePairsQuotes(t: string)
    ensures QuotesPaired(Escape(t))
  {
    if |t| > 0 {
      EscapePairsQuotes(t[1..]);
      var e := Escape(t);
      if t[0] == '\'' {
        assert e[2..] == Escape(t[1..]);
      } else {
        assert e[1..] == Escape(t[1..]);
      }
    }
  }

  /** Un-doubling an escaped text gives back the text. */
  lemma {:induction false} UnescapeEscape(t: string)
    ensures Unescape(Escape(t)) == t
  {
    if |t| > 0 {
      UnescapeEscape(t[1..]);
      var e := Escape(t);
      if t[0] == '\'' {
        assert e[2..] == Escape(t[1..]);
      } else {
        assert e[1..] == Escape(t[1..]);
      }
      assert t == [t[0]] + t[1..];
    }
  }

  /** Conversely, a text whose quotes are paired is the escape of its un-doubling. */
  lemma {:induction false} EscapeUnescape(e: string)
    requires QuotesPaired(e)
    ensures Escape(Unescape(e)) == e
  {
    if |e| > 0 {
      if e[0] == '\'' {
        EscapeUnescape(e[2..]);
        var u := Unescape(e);
        assert u == "'" + Unescape(e[2..]);
        assert u[1..] == Unescape(e[2..]);
        assert e == "''" + e[2..];
      } else {
        EscapeUnescape(e[1..]);
        var u := Unescape(e);
        assert u[1..] == Unescape(e[1..]);
        assert e == [e[0]] + e[1..];
      }
    }
  }

  /** Escaping loses nothing: distinct texts give distinct escapes. */
  lemma EscapeInjective(a: string, b: string)
    requires Escape(a) == Escape(b)
    ensures a == b
  {
    UnescapeEscape(a);
    UnescapeEscape(b);
  }

  /* ---------------------------------------------------------------------- */
  /* Join and Terminated                                                     */
  /* ---------------------------------------------------------------------- */

  lemma {:induction false} JoinSnoc(sep: string, parts: seq<string>, p: string)
    requires |parts| > 0
    ensures Join(sep, parts + [p]) == Join(sep, parts) + sep + p
    decreases |parts|
  {
    var ps := parts + [p];
    if |parts| == 1 {
      assert ps[1..] == [p];
    } else {
      assert ps[1..] == parts[1..] + [p];
      JoinSnoc(sep, parts[1..], p);
    }
  }

  /** What an accumulating loop builds is the join plus one trailing separator. */
  lemma {:induction false} TerminatedIsJoin(sep: string, parts: seq<string>)
    requires |parts| > 0
    ensures Terminated(sep, parts) == Join(sep, parts) + sep
    decreases |parts|
  {
    var init := parts[..|parts| - 1];
    var last := parts[|parts| - 1];
    assert parts == init + [last];
    if |parts| > 1 {
      TerminatedIsJoin(sep, init);
      JoinSnoc(sep, init, last);
    } else {
      assert Terminated(sep, init) == "";
    }
  }

  lemma TerminatedSnoc(sep: string, parts: seq<string>, p: string)
    ensures Terminated(sep, parts + [p]) == Terminated(sep, parts) + p + sep
  {
    var ps := parts + [p];
    assert ps[..|ps| - 1] == parts;
  }

  lemma LiteralsSnoc(row: seq<Value>, i: nat)
    requires i < |row|
    ensures Literals(row[..i + 1]) == Literals(row[..i]) + [Literal(row[i])]
  {
  }

  lemma RenderedRowsSnoc(rows: seq<seq<Value>>, i: nat)
    requires i < |rows|
    ensures RenderedRows(rows[..i + 1]) == RenderedRows(rows[..i]) + [RenderRow(rows[i])]
  {
  }

  /** Dropping the trailing separator from what the loop built leaves the join
      (or nothing of the parts when there were none). */
  lemma DropTerminated(sep: string, parts: seq<string>, lead: string)
    requires |sep| > 0
    ensures |parts| > 0 ==> DropTail(lead + Terminated(sep, parts), |sep|) == lead + Join(sep, parts)
    ensures |parts| == 0 ==> DropTail(lead + Terminated(sep, parts), |sep|) == DropTail(lead, |sep|)
  {
    if |parts| > 0 {
      TerminatedIsJoin(sep, parts);
      assert lead + Terminated(sep, parts) == (lead + Join(sep, parts)) + sep;
    } else {
      assert lead + Terminated(sep, parts) == lead;
    }
  }

  /* ---------------------------------------------------------------------- */
  /* The loader's loops                                                      */
  /* ---------------------------------------------------------------------- */

  /**
    The inner loop of the loader: open a parenthesis, append each literal and
    a comma, drop the last character and append `),` and a newline.
   */
  method BuildRow(row: seq<Value>) returns (text: string)
    ensures text == RenderRow(row) + ",\n"
  {
    var acc := "(";
    var i := 0;
    while i < |row|
      invariant 0 <= i <= |row|
      invariant acc == "(" + Terminated(",", Literals(row[..i]))
    {
      RowStep(row, i);
      acc := acc + Literal(row[i]) + ",";
      i := i + 1;
    }
    RowEnd(row);
    text := DropTail(acc, 1) + "),\n";
  }

  lemma RowStep(row: seq<Value>, i: nat)
    requires i < |row|
    ensures "(" + Terminated(",", Literals(row[..i + 1]))
         == "(" + Terminated(",", Literals(row[..i])) + Literal(row[i]) + ","
  {
    LiteralsSnoc(row, i);
    TerminatedSnoc(",", Literals(row[..i]), Literal(row[i]));
  }

  lemma RowEnd(row: seq<Value>)
    ensures DropTail("(" + Terminated(",", Literals(row[..|row|])), 1) + "),\n" == RenderRow(row) + ",\n"
  {
    assert row[..|row|] == row;
    DropTerminated(",", Literals(row), "(");
  }

  /**
    The outer loop of the loader: append each rendered row with its
    separator, then drop the last two characters.
   */
  method BuildValues(rows: seq<seq<Value>>) returns (body: string)
    ensures body == Join(",\n", RenderedRows(rows))
    ensures |rows| == 0 ==> body == ""
  {
    var acc := "";
    var i := 0;
    while i < |rows|
      invariant 0 <= i <= |rows|
      invariant acc == Terminated(",\n", RenderedRows(rows[..i]))
    {
      var r := BuildRow(rows[i]);
      RenderedRowsSnoc(rows, i);
      TerminatedSnoc(",\n", RenderedRows(rows[..i]), RenderRow(rows[i]));
      acc := acc + r;
      i := i + 1;
    }
    assert rows[..i] == rows;
    DropTerminated(",\n", RenderedRows(rows), "");
    assert "" + Terminated(",\n", RenderedRows(rows)) == acc;
    body := DropTail(acc, 2);
  }

  /** The INSERT statement: the template around the VALUES body. */
  method BuildInsert(rows: seq<seq<Value>>, schema: string, table: string) returns (stmt: string)
    ensures stmt == InsertHead(schema, table) + ValuesBody(rows) + InsertTail
    ensures ValuesSection(stmt, schema, table) == ValuesBody(rows)
  {
    var body := BuildValues(rows);
    stmt := "\n            INSERT INTO " + schema + "." + table + "\n            VALUES\n                "
      + body + "\n            ;\n            ";
    assert stmt == InsertHead(schema, table) + body + InsertTail;
    assert stmt[|InsertHead(schema, table)|..|stmt| - |InsertTail|] == body;
  }

  /** The TRUNCATE statement and any INSERT statement built for the same
      schema and table name the same target. */
  lemma StatementsShareTarget(schema: string, table: string, insert: string, body: string)
    requires insert == InsertHead(schema, table) + body + InsertTail
    ensures var truncate := TruncateStatement(schema, table);
            truncate[|TruncatePrefix|..|truncate| - 1]
              == insert[|InsertInto|..|InsertInto| + |schema| + 1 + |table|]
              == schema + "." + table
  {
    var n := QualifiedName(schema, table);
    assert insert == InsertInto + n + ("\n            VALUES\n                " + body + InsertTail);
    assert insert[|InsertInto|..|InsertInto| + |n|] == n;
  }
}
