# DataDump loader (belaz.py) — a Dafny model of its pure core

The loader reads a JSON configuration, picks the tables whose `dump_flag` is
`"1"`, reads each table's BSON document stream, projects every document onto
the table's ordered column list, and bulk-loads the rows into a PostgreSQL
staging table with a `TRUNCATE` statement followed by one multi-row `INSERT`
whose values are inlined as quoted string literals.

This project models the deterministic part of that pipeline in Dafny:

- `Values` — Python objects as the loader sees them: a `str` (`Text`), or any
  other object together with the text `str()` prints for it (`Other`).
  `Show` is Python's `str()`.
- `SqlText` — the literal, row, VALUES-body, INSERT and TRUNCATE rendering.
  The two loops of `get_insert_statement` are methods (`BuildRow`,
  `BuildValues`) that follow the source step by step, including Python's
  `s[:-1]` / `s[:-2]` slicing (`DropTail`). They are proved equal to a
  reference description built from `Join`. The escaping has an inverse
  (`Unescape`), and the two are proved to be a bijection between all texts and
  texts whose quotes come in pairs.
- `SqlReader` — a reader for the VALUES body that follows the SQL rules for
  quoted literals. This is the partner of the renderer. Reading a rendered
  body back gives exactly the stored text of every value (its first 200
  characters), row by row and column by column. So no value can escape its
  literal. This holds under two assumptions about the server, which the
  reader makes too. First, literals follow standard quoting only, as with
  PostgreSQL's `standard_conforming_strings` on: a backslash is an ordinary
  character. Second, no value contains U+0000. PostgreSQL refuses that
  character in text, so the whole INSERT would fail.
- `LoadConfig` — `get_files_location`, including the key order of the Python
  dictionary it fills. A later flagged entry with the same name replaces the
  job, but the name keeps the position it was first given.
- `Extract` — the per-document projection in `load_data` and the handling of a
  decode error in the middle of the stream.
- `LoadPlan` — the two statements built for one table (lines 110-141).

### Behaviour of the code that the model keeps

- The literal is truncated before it is escaped. The stored text is at most
  200 characters, but the literal body can be longer: every quote in the first
  200 characters adds one character (`LiteralBodyCanExceedLimit`). So "values
  are truncated to exactly 200 characters in the rendered literal" is true of
  the text the literal stands for, not of the literal's characters.
- A row with no columns renders as `)`. For such a row, `row[:-1]` removes the
  opening parenthesis instead of a trailing comma. The model keeps this
  exactly (`RenderRow`, `BuildRow`). `EmptyRowSpoilsValues` shows that one such
  row makes the whole VALUES body unreadable as SQL.
- A stream with no document before its first decode error (an empty file,
  or a bad first document) gives an empty VALUES body. `insert_values[:-2]`
  of the empty string is empty, so the INSERT has nothing between `VALUES`
  and `;`. SQL requires at least one row there, so the server rejects it.
  By then the TRUNCATE has already been sent on an autocommit connection, and
  the error is only printed. The model keeps this: the reader refuses an
  empty body (`NoRowsUnreadable`, `EmptyStreamPlanUnreadable`), and `PlanTable` states
  that such a plan still pairs the TRUNCATE with this bare INSERT.
- `dump_flag` is compared with the string `'1'`. A JSON number `1` does not
  select the entry (`Flagged` compares with `Text("1")`).
- The source file uses CRLF line endings. Python normalises newlines in
  source text, so the INSERT template contains only `\n`. It carries 12 spaces
  before `INSERT INTO`, `VALUES`, `;` and the closing position, and 16 before
  the values (`InsertHead`, `InsertTail`).

## Model

| member | source | states |
|---|---|---|
| `SqlText.Truncate` | src/LoadingProcesses/belaz.py:58 | `str(v)[:200]` is a prefix of the text, of length min(200, length) |
| `SqlText.DropTail` | src/LoadingProcesses/belaz.py:59-61 | Python's `s[:-k]` for a positive k: a prefix k shorter, or empty when the text is shorter than k |
| `SqlText.Escape` | src/LoadingProcesses/belaz.py:58 | doubling the quotes lengthens the text by exactly its number of quotes |
| `SqlText.LiteralShape` | src/LoadingProcesses/belaz.py:58 | a literal is `'` + escaped truncation + `'`; its length is the truncated length plus its quote count plus 2, at most 402 |
| `SqlText.LiteralBodyCanExceedLimit` | src/LoadingProcesses/belaz.py:58 | truncation comes before escaping, so a long value with a quote in its first 200 characters has an escaped body longer than 200 |
| `SqlText.EscapePairsQuotes` | src/LoadingProcesses/belaz.py:58 | inside an escaped body every quote is part of an adjacent pair |
| `SqlText.UnescapeEscape` | src/LoadingProcesses/belaz.py:58 | un-doubling the quotes of an escaped text gives back exactly the text |
| `SqlText.EscapeUnescape` | src/LoadingProcesses/belaz.py:58 | every text whose quotes are paired is the escape of its un-doubling |
| `SqlText.EscapeInjective` | src/LoadingProcesses/belaz.py:58 | distinct texts never give the same escaped body |
| `SqlText.BuildRow` | src/LoadingProcesses/belaz.py:56-59 | the row loop yields `(` + the literals joined by `,` in column order + `)` and the separator; a row with no columns yields `),\n` |
| `SqlText.BuildValues` | src/LoadingProcesses/belaz.py:54-61 | the body is the rendered rows joined by `,\n`, one per input row in order, with no trailing separator; no rows give an empty body |
| `SqlText.BuildInsert` | src/LoadingProcesses/belaz.py:53-68 | the INSERT statement is the fixed template around the VALUES body, which can be cut back out of it |
| `SqlText.TruncateStatement` | src/LoadingProcesses/belaz.py:71-73 | the statement is `TRUNCATE TABLE `, then `schema.table`, then `;` |
| `SqlText.StatementsShareTarget` | src/LoadingProcesses/belaz.py:62-73 | the TRUNCATE and INSERT statements for a schema and table name the same `schema.table` |
| `SqlReader.ReadQuotedEscape` | src/LoadingProcesses/belaz.py:58 | in an escaped text followed by `'`, the first lone quote is that closing quote, and the text reads back intact |
| `SqlReader.LiteralRoundTrip` | src/LoadingProcesses/belaz.py:58 | reading a literal back gives the stored text of its value and leaves what follows untouched |
| `SqlReader.FieldsRoundTrip` | src/LoadingProcesses/belaz.py:56-59 | the comma-separated literals of a row read back as the stored texts, in column order |
| `SqlReader.RowRoundTrip` | src/LoadingProcesses/belaz.py:56-59 | a rendered row with columns reads back as its stored texts |
| `SqlReader.EmptyRowUnreadable` | src/LoadingProcesses/belaz.py:56-59 | a rendered row without columns cannot be read as a row |
| `SqlReader.ValuesRoundTrip` | src/LoadingProcesses/belaz.py:55-61 | when there is at least one row and every row has a column, the VALUES body reads back as exactly one row per input row, in order, each holding the stored texts |
| `SqlReader.NoRowsUnreadable` | src/LoadingProcesses/belaz.py:54-61 | with no rows the VALUES body is empty, and an empty body is not a VALUES list |
| `SqlReader.EmptyRowSpoilsValues` | src/LoadingProcesses/belaz.py:56-61 | one row without columns makes the whole VALUES body unreadable |
| `LoadConfig.SelectJobs` | src/LoadingProcesses/belaz.py:40-50 | the loop yields the dictionary that rebinds each flagged entry's name in configuration order, and its keys in first-insertion order; the keys and the key order hold the same names |
| `LoadConfig.SelectStep` | src/LoadingProcesses/belaz.py:47-49 | one entry: a flagged entry rebinds its name and is appended to the key order only when the name is new; any other entry changes nothing |
| `LoadConfig.SelectedKeys` | src/LoadingProcesses/belaz.py:47-49 | a name has a job exactly when some entry with that name has `dump_flag == '1'` |
| `LoadConfig.SelectedLastWins` | src/LoadingProcesses/belaz.py:47-49 | the job kept for a name is the file and columns of its last flagged entry |
| `LoadConfig.UnflaggedIgnored` | src/LoadingProcesses/belaz.py:48 | an entry with any other flag changes neither the jobs nor the key order |
| `LoadConfig.FirstOccurrences` | src/LoadingProcesses/belaz.py:45-49 | the dictionary's keys are exactly the selected names, each once |
| `LoadConfig.FirstOccurrencesOrder` | src/LoadingProcesses/belaz.py:45-49 | a key precedes another only if its name was first selected before the other's |
| `Extract.ProjectRow` | src/LoadingProcesses/belaz.py:124-131 | a projected row has one value per column; position i holds the document's value for column i, or `''` when the key is missing |
| `Extract.CleanPrefix` | src/LoadingProcesses/belaz.py:121-133 | the length of the stream before its first decode error: every earlier item is a document and the item there is an error |
| `Extract.CollectedRows` | src/LoadingProcesses/belaz.py:121-133 | the gathered rows are one projection per document before the first error, in stream order |
| `Extract.CollectedAppend` | src/LoadingProcesses/belaz.py:121-133 | gathering over error-free documents continues into the rest of the stream |
| `Extract.ErrorKeepsEarlierRows` | src/LoadingProcesses/belaz.py:121-133 | a decode error ends gathering without discarding any earlier row |
| `Extract.CollectRows` | src/LoadingProcesses/belaz.py:121-133 | the stream loop keeps the projections of the documents before the first error, in order, each as long as the column list |
| `LoadPlan.PlanTable` | src/LoadingProcesses/belaz.py:110-141 | the plan holds the TRUNCATE statement for the table and the INSERT template around the VALUES body of the error-free prefix's projections, and that body can be cut back out; with no document before the first error the INSERT is the bare template, with nothing after `VALUES` |
| `LoadPlan.PlanReadsBack` | src/LoadingProcesses/belaz.py:110-141 | with documents before the first error and some columns, the VALUES body reads back as the stored texts of their projections, row by row |
| `LoadPlan.PlanWithoutColumnsUnreadable` | src/LoadingProcesses/belaz.py:110-141 | with documents but no columns, the VALUES body cannot be read |
| `LoadPlan.EmptyStreamPlanUnreadable` | src/LoadingProcesses/belaz.py:110-141 | with no document before the first error the VALUES body is empty and is not a VALUES list, so the INSERT sent after the TRUNCATE is not a valid statement |
| `LoadPlan.MissingFieldExample` | src/LoadingProcesses/belaz.py:124-131 | columns `x`, `y` and a document holding only `x = 1` give the row `('1','')` |

## Left out

- Reading the JSON configuration, `get_connection_params` and the connection
  parameters: file I/O and JSON parsing. The schema is a parameter of the model.
- Missing configuration keys, which raise `KeyError`: the model's entries
  always carry all four fields.
- `ast.literal_eval` of the column string (line 112), a Python literal
  parser. Column lists are taken already decoded as `seq<string>`.
- The BSON reader `KeyValueBSONInput`, a foreign library. A stream is a
  sequence of decode results: a document, or a `ValueError` or `StopIteration`
  from the reader, which both end the stream. Other exceptions from the reader
  are not modelled.
- Opening the data file (line 118). A missing file raises an error that
  `except StopIteration` does not catch, so it ends the whole run. This is I/O.
- Python's `str()` on non-string BSON values (numbers, dates, ids). It is
  carried as given text in `Other`; no numeric or date formatting is modelled.
- `get_db_connection`, `execute_query`, `close_db_connection` and the
  "no result set" check on the driver's error text (lines 76-103): these are
  database driver calls.
- The execution of the two statements, the commit, and the per-table
  exception isolation (lines 143-166): these are side effects against the
  database. `TablePlan` only records the two statements in the order they
  are sent.
- The server's literal rules beyond standard quoting: backslash escapes when
  `standard_conforming_strings` is off, and the refusal of U+0000 in text.
  The reader and the round-trip lemmas assume standard quoting and no U+0000.
- `main` and `usage`: command-line parsing, printing and process exit.
- Python strings are sequences of code points. The model's `char` sequences
  stand for them, without any encoding or normalisation.
