/**
  The per-document projection of the loader. The document stream is taken
  as the sequence of results its reader yields: a decoded document, or a
  decode error (the reader's `ValueError`). Every document before the first
  error is projected onto the ordered column list; the first error ends the
  stream and the rows gathered so far are kept.
 */
module Extract {
  import opened Values

  /** A decoded document: field name to value. */
  type Document = map<string, Value>

  datatype Decoded = Doc(fields: Document) | DecodeError

  /** `dict_data[column]`, or the empty string when the key is missing. */
  function Lookup(doc: Document, column: string): Value
  {
    if column in doc then doc[column] else Empty
  }

  function Projection(doc: Document, columns: seq<string>): seq<Value>
  {
    seq(|columns|, i requires 0 <= i < |columns| => Lookup(doc, columns[i]))
  }

  /** The loop over the columns: one value per column, in column order. */
  method ProjectRow(doc: Document, columns: seq<string>) returns (row: seq<Value>)
    ensures |row| == |columns|
    ensures forall i :: 0 <= i < |columns| && columns[i] in doc ==> row[i] == doc[columns[i]]
    ensures forall i :: 0 <= i < |columns| && columns[i] !in doc ==> row[i] == Text("")
    ensures row == Projection(doc, columns)
  {
    row := [];
    var i := 0;
    while i < |columns|
      invariant 0 <= i <= |columns|
      invariant |row| == i
      invariant forall j :: 0 <= j < i ==> row[j] == Lookup(doc, columns[j])
    {
      var column := columns[i];
      if column in doc {
        row := row + [doc[column]];
      } else {
        row := row + [Empty];
      }
      i := i + 1;
    }
  }

  /** The number of documents before the first decode error. */
  function CleanPrefix(stream: seq<Decoded>): (k: nat)
    ensures k <= |stream|
    ensures forall i :: 0 <= i < k ==> stream[i].Doc?
    ensures k < |stream| ==> stream[k].DecodeError?
  {
    if |stream| == 0 || stream[0].DecodeError? then 0
    else 1 + CleanPrefix(stream[1..])
  }

  /** The rows the loader gathers from a stream. */
  function Collected(stream: seq<Decoded>, columns: seq<string>): seq<seq<Value>>
  {
    if |stream| == 0 then []
    else match stream[0]
      case DecodeError => []
      case Doc(fields) => [Projection(fields, columns)] + Collected(stream[1..], columns)
  }

  /** One row per document before the first error, each the document's projection. */
  lemma {:induction false} CollectedRows(stream: seq<Decoded>, columns: seq<string>)
    ensures |Collected(stream, columns)| == CleanPrefix(stream)
    ensures forall i :: 0 <= i < CleanPrefix(stream)
                        ==> Collected(stream, columns)[i] == Projection(stream[i].fields, columns)
  {
    if |stream| > 0 && stream[0].Doc? {
      CollectedRows(stream[1..], columns);
    }
  }

  /** Collection over an error-free stream continues into what follows it. */
  lemma {:induction false} CollectedAppend(docs: seq<Decoded>, more: seq<Decoded>, columns: seq<string>)
    requires forall i :: 0 <= i < |docs| ==> docs[i].Doc?
    ensures Collected(docs + more, columns) == Collected(docs, columns) + Collected(more, columns)
  {
    if |docs| == 0 {
      assert docs + more == more;
    } else {
      assert (docs + more)[1..] == docs[1..] + more;
      CollectedAppend(docs[1..], more, columns);
    }
  }

  /** A decode error stops collection but keeps every row gathered before it. */
  lemma ErrorKeepsEarlierRows(docs: seq<Decoded>, rest: seq<Decoded>, columns: seq<string>)
    requires forall i :: 0 <= i < |docs| ==> docs[i].Doc?
    ensures Collected(docs + [DecodeError] + rest, columns) == Collected(docs, columns)
    ensures |Collected(docs, columns)| == |docs|
  {
    CollectedAppend(docs, [DecodeError] + rest, columns);
    assert docs + [DecodeError] + rest == docs + ([DecodeError] + rest);
    CollectedRows(docs, columns);
  }

  /**
    The loop over the stream: project each document and append the row; on
    a decode error, stop.
   */
  method CollectRows(stream: seq<Decoded>, columns: seq<string>) returns (rows: seq<seq<Value>>)
    ensures |rows| == CleanPrefix(stream)
    ensures forall i :: 0 <= i < |rows| ==> stream[i].Doc? && rows[i] == Projection(stream[i].fields, columns)
    ensures forall i :: 0 <= i < |rows| ==> |rows[i]| == |columns|
    ensures rows == Collected(stream, columns)
  {
    rows := [];
    var i := 0;
    while i < |stream|
      invariant 0 <= i <= |stream|
      invariant |rows| == i
      invariant forall j :: 0 <= j < i ==> stream[j].Doc? && rows[j] == Projection(stream[j].fields, columns)
    {
      if stream[i].DecodeError? {
        break;
      }
      var row := ProjectRow(stream[i].fields, columns);
      rows := rows + [row];
      i := i + 1;
    }
    CollectedRows(stream, columns);
  }
}
