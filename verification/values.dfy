/**
  Python objects as the loader sees them. A value read from a document (or
  from the JSON configuration) is either a Python `str`, whose `str()` is the
  string itself, or any other object (number, date, object id, ...), for which
  the model carries the text `str()` prints for it instead of computing it.
 */
module Values {

  datatype Value =
    | Text(s: string)        // a Python str
    | Other(shown: string)   // any other object, with the text str() gives for it

  /** Python's `str(v)`. */
  function Show(v: Value): string
  {
    match v
    case Text(s) => s
    case Other(shown) => shown
  }

  /** The empty Python string, which the loader substitutes for a missing field. */
  const Empty: Value := Text("")
}
