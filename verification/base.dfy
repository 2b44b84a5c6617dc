/**
 * Values shared by every module of the model: optional values, the Python
 * exceptions the modelled code can raise, bytes, and the DB-API view of a
 * cursor (statement text plus a flat list of parameter values).
 */
module Base {

  /** Python's `None` versus a present value. */
  datatype Option<+T> = None | Some(value: T)

  /** The exceptions the modelled code raises itself or lets escape from the database. */
  datatype Error =
    | AssertionError            // a failed `assert` or an explicit `raise AssertionError`
    | IndexError                // indexing past the end of a list or string
    | KeyError                  // a missing dictionary key
    | IntegrityError(table: string)  // a duplicate primary key reported by the database

  /** Either a value or the exception that was raised instead of returning one. */
  datatype Result<+T> = Success(value: T) | Failure(error: Error)

  newtype byte = x: int | 0 <= x < 256

  /** A Python `bytes` object, e.g. a pickled object state. */
  type Bytes = seq<byte>

  /** One parameter value passed to `cursor.execute`. */
  datatype Value =
    | SqlNull
    | SqlInt(i: int)
    | SqlText(s: string)
    | SqlBytes(b: Bytes)

  /** One `cursor.execute(text, params)` call, as it appears in a cursor's log. */
  datatype Stmt = Stmt(text: string, params: seq<Value>)

  /** Python's truth value of a `bytes` object that may be `None`. */
  predicate Truthy(data: Option<Bytes>)
  {
    data.Some? && |data.value| > 0
  }
}
