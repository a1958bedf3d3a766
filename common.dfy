/** Small shared types: optional values, results, and how the database reports failures. */
module Common {

  datatype Option<T> = None | Some(value: T)

  datatype Result<T, E> = Ok(value: T) | Err(error: E)

  /** A value as Go returns it together with an error flag: on error the value is the zero record. */
  datatype Fetched<T> = Fetched(value: T, err: bool)

  /** What the database does to a run of statements or row scans: all succeed,
      or the k-th one (counting from 0) fails. */
  datatype Fault = NoFault | FailAt(k: nat)

  /** The number of steps, out of n, that complete before the fault fires. */
  function Completed(f: Fault, n: nat): (c: nat)
    ensures c <= n
    ensures c < n <==> f.FailAt? && f.k < n
    ensures c < n ==> c == f.k
  {
    if f.FailAt? && f.k < n then f.k else n
  }

  /** What the database does to a `Query` followed by a `rows.Next` loop over n rows:
      everything succeeds, the query itself fails, the scan of row k fails, or
      the stream breaks before row k.  A broken stream makes `rows.Next()`
      return false and keeps its error for `rows.Err()`, which the loops of
      structs.go never call: to the caller it looks like the end of the rows. */
  datatype ReadFault = ReadOk | QueryFails | ScanFailsAt(k: nat) | StreamEndsAt(k: nat)

  /** Whether a read of n rows under f reports an error. */
  predicate ReadFails(f: ReadFault, n: nat)
  {
    f.QueryFails? || (f.ScanFailsAt? && f.k < n)
  }

  /** The number of rows, out of n, appended before a read under f stops. */
  function RowsRead(f: ReadFault, n: nat): (c: nat)
    ensures c <= n
    ensures f.ReadOk? ==> c == n
    ensures c < n <==> (f.QueryFails? && 0 < n) || ((f.ScanFailsAt? || f.StreamEndsAt?) && f.k < n)
    ensures c < n && !f.QueryFails? ==> c == f.k
  {
    match f
    case ReadOk => n
    case QueryFails => 0
    case ScanFailsAt(k) => if k < n then k else n
    case StreamEndsAt(k) => if k < n then k else n
  }

  /** The database's answer to a list query: an error, or a stream of rows in
      which the scan of one row may fail.  A failed scan closes the stream (the
      driver's Fatal), so no row after it is delivered. */
  datatype Answer<T> = QueryError | Rows(rows: seq<T>, scanFault: Fault)

  /** What `json.NewDecoder(r.Body).Decode(&x)` made of a request body. */
  datatype Body<T> = Malformed | Decoded(value: T)

  /** The HTTP status codes the handlers write. */
  const StatusOK: int := 200
  const StatusBadRequest: int := 400
  const StatusUnauthorized: int := 401
  const StatusInternalServerError: int := 500
}
