/** What the two record modules share about their Postgres connection. */
module Database {
  import opened Types

  /**
   * `sqlx::Error`, which each module wraps in its own `QueryError` variant.
   * Only `RowNotFound` is told apart, since `fetch_one` raises it itself;
   * every other failure (connection lost, constraint violated, ...) is
   * `StatementFailed`. Every statement takes a `fault` flag saying whether
   * the database reports such a failure, and a faulty statement changes nothing.
   */
  datatype QueryError = StatementFailed | RowNotFound

  /** A `DateTime<Utc>` column; the code only compares these for equality. */
  type Timestamp = int

  /** `fetch_one`: the first row the statement returned, `RowNotFound` when it returned none. */
  function FetchOne<T>(returned: seq<T>): (r: Result<T, QueryError>)
    ensures r.Ok? <==> |returned| > 0
    ensures r.Ok? ==> r.value == returned[0]
    ensures r.Err? ==> r.error == RowNotFound
  {
    if |returned| == 0 then Err(RowNotFound) else Ok(returned[0])
  }

  /** The documented report of a DELETE: `Some(())` when a row was removed, `None` when none matched. */
  function DeleteReport(rowsAffected: nat): (r: Option<()>)
    ensures r.Some? <==> rowsAffected > 0
  {
    if rowsAffected == 0 then None else Some(())
  }
}
