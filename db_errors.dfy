/**
 * backend/src/db/errors.rs: how a `sqlx::Error` is classified into a `DBError`, and the
 * HTTP response a `DBError` becomes.
 */
module DbErrors {
  import opened Http
  import opened Foreign

  datatype DBError =
    | ConnectionError(msg: string, cause: SqlxError)
    | QueryError(msg: string, cause: SqlxError)
    | NotFound(msg: string, cause: SqlxError)

  const ConnectionMessage := "Database connection error"
  const NotFoundMessage := "Resource not found"
  const QueryMessage := "Database query error"
  const UnknownMessage := "An unknown database error occurred"

  /** `From<sqlx::Error> for DBError`: I/O and TLS failures are connection errors, a missing
      row is "not found", everything else is a query error; the original error is kept. */
  function FromSqlx(e: SqlxError): (r: DBError)
    ensures r.cause == e
    ensures r.ConnectionError? <==> e.Io? || e.Tls?
    ensures r.NotFound? <==> e.RowNotFound?
    ensures r.QueryError? <==> !(e.Io? || e.Tls? || e.RowNotFound?)
    ensures r.msg == ConnectionMessage <==> r.ConnectionError?
    ensures r.msg == NotFoundMessage <==> r.NotFound?
    ensures r.msg == QueryMessage <==> e.Database?
    ensures r.msg == UnknownMessage <==> r.QueryError? && !e.Database?
  {
    match e
    case Io(_) => ConnectionError(ConnectionMessage, e)
    case Tls(_) => ConnectionError(ConnectionMessage, e)
    case RowNotFound => NotFound(NotFoundMessage, e)
    case Database(_) => QueryError(QueryMessage, e)
    case _ => QueryError(UnknownMessage, e)
  }

  /** `IntoResponse for DBError`: connection 500, query 400, not found 404; the body is the
      message as plain text. */
  function IntoResponse(e: DBError): (r: Response)
    ensures r.body == Text(e.msg)
    ensures r.status == StatusInternalServerError <==> e.ConnectionError?
    ensures r.status == StatusBadRequest <==> e.QueryError?
    ensures r.status == StatusNotFound <==> e.NotFound?
  {
    match e
    case ConnectionError(msg, _) => Response(StatusInternalServerError, Text(msg))
    case QueryError(msg, _) => Response(StatusBadRequest, Text(msg))
    case NotFound(msg, _) => Response(StatusNotFound, Text(msg))
  }

  /** The response to a raw sqlx error: the client never sees the error itself, only one of the
      four fixed messages, and the message alone determines the status. */
  lemma SqlxResponse(e: SqlxError)
    ensures var r := IntoResponse(FromSqlx(e));
      r.body.Text? && r.body.text in {ConnectionMessage, NotFoundMessage, QueryMessage, UnknownMessage}
    ensures var r := IntoResponse(FromSqlx(e));
      (r.body.text == ConnectionMessage <==> r.status == StatusInternalServerError) &&
      (r.body.text == NotFoundMessage <==> r.status == StatusNotFound) &&
      (r.body.text in {QueryMessage, UnknownMessage} <==> r.status == StatusBadRequest)
  {
  }
}
