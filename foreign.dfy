/**
 * Error values produced by libraries outside the core. Only their kind matters to the core;
 * each carries its description as opaque text.
 */
module Foreign {

  /** The kinds of `sqlx::Error`. */
  datatype SqlxError =
    | Configuration(detail: string)
    | Database(detail: string)
    | Io(detail: string)
    | Tls(detail: string)
    | Protocol(detail: string)
    | RowNotFound
    | TypeNotFound(typeName: string)
    | ColumnIndexOutOfBounds(index: nat, len: nat)
    | ColumnNotFound(column: string)
    | ColumnDecode(column: string, detail: string)
    | Encode(detail: string)
    | Decode(detail: string)
    | AnyDriverError(detail: string)
    | PoolTimedOut
    | PoolClosed
    | WorkerCrashed
    | Migrate(detail: string)
    | InvalidArgument(detail: string)

  /** A `reqwest::Error`, kept opaque. */
  datatype ReqwestError = ReqwestError(detail: string)
}
