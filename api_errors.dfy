/**
 * backend/src/api/errors.rs: the application error enums and the HTTP responses they become.
 * The underlying library error each variant carries is only logged, never sent to the client.
 */
module ApiErrors {
  import opened Wrappers
  import opened Http
  import opened Foreign

  datatype UserError =
    | Conflict(msg: string, sqlx: SqlxError)
    | Unknown(msg: string, sqlx: SqlxError)
    | Reqwest(msg: string, reqwest: ReqwestError)

  datatype NoteError =
    | InvalidData(msg: string)
    | UploadFailed(msg: string)
    | DatabaseError(msg: string, sqlx: SqlxError)

  datatype AppError = Note(noteError: NoteError) | User(userError: UserError)

  /** `From<UserError> for AppError`. */
  function FromUser(e: UserError): (r: AppError)
    ensures AppErrorResponse(r) == UserErrorResponse(e)
  {
    User(e)
  }

  /** `From<NoteError> for AppError`. */
  function FromNote(e: NoteError): (r: AppError)
    ensures AppErrorResponse(r) == NoteErrorResponse(e)
  {
    Note(e)
  }

  /** The JSON body of a note error: `{"error": msg}`. */
  function ErrorObject(msg: string): Json {
    JObject([("error", JString(msg))])
  }

  /** `IntoResponse for UserError`: a conflict is 409, anything else 500; the body is the
      message as plain text. */
  function UserErrorResponse(e: UserError): (r: Response)
    ensures r.body == Text(e.msg)
    ensures r.status == StatusConflict <==> e.Conflict?
    ensures r.status == StatusInternalServerError <==> (e.Unknown? || e.Reqwest?)
  {
    match e
    case Conflict(msg, _) => Response(StatusConflict, Text(msg))
    case Unknown(msg, _) => Response(StatusInternalServerError, Text(msg))
    case Reqwest(msg, _) => Response(StatusInternalServerError, Text(msg))
  }

  /** `IntoResponse for NoteError`: invalid data is 400, anything else 500; the body is the
      JSON object `{"error": msg}`. */
  function NoteErrorResponse(e: NoteError): (r: Response)
    ensures r.body == JsonBody(ErrorObject(e.msg))
    ensures r.status == StatusBadRequest <==> e.InvalidData?
    ensures r.status == StatusInternalServerError <==> (e.UploadFailed? || e.DatabaseError?)
  {
    var status := match e
      case InvalidData(_) => StatusBadRequest
      case UploadFailed(_) => StatusInternalServerError
      case DatabaseError(_, _) => StatusInternalServerError;
    Response(status, JsonBody(ErrorObject(e.msg)))
  }

  /** `IntoResponse for AppError`: the inner error decides; only 400, 409 and 500 occur, and the
      body is JSON exactly for note errors. */
  function AppErrorResponse(e: AppError): (r: Response)
    ensures r.status in {StatusBadRequest, StatusConflict, StatusInternalServerError}
    ensures r.body.JsonBody? <==> e.Note?
  {
    match e
    case Note(err) => NoteErrorResponse(err)
    case User(err) => UserErrorResponse(err)
  }

  /** The message a client reads back from an error response, whichever body form it has. */
  function ClientMessage(r: Response): Option<string> {
    match r.body
    case Text(msg) => Some(msg)
    case JsonBody(JObject(members)) =>
      if |members| == 1 && members[0].0 == "error" && members[0].1.JString? then Some(members[0].1.text)
      else None
    case JsonBody(_) => None
  }

  /** Every application error reaches the client with its message intact, and the body's form
      tells which enum it came from: JSON for note errors, plain text for user errors. */
  lemma ResponseCarriesMessage(e: AppError)
    ensures var msg := if e.Note? then e.noteError.msg else e.userError.msg;
      ClientMessage(AppErrorResponse(e)) == Some(msg)
    ensures AppErrorResponse(e).body.JsonBody? <==> e.Note?
  {
  }

  /** The status classes: 400 and 409 are client errors, and no server-side failure is reported
      as one. */
  lemma StatusClasses(e: AppError)
    ensures AppErrorResponse(e).status in {StatusBadRequest, StatusConflict, StatusInternalServerError}
    ensures AppErrorResponse(e).status < StatusInternalServerError <==>
      (e.Note? && e.noteError.InvalidData?) || (e.User? && e.userError.Conflict?)
  {
  }
}
