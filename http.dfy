/**
 * The parts of an HTTP response that the handlers decide: the status code and the body.
 * A `(StatusCode, String)` response has the message as a plain-text body; a `Json(..)` response
 * has a JSON body.
 */
module Http {

  const StatusOk: nat := 200
  const StatusBadRequest: nat := 400
  const StatusNotFound: nat := 404
  const StatusConflict: nat := 409
  const StatusInternalServerError: nat := 500

  datatype Json =
    | JString(text: string)
    | JArray(items: seq<Json>)
    | JObject(members: seq<(string, Json)>)

  datatype Body = Text(text: string) | JsonBody(value: Json)

  datatype Response = Response(status: nat, body: Body)
}
