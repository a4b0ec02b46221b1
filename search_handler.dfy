/**
 * backend/src/api/handlers/search.rs: the placeholder search endpoint and its error responses.
 */
module SearchHandler {
  import opened Wrappers
  import opened Http

  datatype SearchError = NotFound(msg: string) | InvalidQuery(msg: string)

  /** The `AppError::Search` wrapper this handler returns its errors in. */
  datatype AppError = Search(err: SearchError)

  /** `IntoResponse for SearchError`: not found is 404, an invalid query 400; the body is the
      message as plain text. */
  function SearchErrorResponse(e: SearchError): (r: Response)
    ensures r.body == Text(e.msg)
    ensures r.status == StatusNotFound <==> e.NotFound?
    ensures r.status == StatusBadRequest <==> e.InvalidQuery?
  {
    match e
    case NotFound(msg) => Response(StatusNotFound, Text(msg))
    case InvalidQuery(msg) => Response(StatusBadRequest, Text(msg))
  }

  /** The fixed result list of a successful search. */
  function StubResults(): Json {
    JArray([JString("Note 1"), JString("Note 2")])
  }

  /** `search_notes`: an empty query is rejected first, "notfound" is reported as not found,
      and any other query gets the fixed list with status 200. */
  function SearchNotes(query: string): (r: Result<Response, AppError>)
    ensures r.Err? && r.error.err.InvalidQuery? <==> query == ""
    ensures r.Err? && r.error.err.NotFound? <==> query == "notfound"
    ensures r.Ok? <==> query != "" && query != "notfound"
    ensures r.Ok? ==> r.value == Response(StatusOk, JsonBody(StubResults()))
    ensures r.Err? ==> r.error.err.msg == (if query == "" then "Query cannot be empty" else "Notes not found")
  {
    if query == "" then Err(Search(InvalidQuery("Query cannot be empty")))
    else if query == "notfound" then Err(Search(NotFound("Notes not found")))
    else Ok(Response(StatusOk, JsonBody(StubResults())))
  }

  /** What the client receives, errors included. */
  function SearchResponse(query: string): Response {
    match SearchNotes(query)
    case Ok(resp) => resp
    case Err(Search(e)) => SearchErrorResponse(e)
  }

  /** The three outcomes as statuses: 400 exactly for the empty query, 404 exactly for
      "notfound", 200 otherwise; error bodies are the messages. */
  lemma SearchStatuses(query: string)
    ensures SearchResponse(query).status == StatusBadRequest <==> query == ""
    ensures SearchResponse(query).status == StatusNotFound <==> query == "notfound"
    ensures SearchResponse(query).status == StatusOk <==> query != "" && query != "notfound"
    ensures query == "" ==> SearchResponse(query).body == Text("Query cannot be empty")
    ensures query == "notfound" ==> SearchResponse(query).body == Text("Notes not found")
  {
  }
}
