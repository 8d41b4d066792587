/** The response envelopes and HTTP errors of app/util/response_helpers.py.
    A JSON object is a map from key to value; FastAPI's HTTPException is a
    status code with a detail text. */
module ResponseHelpers {
  import opened Wrappers

  datatype Json =
    | JNull
    | JBool(b: bool)
    | JInt(i: int)
    | JStr(s: string)
    | JArray(items: seq<Json>)
    | JObject(fields: map<string, Json>)

  type JsonObject = map<string, Json>

  datatype HttpException = HttpException(statusCode: int, detail: string)

  const HTTP_400_BAD_REQUEST := 400
  const HTTP_401_UNAUTHORIZED := 401
  const HTTP_404_NOT_FOUND := 404
  const HTTP_409_CONFLICT := 409
  const HTTP_422_UNPROCESSABLE_ENTITY := 422
  const HTTP_500_INTERNAL_SERVER_ERROR := 500

  /** create_success_response: `success` is true, `message` is the message,
      and `data` is present exactly when data is not None (JNull). */
  function CreateSuccessResponse(data: Json := JNull, message: string := "Success"): (r: JsonObject)
    ensures r.Keys == {"success", "message"} + (if data != JNull then {"data"} else {})
    ensures r["success"] == JBool(true) && r["message"] == JStr(message)
    ensures "data" in r ==> r["data"] == data
  {
    var response := map["success" := JBool(true), "message" := JStr(message)];
    if data != JNull then response["data" := data] else response
  }

  /** Python truthiness of an optional dict: present and non-empty. */
  predicate Truthy(details: Option<JsonObject>)
  {
    details.Some? && |details.value| > 0
  }

  /** create_error_response: `success` is false, `message` is the message,
      and `details` is present exactly when details is truthy, so an empty
      dict is left out. The status code argument is not used. */
  function CreateErrorResponse(message: string, statusCode: int := 400,
                               details: Option<JsonObject> := None): (r: JsonObject)
    ensures r.Keys == {"success", "message"} + (if Truthy(details) then {"details"} else {})
    ensures r["success"] == JBool(false) && r["message"] == JStr(message)
    ensures "details" in r ==> r["details"] == JObject(details.value)
  {
    var response := map["success" := JBool(false), "message" := JStr(message)];
    if Truthy(details) then response["details" := JObject(details.value)] else response
  }

  /** The status code never reaches the envelope. */
  lemma {:induction false} ErrorResponseIgnoresStatus(message: string, s1: int, s2: int, details: Option<JsonObject>)
    ensures CreateErrorResponse(message, s1, details) == CreateErrorResponse(message, s2, details)
  {
  }

  /** handle_database_error: 500, naming the operation only. */
  function HandleDatabaseError(error: string, operation: string := "database operation"): (r: HttpException)
    ensures r.statusCode == HTTP_500_INTERNAL_SERVER_ERROR
    ensures r.detail == "Database error during " + operation
  {
    HttpException(HTTP_500_INTERNAL_SERVER_ERROR, "Database error during " + operation)
  }

  /** The error's own text never reaches the caller: two different errors
      during the same operation give the same exception. */
  lemma {:induction false} DatabaseErrorHidesCause(e1: string, e2: string, operation: string)
    ensures HandleDatabaseError(e1, operation) == HandleDatabaseError(e2, operation)
  {
  }

  /** handle_validation_error: 422 naming the field and the message. */
  function HandleValidationError(field: string, message: string): (r: HttpException)
    ensures r.statusCode == HTTP_422_UNPROCESSABLE_ENTITY
    ensures r.detail == "Validation error for " + field + ": " + message
  {
    HttpException(HTTP_422_UNPROCESSABLE_ENTITY, "Validation error for " + field + ": " + message)
  }

  /** handle_not_found_error: 404 naming the resource and the identifier. */
  function HandleNotFoundError(resource: string, identifier: string): (r: HttpException)
    ensures r.statusCode == HTTP_404_NOT_FOUND
    ensures r.detail == resource + " with " + identifier + " not found"
  {
    HttpException(HTTP_404_NOT_FOUND, resource + " with " + identifier + " not found")
  }

  /** handle_unauthorized_error: 401 with the message as the detail. */
  function HandleUnauthorizedError(message: string := "Unauthorized access"): (r: HttpException)
    ensures r.statusCode == HTTP_401_UNAUTHORIZED && r.detail == message
  {
    HttpException(HTTP_401_UNAUTHORIZED, message)
  }

  /** Unlike a database error, a validation error carries its message to the
      client: for one field, different messages give different exceptions. */
  lemma {:induction false} ValidationErrorKeepsMessage(field: string, m1: string, m2: string)
    ensures HandleValidationError(field, m1) == HandleValidationError(field, m2) ==> m1 == m2
  {
    var prefix := "Validation error for " + field + ": ";
    assert HandleValidationError(field, m1).detail[|prefix|..] == m1;
    assert HandleValidationError(field, m2).detail[|prefix|..] == m2;
  }

  /** A not-found error names the identifier: for one resource, different
      identifiers give different exceptions. */
  lemma {:induction false} NotFoundErrorKeepsIdentifier(resource: string, i1: string, i2: string)
    ensures HandleNotFoundError(resource, i1) == HandleNotFoundError(resource, i2) ==> i1 == i2
  {
    var prefix := resource + " with ";
    var d1, d2 := HandleNotFoundError(resource, i1).detail, HandleNotFoundError(resource, i2).detail;
    assert d1[|prefix|..|d1| - |" not found"|] == i1;
    assert d2[|prefix|..|d2| - |" not found"|] == i2;
  }

  /** An unauthorized error passes its message through unchanged, and
      without one says "Unauthorized access". */
  lemma {:induction false} UnauthorizedErrorKeepsMessage(m1: string, m2: string)
    ensures HandleUnauthorizedError(m1) == HandleUnauthorizedError(m2) ==> m1 == m2
    ensures HandleUnauthorizedError() == HttpException(HTTP_401_UNAUTHORIZED, "Unauthorized access")
  {
  }

  /** The four error kinds answer with four different status codes, so the
      status alone tells a client which kind of failure it met. */
  lemma {:induction false} ErrorKindsDistinct(error: string, operation: string, field: string, message: string,
                                              resource: string, identifier: string, reason: string)
    ensures var codes := [HandleDatabaseError(error, operation).statusCode,
                          HandleValidationError(field, message).statusCode,
                          HandleNotFoundError(resource, identifier).statusCode,
                          HandleUnauthorizedError(reason).statusCode];
            forall i, j :: 0 <= i < j < 4 ==> codes[i] != codes[j]
  {
  }
}
