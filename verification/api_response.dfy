/** The `ApiResponse` value record of the backend template: a status code,
    a message, a payload, and a `success` flag derived from the status code.
    Arguments that a caller may leave `undefined` are `Option`s. */
module ApiResponses {
  import opened Results
  import opened JsValue

  const DefaultMessage: string := "success"

  /** The first status code that is not a success. */
  const FirstErrorStatus: int := 400

  datatype ApiResponse = ApiResponse(statusCode: Option<int>, message: Json, data: Option<Json>, success: bool)

  /** `undefined < 400` is false in JavaScript, so a response without a
      status code never reports success. */
  predicate Succeeds(statusCode: Option<int>) {
    statusCode.Some? && statusCode.value < FirstErrorStatus
  }

  /** The records the constructor can produce: `success` agrees with the
      status code. */
  predicate WellFormed(r: ApiResponse) {
    r.success == Succeeds(r.statusCode)
  }

  /** `new ApiResponse(message, data, statusCode)`. */
  function NewApiResponse(message: Option<Json>, data: Option<Json>, statusCode: Option<int>): (r: ApiResponse)
    ensures r.statusCode == statusCode
    ensures message.None? ==> r.message == Str(DefaultMessage)
    ensures message.Some? ==> r.message == message.value
    ensures r.data == data
    ensures r.success <==> statusCode.Some? && statusCode.value < 400
    ensures WellFormed(r)
  {
    ApiResponse(statusCode, message.GetOr(Str(DefaultMessage)), data, Succeeds(statusCode))
  }

  /** Every well-formed response is the one the constructor builds from its
      own fields: no other record is reachable, and none is missed. */
  lemma ResponseRoundTrip(r: ApiResponse)
    requires WellFormed(r)
    ensures NewApiResponse(Some(r.message), r.data, r.statusCode) == r
  {
  }
}
