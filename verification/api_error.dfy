/** The `ApiError` value record of the backend template: a failure with a
    status code, a message, a list of errors, and an optional caller-supplied
    stack description.  Arguments that a caller may leave `undefined` are
    `Option`s. */
module ApiErrors {
  import opened Results
  import opened JsValue

  const DefaultMessage: string := "Something went wrong !"

  datatype ApiError = ApiError(
    statusCode: Option<int>,
    data: Json,
    message: Json,
    errors: Json,
    success: bool,
    stacks: Option<Json>)

  /** The records the constructor can produce: never a success, no payload,
      and a `stacks` property only when it holds a truthy value. */
  predicate WellFormed(e: ApiError) {
    && !e.success
    && e.data == Null
    && (e.stacks.Some? ==> Truthy(e.stacks.value))
  }

  /** `new ApiError(statusCode, message, errors, stacks)`; `stacks` defaults
      to "" and is kept only when `if (stacks)` accepts it. */
  function NewApiError(statusCode: Option<int>, message: Option<Json>, errors: Option<Json>, stacks: Option<Json>): (e: ApiError)
    ensures e.statusCode == statusCode
    ensures !e.success
    ensures e.data == Null
    ensures message.None? ==> e.message == Str(DefaultMessage)
    ensures message.Some? ==> e.message == message.value
    ensures errors.None? ==> e.errors == Arr([])
    ensures errors.Some? ==> e.errors == errors.value
    ensures e.stacks.Some? <==> stacks.Some? && Truthy(stacks.value)
    ensures e.stacks.Some? ==> e.stacks == stacks
    ensures WellFormed(e)
  {
    var s := stacks.GetOr(Str(""));
    ApiError(
      statusCode,
      Null,
      message.GetOr(Str(DefaultMessage)),
      errors.GetOr(Arr([])),
      false,
      if Truthy(s) then Some(s) else None)
  }

  /** Every well-formed error is the one the constructor builds from its own
      fields: no other record is reachable, and none is missed. */
  lemma ErrorRoundTrip(e: ApiError)
    requires WellFormed(e)
    ensures NewApiError(e.statusCode, Some(e.message), Some(e.errors), e.stacks) == e
  {
  }
}
