/** The application-wide `rescue_from StandardError` handler: a rescued exception is
    classified into an HTTP status, an error code and a message, and rendered as a JSON
    error body. */
module SimpleErrorHandling {
  /** The exception classes the handler tests for, in the order it tests them. */
  datatype ErrorClass = ParameterMissing | JsonParserError | RedisBaseError | TimeoutError

  /** A rescued exception: the tested classes it is an instance of (a subclass counts, so
      one exception may belong to several), and for `ParameterMissing` the missing
      parameter's name. */
  datatype RaisedError = RaisedError(kinds: set<ErrorClass>, param: string)

  datatype Classification = Classification(status: nat, code: string, message: string)

  const MissingParameterPrefix: string := "Missing parameter: "

  /** The `case error ... when` of `handle_error`: the first matching class decides. */
  function Classify(e: RaisedError): Classification {
    if ParameterMissing in e.kinds then
      Classification(400, "missing_parameter", MissingParameterPrefix + e.param)
    else if JsonParserError in e.kinds then
      Classification(400, "invalid_json", "Invalid JSON format")
    else if RedisBaseError in e.kinds then
      Classification(503, "service_unavailable", "Service temporarily unavailable")
    else if TimeoutError in e.kinds then
      Classification(504, "timeout", "Request timeout")
    else
      Classification(500, "internal_error", "Internal server error")
  }

  datatype ErrorInfo = ErrorInfo(code: string, message: string, timestamp: string)

  /** The rendered answer: its HTTP status and the JSON body `{success:, status:, error:}`. */
  datatype ErrorResponse = ErrorResponse(httpStatus: nat, success: bool, status: nat, error: ErrorInfo)

  /** `handle_error(error)`; `now` is `Time.current.iso8601`. */
  function HandleError(e: RaisedError, now: string): ErrorResponse {
    var c := Classify(e);
    ErrorResponse(c.status, false, c.status, ErrorInfo(c.code, c.message, now))
  }

  /** Every answer reports failure, repeats its HTTP status in the body and carries the
      classification and the time. */
  lemma HandleErrorBody(e: RaisedError, now: string)
    ensures var r := HandleError(e, now);
      && !r.success
      && r.status == r.httpStatus
      && r.httpStatus == Classify(e).status
      && r.error == ErrorInfo(Classify(e).code, Classify(e).message, now)
  {
  }

  /** The status is one of five, and each is chosen by the first class the exception
      belongs to: 400 for a missing parameter or bad JSON, 503 for a Redis error that is
      neither, 504 for a timeout that is none of the earlier three, 500 for the rest. */
  lemma ClassifyStatus(e: RaisedError)
    ensures var s := Classify(e).status;
      && (s == 400 <==> ParameterMissing in e.kinds || JsonParserError in e.kinds)
      && (s == 503 <==> RedisBaseError in e.kinds && ParameterMissing !in e.kinds && JsonParserError !in e.kinds)
      && (s == 504 <==> e.kinds == {TimeoutError})
      && (s == 500 <==> e.kinds == {})
  {
    var k := e.kinds;
    var all := {ParameterMissing, JsonParserError, RedisBaseError, TimeoutError};
    forall x | x in k ensures x in all {
      assert x.ParameterMissing? || x.JsonParserError? || x.RedisBaseError? || x.TimeoutError?;
    }
    if ParameterMissing !in k && JsonParserError !in k && RedisBaseError !in k {
      assert k <= {TimeoutError};
    }
  }

  /** The first match wins: an exception that is both a Redis error and a timeout is
      answered 503. */
  lemma RedisTimeoutIsServiceUnavailable(param: string)
    ensures Classify(RaisedError({RedisBaseError, TimeoutError}, param)).status == 503
  {
  }

  /** The message of a missing parameter names it, and the name can be read back. */
  lemma MissingParameterMessage(param: string)
    ensures var m := Classify(RaisedError({ParameterMissing}, param)).message;
      && m[..|MissingParameterPrefix|] == MissingParameterPrefix
      && m[|MissingParameterPrefix|..] == param
  {
  }

  /** The code determines the status, and for every code but `missing_parameter` the
      message too. */
  lemma CodeDeterminesAnswer(a: RaisedError, b: RaisedError)
    requires Classify(a).code == Classify(b).code
    ensures Classify(a).status == Classify(b).status
    ensures Classify(a).code != "missing_parameter" ==> Classify(a).message == Classify(b).message
  {
    CodeFixesAnswer(a);
    CodeFixesAnswer(b);
  }

  /** Each code comes with one status and, but for `missing_parameter`, one message. */
  lemma CodeFixesAnswer(e: RaisedError)
    ensures var c := Classify(e);
      && (c.code == "missing_parameter" ==> c.status == 400)
      && (c.code == "invalid_json" ==> c.status == 400 && c.message == "Invalid JSON format")
      && (c.code == "service_unavailable" ==> c.status == 503 && c.message == "Service temporarily unavailable")
      && (c.code == "timeout" ==> c.status == 504 && c.message == "Request timeout")
      && (c.code == "internal_error" ==> c.status == 500 && c.message == "Internal server error")
      && c.code in {"missing_parameter", "invalid_json", "service_unavailable", "timeout", "internal_error"}
  {
  }
}
