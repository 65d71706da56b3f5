/** The middleware's translation of an unhandled exception into an HTTP
    status code and a failure envelope. Writing the response is not
    modelled; what it would write is the result. */
module ExceptionMiddleware {
  import opened Exceptions
  import opened Models

  /** The arms of the two `switch` expressions, in source order. */
  datatype Arm = ServiceUnavailable | Timeout | InvalidRequest | NotFound | AccessDenied | Unexpected

  /** The type pattern of each arm but the last (a discard). */
  const PatternTypes: seq<ExceptionType> :=
    [HttpRequestException, TaskCanceledException, ArgumentException, KeyNotFoundException,
     UnauthorizedAccessException]

  const Arms: seq<Arm> := [ServiceUnavailable, Timeout, InvalidRequest, NotFound, AccessDenied, Unexpected]

  function ArmMessage(a: Arm): string
  {
    match a
    case ServiceUnavailable => "External service is currently unavailable"
    case Timeout => "Request timeout - please try again"
    case InvalidRequest => "Invalid request parameters"
    case NotFound => "Resource not found"
    case AccessDenied => "Access denied"
    case Unexpected => "An error occurred while processing your request"
  }

  function ArmStatusCode(a: Arm): int
  {
    match a
    case ServiceUnavailable => 502
    case Timeout => 504
    case InvalidRequest => 400
    case NotFound => 404
    case AccessDenied => 401
    case Unexpected => 500
  }

  /** The position of the first pattern at or after `from` that `e`
      matches, or the position of the discard arm when none does. */
  function FirstMatchFrom(e: ExceptionType, from: nat): (k: nat)
    requires from <= |PatternTypes|
    ensures from <= k <= |PatternTypes|
    ensures k < |PatternTypes| ==> IsA(e, PatternTypes[k])
    ensures forall j :: from <= j < k ==> !IsA(e, PatternTypes[j])
    decreases |PatternTypes| - from
  {
    if from == |PatternTypes| then from
    else if IsA(e, PatternTypes[from]) then from
    else FirstMatchFrom(e, from + 1)
  }

  /** The arm a C# `switch` on the exception takes: the first whose pattern
      matches, the discard arm otherwise. */
  function Classify(e: ExceptionType): (a: Arm)
    ensures a != Unexpected ==> exists k :: 0 <= k < |PatternTypes| && Arms[k] == a && IsA(e, PatternTypes[k])
    ensures a == Unexpected <==> forall k :: 0 <= k < |PatternTypes| ==> !IsA(e, PatternTypes[k])
  {
    Arms[FirstMatchFrom(e, 0)]
  }

  /** `GetErrorMessage`: the message of the first matching arm. */
  function GetErrorMessage(e: ExceptionType): (message: string)
    ensures message == ArmMessage(Classify(e))
  {
    if IsA(e, HttpRequestException) then ArmMessage(ServiceUnavailable)
    else if IsA(e, TaskCanceledException) then ArmMessage(Timeout)
    else if IsA(e, ArgumentException) then ArmMessage(InvalidRequest)
    else if IsA(e, KeyNotFoundException) then ArmMessage(NotFound)
    else if IsA(e, UnauthorizedAccessException) then ArmMessage(AccessDenied)
    else ArmMessage(Unexpected)
  }

  /** `GetStatusCode`: the status code of the first matching arm. */
  function GetStatusCode(e: ExceptionType): (statusCode: int)
    ensures statusCode == ArmStatusCode(Classify(e))
    ensures statusCode in {400, 401, 404, 500, 502, 504}
  {
    if IsA(e, HttpRequestException) then ArmStatusCode(ServiceUnavailable)
    else if IsA(e, TaskCanceledException) then ArmStatusCode(Timeout)
    else if IsA(e, ArgumentException) then ArmStatusCode(InvalidRequest)
    else if IsA(e, KeyNotFoundException) then ArmStatusCode(NotFound)
    else if IsA(e, UnauthorizedAccessException) then ArmStatusCode(AccessDenied)
    else ArmStatusCode(Unexpected)
  }

  /** What `HandleExceptionAsync` puts on the response. */
  datatype ErrorResponse = ErrorResponse(statusCode: int, contentType: string, body: ApiResponse<()>)

  /** `HandleExceptionAsync`: a JSON failure envelope carrying the message
      and the status code of the arm the exception is classified into
      (never text taken from the exception). */
  function HandleException(e: ExceptionType): (r: ErrorResponse)
    ensures r.contentType == "application/json"
    ensures !r.body.success && r.body.data.None?
    ensures r.statusCode in {400, 401, 404, 500, 502, 504}
    ensures r.statusCode == ArmStatusCode(Classify(e)) && r.body.errorMessage == ArmMessage(Classify(e))
  {
    ErrorResponse(GetStatusCode(e), "application/json", Failed(GetErrorMessage(e)))
  }

  /** Distinct arms have distinct messages. */
  lemma ArmMessagesDistinct(a: Arm, b: Arm)
    ensures ArmMessage(a) == ArmMessage(b) <==> a == b
  {
    MessageLengths();
  }

  /** The six messages have six different lengths. */
  lemma MessageLengths()
    ensures |ArmMessage(ServiceUnavailable)| == 41 && |ArmMessage(Timeout)| == 34
    ensures |ArmMessage(InvalidRequest)| == 26 && |ArmMessage(NotFound)| == 18
    ensures |ArmMessage(AccessDenied)| == 13 && |ArmMessage(Unexpected)| == 47
  {
  }

  /** The two classifications agree case by case: two exceptions get the same
      message exactly when they get the same status code. */
  lemma MessageAndStatusAgree(e1: ExceptionType, e2: ExceptionType)
    ensures GetErrorMessage(e1) == GetErrorMessage(e2) <==> GetStatusCode(e1) == GetStatusCode(e2)
  {
    var a1, a2 := Classify(e1), Classify(e2);
    assert GetErrorMessage(e1) == ArmMessage(a1) && GetErrorMessage(e2) == ArmMessage(a2);
    assert GetStatusCode(e1) == ArmStatusCode(a1) && GetStatusCode(e2) == ArmStatusCode(a2);
    ArmMessagesDistinct(a1, a2);
    assert ArmStatusCode(a1) == ArmStatusCode(a2) <==> a1 == a2;
  }

  /** Every subclass of `ArgumentException` is an invalid request. */
  lemma ArgumentExceptionsAreInvalidRequests(e: ExceptionType)
    requires IsA(e, ArgumentException)
    ensures HandleException(e).statusCode == 400
    ensures HandleException(e).body.errorMessage == ArmMessage(InvalidRequest)
  {
    assert !IsA(e, HttpRequestException) && !IsA(e, TaskCanceledException);
    assert GetStatusCode(e) == ArmStatusCode(InvalidRequest);
    assert GetErrorMessage(e) == ArmMessage(InvalidRequest);
  }

  /** `OperationCanceledException` is the base of `TaskCanceledException`,
      not one of its cases: it falls to the discard arm. */
  lemma BaseCancellationIsUnexpected()
    ensures HandleException(OperationCanceledException).statusCode == 500
    ensures HandleException(TaskCanceledException).statusCode == 504
  {
    var e := OperationCanceledException;
    assert !IsA(e, HttpRequestException) && !IsA(e, TaskCanceledException) && !IsA(e, ArgumentException);
    assert !IsA(e, KeyNotFoundException) && !IsA(e, UnauthorizedAccessException);
    assert GetStatusCode(e) == ArmStatusCode(Unexpected);
    assert GetStatusCode(TaskCanceledException) == ArmStatusCode(Timeout);
  }
}
