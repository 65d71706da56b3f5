/** The .NET exception types that the service, the API client and the
    exception middleware throw or match on, with the part of the class
    hierarchy that a type pattern in a C# `switch` consults. */
module Exceptions {

  /** The runtime type of a thrown exception. `OtherException` stands for any
      type that derives from none of the types named here. */
  datatype ExceptionType =
    | HttpRequestException
    | TaskCanceledException
    | OperationCanceledException
    | ArgumentException
    | ArgumentNullException
    | ArgumentOutOfRangeException
    | KeyNotFoundException
    | UnauthorizedAccessException
    | InvalidOperationException
    | JsonException
    | OtherException(typeName: string)

  /** `IsA(t, c)` holds when an exception of runtime type `t` matches the type
      pattern `c`: `t` is `c` or derives from it. */
  predicate IsA(t: ExceptionType, c: ExceptionType)
  {
    || t == c
    || (c == OperationCanceledException && t == TaskCanceledException)
    || (c == ArgumentException && (t == ArgumentNullException || t == ArgumentOutOfRangeException))
  }

  /** Derivation is a partial order: every type is itself, no two distinct
      types derive from each other, and derivation chains compose. */
  lemma IsAPartialOrder(t: ExceptionType, u: ExceptionType, v: ExceptionType)
    ensures IsA(t, t)
    ensures IsA(t, u) && IsA(u, t) ==> t == u
    ensures IsA(t, u) && IsA(u, v) ==> IsA(t, v)
  {
  }
}
