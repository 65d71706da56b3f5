/** How the provider client turns one HTTP exchange into a reply. The
    transport and the JSON deserializer are not modelled: what the HTTP call
    gave back and what each deserialization would give are inputs. */
module MovieApiClient {
  import opened Exceptions
  import opened Models
  import opened Strings

  /** The outcome of `HttpClient.GetAsync` followed by reading the body:
      either the call threw, or a status code and a (non-null) body arrived. */
  datatype HttpResult = TransportFailed(exception: ExceptionType) | Received(statusCode: int, body: string)

  /** The outcome of `JsonSerializer.Deserialize`: it threw a `JsonException`,
      it produced null (the JSON text `null`), or it produced a value. */
  datatype Parsed<T> = JsonError | JsonNull | Json(value: T)

  /** The `{ "Movies": [...] }` wrapper; its list is null when the JSON says so. */
  datatype MoviesWrapper = MoviesWrapper(movies: Option<seq<Movie>>)

  /** `HttpResponseMessage.IsSuccessStatusCode`. */
  predicate IsSuccessStatusCode(statusCode: int)
  {
    200 <= statusCode <= 299
  }

  /** The literal text, quotes included, that selects the wrapper shape. */
  const MoviesMarker: string := "\"Movies\""

  const NotFoundStatus: int := 404

  /** The local `movies` after the shape sniffing: the wrapper parse when the
      body mentions `"Movies"`, otherwise the envelope parse, whose data is
      taken only when its `Success` is true. `JsonError` means the chosen
      deserialization threw. */
  function SelectMovies(body: string,
                        parseWrapper: string -> Parsed<MoviesWrapper>,
                        parseEnvelope: string -> Parsed<ApiResponse<seq<Movie>>>): (r: Parsed<seq<Movie>>)
    ensures Contains(body, MoviesMarker) ==>
              (r.JsonError? <==> parseWrapper(body).JsonError?) &&
              (r.Json? <==> parseWrapper(body).Json? && parseWrapper(body).value.movies.Some?) &&
              (r.Json? ==> parseWrapper(body).value.movies == Some(r.value))
    ensures !Contains(body, MoviesMarker) ==>
              (r.JsonError? <==> parseEnvelope(body).JsonError?) &&
              (r.Json? <==> parseEnvelope(body).Json? && parseEnvelope(body).value.success
                            && parseEnvelope(body).value.data.Some?) &&
              (r.Json? ==> parseEnvelope(body).value.data == Some(r.value))
  {
    if Contains(body, MoviesMarker) then
      match parseWrapper(body)
      case JsonError => JsonError
      case JsonNull => JsonNull
      case Json(wrapper) => if wrapper.movies.Some? then Json(wrapper.movies.value) else JsonNull
    else
      match parseEnvelope(body)
      case JsonError => JsonError
      case JsonNull => JsonNull
      case Json(envelope) =>
        if envelope.success && envelope.data.Some? then Json(envelope.data.value) else JsonNull
  }

  /** `GetMoviesFromProviderAsync(baseUrl, providerName)` given the HTTP
      exchange for `{baseUrl}/movies` and the two deserializers. */
  function GetMoviesFromProvider(providerName: string, http: HttpResult,
                                 parseWrapper: string -> Parsed<MoviesWrapper>,
                                 parseEnvelope: string -> Parsed<ApiResponse<seq<Movie>>>): (r: Reply<seq<Movie>>)
    // the client never hands back a null reply
    ensures !r.NullReply?
    // a failing transport propagates its exception
    ensures http.TransportFailed? ==> r == Threw(http.exception)
    // a non-success status throws from EnsureSuccessStatusCode
    ensures http.Received? && !IsSuccessStatusCode(http.statusCode) ==> r == Threw(HttpRequestException)
    // a blank body is reported, not parsed
    ensures http.Received? && IsSuccessStatusCode(http.statusCode) && IsNullOrWhiteSpace(http.body) ==>
              r == Returned(Failed(providerName + " returned empty response"))
    // with a success status and a non-blank body, the only exception is the parser's
    ensures http.Received? && IsSuccessStatusCode(http.statusCode) && !IsNullOrWhiteSpace(http.body) ==>
              (r.Threw? <==> SelectMovies(http.body, parseWrapper, parseEnvelope).JsonError?) &&
              (r.Threw? ==> r.exception == JsonException)
    // success carries exactly the selected list
    ensures r.Returned? && r.response.success <==>
              http.Received? && IsSuccessStatusCode(http.statusCode) && !IsNullOrWhiteSpace(http.body) &&
              SelectMovies(http.body, parseWrapper, parseEnvelope).Json?
    ensures r.Returned? && r.response.success ==>
              r.response == Succeeded(SelectMovies(http.body, parseWrapper, parseEnvelope).value)
    // a non-blank body whose chosen shape yields no list is an unexpected format
    ensures http.Received? && IsSuccessStatusCode(http.statusCode) && !IsNullOrWhiteSpace(http.body)
            && SelectMovies(http.body, parseWrapper, parseEnvelope).JsonNull? ==>
              r == Returned(Failed(providerName + " returned unexpected data format"))
    // every failure envelope is one of the two fixed messages and has no data
    ensures r.Returned? && !r.response.success ==>
              r.response.data.None? &&
              r.response.errorMessage in {providerName + " returned empty response",
                                          providerName + " returned unexpected data format"}
  {
    match http
    case TransportFailed(e) => Threw(e)
    case Received(status, body) =>
      if !IsSuccessStatusCode(status) then
        // EnsureSuccessStatusCode throws before the body is examined, so the
        // "service returned {status}" branch of the source is unreachable
        Threw(HttpRequestException)
      else if IsNullOrWhiteSpace(body) then
        Returned(Failed(providerName + " returned empty response"))
      else
        match SelectMovies(body, parseWrapper, parseEnvelope)
        case JsonError => Threw(JsonException)
        case JsonNull => Returned(Failed(providerName + " returned unexpected data format"))
        case Json(movies) => Returned(Succeeded(movies))
  }

  /** `GetMovieDetailsAsync(movieId, baseUrl)` given the HTTP exchange for
      `{baseUrl}/movie/{movieId}` and the deserializer. */
  function GetMovieDetails(http: HttpResult, parseDetail: string -> Parsed<MovieDetail>): (r: Reply<MovieDetail>)
    ensures !r.NullReply?
    // only the transport or the parser can throw; a status code never does
    ensures r.Threw? <==> http.TransportFailed? ||
                          (IsSuccessStatusCode(http.statusCode) && !IsNullOrWhiteSpace(http.body)
                           && parseDetail(http.body).JsonError?)
    ensures http.TransportFailed? ==> r == Threw(http.exception)
    ensures r.Threw? && http.Received? ==> r.exception == JsonException
    // a non-success status: "Movie not found" exactly for 404, "Service error" otherwise
    ensures http.Received? && !IsSuccessStatusCode(http.statusCode) ==>
              r.Returned? && !r.response.success && r.response.data.None? &&
              (r.response.errorMessage == "Movie not found" <==> http.statusCode == NotFoundStatus) &&
              (r.response.errorMessage == "Service error" <==> http.statusCode != NotFoundStatus)
    ensures http.Received? && IsSuccessStatusCode(http.statusCode) && IsNullOrWhiteSpace(http.body) ==>
              r == Returned(Failed("Empty response from service"))
    ensures http.Received? && IsSuccessStatusCode(http.statusCode) && !IsNullOrWhiteSpace(http.body)
            && parseDetail(http.body).JsonNull? ==>
              r == Returned(Failed("Invalid movie data format"))
    // success exactly when a record was parsed, and it is handed over unchanged
    ensures r.Returned? && r.response.success <==>
              http.Received? && IsSuccessStatusCode(http.statusCode) && !IsNullOrWhiteSpace(http.body)
              && parseDetail(http.body).Json?
    ensures r.Returned? && r.response.success ==> r.response == Succeeded(parseDetail(http.body).value)
  {
    match http
    case TransportFailed(e) => Threw(e)
    case Received(status, body) =>
      if IsSuccessStatusCode(status) then
        if IsNullOrWhiteSpace(body) then
          Returned(Failed("Empty response from service"))
        else
          match parseDetail(body)
          case JsonError => Threw(JsonException)
          case JsonNull => Returned(Failed("Invalid movie data format"))
          case Json(movie) => Returned(Succeeded(movie))
      else
        Returned(Failed(if status == NotFoundStatus then "Movie not found" else "Service error"))
  }

  /** Only the wrapper deserializer matters when the body mentions `"Movies"`. */
  lemma WrapperShapeIgnoresEnvelope(providerName: string, http: HttpResult,
                                    parseWrapper: string -> Parsed<MoviesWrapper>,
                                    parseEnvelope1: string -> Parsed<ApiResponse<seq<Movie>>>,
                                    parseEnvelope2: string -> Parsed<ApiResponse<seq<Movie>>>)
    requires http.Received? && Contains(http.body, MoviesMarker)
    ensures GetMoviesFromProvider(providerName, http, parseWrapper, parseEnvelope1)
         == GetMoviesFromProvider(providerName, http, parseWrapper, parseEnvelope2)
  {
  }

  /** Only the envelope deserializer matters when the body does not mention
      `"Movies"`. */
  lemma EnvelopeShapeIgnoresWrapper(providerName: string, http: HttpResult,
                                    parseWrapper1: string -> Parsed<MoviesWrapper>,
                                    parseWrapper2: string -> Parsed<MoviesWrapper>,
                                    parseEnvelope: string -> Parsed<ApiResponse<seq<Movie>>>)
    requires http.Received? && !Contains(http.body, MoviesMarker)
    ensures GetMoviesFromProvider(providerName, http, parseWrapper1, parseEnvelope)
         == GetMoviesFromProvider(providerName, http, parseWrapper2, parseEnvelope)
  {
  }

  /** An envelope whose `Success` is false is never accepted, whatever data
      it carries: the provider is reported as sending an unexpected format. */
  lemma UnsuccessfulEnvelopeRejected(providerName: string, statusCode: int, body: string,
                                     parseWrapper: string -> Parsed<MoviesWrapper>,
                                     parseEnvelope: string -> Parsed<ApiResponse<seq<Movie>>>)
    requires IsSuccessStatusCode(statusCode) && !IsNullOrWhiteSpace(body)
    requires !Contains(body, MoviesMarker)
    requires parseEnvelope(body).Json? && !parseEnvelope(body).value.success
    ensures GetMoviesFromProvider(providerName, Received(statusCode, body), parseWrapper, parseEnvelope)
         == Returned(Failed(providerName + " returned unexpected data format"))
  {
  }
}
