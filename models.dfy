/** The data shapes exchanged between the provider client, the aggregation
    service and the HTTP layer. */
module Models {
  import opened Exceptions

  datatype Option<T> = None | Some(value: T)

  /** The success/failure envelope every operation returns. */
  datatype ApiResponse<T> = ApiResponse(success: bool, data: Option<T>, errorMessage: string)

  /** A failure envelope: no data, an error message. */
  function Failed<T>(message: string): ApiResponse<T>
  {
    ApiResponse(false, None, message)
  }

  /** A success envelope: the data and the default (empty) error message. */
  function Succeeded<T>(data: T): ApiResponse<T>
  {
    ApiResponse(true, Some(data), "")
  }

  /** A movie as a provider lists it. */
  datatype Movie = Movie(id: string, title: string, movieType: string, year: string,
                         poster: string, provider: string)

  /** A movie with its price. Only the fields the comparison reads are kept;
      the descriptive strings (rating, plot, cast, ...) are not modelled. */
  datatype MovieDetail = MovieDetail(id: string, title: string, movieType: string, year: string,
                                     poster: string, provider: string, price: real)

  /** The merged record for one movie across all providers that priced it. */
  datatype MovieComparison = MovieComparison(
    movieId: string,
    title: string,
    year: string,
    poster: string,
    providerAvailability: map<string, bool>,
    providerPrices: map<string, Option<real>>,
    cheapestProvider: string,
    cheapestPrice: Option<real>)

  /** One configured provider. */
  datatype ProviderConfig = ProviderConfig(name: string, baseUrl: string)

  /** What awaiting a client call gives its caller: an exception, a null
      reference, or a response envelope. */
  datatype Reply<T> = Threw(exception: ExceptionType) | NullReply | Returned(response: ApiResponse<T>)
}
