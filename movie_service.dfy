/** The price-comparison aggregation: walk the providers in order, list each
    one's movies, fetch every listed movie's detail, pool the priced records
    and group them into comparisons. The API client is a parameter: `listing`
    answers `GetMoviesFromProviderAsync(baseUrl, providerName)` and `detail`
    answers `GetMovieDetailsAsync(movieId, baseUrl)`. The concurrent fan-out
    of detail calls is an in-order map, as `Task.WhenAll` returns its results
    in task order and no task touches shared state. */
module MovieService {
  import opened Models
  import opened Grouping
  import opened Strings
  import opened MovieApiClient

  const NoProvidersMessage: string := "No movie providers configured"
  const ErrorOccurredMessage: string := "An error occurred"

  /** The service keeps a detail only when `detail?.Success == true` and
      `detail.Data != null`. */
  predicate DetailSucceeded(reply: Reply<MovieDetail>)
  {
    reply.Returned? && reply.response.success && reply.response.data.Some?
  }

  /** The pooled record for a listed movie: identity from the listing, price
      from the detail, provider from the configuration. */
  function Stamp(movie: Movie, price: real, provider: ProviderConfig): MovieDetail
  {
    MovieDetail(movie.id, movie.title, "", movie.year, movie.poster, provider.name, price)
  }

  /** The movies a provider's listing reply hands to the fan-out: none when
      the reply or its data is null. The success flag is not consulted. */
  function ListedMovies(provider: ProviderConfig, listing: (string, string) -> Reply<seq<Movie>>): seq<Movie>
  {
    var reply := listing(provider.baseUrl, provider.name);
    if reply.Returned? && reply.response.data.Some? then reply.response.data.value else []
  }

  /** The records one provider contributes for `movies`, in listing order;
      `None` when a detail call threw. */
  function ProviderRecords(provider: ProviderConfig, movies: seq<Movie>,
                           detail: (string, string) -> Reply<MovieDetail>): (r: Option<seq<MovieDetail>>)
    ensures r.Some? ==> |r.value| <= |movies|
    ensures r.None? <==> exists j :: 0 <= j < |movies| && detail(movies[j].id, provider.baseUrl).Threw?
  {
    if |movies| == 0 then Some([])
    else
      var init := movies[..|movies| - 1];
      var movie := movies[|movies| - 1];
      var reply := detail(movie.id, provider.baseUrl);
      assert forall j :: 0 <= j < |init| ==> init[j] == movies[j];
      match ProviderRecords(provider, init, detail)
      case None => None
      case Some(records) =>
        if reply.Threw? then None
        else if DetailSucceeded(reply) then Some(records + [Stamp(movie, reply.response.data.value.price, provider)])
        else Some(records)
  }

  /** What one provider adds to the pool; `None` when its listing or one of
      its detail calls threw. */
  function Contribution(provider: ProviderConfig, listing: (string, string) -> Reply<seq<Movie>>,
                        detail: (string, string) -> Reply<MovieDetail>): (r: Option<seq<MovieDetail>>)
    ensures r.None? <==> listing(provider.baseUrl, provider.name).Threw? ||
                         exists j :: 0 <= j < |ListedMovies(provider, listing)| &&
                                     detail(ListedMovies(provider, listing)[j].id, provider.baseUrl).Threw?
    ensures r.Some? ==> |r.value| <= |ListedMovies(provider, listing)|
  {
    if listing(provider.baseUrl, provider.name).Threw? then None
    else ProviderRecords(provider, ListedMovies(provider, listing), detail)
  }

  /** The pooled records of `providers`, provider by provider; `None` when
      any client call threw. */
  function Pool(providers: seq<ProviderConfig>, listing: (string, string) -> Reply<seq<Movie>>,
                detail: (string, string) -> Reply<MovieDetail>): Option<seq<MovieDetail>>
  {
    if |providers| == 0 then Some([])
    else
      match Pool(providers[..|providers| - 1], listing, detail)
      case None => None
      case Some(records) =>
        match Contribution(providers[|providers| - 1], listing, detail)
        case None => None
        case Some(more) => Some(records + more)
  }

  /** The envelope `GetMoviePriceComparisonAsync` returns. Every exception
      (a client call that threw, `ToDictionary` meeting a provider twice) is
      caught and reported with one fixed message. */
  function PriceComparison(providers: seq<ProviderConfig>, listing: (string, string) -> Reply<seq<Movie>>,
                           detail: (string, string) -> Reply<MovieDetail>): (r: ApiResponse<seq<MovieComparison>>)
    ensures |providers| == 0 ==> r == Failed(NoProvidersMessage)
    ensures r.success <==> |providers| > 0 && Pool(providers, listing, detail).Some?
                           && Comparisons(Pool(providers, listing, detail).value).Some?
    ensures r.success ==> r == Succeeded(Comparisons(Pool(providers, listing, detail).value).value)
    ensures !r.success ==> r.data.None? && r.errorMessage in {NoProvidersMessage, ErrorOccurredMessage}
    ensures |providers| > 0 && !r.success ==> r == Failed(ErrorOccurredMessage)
  {
    if |providers| == 0 then Failed(NoProvidersMessage)
    else
      match Pool(providers, listing, detail)
      case None => Failed(ErrorOccurredMessage)
      case Some(all) =>
        match Comparisons(all)
        case None => Failed(ErrorOccurredMessage)
        case Some(comparisons) => Succeeded(comparisons)
  }

  /** `GetMoviePriceComparisonAsync`: the provider loop appends each
      provider's priced records to `allMovieDetails`, then the grouping
      pipeline builds the comparisons. */
  method GetMoviePriceComparison(providers: seq<ProviderConfig>,
                                 listing: (string, string) -> Reply<seq<Movie>>,
                                 detail: (string, string) -> Reply<MovieDetail>)
    returns (r: ApiResponse<seq<MovieComparison>>)
    ensures r == PriceComparison(providers, listing, detail)
  {
    if |providers| == 0 {
      return Failed(NoProvidersMessage);
    }
    var allMovieDetails: seq<MovieDetail> := [];
    var i := 0;
    while i < |providers|
      invariant 0 <= i <= |providers|
      invariant Pool(providers[..i], listing, detail) == Some(allMovieDetails)
    {
      var provider := providers[i];
      assert providers[..i + 1][..i] == providers[..i];
      var summaries := listing(provider.baseUrl, provider.name);
      if summaries.Threw? {
        PoolAbort(providers, i + 1, listing, detail);
        return Failed(ErrorOccurredMessage);
      }
      if summaries.NullReply? || summaries.response.data.None? {
        assert allMovieDetails + [] == allMovieDetails;
        i := i + 1;
        continue;
      }
      var movies := summaries.response.data.value;
      var details := FetchDetails(provider, movies, detail);
      if details.None? {
        PoolAbort(providers, i + 1, listing, detail);
        return Failed(ErrorOccurredMessage);
      }
      allMovieDetails := allMovieDetails + details.value;
      i := i + 1;
    }
    assert providers[..i] == providers;
    var comparisons := Comparisons(allMovieDetails);
    if comparisons.None? {
      return Failed(ErrorOccurredMessage);
    }
    return Succeeded(comparisons.value);
  }

  /** The fan-out over one provider's movies: one detail call per movie, in
      listing order, keeping the priced ones; `None` as soon as a call
      throws, which `Task.WhenAll` rethrows. */
  method FetchDetails(provider: ProviderConfig, movies: seq<Movie>,
                      detail: (string, string) -> Reply<MovieDetail>)
    returns (records: Option<seq<MovieDetail>>)
    ensures records == ProviderRecords(provider, movies, detail)
  {
    var details: seq<MovieDetail> := [];
    var j := 0;
    while j < |movies|
      invariant 0 <= j <= |movies|
      invariant ProviderRecords(provider, movies[..j], detail) == Some(details)
    {
      assert movies[..j + 1][..j] == movies[..j];
      var reply := detail(movies[j].id, provider.baseUrl);
      if reply.Threw? {
        return None;
      }
      if DetailSucceeded(reply) {
        details := details + [Stamp(movies[j], reply.response.data.value.price, provider)];
      }
      j := j + 1;
    }
    assert movies[..j] == movies;
    return Some(details);
  }

  /** Once a client call has thrown, the whole pool is lost, whatever the
      later providers are. */
  lemma {:induction false} PoolAbort(providers: seq<ProviderConfig>, n: nat,
                                     listing: (string, string) -> Reply<seq<Movie>>,
                                     detail: (string, string) -> Reply<MovieDetail>)
    requires n <= |providers| && Pool(providers[..n], listing, detail) == None
    ensures Pool(providers, listing, detail) == None
    decreases |providers|
  {
    if n < |providers| {
      var init := providers[..|providers| - 1];
      assert init[..n] == providers[..n];
      PoolAbort(init, n, listing, detail);
    } else {
      assert providers[..n] == providers;
    }
  }

  /** The pool is lost exactly when some provider's contribution is: a
      client call that threw, for that provider's listing or for one of its
      listed movies. */
  lemma {:induction false} PoolLost(providers: seq<ProviderConfig>,
                                    listing: (string, string) -> Reply<seq<Movie>>,
                                    detail: (string, string) -> Reply<MovieDetail>)
    ensures Pool(providers, listing, detail).None? <==>
              exists i :: 0 <= i < |providers| && Contribution(providers[i], listing, detail).None?
  {
    if |providers| > 0 {
      var init := providers[..|providers| - 1];
      assert forall i :: 0 <= i < |init| ==> init[i] == providers[i];
      PoolLost(init, listing, detail);
    }
  }

  /** A detail call that did not throw but whose reply is null, unsuccessful
      or without data adds nothing for its movie: the fan-out skips it. */
  lemma UnpricedDetailSkipped(provider: ProviderConfig, movies: seq<Movie>, movie: Movie,
                              detail: (string, string) -> Reply<MovieDetail>)
    requires !detail(movie.id, provider.baseUrl).Threw? && !DetailSucceeded(detail(movie.id, provider.baseUrl))
    ensures ProviderRecords(provider, movies + [movie], detail) == ProviderRecords(provider, movies, detail)
  {
    assert (movies + [movie])[..|movies|] == movies;
  }

  /** The listing's success flag and message are not consulted: two listing
      replies carrying the same data give the same contribution. */
  lemma ListingSuccessFlagIgnored(provider: ProviderConfig,
                                  listing1: (string, string) -> Reply<seq<Movie>>,
                                  listing2: (string, string) -> Reply<seq<Movie>>,
                                  detail: (string, string) -> Reply<MovieDetail>)
    requires listing1(provider.baseUrl, provider.name).Returned? && listing2(provider.baseUrl, provider.name).Returned?
    requires listing1(provider.baseUrl, provider.name).response.data == listing2(provider.baseUrl, provider.name).response.data
    ensures Contribution(provider, listing1, detail) == Contribution(provider, listing2, detail)
  {
  }

  /** The pooled record takes the listing's identity, so it groups under the
      listing's title and year, whatever the detail reply said they were. */
  lemma StampGroupsByListing(movie: Movie, price: real, provider: ProviderConfig)
    ensures var d := Stamp(movie, price, provider);
            GroupKey(d) == movie.title + "_" + movie.year && d.provider == provider.name && d.price == price
            && d.id == movie.id && d.poster == movie.poster && d.movieType == ""
  {
  }

  /** The `j`-th listed movie has a detail the service keeps. */
  predicate Priced(provider: ProviderConfig, movies: seq<Movie>,
                   detail: (string, string) -> Reply<MovieDetail>, j: int)
  {
    0 <= j < |movies| && DetailSucceeded(detail(movies[j].id, provider.baseUrl))
  }

  /** The record the service pools for a movie whose detail it keeps. */
  function StampOf(provider: ProviderConfig, movie: Movie, detail: (string, string) -> Reply<MovieDetail>): MovieDetail
    requires DetailSucceeded(detail(movie.id, provider.baseUrl))
  {
    Stamp(movie, detail(movie.id, provider.baseUrl).response.data.value.price, provider)
  }

  /** A provider's records are exactly the stamped records of its listed
      movies whose detail succeeded: each such movie gives one, and every
      record comes from one. */
  lemma {:induction false} ProviderRecordsExact(provider: ProviderConfig, movies: seq<Movie>,
                                                detail: (string, string) -> Reply<MovieDetail>)
    requires ProviderRecords(provider, movies, detail).Some?
    ensures forall j :: Priced(provider, movies, detail, j) ==>
              StampOf(provider, movies[j], detail) in ProviderRecords(provider, movies, detail).value
    ensures forall x :: x in ProviderRecords(provider, movies, detail).value ==>
              exists j :: Priced(provider, movies, detail, j) && x == StampOf(provider, movies[j], detail)
  {
    if |movies| > 0 {
      var init := movies[..|movies| - 1];
      assert forall j :: 0 <= j < |init| ==> init[j] == movies[j];
      ProviderRecordsExact(provider, init, detail);
      forall j | Priced(provider, init, detail, j) ensures Priced(provider, movies, detail, j) {}
    }
  }

  /** Records of earlier movies precede those of later ones: the records for
      `movies1 + movies2` are those for `movies1` followed by those for
      `movies2`. */
  lemma {:induction false} ProviderRecordsConcat(provider: ProviderConfig, movies1: seq<Movie>, movies2: seq<Movie>,
                                                 detail: (string, string) -> Reply<MovieDetail>)
    ensures var a := ProviderRecords(provider, movies1, detail);
            var b := ProviderRecords(provider, movies2, detail);
            ProviderRecords(provider, movies1 + movies2, detail)
              == if a.Some? && b.Some? then Some(a.value + b.value) else None
    decreases |movies2|
  {
    if |movies2| == 0 {
      assert movies1 + movies2 == movies1;
      var a := ProviderRecords(provider, movies1, detail);
      if a.Some? { assert a.value + [] == a.value; }
    } else {
      var both := movies1 + movies2;
      var init2 := movies2[..|movies2| - 1];
      var last := movies2[|movies2| - 1];
      assert both[..|both| - 1] == movies1 + init2;
      assert both[|both| - 1] == last;
      ProviderRecordsConcat(provider, movies1, init2, detail);
      var a := ProviderRecords(provider, movies1, detail);
      var c := ProviderRecords(provider, init2, detail);
      var reply := detail(last.id, provider.baseUrl);
      if a.Some? && c.Some? && !reply.Threw? && DetailSucceeded(reply) {
        AppendAssociative(a.value, c.value, [Stamp(last, reply.response.data.value.price, provider)]);
      }
    }
  }

  /** Records of earlier providers precede those of later ones: the pool of
      `providers1 + providers2` is that of `providers1` followed by that of
      `providers2`, and it is lost if either is. */
  lemma {:induction false} PoolConcat(providers1: seq<ProviderConfig>, providers2: seq<ProviderConfig>,
                                      listing: (string, string) -> Reply<seq<Movie>>,
                                      detail: (string, string) -> Reply<MovieDetail>)
    ensures var a := Pool(providers1, listing, detail);
            var b := Pool(providers2, listing, detail);
            Pool(providers1 + providers2, listing, detail)
              == if a.Some? && b.Some? then Some(a.value + b.value) else None
    decreases |providers2|
  {
    if |providers2| == 0 {
      assert providers1 + providers2 == providers1;
      var a := Pool(providers1, listing, detail);
      if a.Some? { assert a.value + [] == a.value; }
    } else {
      var init2 := providers2[..|providers2| - 1];
      var last := providers2[|providers2| - 1];
      assert providers2 == init2 + [last];
      assert providers1 + providers2 == (providers1 + init2) + [last];
      PoolConcat(providers1, init2, listing, detail);
      PoolSnoc(providers1 + init2, last, listing, detail);
      PoolSnoc(init2, last, listing, detail);
      var a := Pool(providers1, listing, detail);
      var c := Pool(init2, listing, detail);
      var d := Contribution(last, listing, detail);
      if a.Some? && c.Some? && d.Some? {
        AppendAssociative(a.value, c.value, d.value);
      }
    }
  }

  /** One more provider appends its contribution to the pool. */
  lemma PoolSnoc(providers: seq<ProviderConfig>, provider: ProviderConfig,
                 listing: (string, string) -> Reply<seq<Movie>>,
                 detail: (string, string) -> Reply<MovieDetail>)
    ensures var a := Pool(providers, listing, detail);
            var d := Contribution(provider, listing, detail);
            Pool(providers + [provider], listing, detail)
              == if a.Some? && d.Some? then Some(a.value + d.value) else None
  {
    assert (providers + [provider])[..|providers|] == providers;
  }

  /** A provider whose listing reply or listing data is null contributes
      nothing, and the providers around it are processed as if it were
      absent. */
  lemma SilentProviderSkipped(before: seq<ProviderConfig>, provider: ProviderConfig, after: seq<ProviderConfig>,
                              listing: (string, string) -> Reply<seq<Movie>>,
                              detail: (string, string) -> Reply<MovieDetail>)
    requires listing(provider.baseUrl, provider.name).NullReply? ||
             (listing(provider.baseUrl, provider.name).Returned? &&
              listing(provider.baseUrl, provider.name).response.data.None?)
    ensures Pool(before + [provider] + after, listing, detail) == Pool(before + after, listing, detail)
  {
    assert [provider][..0] == [];
    assert ListedMovies(provider, listing) == [];
    assert Contribution(provider, listing, detail) == Some([]);
    assert Pool([provider], listing, detail) == Some([]) by {
      assert Pool([provider][..0], listing, detail) == Some([]);
      assert [provider][0] == provider;
      var none: seq<MovieDetail> := [];
      assert none + none == none;
    }
    PoolConcat(before, [provider], listing, detail);
    PoolConcat(before + [provider], after, listing, detail);
    PoolConcat(before, after, listing, detail);
    var a := Pool(before, listing, detail);
    if a.Some? {
      assert a.value + [] == a.value;
    }
  }

  /** Every pooled record is the stamped record of some provider's listed
      movie whose detail succeeded, and every such movie has its record in
      the pool. */
  lemma {:induction false} PooledRecords(providers: seq<ProviderConfig>,
                                         listing: (string, string) -> Reply<seq<Movie>>,
                                         detail: (string, string) -> Reply<MovieDetail>)
    requires Pool(providers, listing, detail).Some?
    ensures forall i, j :: 0 <= i < |providers| && Priced(providers[i], ListedMovies(providers[i], listing), detail, j) ==>
              StampOf(providers[i], ListedMovies(providers[i], listing)[j], detail) in Pool(providers, listing, detail).value
    ensures forall x :: x in Pool(providers, listing, detail).value ==>
              exists i, j :: 0 <= i < |providers| && Priced(providers[i], ListedMovies(providers[i], listing), detail, j) &&
                             x == StampOf(providers[i], ListedMovies(providers[i], listing)[j], detail)
  {
    if |providers| > 0 {
      var n := |providers| - 1;
      var init := providers[..n];
      var last := providers[n];
      PooledRecords(init, listing, detail);
      ProviderRecordsExact(last, ListedMovies(last, listing), detail);
      var all := Pool(providers, listing, detail).value;
      var a := Pool(init, listing, detail).value;
      var b := Contribution(last, listing, detail).value;
      assert all == a + b;
      forall i, j | 0 <= i < |providers| && Priced(providers[i], ListedMovies(providers[i], listing), detail, j)
        ensures StampOf(providers[i], ListedMovies(providers[i], listing)[j], detail) in all
      {
        if i < n {
          assert init[i] == providers[i];
        }
      }
      forall x | x in all
        ensures exists i, j :: 0 <= i < |providers| && Priced(providers[i], ListedMovies(providers[i], listing), detail, j) &&
                               x == StampOf(providers[i], ListedMovies(providers[i], listing)[j], detail)
      {
        if x in a {
          var i, j :| 0 <= i < |init| && Priced(init[i], ListedMovies(init[i], listing), detail, j) &&
                      x == StampOf(init[i], ListedMovies(init[i], listing)[j], detail);
          assert init[i] == providers[i];
        } else {
          assert x in b;
          var j :| Priced(last, ListedMovies(last, listing), detail, j) && x == StampOf(last, ListedMovies(last, listing)[j], detail);
          assert providers[n] == last;
        }
      }
    }
  }

  /** With no providers configured the result is the fixed failure whatever
      the client would answer: no call is consulted. */
  lemma NoProvidersIgnoresClient(listing1: (string, string) -> Reply<seq<Movie>>,
                                 detail1: (string, string) -> Reply<MovieDetail>,
                                 listing2: (string, string) -> Reply<seq<Movie>>,
                                 detail2: (string, string) -> Reply<MovieDetail>)
    ensures PriceComparison([], listing1, detail1) == PriceComparison([], listing2, detail2)
                                                   == Failed(NoProvidersMessage)
  {
  }

  /** A listing call that throws (the HTTP layer failing, or a non-success
      status tripping EnsureSuccessStatusCode) aborts the whole comparison:
      the provider is not skipped. */
  lemma ListingFailureAborts(providers: seq<ProviderConfig>, i: nat,
                             listing: (string, string) -> Reply<seq<Movie>>,
                             detail: (string, string) -> Reply<MovieDetail>)
    requires i < |providers| && listing(providers[i].baseUrl, providers[i].name).Threw?
    ensures PriceComparison(providers, listing, detail) == Failed(ErrorOccurredMessage)
  {
    assert providers[..i + 1][..i] == providers[..i];
    PoolAbort(providers, i + 1, listing, detail);
  }

  /** With the real client behind `listing`, a provider whose movie list
      comes back with a non-success status makes the whole comparison fail. */
  lemma ListingErrorStatusAborts(providers: seq<ProviderConfig>, i: nat, statusCode: int, body: string,
                                 parseWrapper: string -> Parsed<MoviesWrapper>,
                                 parseEnvelope: string -> Parsed<ApiResponse<seq<Movie>>>,
                                 listing: (string, string) -> Reply<seq<Movie>>,
                                 detail: (string, string) -> Reply<MovieDetail>)
    requires i < |providers| && !IsSuccessStatusCode(statusCode)
    requires listing(providers[i].baseUrl, providers[i].name)
             == GetMoviesFromProvider(providers[i].name, Received(statusCode, body), parseWrapper, parseEnvelope)
    ensures PriceComparison(providers, listing, detail) == Failed(ErrorOccurredMessage)
  {
    ListingFailureAborts(providers, i, listing, detail);
  }

  /** With the real client behind `detail`, the service keeps a detail
      exactly when the exchange succeeded with a non-blank body that
      deserialized to a record, and it takes that record's price. */
  lemma KeptDetailIsParsed(http: HttpResult, parseDetail: string -> Parsed<MovieDetail>)
    ensures DetailSucceeded(GetMovieDetails(http, parseDetail)) <==>
              http.Received? && IsSuccessStatusCode(http.statusCode) && !IsNullOrWhiteSpace(http.body)
              && parseDetail(http.body).Json?
    ensures DetailSucceeded(GetMovieDetails(http, parseDetail)) ==>
              GetMovieDetails(http, parseDetail).response.data.value.price == parseDetail(http.body).value.price
  {
  }

  /** A detail call that throws for any listed movie aborts the whole
      comparison. */
  lemma DetailFailureAborts(providers: seq<ProviderConfig>, i: nat, j: nat,
                            listing: (string, string) -> Reply<seq<Movie>>,
                            detail: (string, string) -> Reply<MovieDetail>)
    requires i < |providers| && j < |ListedMovies(providers[i], listing)|
    requires detail(ListedMovies(providers[i], listing)[j].id, providers[i].baseUrl).Threw?
    ensures PriceComparison(providers, listing, detail) == Failed(ErrorOccurredMessage)
  {
    assert providers[..i + 1][..i] == providers[..i];
    PoolAbort(providers, i + 1, listing, detail);
  }

  /** Two pooled records with the same key and the same provider (one
      provider listing a movie twice, or two providers configured under one
      name) make the whole call fail. */
  lemma DuplicateProviderInGroupFails(providers: seq<ProviderConfig>,
                                      listing: (string, string) -> Reply<seq<Movie>>,
                                      detail: (string, string) -> Reply<MovieDetail>, i: nat, j: nat)
    requires Pool(providers, listing, detail).Some?
    requires i < j < |Pool(providers, listing, detail).value|
    requires var all := Pool(providers, listing, detail).value;
             GroupKey(all[i]) == GroupKey(all[j]) && all[i].provider == all[j].provider
    ensures PriceComparison(providers, listing, detail) == Failed(ErrorOccurredMessage)
  {
    DuplicateProviderFails(Pool(providers, listing, detail).value, i, j);
  }

  /** Providers that all answer without a priced movie give a successful,
      empty comparison list. */
  lemma {:induction false} NothingPricedGivesEmptySuccess(providers: seq<ProviderConfig>,
                                                          listing: (string, string) -> Reply<seq<Movie>>,
                                                          detail: (string, string) -> Reply<MovieDetail>)
    requires |providers| > 0
    requires forall i :: 0 <= i < |providers| ==> Contribution(providers[i], listing, detail) == Some([])
    ensures PriceComparison(providers, listing, detail) == Succeeded([])
  {
    NothingPricedEmptyPool(providers, listing, detail);
    NoRecordsNoComparisons();
  }

  lemma {:induction false} NothingPricedEmptyPool(providers: seq<ProviderConfig>,
                                                  listing: (string, string) -> Reply<seq<Movie>>,
                                                  detail: (string, string) -> Reply<MovieDetail>)
    requires forall i :: 0 <= i < |providers| ==> Contribution(providers[i], listing, detail) == Some([])
    ensures Pool(providers, listing, detail) == Some([])
  {
    if |providers| > 0 {
      var init := providers[..|providers| - 1];
      assert forall i :: 0 <= i < |init| ==> init[i] == providers[i];
      NothingPricedEmptyPool(init, listing, detail);
      assert Contribution(providers[|providers| - 1], listing, detail) == Some([]);
      var none: seq<MovieDetail> := [];
      assert none + none == none;
    }
  }

  lemma AppendAssociative(x: seq<MovieDetail>, y: seq<MovieDetail>, z: seq<MovieDetail>)
    ensures (x + y) + z == x + (y + z)
  {
  }

  // The unit-test scenario: both providers list "m1" and "m2" (Inception,
  // 2010); only "m1" at Cinemaworld (12.5) and "m2" at Filmworld (10.0) have
  // a detail, every other detail call answers null.

  const CinemaworldUrl: string := "https://webjetapitest.azurewebsites.net/api/cinemaworld/"
  const FilmworldUrl: string := "https://webjetapitest.azurewebsites.net/api/filmworld/"

  function ExampleProviders(): seq<ProviderConfig>
  {
    [ProviderConfig("Cinemaworld", CinemaworldUrl), ProviderConfig("Filmworld", FilmworldUrl)]
  }

  function ExampleListing(baseUrl: string, providerName: string): Reply<seq<Movie>>
  {
    Returned(Succeeded([Movie("m1", "Inception", "", "2010", "poster.jpg", "Cinemaworld"),
                        Movie("m2", "Inception", "", "2010", "poster.jpg", "Filmworld")]))
  }

  function ExampleDetail(movieId: string, baseUrl: string): Reply<MovieDetail>
  {
    if movieId == "m1" && baseUrl == CinemaworldUrl then
      Returned(Succeeded(MovieDetail("m1", "Inception", "", "2010", "", "Cinemaworld", 12.5)))
    else if movieId == "m2" && baseUrl == FilmworldUrl then
      Returned(Succeeded(MovieDetail("m2", "Inception", "", "2010", "", "Filmworld", 10.0)))
    else NullReply
  }

  function ExampleMovies(): seq<Movie>
  {
    ExampleListing("", "").response.data.value
  }

  /** The pool of the unit-test scenario: m1 priced by Cinemaworld, then m2
      priced by Filmworld. */
  lemma ExamplePool()
    ensures Pool(ExampleProviders(), ExampleListing, ExampleDetail)
         == Some([Stamp(ExampleMovies()[0], 12.5, ExampleProviders()[0]),
                  Stamp(ExampleMovies()[1], 10.0, ExampleProviders()[1])])
  {
    var ps := ExampleProviders();
    var movies := ExampleMovies();
    var cw := ps[0];
    var fw := ps[1];
    var s1 := Stamp(movies[0], 12.5, cw);
    var s2 := Stamp(movies[1], 10.0, fw);
    var none: seq<MovieDetail> := [];
    assert movies[..1][..0] == [] && movies[..1][0] == movies[0];
    assert ProviderRecords(cw, movies, ExampleDetail) == Some([s1]) by {
      var reply := ExampleDetail(movies[0].id, cw.baseUrl);
      assert DetailSucceeded(reply) && reply.response.data.value.price == 12.5;
      assert none + [s1] == [s1];
      assert ProviderRecords(cw, movies[..1], ExampleDetail) == Some([s1]);
      assert ExampleDetail(movies[1].id, cw.baseUrl) == NullReply;
    }
    assert ProviderRecords(fw, movies, ExampleDetail) == Some([s2]) by {
      assert ExampleDetail(movies[0].id, fw.baseUrl) == NullReply;
      assert ProviderRecords(fw, movies[..1], ExampleDetail) == Some([]);
      var reply := ExampleDetail(movies[1].id, fw.baseUrl);
      assert DetailSucceeded(reply) && reply.response.data.value.price == 10.0;
      assert none + [s2] == [s2];
    }
    assert ListedMovies(cw, ExampleListing) == movies && ListedMovies(fw, ExampleListing) == movies;
    assert ps[..1][..0] == [] && ps[..1][0] == cw;
    assert none + [s1] == [s1];
    assert Pool(ps[..1], ExampleListing, ExampleDetail) == Some([s1]);
    assert [s1] + [s2] == [s1, s2];
  }

  /** The cheaper of two providers pricing one movie is named the cheapest. */
  lemma CheapestProviderExample()
    ensures var r := PriceComparison(ExampleProviders(), ExampleListing, ExampleDetail);
            && r.success && r.data.Some? && |r.data.value| == 1
            && r.data.value[0].cheapestProvider == "Filmworld"
            && r.data.value[0].cheapestPrice == Some(10.0)
  {
    ExamplePool();
    var s1 := Stamp(ExampleMovies()[0], 12.5, ExampleProviders()[0]);
    var s2 := Stamp(ExampleMovies()[1], 10.0, ExampleProviders()[1]);
    var all := [s1, s2];
    assert GroupKey(s1) == GroupKey(s2);
    SameKeyOneGroup(s1, s2);
    assert ProvidersDistinct(all);
    OneGroupOneComparison(all);
    assert CheapestIndex(all) == 1 by {
      assert all[1..] == [s2];
    }
  }
}
