# Movie price comparer — a Dafny model of the aggregation core

The Movie Price Comparer backend asks each configured movie provider
(Cinemaworld and Filmworld) for its movie list. It then asks for the
detail, and so the price, of every listed movie. It pools the priced
records and merges them into one comparison per movie. A comparison names
the cheapest provider and keeps a price map and an availability map keyed
by provider. An ASP.NET middleware turns unhandled exceptions into a JSON
failure envelope with a status code.

This project models:

- the service method `GetMoviePriceComparisonAsync` (`movie_service.dfy`).
  It is an imperative method with the provider loop and the per-provider
  fan-out, proved against a functional specification. The API client is a
  pair of function parameters.
- the LINQ grouping pipeline behind it (`grouping.dfy`): `GroupBy` on the
  title/year key, `OrderBy(Price).First()`, and the two `ToDictionary`
  calls.
- the API client's two operations (`movie_api_client.dfy`). The HTTP
  exchange and the JSON deserializers are inputs.
- the two .NET string tests the client uses (`strings.dfy`).
- the exception middleware's classification (`exception_middleware.dfy`).
- the data shapes (`models.dfy`) and the exception types with the part of
  the .NET class hierarchy that a C# type pattern consults
  (`exceptions.dfy`).

In several places the code does something other than what it appears to
intend. The model follows the code:

- **A provider whose listing fails is not skipped.** The listing call runs
  `EnsureSuccessStatusCode` (MovieApiClient.cs line 46) before anything
  else. A non-success status therefore throws `HttpRequestException`. A
  transport failure throws whatever the HTTP pipeline raises: an
  `HttpRequestException`, a `TaskCanceledException` when the client's
  30-second timeout expires (Program.cs line 92), or the resilience
  handler's own timeout exception (Program.cs lines 95-102). The model
  takes that exception's type as an input (`TransportFailed`). The service's
  catch-all (MovieService.cs lines 96-103) turns any of them into the
  failure "An error occurred" for the whole comparison. The client's
  "service returned {status}" branch (MovieApiClient.cs lines 103-114) is
  unreachable.
- **A detail call that throws also fails the whole comparison**, since
  `Task.WhenAll` rethrows (MovieService.cs line 66). A detail reply that
  merely reports failure, or is null, drops only that movie (line 51).
- **The grouping key is the string `Title + "_" + Year`, not a pair**
  (MovieService.cs line 71).
  Different (title, year) pairs can therefore collide
  (`Grouping.KeyCollision`).
- **A group holding two records of one provider makes `ToDictionary`
  throw** (MovieService.cs lines 84-85), which fails the whole comparison. This happens when a provider
  lists a movie twice, or when two providers are configured under one
  name.
- **The service does not read the `Success` flag of a listing reply.** It
  only checks that the reply and its data are non-null (MovieService.cs
  line 46).

## Model

| member | source | states |
|---|---|---|
| Strings.IsNullOrWhiteSpace | MoviePriceComparer/Services/MovieApiClient.cs:53 | a body is blank exactly when every character is white space (the empty body included) |
| Strings.IsWhiteSpace | MoviePriceComparer/Services/MovieApiClient.cs:53 | `char.IsWhiteSpace`: the Unicode space, line and paragraph separators, TAB to CR, NEXT LINE and NO-BREAK SPACE (a definition; see `VisibleCharNotBlank`) |
| Strings.VisibleCharNotBlank | MoviePriceComparer/Services/MovieApiClient.cs:53 | a body holding a visible ASCII character is not blank |
| Strings.Contains | MoviePriceComparer/Services/MovieApiClient.cs:72 | the marker is contained exactly when it occurs at some position of the body |
| MovieApiClient.IsSuccessStatusCode | MoviePriceComparer/Services/MovieApiClient.cs:51 | a status is a success exactly when it lies in 200-299, as `HttpResponseMessage.IsSuccessStatusCode` (a definition; `GetMoviesFromProvider` and `GetMovieDetails` state its consequences) |
| MovieApiClient.SelectMovies | MoviePriceComparer/Services/MovieApiClient.cs:69-85 | a body mentioning `"Movies"` is read only as the wrapper, any other body only as the envelope; an envelope's data is taken only when its Success is true; a parser exception is kept apart from a null result |
| MovieApiClient.GetMoviesFromProvider | MoviePriceComparer/Services/MovieApiClient.cs:39-115 | never a null reply; transport failure and non-success status throw; a blank body gives "{provider} returned empty response"; success exactly when the selected list is non-null, carrying it unchanged; every other failure is "{provider} returned unexpected data format" |
| MovieApiClient.GetMovieDetails | MoviePriceComparer/Services/MovieApiClient.cs:119-183 | throws exactly on transport or parser failure; a non-success status gives "Movie not found" exactly for 404 and "Service error" otherwise; blank body and null parse have their fixed messages; success exactly when a record was parsed, carrying it |
| MovieApiClient.WrapperShapeIgnoresEnvelope | MoviePriceComparer/Services/MovieApiClient.cs:72-76 | when the body mentions `"Movies"`, the envelope deserializer has no influence on the reply |
| MovieApiClient.EnvelopeShapeIgnoresWrapper | MoviePriceComparer/Services/MovieApiClient.cs:77-85 | when it does not, the wrapper deserializer has no influence on the reply |
| MovieApiClient.UnsuccessfulEnvelopeRejected | MoviePriceComparer/Services/MovieApiClient.cs:81-101 | an envelope with Success false is reported as an unexpected data format whatever data it carries |
| Grouping.DistinctKeys | MoviePriceComparer/Services/MovieService.cs:70-71 | the group keys, each once, and exactly the keys some pooled record has |
| Grouping.GroupKey | MoviePriceComparer/Services/MovieService.cs:71 | the key `$"{Title}_{Year}"`: title, an underscore, year (a definition; `GroupKeyDeterminesTitleYear` and `KeyCollision` state what it distinguishes) |
| Grouping.GroupKeyDeterminesTitleYear | MoviePriceComparer/Services/MovieService.cs:71 | when titles hold no underscore, two records share a key exactly when they share title and year |
| Grouping.Group | MoviePriceComparer/Services/MovieService.cs:71 | a group holds exactly the records with its key, and is non-empty exactly when some record has the key |
| Grouping.GroupBy | MoviePriceComparer/Services/MovieService.cs:70-71 | one non-empty group per distinct key, the i-th holding the records of the i-th key |
| Grouping.DistinctKeysPrefix | MoviePriceComparer/Services/MovieService.cs:70-71 | the keys of a prefix of the records are a prefix of the keys of all records |
| Grouping.FirstOccurrenceOrder | MoviePriceComparer/Services/MovieService.cs:70-71 | groups are ordered by the first occurrence of their key: a prefix holding a later group's key holds every earlier group's key |
| Grouping.GroupKeepsOrder | MoviePriceComparer/Services/MovieService.cs:71 | within a group, records keep their pooled order |
| Grouping.CheapestIndex | MoviePriceComparer/Services/MovieService.cs:74 | the chosen record has a price no greater than any other in its group, and every earlier record is strictly dearer |
| Grouping.OrderByPrice | MoviePriceComparer/Services/MovieService.cs:74 | a sorted permutation of the group: the same records, in ascending price order |
| Grouping.OrderByFirstIsCheapest | MoviePriceComparer/Services/MovieService.cs:74 | the first record after sorting by price is the one `CheapestIndex` picks |
| Grouping.ToDictionary | MoviePriceComparer/Services/MovieService.cs:84-85 | defined exactly when the group's providers are pairwise distinct; its keys are the group's providers and each maps to the value of its own record |
| Grouping.BuildComparison | MoviePriceComparer/Services/MovieService.cs:72-87 | defined exactly when providers are distinct; identity, cheapest provider and cheapest price come from the cheapest record; both maps are keyed by the group's providers; each price is that provider's record's price; availability is all true |
| Grouping.CollectAll | MoviePriceComparer/Services/MovieService.cs:88 | the list exists exactly when every element does, and holds them all in order |
| Grouping.BuildAll | MoviePriceComparer/Services/MovieService.cs:70-88 | the comparisons exist exactly when every group has distinct providers; the i-th comparison is built from the i-th group |
| Grouping.DuplicateProviderFails | MoviePriceComparer/Services/MovieService.cs:84-85 | two pooled records with one key and one provider leave no comparison list |
| Grouping.ComparisonOfGroup | MoviePriceComparer/Services/MovieService.cs:70-88 | one comparison per distinct key; the i-th is the comparison of the i-th key's group |
| Grouping.ComparisonsPerKey | MoviePriceComparer/Services/MovieService.cs:76-80 | the comparison's own title and year spell its group key |
| Grouping.ComparisonCheapest | MoviePriceComparer/Services/MovieService.cs:74-83 | the comparison's ID, title, year, poster, cheapest provider and cheapest price all come from one pooled record with the key; every record with the key costs at least as much, and every earlier one strictly more (the earliest cheapest record wins a tie) |
| Grouping.CheapestInPool | MoviePriceComparer/Services/MovieService.cs:71-74 | the record a group's cheapest index picks is, in the pool, the earliest record with that key at the minimum price |
| Grouping.GroupPrefix | MoviePriceComparer/Services/MovieService.cs:71 | the group of a prefix of the records is a prefix of the group of all records |
| Grouping.GroupPosition | MoviePriceComparer/Services/MovieService.cs:71 | a pooled record with the key sits in its group at the position equal to the number of earlier records with that key |
| Grouping.GroupSource | MoviePriceComparer/Services/MovieService.cs:71 | every group member is a pooled record with the key, preceded in the pool by exactly as many records with that key as precede it in the group |
| Grouping.EarlierInGroup | MoviePriceComparer/Services/MovieService.cs:71 | a record earlier in the pool than another with the same key is also earlier in their group |
| Grouping.ComparisonPrices | MoviePriceComparer/Services/MovieService.cs:84-85 | every record with the key has its provider in the price map with its price, every provider in the map has such a record, and availability has the same keys, all true |
| Grouping.Comparisons | MoviePriceComparer/Services/MovieService.cs:70-88 | the comparison list exists exactly when every key's group has pairwise distinct providers, and then holds one comparison per distinct key |
| Grouping.NoRecordsNoComparisons | MoviePriceComparer/Services/MovieService.cs:70-88 | no pooled records give an empty comparison list |
| Grouping.SameKeyOneGroup | MoviePriceComparer/Services/MovieService.cs:71 | two records with one key form one group |
| Grouping.OneGroupOneComparison | MoviePriceComparer/Services/MovieService.cs:72-88 | a single group with distinct providers yields a single comparison |
| Grouping.OneKeyTwoProviders | MoviePriceComparer/Services/MovieService.cs:71-85 | two providers pricing one key give one comparison that prices both |
| Grouping.KeyCollision | MoviePriceComparer/Services/MovieService.cs:71 | ("A_B", "C") and ("A", "B_C") are different movies merged into one comparison |
| MovieService.DetailSucceeded | MoviePriceComparer/Services/MovieService.cs:51 | a detail is kept when the reply is non-null, its Success is true and its data is non-null (a definition; `UnpricedDetailSkipped` and `KeptDetailIsParsed` state its consequences) |
| MovieService.Stamp | MoviePriceComparer/Services/MovieService.cs:53-61 | the pooled record: ID, title, year and poster from the listing, price from the detail, provider from the configuration, and the type left at its empty default (a definition; `StampGroupsByListing` states its consequence for grouping) |
| MovieService.StampGroupsByListing | MoviePriceComparer/Services/MovieService.cs:53-61 | a pooled record groups under the listing's title and year, carries the configured provider name, the detail's price and an empty type |
| MovieService.ListedMovies | MoviePriceComparer/Services/MovieService.cs:44-46 | the movies handed to the fan-out: the listing data when the reply and its data are non-null, none otherwise; the success flag is not read (a definition; see `ListingSuccessFlagIgnored`, `SilentProviderSkipped`) |
| MovieService.ListingSuccessFlagIgnored | MoviePriceComparer/Services/MovieService.cs:44-46 | two listing replies with the same data give the same contribution, whatever their success flags and messages |
| MovieService.UnpricedDetailSkipped | MoviePriceComparer/Services/MovieService.cs:50-63 | a detail reply that did not throw but is null, unsuccessful or without data adds nothing for its movie |
| MovieService.Contribution | MoviePriceComparer/Services/MovieService.cs:44-67 | a provider's contribution is lost exactly when its listing call or a detail call for one of its listed movies threw, and otherwise holds no more records than it has listed movies |
| MovieService.Pool | MoviePriceComparer/Services/MovieService.cs:40-68 | the providers' contributions concatenated in configuration order, lost when any is lost (a definition; its properties are `PoolLost`, `PoolConcat`, `PooledRecords`) |
| MovieService.PoolLost | MoviePriceComparer/Services/MovieService.cs:40-68 | the pool is lost exactly when some provider's contribution is |
| MovieService.ProviderRecords | MoviePriceComparer/Services/MovieService.cs:48-67 | a provider contributes no more records than it has listed movies, and its contribution is lost exactly when some detail call for its movies threw |
| MovieService.FetchDetails | MoviePriceComparer/Services/MovieService.cs:48-67 | the fan-out loop returns exactly the provider's specified records |
| MovieService.PriceComparison | MoviePriceComparer/Services/MovieService.cs:26-105 | no providers give "No movie providers configured"; success exactly when no client call threw and the comparisons could be built, carrying those comparisons; every failure has no data, and with providers configured every failure is the catch-all "An error occurred" |
| MovieService.GetMoviePriceComparison | MoviePriceComparer/Services/MovieService.cs:26-105 | the provider loop with its early exits returns exactly `PriceComparison` |
| MovieService.PoolAbort | MoviePriceComparer/Services/MovieService.cs:96-103 | once a client call for an early provider has thrown, the pool is lost whatever the later providers answer |
| MovieService.ProviderRecordsExact | MoviePriceComparer/Services/MovieService.cs:48-67 | a provider's records are exactly the stamped records of its listed movies whose detail succeeded |
| MovieService.ProviderRecordsConcat | MoviePriceComparer/Services/MovieService.cs:66-67 | records of earlier movies precede those of later ones |
| MovieService.PoolConcat | MoviePriceComparer/Services/MovieService.cs:42-68 | records of earlier providers precede those of later ones, and the pool is lost if either part is |
| MovieService.SilentProviderSkipped | MoviePriceComparer/Services/MovieService.cs:46 | a provider whose listing reply or data is null is processed as if it were absent |
| MovieService.PooledRecords | MoviePriceComparer/Services/MovieService.cs:40-68 | every pooled record is the stamped record of a listed movie with a kept detail, and every such movie has its record in the pool |
| MovieService.NoProvidersIgnoresClient | MoviePriceComparer/Services/MovieService.cs:30-38 | with no providers, the result is the fixed failure whatever the client would answer |
| MovieService.ListingFailureAborts | MoviePriceComparer/Services/MovieService.cs:44 | a listing call that throws fails the whole comparison with "An error occurred" |
| MovieService.ListingErrorStatusAborts | MoviePriceComparer/Services/MovieApiClient.cs:45-46 | with the real client, a non-success listing status fails the whole comparison |
| MovieService.KeptDetailIsParsed | MoviePriceComparer/Services/MovieService.cs:50-51 | with the real client, a detail is kept exactly when a non-blank success body deserialized to a record, and its price is that record's |
| MovieService.DetailFailureAborts | MoviePriceComparer/Services/MovieService.cs:50 | a detail call that throws for any listed movie fails the whole comparison |
| MovieService.DuplicateProviderInGroupFails | MoviePriceComparer/Services/MovieService.cs:84-85 | two pooled records with one key and one provider fail the whole comparison |
| MovieService.NothingPricedEmptyPool | MoviePriceComparer/Services/MovieService.cs:40-68 | providers that contribute nothing leave the pool empty |
| MovieService.NothingPricedGivesEmptySuccess | MoviePriceComparer/Services/MovieService.cs:88-94 | providers that contribute nothing give a successful, empty comparison list |
| MovieService.ExamplePool | MoviePriceComparerTests/MovieServiceTests.cs:36-71 | in the unit-test scenario, the pool is m1 priced by Cinemaworld followed by m2 priced by Filmworld |
| MovieService.CheapestProviderExample | MoviePriceComparerTests/MovieServiceTests.cs:74-78 | in the unit-test scenario, the call succeeds with one comparison whose cheapest provider is Filmworld at 10.0 |
| Exceptions.IsA | MoviePriceComparer/Middlewares/ExceptionMiddleware.cs:61-66 | a type pattern matches its own type and the subclasses the middleware's types have among those modelled: TaskCanceledException is an OperationCanceledException, ArgumentNullException and ArgumentOutOfRangeException are ArgumentExceptions (a definition; see `IsAPartialOrder`) |
| Exceptions.IsAPartialOrder | MoviePriceComparer/Middlewares/ExceptionMiddleware.cs:61-66 | matching a type pattern is reflexive, antisymmetric and transitive, as class derivation is |
| ExceptionMiddleware.FirstMatchFrom | MoviePriceComparer/Middlewares/ExceptionMiddleware.cs:59-67 | the first pattern at or after a position that the exception matches, no earlier one matching |
| ExceptionMiddleware.Classify | MoviePriceComparer/Middlewares/ExceptionMiddleware.cs:59-67 | a type-pattern arm is taken only when the exception matches its pattern; the discard arm exactly when no pattern matches |
| ExceptionMiddleware.GetErrorMessage | MoviePriceComparer/Middlewares/ExceptionMiddleware.cs:57-68 | the message of the first arm whose pattern the exception matches |
| ExceptionMiddleware.GetStatusCode | MoviePriceComparer/Middlewares/ExceptionMiddleware.cs:70-81 | the status code of the first matching arm, always one of 400, 401, 404, 500, 502, 504 |
| ExceptionMiddleware.HandleException | MoviePriceComparer/Middlewares/ExceptionMiddleware.cs:36-55 | a JSON failure envelope without data, carrying the message and the status code of the arm the exception is classified into |
| ExceptionMiddleware.ArmMessagesDistinct | MoviePriceComparer/Middlewares/ExceptionMiddleware.cs:61-66 | distinct arms carry distinct messages |
| ExceptionMiddleware.MessageAndStatusAgree | MoviePriceComparer/Middlewares/ExceptionMiddleware.cs:57-81 | two exceptions get the same message exactly when they get the same status code |
| ExceptionMiddleware.ArgumentExceptionsAreInvalidRequests | MoviePriceComparer/Middlewares/ExceptionMiddleware.cs:63 | ArgumentException and its subclasses give 400 "Invalid request parameters" |
| ExceptionMiddleware.BaseCancellationIsUnexpected | MoviePriceComparer/Middlewares/ExceptionMiddleware.cs:62 | a bare OperationCanceledException falls to the discard arm (500), while TaskCanceledException gives 504 |

## Left out

- HTTP transport, JSON deserialization, and the Polly retry and timeout policies. What `GetAsync` returns and what each deserializer gives are inputs (`HttpResult`, `Parsed`). A retry is invisible at this level.
- The concurrency of the detail fan-out. `Task.WhenAll` returns results in task order, and no task touches shared state, so the fan-out is an in-order loop. When several detail calls throw, which exception surfaces is not modelled; any of them fails the call the same way.
- Logging, the Prometheus counters and timers, the configuration reader, `Program.cs` and dependency injection, the controller, and the React front end.
- Writing the response in the middleware. `HandleException` returns the status code, content type and envelope that would be serialized; the camel-case JSON text is not modelled.
- MovieDetail's descriptive fields (rating, plot, cast and so on). Only the fields the comparison reads are kept.
- Null strings, null list elements and null records inside a listing. The model's lists and strings are never null; a null reply and null data are modelled.
- Exception types beyond those named in `Exceptions.ExceptionType`. `OtherException` stands for any type that derives from none of them.
- MovieApiClient.GetMoviesFromProvider: the status code carried by the `HttpRequestException` is not modelled, only the exception type.
- Grouping.OrderByPrice: the contract states a sorted permutation of the group, not that records of equal price keep their order. The service reads only the first record of the sorted group, and which record that is (the earliest cheapest) is proved separately by `OrderByFirstIsCheapest`.
- Grouping.ToDictionary: the C# `Dictionary` keeps its keys in insertion order, which is the group's pooled order; the JSON serializer writes the price and availability maps in that order, and the front end lists providers in it (`Object.entries` at Movie-Price-Comparer-App/src/components/MovieCard.jsx line 11). A Dafny `map` has no order, so the model keeps the contents of both maps but not the order of their keys. The group order itself is stated by `GroupKeepsOrder`.
- Grouping.ToDictionary: `None` stands for the `ArgumentException` the call throws on a duplicate key; the exception's type and message are not kept, since the service's catch-all discards them.
- Prices: `decimal` is modelled as `real`. Only comparison and copying are used, so rounding and range limits do not arise.
