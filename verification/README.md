# Movie catalogue: query layer, review validator and page handlers

A Dafny model of the core of a small movie-catalogue web application. The
application loads a fixed list of movies once, indexes them by id, and serves
three pages: the full listing, the details of one movie, and a search over
name, id and genre. It also contains a validator for review submissions.

The model has six modules:

- `Wrappers`: `Option`, which stands in for Java's `null` and `Optional`.
- `JavaText`: the `String` and `Long` operations the code relies on.
  - `trim()` removes leading and trailing characters at or below U+0020.
  - `toLowerCase()` is modelled as ASCII lower-casing, which keeps lengths.
  - `contains` is a scan, proved equal to "occurs at some position".
  - `Long.toString` is proved to read back to the same number.
- `WordSplit`: Java's `split("\\s+")` as `Pattern.split` behaves.
  - It covers the no-match case and the removal of trailing empty strings.
  - The split count is proved equal to the number of maximal non-`\s` runs.
- `MovieService`: the `Movie` record and the catalogue (`Catalog`).
  - The constructor fills the id map in load order (`Load`).
  - Lookup is `GetMovieById`.
  - Search is `SearchMovies`, with the loop body `Matches` proved equal to
    the reference conjunction `Satisfies`.
- `ReviewValidator`: the forwarding chain and the rules it checks in order.
- `MoviesController`: each handler is a function to a `Page`.
  - A `Page` has one constructor per template ("error", "movies",
    "movie-details"). Its fields are the model attributes that template
    receives.
  - The icon utility and the review service are function parameters.

Three choices follow the code as written:

- Search echoes the raw, untrimmed name and genre.
- The review validator keeps its forwarding chain.
- Ids are not assumed unique. The index keeps the last movie with a given
  id, and search returns every movie that carries it.

Search is a function of the catalogue and the criteria. Repeating a call
therefore gives the same result by construction, and no lemma states it.

## Model

| member | source | states |
|---|---|---|
| `MovieService.Load` | src/main/java/com/amazonaws/samples/qdevmovies/movies/MovieService.java:24-30 | the constructor keeps the movie list and builds an index equal to putting every movie, in load order, into an empty map |
| `MovieService.IndexKeepsLastPut` | src/main/java/com/amazonaws/samples/qdevmovies/movies/MovieService.java:26-29 | the index has exactly the ids of the list as keys; for duplicate ids the last movie in load order wins |
| `MovieService.IndexKeysMatchIds` | src/main/java/com/amazonaws/samples/qdevmovies/movies/MovieService.java:26-29 | every index entry carries its own key as id |
| `MovieService.GetMovieById` | src/main/java/com/amazonaws/samples/qdevmovies/movies/MovieService.java:66-71 | a missing or non-positive id gives none whatever the catalogue holds; for a positive id there is a result iff some movie has that id; the result carries the id and is the last such movie |
| `MovieService.MatchesIffSatisfies` | src/main/java/com/amazonaws/samples/qdevmovies/movies/MovieService.java:86-107 | the loop body's flag is true iff the id is equal when given, and the trimmed, lower-cased name and genre terms occur in the lower-cased fields when given and not blank |
| `MovieService.Scan` | src/main/java/com/amazonaws/samples/qdevmovies/movies/MovieService.java:83-110 | the loop keeps only movies of the list whose flag is set, and never more movies than the list has |
| `MovieService.SearchMovies` | src/main/java/com/amazonaws/samples/qdevmovies/movies/MovieService.java:80-114 | every result is a catalogue movie satisfying every provided criterion, and the result is no longer than the catalogue |
| `MovieService.SearchIsSubsequence` | src/main/java/com/amazonaws/samples/qdevmovies/movies/MovieService.java:83-110 | the search result is a subsequence of the catalogue, so load order is kept |
| `MovieService.SearchMembership` | src/main/java/com/amazonaws/samples/qdevmovies/movies/MovieService.java:85-110 | a movie is in the result iff it is in the catalogue and meets the conjunction of the provided criteria |
| `MovieService.SearchCounts` | src/main/java/com/amazonaws/samples/qdevmovies/movies/MovieService.java:85-110 | a movie occurs in the result as often as in the catalogue when it meets every provided criterion, and never otherwise |
| `MovieService.SearchWithoutCriteria` | src/main/java/com/amazonaws/samples/qdevmovies/movies/MovieService.java:89-105 | with no id and missing, empty or whitespace-only name and genre, search returns the whole catalogue in order |
| `MovieService.ScanUnknownId` | src/main/java/com/amazonaws/samples/qdevmovies/movies/MovieService.java:89-91 | an id criterion that no movie carries leaves nothing; the id need not be positive |
| `MovieService.SearchUnknownId` | src/main/java/com/amazonaws/samples/qdevmovies/movies/MovieService.java:89-91 | a search for an id no movie carries is empty, whatever the other criteria |
| `MovieService.SearchDependsOnNormalized` | src/main/java/com/amazonaws/samples/qdevmovies/movies/MovieService.java:94-105 | two searches with the same id and the same reduced name and genre terms return the same sequence |
| `MovieService.NormalizedIgnoresCase` | src/main/java/com/amazonaws/samples/qdevmovies/movies/MovieService.java:95 | terms that differ only in letter case reduce alike |
| `MovieService.NormalizedIgnoresPadding` | src/main/java/com/amazonaws/samples/qdevmovies/movies/MovieService.java:94-95 | padding a term with whitespace or control characters does not change what it reduces to |
| `MovieService.NormalizedIgnoresCaseAndPadding` | src/main/java/com/amazonaws/samples/qdevmovies/movies/MovieService.java:94-105 | a present or missing term, changed in letter case and padded with characters `trim()` removes, keeps its normal form |
| `MovieService.SearchIgnoresCaseAndPadding` | src/main/java/com/amazonaws/samples/qdevmovies/movies/MovieService.java:94-105 | changing the case of the name or genre term, and padding each with its own characters `trim()` removes, leaves the search result unchanged; either term may be missing |
| `MovieService.NameSearchIgnoresCase` | src/test/java/com/amazonaws/samples/qdevmovies/movies/MovieServiceTest.java:43-51 | a name-only search gives the same result for terms that differ only in letter case |
| `JavaText.Trim` | src/main/java/com/amazonaws/samples/qdevmovies/movies/MovieService.java:94 | the trimmed string is empty iff every character is at most U+0020, and otherwise neither starts nor ends with such a character |
| `JavaText.TrimLocated` | src/main/java/com/amazonaws/samples/qdevmovies/movies/MovieService.java:94 | the trimmed string is the infix of the input after its leading trimmable characters, followed only by trimmable ones |
| `JavaText.TrimUnique` | src/main/java/com/amazonaws/samples/qdevmovies/movies/MovieService.java:94 | any infix with untrimmable ends, surrounded only by trimmable characters, is the trimmed string |
| `JavaText.TrimIgnoresPadding` | src/main/java/com/amazonaws/samples/qdevmovies/movies/MovieService.java:94 | padding with characters at most U+0020 on either side does not change the trimmed string |
| `JavaText.TrimLowerCommute` | src/main/java/com/amazonaws/samples/qdevmovies/movies/MovieService.java:95 | lower-casing then trimming, as the search does, equals trimming then lower-casing |
| `JavaText.Lower` | src/main/java/com/amazonaws/samples/qdevmovies/movies/MovieService.java:95 | lower-casing keeps the length and maps each character on its own |
| `JavaText.ContainsIffOccurs` | src/main/java/com/amazonaws/samples/qdevmovies/movies/MovieService.java:95 | the left-to-right `contains` scan succeeds iff the needle occurs at some position of the haystack |
| `JavaText.DecimalString` | src/main/java/com/amazonaws/samples/qdevmovies/movies/MoviesController.java:84 | the decimal rendering of an id is non-empty and starts with a minus sign iff the id is negative |
| `JavaText.DecimalRoundTrip` | src/main/java/com/amazonaws/samples/qdevmovies/movies/MoviesController.java:84 | parsing the decimal rendering of an id gives back the id |
| `WordSplit.PiecesAreWords` | src/main/java/com/amazonaws/samples/qdevmovies/movies/ReviewValidator.java:44 | on a string that neither starts nor ends with `\s`, splitting at runs of `\s` yields one piece per word and a non-empty last piece |
| `WordSplit.SplitCountsWords` | src/main/java/com/amazonaws/samples/qdevmovies/movies/ReviewValidator.java:43-44 | `checkComment`'s word count of a trimmed comment equals the number of maximal runs of non-`\s` characters |
| `ReviewValidator.WordCount` | src/main/java/com/amazonaws/samples/qdevmovies/movies/ReviewValidator.java:43-44 | the count computed from `split("\\s+")` on a trimmed comment is its number of words |
| `ReviewValidator.CheckComment` | src/main/java/com/amazonaws/samples/qdevmovies/movies/ReviewValidator.java:37-51 | a null or blank comment gives "Review comment is required"; fewer than five words gives "Review must be at least 5 words"; no message iff the trimmed comment has at least five words |
| `ReviewValidator.CheckRating` | src/main/java/com/amazonaws/samples/qdevmovies/movies/ReviewValidator.java:30-35 | a rating outside 1 to 5 gives the rating message; ratings 1 and 5 pass on to the comment rules |
| `ReviewValidator.ConfirmUserNameValid` | src/main/java/com/amazonaws/samples/qdevmovies/movies/ReviewValidator.java:23-28 | a null or blank user name gives "User name is required" whatever the rating and comment; otherwise the rating rules decide |
| `ReviewValidator.ValidateReview` | src/main/java/com/amazonaws/samples/qdevmovies/movies/ReviewValidator.java:10-51 | it equals `confirmUserNameValid`; there is no message iff the name, the rating and the comment's word count are all acceptable; any message is one of the four fixed ones and belongs to the first failing rule |
| `ReviewValidator.CommentPaddingIrrelevant` | src/main/java/com/amazonaws/samples/qdevmovies/movies/ReviewValidator.java:43-44 | surrounding the comment with whitespace or control characters does not change the outcome |
| `MoviesController.GetMovies` | src/main/java/com/amazonaws/samples/qdevmovies/movies/MoviesController.java:25-30 | the listing renders view "movies" with no search attributes, and lists exactly what a search without criteria returns |
| `MoviesController.GetMovieDetails` | src/main/java/com/amazonaws/samples/qdevmovies/movies/MoviesController.java:32-50 | the details view appears iff the id is positive and some movie has it, with that movie (the last with the id), its icon and its reviews; otherwise the error view "Movie Not Found" with a message naming the id |
| `MoviesController.NotFoundMessageNamesId` | src/main/java/com/amazonaws/samples/qdevmovies/movies/MoviesController.java:40 | the not-found message contains the decimal id, and the text between its fixed prefix and suffix reads back as the id |
| `MoviesController.SearchPage` | src/main/java/com/amazonaws/samples/qdevmovies/movies/MoviesController.java:60-103 | the error view appears iff the id is given and non-positive, with title "Invalid Search Parameters"; otherwise view "movies" with the service result, its count, `searchPerformed` true, the raw name and genre (or ""), the id's decimal string (or "") and the summary |
| `MoviesController.RejectedSearchIgnoresCatalogue` | src/main/java/com/amazonaws/samples/qdevmovies/movies/MoviesController.java:71-76 | a rejected search renders the same page whatever the catalogue holds, so the service is not consulted, and its message contains "positive number" |
| `MoviesController.SearchPageListsMatches` | src/main/java/com/amazonaws/samples/qdevmovies/movies/MoviesController.java:79-87 | a completed search lists a movie iff it is in the catalogue and meets every criterion, and `resultCount` is the length of that list |
| `MoviesController.SearchSummary` | src/main/java/com/amazonaws/samples/qdevmovies/movies/MoviesController.java:90-100 | the summary starts with "Search results" and is exactly that iff no criterion is given |
| `MoviesController.SummaryBuiltInOrder` | src/main/java/com/amazonaws/samples/qdevmovies/movies/MoviesController.java:90-100 | the summary is "Search results" followed by the name clause, then the id clause, then the genre clause, each present only for its given criterion |
| `MoviesController.SummaryMentionsCriteria` | src/main/java/com/amazonaws/samples/qdevmovies/movies/MoviesController.java:90-100 | a non-blank name, a given id and a non-blank genre are quoted in the summary: the trimmed name, the decimal id, the trimmed genre |
| `MoviesController.SummaryIgnoresPadding` | src/main/java/com/amazonaws/samples/qdevmovies/movies/MoviesController.java:91-98 | padding the name and genre terms, each with its own characters `trim()` removes, leaves the summary unchanged; either term may be missing |
| `MoviesController.SummaryIgnoresBlankTerms` | src/main/java/com/amazonaws/samples/qdevmovies/movies/MoviesController.java:91-98 | a blank name or genre term adds no clause: the summary equals the one without that term |

## Left out

- Loading the catalogue from the bundled JSON resource (`loadMoviesFromJson`) is left out, because it is classpath I/O and JSON parsing. `Load` takes the loaded list as its argument. A load that fails part-way keeps the movies read before the failure, possibly none, and returns them. `Load` accepts any list, so that case is covered.
- Logging is left out: it has no effect on results.
- Spring wiring is left out: dependency injection, request mappings and the `Model` object. A `Page` record replaces the `Model` and the returned template name.
- The `catch (Exception)` branch of the search handler is left out. The modelled search cannot throw, so that branch is unreachable in the model.
- `MovieIconUtils.getMovieIcon` and `ReviewService.getReviewsForMovie` are not part of this model. They enter `GetMovieDetails` as uninterpreted function parameters.
- `Review` and `ReviewRequest` keep only the getters that are read: user name, rating and comment.
- The IMDb rating field of `Movie` is dropped: it is floating point and no modelled logic reads it.
- The environment-read credential constants and the unused `authenticateUser` in ReviewValidator.java are left out: they have no behaviour.
- `JavaText.Lower`: lower-cases ASCII letters only, not full locale-dependent Unicode case mapping.
- Ids are unbounded integers rather than 64-bit `Long`s. No arithmetic is done on ids, so only the range differs.
- The test-only stand-in service in the controller tests is not modelled: its lookup differs from the real one.
