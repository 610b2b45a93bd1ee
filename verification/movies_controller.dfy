/** The request handlers of the movie pages: listing, details and search.
    Each handler is a function from its request parameters and the service
    state to the view it renders and the attributes it puts in the model. */
module MoviesController {
  import opened Wrappers
  import opened JavaText
  import opened MovieService

  /** A review as returned by the review service, reduced to its getters. */
  datatype Review = Review(userName: string, rating: int, comment: string)

  /** The attributes a completed search adds next to the movie list. */
  datatype SearchEcho = SearchEcho(
    searchName: string,
    searchId: string,
    searchGenre: string,
    searchPerformed: bool,
    resultCount: int,
    searchSummary: string)

  /** A handler's outcome: the view template it names together with the
      model attributes it sets, one constructor per template. */
  datatype Page =
    | ErrorView(title: string, message: string)
    | MoviesView(movies: seq<Movie>, search: Option<SearchEcho>)
    | DetailsView(movie: Movie, movieIcon: string, allReviews: seq<Review>)
  {
    /** The template name the handler returns. */
    function View(): string {
      match this
      case ErrorView(_, _) => "error"
      case MoviesView(_, _) => "movies"
      case DetailsView(_, _, _) => "movie-details"
    }
  }

  /** `getMovies`: the listing view with the whole catalogue, which is what
      a search without criteria finds, and no search attributes. */
  function GetMovies(c: Catalog): (p: Page)
    ensures p.View() == "movies"
    ensures p.MoviesView? && p.search.None?
    ensures p.movies == SearchMovies(c, Criteria(None, None, None))
  {
    SearchWithoutCriteria(c, Criteria(None, None, None));
    MoviesView(c.movies, None)
  }

  /** What Java string concatenation appends for a `Long`: its decimal
      digits, or "null". */
  function IdText(id: Option<int>): string {
    if id.None? then "null" else DecimalString(id.value)
  }

  const NotFoundPrefix: string := "Movie with ID "
  const NotFoundSuffix: string := " was not found."

  function NotFoundMessage(id: Option<int>): string {
    NotFoundPrefix + IdText(id) + NotFoundSuffix
  }

  /** `getMovieDetails`: the details view for a movie the service finds,
      otherwise an error view naming the requested id. The icon utility and
      the review service are parameters. */
  function GetMovieDetails(c: Catalog, movieId: Option<int>,
                           icon: string -> string, reviewsFor: int -> seq<Review>): (p: Page)
    requires Valid(c)
    ensures p.View() == "movie-details" <==> movieId.Some? && movieId.value > 0 && HasId(c.movies, movieId.value)
    ensures p.View() != "movie-details" ==> p == ErrorView("Movie Not Found", NotFoundMessage(movieId))
    ensures p.DetailsView? ==>
      && p.movie.id == movieId.value
      && (forall j :: LastWithId(c.movies, movieId.value, j) ==> p.movie == c.movies[j])
      && p.movieIcon == icon(p.movie.movieName)
      && p.allReviews == reviewsFor(movieId.value)
  {
    var found := GetMovieById(c, movieId);
    if found.None? then ErrorView("Movie Not Found", NotFoundMessage(movieId))
    else
      var movie := found.value;
      DetailsView(movie, icon(movie.movieName), reviewsFor(movie.id))
  }

  /** The not-found message names the requested id: cutting the fixed text
      off both ends leaves a decimal string that reads back as the id. */
  lemma NotFoundMessageNamesId(id: int)
    ensures var msg := NotFoundMessage(Some(id));
      && |NotFoundPrefix| + |NotFoundSuffix| < |msg|
      && ParseDecimal(msg[|NotFoundPrefix|..|msg| - |NotFoundSuffix|]) == id
      && OccursIn(DecimalString(id), msg)
  {
    var msg := NotFoundMessage(Some(id));
    var d := DecimalString(id);
    assert msg[|NotFoundPrefix|..|msg| - |NotFoundSuffix|] == d;
    assert OccursAt(d, msg, |NotFoundPrefix|);
    DecimalRoundTrip(id);
  }

  const SearchResults: string := "Search results"

  /** The summary clause for the name criterion. */
  function NameClause(name: Option<string>): string {
    if Given(name) then " for name containing '" + Trim(name.value) + "'" else ""
  }

  /** The summary clause for the id criterion. */
  function IdClause(id: Option<int>): string {
    if id.Some? then " with ID " + DecimalString(id.value) else ""
  }

  /** The summary clause for the genre criterion. */
  function GenreClause(genre: Option<string>): string {
    if Given(genre) then " in genre '" + Trim(genre.value) + "'" else ""
  }

  /** The human-readable summary of the applied criteria, built clause by
      clause in the order name, id, genre. */
  function SearchSummary(q: Criteria): (s: string)
    ensures StartsWith(s, SearchResults)
    ensures s == SearchResults <==> NoCriteria(q)
  {
    var s := SearchResults + NameClause(q.name) + IdClause(q.id) + GenreClause(q.genre);
    assert s[..|SearchResults|] == SearchResults;
    s
  }

  /** A string occurs in any string that has it in the middle. */
  lemma OccursInMiddle(a: string, t: string, b: string)
    ensures OccursIn(t, a + t + b)
  {
    assert (a + t + b)[|a|..|a| + |t|] == t;
    assert OccursAt(t, a + t + b, |a|);
  }

  /** An occurrence survives adding text on either side. */
  lemma OccursInExtended(t: string, x: string, y: string)
    requires OccursIn(t, x)
    ensures OccursIn(t, x + y) && OccursIn(t, y + x)
  {
    var k :| OccursAt(t, x, k);
    assert (x + y)[k..k + |t|] == x[k..k + |t|];
    assert OccursAt(t, x + y, k);
    assert (y + x)[|y| + k..|y| + k + |t|] == x[k..k + |t|];
    assert OccursAt(t, y + x, |y| + k);
  }

  /** Each criterion that takes part is quoted in the summary: the trimmed
      name, the decimal id and the trimmed genre. */
  lemma SummaryMentionsCriteria(q: Criteria)
    ensures Given(q.name) ==> OccursIn(Trim(q.name.value), SearchSummary(q))
    ensures q.id.Some? ==> OccursIn(DecimalString(q.id.value), SearchSummary(q))
    ensures Given(q.genre) ==> OccursIn(Trim(q.genre.value), SearchSummary(q))
  {
    var n := NameClause(q.name);
    var i := IdClause(q.id);
    var g := GenreClause(q.genre);
    assert SearchSummary(q) == SearchResults + n + i + g;
    if Given(q.name) {
      OccursInMiddle(" for name containing '", Trim(q.name.value), "'");
      OccursInExtended(Trim(q.name.value), n, SearchResults);
      OccursInExtended(Trim(q.name.value), SearchResults + n, i);
      OccursInExtended(Trim(q.name.value), SearchResults + n + i, g);
    }
    if q.id.Some? {
      OccursInMiddle(" with ID ", DecimalString(q.id.value), "");
      assert i == " with ID " + DecimalString(q.id.value) + "";
      OccursInExtended(DecimalString(q.id.value), i, SearchResults + n);
      OccursInExtended(DecimalString(q.id.value), SearchResults + n + i, g);
    }
    if Given(q.genre) {
      OccursInMiddle(" in genre '", Trim(q.genre.value), "'");
      OccursInExtended(Trim(q.genre.value), g, SearchResults + n + i);
    }
  }

  /** Padding the name and genre terms, each with its own characters that
      `trim()` removes, leaves the summary unchanged; either term may be
      missing. */
  lemma SummaryIgnoresPadding(q: Criteria, pn: string, sn: string, pg: string, sg: string)
    requires AllTrimmed(pn) && AllTrimmed(sn) && AllTrimmed(pg) && AllTrimmed(sg)
    ensures SearchSummary(q.(name := Padded(q.name, pn, sn), genre := Padded(q.genre, pg, sg)))
         == SearchSummary(q)
  {
    if q.name.Some? {
      TrimIgnoresPadding(pn, q.name.value, sn);
    }
    if q.genre.Some? {
      TrimIgnoresPadding(pg, q.genre.value, sg);
    }
  }

  /** A blank name or genre term adds no clause: the summary is the one the
      search would have without that term. */
  lemma SummaryIgnoresBlankTerms(q: Criteria)
    ensures !Given(q.name) ==> SearchSummary(q) == SearchSummary(q.(name := None))
    ensures !Given(q.genre) ==> SearchSummary(q) == SearchSummary(q.(genre := None))
  {
  }

  /** The summary is built clause by clause: the genre clause is appended
      last, after the id clause, which follows the name clause that comes
      straight after "Search results". */
  lemma SummaryBuiltInOrder(q: Criteria)
    ensures SearchSummary(q) == SearchSummary(q.(genre := None)) + GenreClause(q.genre)
    ensures SearchSummary(q.(genre := None)) == SearchSummary(q.(id := None, genre := None)) + IdClause(q.id)
    ensures SearchSummary(q.(id := None, genre := None)) == SearchResults + NameClause(q.name)
  {
  }

  const InvalidSearchTitle: string := "Invalid Search Parameters"
  const InvalidSearchMessage: string := "Movie ID must be a positive number."

  /** The search request is rejected before searching: an id is given and it
      is not positive. */
  predicate RejectedId(id: Option<int>) {
    id.Some? && id.value <= 0
  }

  /** `searchMovies` of the controller: a non-positive id yields the error
      view; otherwise the listing view with the service's results, their
      count, the parameters as received and the summary. */
  function SearchPage(c: Catalog, q: Criteria): (p: Page)
    ensures p.View() == "error" <==> RejectedId(q.id)
    ensures RejectedId(q.id) ==> p == ErrorView(InvalidSearchTitle, InvalidSearchMessage)
    ensures !RejectedId(q.id) ==>
      && p.MoviesView?
      && p.movies == SearchMovies(c, q)
      && p.search == Some(SearchEcho(
           q.name.ValueOr(""),
           if q.id.None? then "" else DecimalString(q.id.value),
           q.genre.ValueOr(""),
           true,
           |p.movies|,
           SearchSummary(q)))
  {
    if RejectedId(q.id) then ErrorView(InvalidSearchTitle, InvalidSearchMessage)
    else
      var results := SearchMovies(c, q);
      MoviesView(results, Some(SearchEcho(
        if q.name.Some? then q.name.value else "",
        if q.id.Some? then DecimalString(q.id.value) else "",
        if q.genre.Some? then q.genre.value else "",
        true,
        |results|,
        SearchSummary(q))))
  }

  /** A rejected search never consults the catalogue: the page is the same
      whatever the service holds. */
  lemma RejectedSearchIgnoresCatalogue(c: Catalog, c': Catalog, q: Criteria)
    requires RejectedId(q.id)
    ensures SearchPage(c, q) == SearchPage(c', q)
    ensures OccursIn("positive number", SearchPage(c, q).message)
  {
    assert OccursAt("positive number", InvalidSearchMessage, 19);
  }

  /** A completed search lists exactly the catalogue movies that satisfy
      every provided criterion, and counts them. */
  lemma SearchPageListsMatches(c: Catalog, q: Criteria, m: Movie)
    requires !RejectedId(q.id)
    ensures SearchPage(c, q).MoviesView? && SearchPage(c, q).search.Some?
    ensures m in SearchPage(c, q).movies <==> m in c.movies && Satisfies(m, q)
    ensures SearchPage(c, q).search.value.resultCount == |SearchPage(c, q).movies|
  {
    SearchMembership(c, q, m);
  }
}
