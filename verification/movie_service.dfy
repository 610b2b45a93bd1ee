/** The catalogue query layer: the in-memory movie list, its id index and
    the two read operations over them, point lookup and multi-criteria
    search. */
module MovieService {
  import opened Wrappers
  import opened JavaText

  /** One catalogue entry. The floating-point IMDb rating is not carried. */
  datatype Movie = Movie(
    id: int,
    movieName: string,
    director: string,
    year: int,
    genre: string,
    description: string,
    durationMinutes: int)

  /** The service's state: the movies in load order and the id index built
      from them. */
  datatype Catalog = Catalog(movies: seq<Movie>, index: map<int, Movie>)

  /** Search criteria; `None` stands for a `null` request parameter. */
  datatype Criteria = Criteria(name: Option<string>, id: Option<int>, genre: Option<string>)

  /** The index that putting every movie, in load order, into an empty hash
      map yields: a later movie replaces an earlier one with the same id. */
  function IndexOf(movies: seq<Movie>): map<int, Movie>
    decreases |movies|
  {
    if |movies| == 0 then map[]
    else
      var last := movies[|movies| - 1];
      IndexOf(movies[..|movies| - 1])[last.id := last]
  }

  /** The catalogue's index is the one its movie list builds. */
  ghost predicate Valid(c: Catalog) {
    c.index == IndexOf(c.movies)
  }

  /** Some movie of the list carries `id`. */
  ghost predicate HasId(movies: seq<Movie>, id: int) {
    exists j :: 0 <= j < |movies| && movies[j].id == id
  }

  /** Position `j` holds the last movie of the list that carries `id`. */
  ghost predicate LastWithId(movies: seq<Movie>, id: int, j: int) {
    && 0 <= j < |movies|
    && movies[j].id == id
    && forall k :: j < k < |movies| ==> movies[k].id != id
  }

  /** What the index holds: exactly the ids of the list, each mapped to the
      last movie in load order that carries it. */
  lemma {:induction false} IndexKeepsLastPut(movies: seq<Movie>)
    ensures forall id :: id in IndexOf(movies) <==> HasId(movies, id)
    ensures forall id, j :: LastWithId(movies, id, j) ==> id in IndexOf(movies) && IndexOf(movies)[id] == movies[j]
    decreases |movies|
  {
    if |movies| > 0 {
      var n := |movies| - 1;
      var init := movies[..n];
      IndexKeepsLastPut(init);
      forall id | HasId(movies, id) ensures id in IndexOf(movies) {
        var j :| 0 <= j < |movies| && movies[j].id == id;
        if j < n { assert init[j].id == id; }
      }
      forall id | id in IndexOf(movies) ensures HasId(movies, id) {
        if id != movies[n].id {
          assert id in IndexOf(init);
          assert HasId(init, id);
          var j :| 0 <= j < |init| && init[j].id == id;
          assert movies[j].id == id;
        }
      }
      forall id, j | LastWithId(movies, id, j) ensures IndexOf(movies)[id] == movies[j] {
        if j < n {
          assert LastWithId(init, id, j);
        }
      }
    }
  }

  /** Every entry of the index carries its own key as id. */
  lemma IndexKeysMatchIds(movies: seq<Movie>)
    ensures forall id :: id in IndexOf(movies) ==> IndexOf(movies)[id].id == id
  {
    IndexKeepsLastPut(movies);
    forall id | id in IndexOf(movies) ensures IndexOf(movies)[id].id == id {
      var j := LastPosition(movies, id);
      assert LastWithId(movies, id, j);
    }
  }

  /** The position of the last movie carrying `id`, for an id that occurs. */
  ghost function LastPosition(movies: seq<Movie>, id: int): (j: int)
    requires HasId(movies, id)
    ensures LastWithId(movies, id, j)
    decreases |movies|
  {
    var n := |movies| - 1;
    if movies[n].id == id then n
    else
      var j :| 0 <= j < |movies| && movies[j].id == id;
      assert HasId(movies[..n], id) by { assert movies[..n][j].id == id; }
      LastPosition(movies[..n], id)
  }

  /** The service constructor: takes the loaded movie list and fills the id
      map one `put` at a time, in load order. */
  method Load(movies: seq<Movie>) returns (c: Catalog)
    ensures c.movies == movies
    ensures Valid(c)
  {
    var index: map<int, Movie> := map[];
    var i := 0;
    while i < |movies|
      invariant 0 <= i <= |movies|
      invariant index == IndexOf(movies[..i])
    {
      assert movies[..i + 1][..i] == movies[..i];
      index := index[movies[i].id := movies[i]];
      i := i + 1;
    }
    assert movies[..|movies|] == movies;
    c := Catalog(movies, index);
  }

  /** `getMovieById`: empty for a missing or non-positive id without looking
      at the index; otherwise whatever the index holds for the id. */
  function GetMovieById(c: Catalog, id: Option<int>): (r: Option<Movie>)
    requires Valid(c)
    ensures (id.None? || id.value <= 0) ==> r.None?
    ensures id.Some? && id.value > 0 ==> (r.Some? <==> HasId(c.movies, id.value))
    ensures r.Some? ==> r.value.id == id.value
    ensures forall j :: r.Some? && LastWithId(c.movies, id.value, j) ==> r.value == c.movies[j]
  {
    if id.None? || id.value <= 0 then None
    else
      IndexKeepsLastPut(c.movies);
      IndexKeysMatchIds(c.movies);
      if id.value in c.index then Some(c.index[id.value]) else None
  }

  /** A text criterion takes part in the search: it is non-null and not
      blank after trimming. */
  predicate Given(term: Option<string>) {
    term.Some? && !IsBlank(term.value)
  }

  /** `searchMovies`'s test of one text field: the lower-cased field contains the
      lower-cased, then trimmed, term. */
  predicate FieldContains(field: string, term: string) {
    Contains(Lower(field), Trim(Lower(term)))
  }

  /** The loop body of `searchMovies`: a flag that starts true and that each
      provided criterion in turn may clear; the text tests are only made
      while the flag is still set. */
  predicate Matches(m: Movie, q: Criteria) {
    var byId := !(q.id.Some? && m.id != q.id.value);
    var byName := if byId && Given(q.name) && !FieldContains(m.movieName, q.name.value) then false else byId;
    var byGenre := if byName && Given(q.genre) && !FieldContains(m.genre, q.genre.value) then false else byName;
    byGenre
  }

  /** Reference meaning of one text criterion: a blank or missing term
      imposes nothing; otherwise the trimmed term, ignoring case, occurs in
      the field. */
  ghost predicate TextCriterionHolds(field: string, term: Option<string>) {
    Given(term) ==> OccursIn(Lower(Trim(term.value)), Lower(field))
  }

  /** Reference meaning of a search: every provided criterion holds. */
  ghost predicate Satisfies(m: Movie, q: Criteria) {
    && (q.id.Some? ==> m.id == q.id.value)
    && TextCriterionHolds(m.movieName, q.name)
    && TextCriterionHolds(m.genre, q.genre)
  }

  /** The loop body's flag is exactly the conjunction of the criteria. */
  lemma MatchesIffSatisfies(m: Movie, q: Criteria)
    ensures Matches(m, q) <==> Satisfies(m, q)
  {
    if q.name.Some? {
      TrimLowerCommute(q.name.value);
      ContainsIffOccurs(Lower(m.movieName), Trim(Lower(q.name.value)));
    }
    if q.genre.Some? {
      TrimLowerCommute(q.genre.value);
      ContainsIffOccurs(Lower(m.genre), Trim(Lower(q.genre.value)));
    }
  }

  /** The scan of `searchMovies` over a list: the matching movies, in order. */
  function Scan(movies: seq<Movie>, q: Criteria): (r: seq<Movie>)
    ensures |r| <= |movies|
    ensures forall k :: 0 <= k < |r| ==> r[k] in movies && Matches(r[k], q)
    decreases |movies|
  {
    if |movies| == 0 then []
    else (if Matches(movies[0], q) then [movies[0]] else []) + Scan(movies[1..], q)
  }

  /** `searchMovies`: the catalogue movies that satisfy every provided
      criterion, in load order. */
  function SearchMovies(c: Catalog, q: Criteria): (r: seq<Movie>)
    ensures |r| <= |c.movies|
    ensures forall k :: 0 <= k < |r| ==> r[k] in c.movies && Satisfies(r[k], q)
  {
    var r := Scan(c.movies, q);
    assert forall k :: 0 <= k < |r| ==> Satisfies(r[k], q) by {
      forall k | 0 <= k < |r| ensures Satisfies(r[k], q) { MatchesIffSatisfies(r[k], q); }
    }
    r
  }

  /** `r` can be obtained from `s` by deleting elements. */
  ghost predicate IsSubsequence(r: seq<Movie>, s: seq<Movie>)
    decreases |s|
  {
    if |r| == 0 then true
    else if |s| == 0 then false
    else (r[0] == s[0] && IsSubsequence(r[1..], s[1..])) || IsSubsequence(r, s[1..])
  }

  lemma {:induction false} ScanIsSubsequence(movies: seq<Movie>, q: Criteria)
    ensures IsSubsequence(Scan(movies, q), movies)
    decreases |movies|
  {
    if |movies| > 0 {
      ScanIsSubsequence(movies[1..], q);
      var rest := Scan(movies[1..], q);
      if Matches(movies[0], q) {
        assert Scan(movies, q) == [movies[0]] + rest;
        assert ([movies[0]] + rest)[1..] == rest;
      } else {
        assert Scan(movies, q) == rest;
      }
    }
  }

  /** Search keeps load order: its result is a subsequence of the catalogue. */
  lemma SearchIsSubsequence(c: Catalog, q: Criteria)
    ensures IsSubsequence(SearchMovies(c, q), c.movies)
  {
    ScanIsSubsequence(c.movies, q);
  }

  lemma {:induction false} ScanMembership(movies: seq<Movie>, q: Criteria, m: Movie)
    ensures m in Scan(movies, q) <==> m in movies && Matches(m, q)
    decreases |movies|
  {
    if |movies| > 0 {
      ScanMembership(movies[1..], q, m);
      assert movies == [movies[0]] + movies[1..];
    }
  }

  /** A movie is found exactly when it is in the catalogue and satisfies
      every provided criterion. */
  lemma SearchMembership(c: Catalog, q: Criteria, m: Movie)
    ensures m in SearchMovies(c, q) <==> m in c.movies && Satisfies(m, q)
  {
    ScanMembership(c.movies, q, m);
    MatchesIffSatisfies(m, q);
  }

  /** The scan keeps every copy of a matching movie and none of the others. */
  lemma {:induction false} ScanCounts(movies: seq<Movie>, q: Criteria, m: Movie)
    ensures multiset(Scan(movies, q))[m] == if Matches(m, q) then multiset(movies)[m] else 0
    decreases |movies|
  {
    if |movies| > 0 {
      ScanCounts(movies[1..], q, m);
      assert movies == [movies[0]] + movies[1..];
    }
  }

  /** A movie appears in the result as many times as in the catalogue when
      it satisfies every provided criterion, and not at all otherwise: the
      loop adds each matching entry, duplicates included. */
  lemma SearchCounts(c: Catalog, q: Criteria, m: Movie)
    ensures multiset(SearchMovies(c, q))[m] == if Satisfies(m, q) then multiset(c.movies)[m] else 0
  {
    ScanCounts(c.movies, q, m);
    MatchesIffSatisfies(m, q);
  }

  /** No criterion given: no id and blank or missing name and genre. */
  predicate NoCriteria(q: Criteria) {
    q.id.None? && !Given(q.name) && !Given(q.genre)
  }

  lemma {:induction false} ScanAllWhenUnconstrained(movies: seq<Movie>, q: Criteria)
    requires NoCriteria(q)
    ensures Scan(movies, q) == movies
    decreases |movies|
  {
    if |movies| > 0 {
      ScanAllWhenUnconstrained(movies[1..], q);
      assert movies == [movies[0]] + movies[1..];
    }
  }

  /** Without criteria, search returns the whole catalogue in load order,
      i.e. what `getAllMovies` returns. */
  lemma SearchWithoutCriteria(c: Catalog, q: Criteria)
    requires NoCriteria(q)
    ensures SearchMovies(c, q) == c.movies
  {
    ScanAllWhenUnconstrained(c.movies, q);
  }

  /** An id criterion that no movie carries gives an empty result, whatever
      the other criteria; the id need not be positive. */
  lemma SearchUnknownId(c: Catalog, q: Criteria)
    requires q.id.Some? && !HasId(c.movies, q.id.value)
    ensures SearchMovies(c, q) == []
  {
    ScanUnknownId(c.movies, q);
  }

  lemma {:induction false} ScanUnknownId(movies: seq<Movie>, q: Criteria)
    requires q.id.Some? && !HasId(movies, q.id.value)
    ensures Scan(movies, q) == []
    decreases |movies|
  {
    if |movies| > 0 {
      assert movies[0].id != q.id.value;
      assert !HasId(movies[1..], q.id.value);
      ScanUnknownId(movies[1..], q);
    }
  }

  /** What a text criterion reduces to: nothing when not given, otherwise
      its trimmed and lower-cased term. */
  function Normalized(term: Option<string>): Option<string> {
    if Given(term) then Some(Lower(Trim(term.value))) else None
  }

  lemma {:induction false} ScanDependsOnNormalized(movies: seq<Movie>, q: Criteria, q': Criteria)
    requires q.id == q'.id
    requires Normalized(q.name) == Normalized(q'.name)
    requires Normalized(q.genre) == Normalized(q'.genre)
    ensures Scan(movies, q) == Scan(movies, q')
    decreases |movies|
  {
    if |movies| > 0 {
      ScanDependsOnNormalized(movies[1..], q, q');
      MatchesDependsOnNormalized(movies[0], q, q');
    }
  }

  /** A text field test depends on the term only through its normal form. */
  lemma FieldTestDependsOnNormalized(field: string, a: Option<string>, b: Option<string>)
    requires Normalized(a) == Normalized(b)
    ensures Given(a) == Given(b)
    ensures Given(a) ==> FieldContains(field, a.value) == FieldContains(field, b.value)
  {
    if Given(a) {
      TrimLowerCommute(a.value);
      TrimLowerCommute(b.value);
    }
  }

  lemma MatchesDependsOnNormalized(m: Movie, q: Criteria, q': Criteria)
    requires q.id == q'.id
    requires Normalized(q.name) == Normalized(q'.name)
    requires Normalized(q.genre) == Normalized(q'.genre)
    ensures Matches(m, q) == Matches(m, q')
  {
    FieldTestDependsOnNormalized(m.movieName, q.name, q'.name);
    FieldTestDependsOnNormalized(m.genre, q.genre, q'.genre);
  }

  /** Search depends on the text criteria only through their trimmed,
      lower-cased terms. */
  lemma SearchDependsOnNormalized(c: Catalog, q: Criteria, q': Criteria)
    requires q.id == q'.id
    requires Normalized(q.name) == Normalized(q'.name)
    requires Normalized(q.genre) == Normalized(q'.genre)
    ensures SearchMovies(c, q) == SearchMovies(c, q')
  {
    ScanDependsOnNormalized(c.movies, q, q');
  }

  /** Terms that differ only in letter case normalize alike. */
  lemma NormalizedIgnoresCase(a: string, b: string)
    requires Lower(a) == Lower(b)
    ensures Normalized(Some(a)) == Normalized(Some(b))
  {
    TrimLowerCommute(a);
    TrimLowerCommute(b);
    assert Lower(Trim(a)) == Lower(Trim(b));
  }

  /** Padding a term with whitespace or control characters does not change
      what it normalizes to. */
  lemma NormalizedIgnoresPadding(p: string, a: string, s: string)
    requires AllTrimmed(p) && AllTrimmed(s)
    ensures Normalized(Some(p + a + s)) == Normalized(Some(a))
  {
    TrimIgnoresPadding(p, a, s);
  }

  /** A term with `p` put in front and `s` after it; a missing term stays
      missing. */
  function Padded(term: Option<string>, p: string, s: string): Option<string> {
    if term.Some? then Some(p + term.value + s) else None
  }

  /** Two terms are both missing, or both present and equal up to letter
      case. */
  predicate SameUpToCase(a: Option<string>, b: Option<string>) {
    a.Some? == b.Some? && (a.Some? ==> Lower(a.value) == Lower(b.value))
  }

  /** Case changes and padding of a present or missing term leave its normal
      form unchanged. */
  lemma NormalizedIgnoresCaseAndPadding(a: Option<string>, b: Option<string>, p: string, s: string)
    requires SameUpToCase(a, b)
    requires AllTrimmed(p) && AllTrimmed(s)
    ensures Normalized(a) == Normalized(Padded(b, p, s))
  {
    if a.Some? {
      NormalizedIgnoresCase(a.value, b.value);
      NormalizedIgnoresPadding(p, b.value, s);
    }
  }

  /** Changing the case of the name or genre term, and padding each with its
      own characters that `trim()` removes, leaves the search result
      unchanged; either term may be missing. */
  lemma SearchIgnoresCaseAndPadding(c: Catalog, id: Option<int>,
                                    name: Option<string>, name': Option<string>, pn: string, sn: string,
                                    genre: Option<string>, genre': Option<string>, pg: string, sg: string)
    requires SameUpToCase(name, name') && SameUpToCase(genre, genre')
    requires AllTrimmed(pn) && AllTrimmed(sn) && AllTrimmed(pg) && AllTrimmed(sg)
    ensures SearchMovies(c, Criteria(name, id, genre))
         == SearchMovies(c, Criteria(Padded(name', pn, sn), id, Padded(genre', pg, sg)))
  {
    NormalizedIgnoresCaseAndPadding(name, name', pn, sn);
    NormalizedIgnoresCaseAndPadding(genre, genre', pg, sg);
    SearchDependsOnNormalized(c, Criteria(name, id, genre),
                              Criteria(Padded(name', pn, sn), id, Padded(genre', pg, sg)));
  }

  /** The name-only search is insensitive to the case of its term, as in
      `searchMovies("FAMILY", null, null)` finding the movie whose name
      contains "family". */
  lemma NameSearchIgnoresCase(c: Catalog, name: string, name': string)
    requires Lower(name) == Lower(name')
    ensures SearchMovies(c, Criteria(Some(name), None, None))
         == SearchMovies(c, Criteria(Some(name'), None, None))
  {
    SearchIgnoresCaseAndPadding(c, None, Some(name), Some(name'), "", "", None, None, "", "");
    assert "" + name' + "" == name';
  }
}
