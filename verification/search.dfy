/**
 The genre filter, the title-keyword search and the random pick by genre of
 main.py. Both filters run the same loop: every movie the query selects is
 copied, in catalogue order, with its id replaced by a fresh count 1, 2, ...
 */
module Search {
  import opened Wrappers
  import opened Text
  import opened Catalogue
  import Lists

  /** What a movie is filtered on: its genre (case-insensitive equality) or
      a keyword in its title (case-insensitive substring). */
  datatype Query = ByGenre(genre: string) | ByKeyword(keyword: string)

  predicate Selects(q: Query, m: Movie) {
    match q
    case ByGenre(g) => EqualsIgnoreCase(m.genero, g)
    case ByKeyword(kw) => ContainsIgnoreCase(m.titulo, kw)
  }

  /** The movies a query selects, in catalogue order. */
  function Select(ms: seq<Movie>, q: Query): (r: seq<Movie>)
    ensures |r| <= |ms|
    ensures forall m :: m in r ==> m in ms && Selects(q, m)
  {
    if ms == [] then []
    else if Selects(q, ms[0]) then [ms[0]] + Select(ms[1..], q)
    else Select(ms[1..], q)
  }

  /** A movie is selected exactly when it is in the catalogue and matches. */
  lemma {:induction false} SelectMembers(ms: seq<Movie>, q: Query)
    ensures forall m :: m in Select(ms, q) <==> m in ms && Selects(q, m)
  {
    if ms != [] {
      SelectMembers(ms[1..], q);
      assert forall m :: m in ms <==> m == ms[0] || m in ms[1..];
    }
  }

  /** Selection distributes over concatenation, so it keeps catalogue order. */
  lemma {:induction false} SelectAppend(a: seq<Movie>, b: seq<Movie>, q: Query)
    ensures Select(a + b, q) == Select(a, q) + Select(b, q)
  {
    if a == [] {
      assert a + b == b;
    } else {
      assert (a + b)[1..] == a[1..] + b;
      SelectAppend(a[1..], b, q);
    }
  }

  /** The matched movies renumbered from `start`, titles and genres kept. */
  function Renumber(xs: seq<Movie>, start: int): (r: seq<Movie>)
    ensures |r| == |xs|
  {
    if xs == [] then [] else [xs[0].(id := start)] + Renumber(xs[1..], start + 1)
  }

  /** Renumbering gives consecutive ids from `start` and keeps every title and genre. */
  lemma {:induction false} RenumberFields(xs: seq<Movie>, start: int)
    ensures forall k :: 0 <= k < |xs| ==>
      Renumber(xs, start)[k] == Movie(start + k, xs[k].titulo, xs[k].genero)
  {
    if xs != [] {
      RenumberFields(xs[1..], start + 1);
    }
  }

  /** The loop shared by the genre and keyword handlers: walks the catalogue
      in order and copies every selected movie, numbering the copies 1, 2, ...
      as they are found. */
  method Collect(ms: seq<Movie>, q: Query) returns (found: seq<Movie>)
    ensures found == Renumber(Select(ms, q), 1)
  {
    found := [];
    var newId := 1;
    var rest := ms;
    while rest != []
      invariant newId == |found| + 1
      invariant Renumber(Select(ms, q), 1) == found + Renumber(Select(rest, q), newId)
      decreases |rest|
    {
      var movie := rest[0];
      if Selects(q, movie) {
        var copy := movie.(id := newId);
        ghost var later := Renumber(Select(rest[1..], q), newId + 1);
        assert ([movie] + Select(rest[1..], q))[1..] == Select(rest[1..], q);
        assert found + ([copy] + later) == (found + [copy]) + later;
        found := found + [copy];
        newId := newId + 1;
      }
      rest := rest[1..];
    }
  }

  /** GET /peliculas/get_movie_by_genre: the movies whose genre equals the
      query ignoring case, renumbered 1..n; a missing or empty genre, or no
      match, is an error. */
  method MoviesByGenre(ms: seq<Movie>, genre: Option<string>) returns (r: Result<seq<Movie>, Error>)
    ensures r == Failure(MissingGenre) <==> genre.None? || genre.value == ""
    ensures r == Failure(NoMoviesForGenre) <==>
      genre.Some? && genre.value != "" && forall i :: 0 <= i < |ms| ==> !EqualsIgnoreCase(ms[i].genero, genre.value)
    ensures r.Failure? ==> r.error == MissingGenre || r.error == NoMoviesForGenre
    ensures r.Success? ==> r.value == Renumber(Select(ms, ByGenre(genre.value)), 1)
    ensures r.Success? ==> |r.value| > 0 && forall k :: 0 <= k < |r.value| ==>
      r.value[k].id == k + 1 && EqualsIgnoreCase(r.value[k].genero, genre.value)
  {
    if genre.None? || genre.value == "" {
      return Failure(MissingGenre);
    }
    var found := Collect(ms, ByGenre(genre.value));
    var selected := Select(ms, ByGenre(genre.value));
    SelectMembers(ms, ByGenre(genre.value));
    RenumberFields(selected, 1);
    if found == [] {
      assert forall i :: 0 <= i < |ms| ==> ms[i] in ms;
      return Failure(NoMoviesForGenre);
    }
    assert forall k :: 0 <= k < |selected| ==> selected[k] in selected;
    return Success(found);
  }

  /** GET /peliculas/get_movie_by_title_keyword: the movies whose title
      contains the keyword ignoring case, renumbered 1..n; a missing or empty
      keyword, or no match, is an error. */
  method MoviesByTitleKeyword(ms: seq<Movie>, kw: Option<string>) returns (r: Result<seq<Movie>, Error>)
    ensures r == Failure(MissingKeyword) <==> kw.None? || kw.value == ""
    ensures r == Failure(NoMoviesForKeyword) <==>
      kw.Some? && kw.value != "" && forall i :: 0 <= i < |ms| ==> !ContainsIgnoreCase(ms[i].titulo, kw.value)
    ensures r.Failure? ==> r.error == MissingKeyword || r.error == NoMoviesForKeyword
    ensures r.Success? ==> r.value == Renumber(Select(ms, ByKeyword(kw.value)), 1)
    ensures r.Success? ==> |r.value| > 0 && forall k :: 0 <= k < |r.value| ==>
      r.value[k].id == k + 1 && ContainsIgnoreCase(r.value[k].titulo, kw.value)
  {
    if kw.None? || kw.value == "" {
      return Failure(MissingKeyword);
    }
    var found := Collect(ms, ByKeyword(kw.value));
    var selected := Select(ms, ByKeyword(kw.value));
    SelectMembers(ms, ByKeyword(kw.value));
    RenumberFields(selected, 1);
    if found == [] {
      assert forall i :: 0 <= i < |ms| ==> ms[i] in ms;
      return Failure(NoMoviesForKeyword);
    }
    assert forall k :: 0 <= k < |selected| ==> selected[k] in selected;
    return Success(found);
  }

  /** GET /peliculas/random_by_genre: a random draw from the genre handler's
      list. When that handler fails its error reply is not a list, and the
      `.get_json()` call on it raises AttributeError. */
  method RandomMovieByGenre(ms: seq<Movie>, genre: Option<string>, pick: nat) returns (r: Result<Movie, Error>)
    ensures r == Failure(MissingGenre) <==> genre.None? || genre.value == ""
    ensures r == Failure(AttributeError) <==>
      genre.Some? && genre.value != "" && forall i :: 0 <= i < |ms| ==> !EqualsIgnoreCase(ms[i].genero, genre.value)
    ensures r.Failure? ==> r.error == MissingGenre || r.error == AttributeError
    ensures r.Success? ==> r.value in Renumber(Select(ms, ByGenre(genre.value)), 1)
    ensures r.Success? ==> r.value == Lists.Choice(Renumber(Select(ms, ByGenre(genre.value)), 1), pick)
    ensures r.Success? ==> EqualsIgnoreCase(r.value.genero, genre.value)
    ensures r.Success? ==>
      exists i :: 0 <= i < |ms| && ms[i].titulo == r.value.titulo && ms[i].genero == r.value.genero
    ensures r.Success? ==> 1 <= r.value.id <= |Select(ms, ByGenre(genre.value))|
  {
    if genre.None? || genre.value == "" {
      return Failure(MissingGenre);
    }
    var listed := MoviesByGenre(ms, genre);
    if listed.Failure? {
      return Failure(AttributeError);
    }
    var candidates := listed.value;
    var k := pick % |candidates|;
    var selected := Select(ms, ByGenre(genre.value));
    SelectMembers(ms, ByGenre(genre.value));
    RenumberFields(selected, 1);
    assert selected[k] in selected;
    r := Success(Lists.Choice(candidates, pick));
  }

  /** Every movie of the genre handler's list is a possible draw of the random
      pick by genre, whose result is `Lists.Choice` of that list. */
  lemma RandomByGenreReachesEveryListed(ms: seq<Movie>, genre: string, m: Movie)
    requires genre != ""
    requires m in Renumber(Select(ms, ByGenre(genre)), 1)
    ensures exists pick: nat :: Lists.Choice(Renumber(Select(ms, ByGenre(genre)), 1), pick) == m
    ensures EqualsIgnoreCase(m.genero, genre)
  {
    var listed := Renumber(Select(ms, ByGenre(genre)), 1);
    Lists.ChoiceReachesEvery(listed, m);
    var selected := Select(ms, ByGenre(genre));
    SelectMembers(ms, ByGenre(genre));
    RenumberFields(selected, 1);
    var k :| 0 <= k < |listed| && listed[k] == m;
    assert selected[k] in selected;
  }
}
