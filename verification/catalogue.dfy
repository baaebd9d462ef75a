/**
 The in-memory movie catalogue of the HTTP service (main.py): lookup, add,
 update, remove and random pick, each handler written as a pure function
 over the list of movies (the filters are in module Search). A handler that
 changes the list returns the new list together with its reply; a failed
 reply always comes with the list unchanged.

 Two views of a movie's identity coexist in the handlers: lookup and the
 existence check of removal search by the `id` field, while update and the
 actual deletion index the list at `id - 1`. On an `Aligned` catalogue
 (every id is its position plus one) the two agree; for update alignment is
 also necessary, since on any other catalogue some id is updated at the wrong
 place. Alignment holds for the seed list and is kept by additions and
 updates, but not by removals.
 */
module Catalogue {
  import opened Wrappers
  import Lists

  datatype Movie = Movie(id: int, titulo: string, genero: string)

  /** Why a handler produced no movie. `IndexError` and `AttributeError` are
      Python exceptions the handler does not catch. */
  datatype Error =
    | NotFound
    | NotInList
    | MissingGenre
    | NoMoviesForGenre
    | MissingKeyword
    | NoMoviesForKeyword
    | NoMovies
    | IndexError
    | AttributeError

  /** The catalogue after a handler ran, and the handler's reply. */
  datatype Step<+T> = Step(movies: seq<Movie>, reply: Result<T, Error>)

  /** The twelve movies the service starts with. */
  const Seed: seq<Movie> := [
    Movie(1, "Indiana Jones", "Acción"),
    Movie(2, "Star Wars", "Acción"),
    Movie(3, "Interstellar", "Ciencia ficción"),
    Movie(4, "Jurassic Park", "Aventura"),
    Movie(5, "The Avengers", "Acción"),
    Movie(6, "Back to the Future", "Ciencia ficción"),
    Movie(7, "The Lord of the Rings", "Fantasía"),
    Movie(8, "The Dark Knight", "Acción"),
    Movie(9, "Inception", "Ciencia ficción"),
    Movie(10, "The Shawshank Redemption", "Drama"),
    Movie(11, "Pulp Fiction", "Crimen"),
    Movie(12, "Fight Club", "Drama")
  ]

  predicate HasId(ms: seq<Movie>, id: int) {
    exists i :: 0 <= i < |ms| && ms[i].id == id
  }

  predicate UniqueIds(ms: seq<Movie>) {
    forall i, j :: 0 <= i < j < |ms| ==> ms[i].id != ms[j].id
  }

  predicate IdsIncreasing(ms: seq<Movie>) {
    forall i, j :: 0 <= i < j < |ms| ==> ms[i].id < ms[j].id
  }

  /** Every movie's id is its position plus one: the condition under which
      indexing by `id - 1` finds the movie with that id. */
  predicate Aligned(ms: seq<Movie>) {
    forall i :: 0 <= i < |ms| ==> ms[i].id == i + 1
  }

  lemma AlignedHasId(ms: seq<Movie>, id: int)
    requires Aligned(ms)
    ensures HasId(ms, id) <==> 1 <= id <= |ms|
  {
    if 1 <= id <= |ms| {
      assert ms[id - 1].id == id;
    }
  }

  lemma SeedAligned()
    ensures Aligned(Seed)
  {
  }

  // ---------------------------------------------------------------- ids

  /** The id given to a new movie: one more than the LAST movie's id, or 1 for
      an empty catalogue. It never looks at the largest id. */
  function NewId(ms: seq<Movie>): (r: int)
    ensures IdsIncreasing(ms) ==> forall i :: 0 <= i < |ms| ==> ms[i].id < r
    ensures Aligned(ms) ==> r == |ms| + 1
    ensures |ms| == 0 ==> r == 1
  {
    if |ms| > 0 then ms[|ms| - 1].id + 1 else 1
  }

  /** Without increasing ids the new id can collide with an existing one. */
  lemma NewIdCanCollide()
    ensures var ms := [Movie(2, "Star Wars", "Acción"), Movie(1, "Indiana Jones", "Acción")];
            NewId(ms) == 2 && HasId(ms, NewId(ms))
  {
    var ms := [Movie(2, "Star Wars", "Acción"), Movie(1, "Indiana Jones", "Acción")];
    assert ms[0].id == 2;
  }

  // ---------------------------------------------------------------- lookup

  /** The position of the first movie carrying `id`, if any. */
  function IndexOfId(ms: seq<Movie>, id: int): (r: Option<nat>)
    ensures r.None? <==> !HasId(ms, id)
    ensures r.Some? ==> r.value < |ms| && ms[r.value].id == id
    ensures r.Some? ==> forall j :: 0 <= j < r.value ==> ms[j].id != id
  {
    if ms == [] then None
    else if ms[0].id == id then Some(0)
    else match IndexOfId(ms[1..], id)
      case None => None
      case Some(i) => Some(i + 1)
  }

  /** A position holding the first movie with `id` is the one `IndexOfId` reports. */
  lemma IndexOfIdIs(ms: seq<Movie>, id: int, i: nat)
    requires i < |ms| && ms[i].id == id
    requires forall j :: 0 <= j < i ==> ms[j].id != id
    ensures IndexOfId(ms, id) == Some(i)
  {
  }

  /** GET /peliculas/<id>: the first movie with that id, or not-found. */
  function GetMovie(ms: seq<Movie>, id: int): (r: Result<Movie, Error>)
    ensures r.Failure? <==> !HasId(ms, id)
    ensures r.Failure? ==> r.error == NotFound
    ensures r.Success? ==> r.value.id == id && r.value in ms
    ensures r.Success? ==> exists i :: 0 <= i < |ms| && ms[i] == r.value && forall j :: 0 <= j < i ==> ms[j].id != id
  {
    match IndexOfId(ms, id)
    case None => Failure(NotFound)
    case Some(i) => Success(ms[i])
  }

  // ---------------------------------------------------------------- add

  /** POST /peliculas: appends a movie with a fresh id and the given fields. */
  function AddMovie(ms: seq<Movie>, titulo: string, genero: string): (r: Step<Movie>)
    ensures r.reply.Success?
    ensures r.reply.value.titulo == titulo && r.reply.value.genero == genero
    ensures r.reply.value.id == NewId(ms)
    ensures |r.movies| == |ms| + 1
    ensures r.movies[..|ms|] == ms && r.movies[|ms|] == r.reply.value
  {
    var m := Movie(NewId(ms), titulo, genero);
    Step(ms + [m], Success(m))
  }

  /** Adding keeps ids increasing (hence unique), and the new movie is then
      what a lookup of its id returns. */
  lemma AddKeepsIdsIncreasing(ms: seq<Movie>, titulo: string, genero: string)
    requires IdsIncreasing(ms)
    ensures var r := AddMovie(ms, titulo, genero);
            IdsIncreasing(r.movies) && UniqueIds(r.movies) && GetMovie(r.movies, r.reply.value.id) == r.reply
  {
    var r := AddMovie(ms, titulo, genero);
    var m := r.reply.value;
    assert forall i :: 0 <= i < |ms| ==> r.movies[i] == ms[i] && ms[i].id < m.id;
    IndexOfIdIs(r.movies, m.id, |ms|);
  }

  /** Adding to an aligned catalogue keeps it aligned. */
  lemma AddKeepsAligned(ms: seq<Movie>, titulo: string, genero: string)
    requires Aligned(ms)
    ensures Aligned(AddMovie(ms, titulo, genero).movies)
  {
    var r := AddMovie(ms, titulo, genero);
    assert forall i :: 0 <= i < |ms| ==> r.movies[i] == ms[i];
  }

  // ---------------------------------------------------------------- update

  /** PUT /peliculas/<id>, as written: the id is used as a position. Any id in
      1..|ms| overwrites the movie at position id - 1, whatever its id. */
  function UpdateMovie(ms: seq<Movie>, id: int, titulo: string, genero: string): (r: Step<Movie>)
    ensures r.reply.Failure? <==> id <= 0 || id > |ms|
    ensures r.reply.Failure? ==> r.reply.error == NotFound && r.movies == ms
    ensures r.reply.Success? ==> r.reply.value == Movie(id, titulo, genero)
    ensures r.reply.Success? ==> |r.movies| == |ms| && r.movies[id - 1] == r.reply.value
    ensures r.reply.Success? ==> forall i :: 0 <= i < |ms| && i != id - 1 ==> r.movies[i] == ms[i]
  {
    if id <= 0 || id > |ms| then Step(ms, Failure(NotFound))
    else
      var m := Movie(id, titulo, genero);
      Step(ms[id - 1 := m], Success(m))
  }

  /** Update by id, as the handler's documentation describes it: the first
      movie carrying `id` gets the new title and genre. */
  function UpdateById(ms: seq<Movie>, id: int, titulo: string, genero: string): (r: Step<Movie>)
    ensures r.reply.Failure? <==> !HasId(ms, id)
    ensures r.reply.Failure? ==> r.reply.error == NotFound && r.movies == ms
    ensures r.reply.Success? ==> r.reply.value == Movie(id, titulo, genero)
    ensures r.reply.Success? ==> GetMovie(r.movies, id) == r.reply
    ensures r.reply.Success? ==> |r.movies| == |ms|
    ensures r.reply.Success? ==>
      exists i :: && 0 <= i < |ms| && ms[i].id == id
                  && (forall j :: 0 <= j < i ==> ms[j].id != id)
                  && r.movies[i] == r.reply.value
                  && (forall j :: 0 <= j < |ms| && j != i ==> r.movies[j] == ms[j])
  {
    match IndexOfId(ms, id)
    case None => Step(ms, Failure(NotFound))
    case Some(i) =>
      var m := Movie(id, titulo, genero);
      var ms' := ms[i := m];
      IndexOfIdIs(ms', id, i);
      Step(ms', Success(m))
  }

  /** On an aligned catalogue, updating by position IS updating by id, and the
      catalogue stays aligned. */
  lemma UpdateAgreesWhenAligned(ms: seq<Movie>, id: int, titulo: string, genero: string)
    requires Aligned(ms)
    ensures UpdateMovie(ms, id, titulo, genero) == UpdateById(ms, id, titulo, genero)
    ensures Aligned(UpdateMovie(ms, id, titulo, genero).movies)
  {
    AlignedHasId(ms, id);
    if 1 <= id <= |ms| {
      IndexOfIdIs(ms, id, id - 1);
    }
  }

  /** Alignment is also necessary: on any other catalogue, updating the id
      `i + 1` of a misaligned position `i` writes position `i`, whose movie
      does not carry that id, so the two updates differ. */
  lemma UpdateAgreesOnlyWhenAligned(ms: seq<Movie>, titulo: string, genero: string)
    requires !Aligned(ms)
    ensures exists id :: UpdateMovie(ms, id, titulo, genero) != UpdateById(ms, id, titulo, genero)
  {
    var i :| 0 <= i < |ms| && ms[i].id != i + 1;
    var byPosition := UpdateMovie(ms, i + 1, titulo, genero);
    var byId := UpdateById(ms, i + 1, titulo, genero);
    if byId.reply.Success? {
      assert byId.movies[i] == ms[i];
      assert byPosition.movies[i].id != byId.movies[i].id;
    }
    assert byPosition != byId;
  }

  /** Once a removal has shifted positions, update by position overwrites a
      movie with another id and cannot reach one that exists. */
  lemma UpdateDivergesAfterRemoval()
    ensures var ms := [Movie(1, "Indiana Jones", "Acción"), Movie(3, "Interstellar", "Ciencia ficción")];
            && UpdateMovie(ms, 2, "Up", "Animación").movies == [ms[0], Movie(2, "Up", "Animación")]
            && UpdateById(ms, 2, "Up", "Animación").reply == Failure(NotFound)
            && HasId(ms, 3) && UpdateMovie(ms, 3, "Up", "Animación").reply == Failure(NotFound)
  {
    var ms := [Movie(1, "Indiana Jones", "Acción"), Movie(3, "Interstellar", "Ciencia ficción")];
    assert ms[1].id == 3;
    assert !HasId(ms, 2);
  }

  // ---------------------------------------------------------------- remove

  /** DELETE /peliculas/<id>, as written: the existence check searches by id,
      but the element removed is the first one equal to the movie at
      position id - 1 (Python indexing, so a non-positive id counts from the
      end and an id beyond the list raises IndexError). */
  function RemoveMovie(ms: seq<Movie>, id: int): (r: Step<()>)
    ensures r.reply.Failure? ==> r.movies == ms
    ensures r.reply == Failure(NotInList) <==> !HasId(ms, id)
    ensures r.reply == Failure(IndexError) <==> HasId(ms, id) && !(-|ms| <= id - 1 < |ms|)
    ensures r.reply.Success? <==> HasId(ms, id) && -|ms| <= id - 1 < |ms|
    ensures r.reply.Success? ==> |r.movies| == |ms| - 1
    ensures r.reply.Success? && 1 <= id ==> multiset(r.movies) == multiset(ms) - multiset{ms[id - 1]}
    ensures r.reply.Success? && 1 <= id ==>
      var i := Lists.FirstIndexOf(ms, ms[id - 1]); r.movies == ms[..i] + ms[i + 1..]
    ensures r.reply.Success? && id <= 0 ==>
      var i := Lists.FirstIndexOf(ms, ms[|ms| + id - 1]); r.movies == ms[..i] + ms[i + 1..]
  {
    match GetMovie(ms, id)
    case Failure(_) => Step(ms, Failure(NotInList))
    case Success(_) =>
      match Lists.Index(ms, id - 1)
      case None => Step(ms, Failure(IndexError))
      case Some(victim) =>
        var rest := Lists.RemoveFirst(ms, victim);
        var i := Lists.FirstIndexOf(ms, victim);
        assert rest == rest[..i] + rest[i..];
        Step(rest, Success(()))
  }

  /** Removal by id, as the handler's documentation describes it: the first
      movie carrying `id` is dropped and the others keep their order. */
  function RemoveById(ms: seq<Movie>, id: int): (r: Step<()>)
    ensures r.reply.Failure? <==> !HasId(ms, id)
    ensures r.reply.Failure? ==> r.reply.error == NotInList && r.movies == ms
    ensures r.reply.Success? ==>
      exists i :: && 0 <= i < |ms| && ms[i].id == id
                  && (forall j :: 0 <= j < i ==> ms[j].id != id)
                  && r.movies == ms[..i] + ms[i + 1..]
  {
    match IndexOfId(ms, id)
    case None => Step(ms, Failure(NotInList))
    case Some(i) => Step(ms[..i] + ms[i + 1..], Success(()))
  }

  /** With unique ids, removal by id leaves one movie fewer, none carrying the
      removed id, and the remaining ids still unique. */
  lemma RemoveByIdForgetsId(ms: seq<Movie>, id: int)
    requires UniqueIds(ms)
    ensures var r := RemoveById(ms, id);
            r.reply.Success? ==> |r.movies| == |ms| - 1 && !HasId(r.movies, id) && UniqueIds(r.movies)
  {
    var r := RemoveById(ms, id);
    if r.reply.Success? {
      var i := IndexOfId(ms, id).value;
      assert r.movies == ms[..i] + ms[i + 1..];
      assert forall j :: 0 <= j < |r.movies| ==> r.movies[j] == if j < i then ms[j] else ms[j + 1];
    }
  }

  /** On an aligned catalogue, removal by position IS removal by id; afterwards
      a lookup of that id reports not-found. */
  lemma RemoveAgreesWhenAligned(ms: seq<Movie>, id: int)
    requires Aligned(ms)
    ensures RemoveMovie(ms, id) == RemoveById(ms, id)
    ensures GetMovie(RemoveMovie(ms, id).movies, id) == Failure(NotFound)
  {
    AlignedHasId(ms, id);
    if 1 <= id <= |ms| {
      IndexOfIdIs(ms, id, id - 1);
      Lists.FirstIndexOfIs(ms, ms[id - 1], id - 1);
      assert UniqueIds(ms);
      RemoveByIdForgetsId(ms, id);
    }
  }

  /** Removing any movie but the last breaks alignment: the movies after it
      keep their ids but move down one position. */
  lemma RemoveBreaksAlignment(ms: seq<Movie>, id: int)
    requires Aligned(ms) && 1 <= id < |ms|
    ensures !Aligned(RemoveMovie(ms, id).movies)
  {
    RemoveAgreesWhenAligned(ms, id);
    IndexOfIdIs(ms, id, id - 1);
    var r := RemoveMovie(ms, id).movies;
    assert r[id - 1] == ms[id];
  }

  /** For removal alignment is not necessary: a single movie with id 0 is not
      aligned, yet Python's index -1 reaches it, so removal by position and by
      id agree for every id. */
  lemma RemoveAgreesOffAlignment()
    ensures var ms := [Movie(0, "Indiana Jones", "Acción")];
            !Aligned(ms) && forall id :: RemoveMovie(ms, id) == RemoveById(ms, id)
  {
    var ms := [Movie(0, "Indiana Jones", "Acción")];
    assert ms[0].id != 1;
    forall id
      ensures RemoveMovie(ms, id) == RemoveById(ms, id)
    {
      if id == 0 {
        IndexOfIdIs(ms, 0, 0);
        Lists.FirstIndexOfIs(ms, ms[0], 0);
      }
    }
  }

  /** After the first movie of an aligned catalogue is gone, every id is its
      position plus two, and deleting id 2 removes the movie at position 1,
      which carries id 3. */
  lemma RemoveFromShifted(shifted: seq<Movie>)
    requires |shifted| >= 2
    requires forall j :: 0 <= j < |shifted| ==> shifted[j].id == j + 2
    ensures RemoveMovie(shifted, 2) == Step([shifted[0]] + shifted[2..], Success(()))
  {
    IndexOfIdIs(shifted, 2, 0);
    Lists.FirstIndexOfIs(shifted, shifted[1], 1);
  }

  /** The regression scenario: on an aligned catalogue, deleting 1 and then 2
      leaves movie 2 in place and deletes movie 3 instead. */
  lemma DeleteTwiceDiverges(ms: seq<Movie>)
    requires Aligned(ms) && |ms| >= 3
    ensures var first := RemoveMovie(ms, 1);
            var second := RemoveMovie(first.movies, 2);
            && first.reply.Success? && second.reply.Success?
            && GetMovie(second.movies, 2).Success?
            && GetMovie(second.movies, 3).Failure?
  {
    RemoveAgreesWhenAligned(ms, 1);
    IndexOfIdIs(ms, 1, 0);
    var shifted := ms[1..];
    assert RemoveMovie(ms, 1).movies == shifted;
    RemoveFromShifted(shifted);
    var left := [shifted[0]] + shifted[2..];
    assert RemoveMovie(RemoveMovie(ms, 1).movies, 2).movies == left;
    assert HasId(left, 2) by { assert left[0].id == 2; }
    forall j | 0 <= j < |left|
      ensures left[j].id != 3
    {
      if j > 0 {
        assert left[j] == shifted[j + 1];
      }
    }
  }

  /** The same scenario on the twelve seed movies. */
  lemma SeedDeleteDiverges()
    ensures var second := RemoveMovie(RemoveMovie(Seed, 1).movies, 2);
            second.reply.Success? && GetMovie(second.movies, 2).Success? && GetMovie(second.movies, 3).Failure?
  {
    SeedAligned();
    DeleteTwiceDiverges(Seed);
  }

  // ---------------------------------------------------------------- random

  /** GET /peliculas/random: `random.choice` over the catalogue. The random
      source is the parameter `pick`; any value of it is a possible draw. */
  function RandomMovie(ms: seq<Movie>, pick: nat): (r: Result<Movie, Error>)
    ensures r.Failure? <==> |ms| == 0
    ensures r.Failure? ==> r.error == NoMovies
    ensures r.Success? ==> r.value in ms
  {
    if |ms| == 0 then Failure(NoMovies) else Success(Lists.Choice(ms, pick))
  }

  /** Every movie of the catalogue is a possible draw. */
  lemma RandomReachesEveryMovie(ms: seq<Movie>, m: Movie)
    requires m in ms
    ensures exists pick: nat :: RandomMovie(ms, pick) == Success(m)
  {
    Lists.ChoiceReachesEvery(ms, m);
    var pick: nat :| Lists.Choice(ms, pick) == m;
    assert RandomMovie(ms, pick) == Success(m);
  }
}
