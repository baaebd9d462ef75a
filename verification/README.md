# Movie catalogue and next-holiday selection, in Dafny

This project models the two pieces of sequential logic of a small Flask
service: the in-memory movie catalogue of `main.py` (a list of
`{id, titulo, genero}` records with lookup, add, update, remove, genre filter,
title-keyword search and random pick), and the next-holiday selection of
`NextHoliday.set_next` / `fetch_holidays` in `proximo_feriado.py`. Handlers
are pure functions over `seq<Movie>`; a handler that changes the catalogue
returns a `Step(movies, reply)`, and every failed reply comes with the
catalogue unchanged. Python exceptions the handlers do not catch
(`IndexError`, `AttributeError`) are error values.

The central fact about the catalogue: lookup, and the existence check of
removal, search by the `id` field, while update and the actual deletion index
the list at `id - 1`. On a catalogue that is `Catalogue.Aligned` (every id
equals its position plus one) the two views agree. For update the condition
is also necessary: on any other catalogue some id is updated at the wrong
place. For removal it is only sufficient; a one-movie catalogue with id 0 is
not aligned, yet removal by position and by id coincide on it. Alignment
holds for the twelve seed movies and is preserved by additions and updates,
and every removal except of the last movie breaks it.

Files: `wrappers.dfy` (Option, Result), `text.dfy` (ASCII lower-casing,
substring search, decimal rendering), `lists.dfy` (Python list subscripting,
`list.remove` and `random.choice`), `catalogue.dfy` (lookup, add, update,
remove and random pick of main.py), `search.dfy` (genre filter, title-keyword
search and random pick by genre of main.py), `holidays.dfy`
(proximo_feriado.py).

## Model

| member | source | states |
|---|---|---|
| Catalogue.NewId | main.py:143-147 | 1 for an empty catalogue; larger than every id when ids increase; equal to length + 1 on an aligned catalogue |
| Catalogue.NewIdCanCollide | main.py:143-145 | the new id is taken from the last movie, not the largest id, so it can equal an existing id |
| Catalogue.IndexOfId | main.py:53-54 | the position found carries the id and no earlier movie does; absent exactly when no movie has the id |
| Catalogue.GetMovie | main.py:53-56 | returns the first movie with the id; not-found exactly when no movie has it |
| Catalogue.AddMovie | main.py:71-78 | the catalogue grows by one; the old movies are an unchanged prefix; the new last movie has the new id and the given title and genre |
| Catalogue.AddKeepsIdsIncreasing | main.py:71-76 | increasing ids stay increasing and unique, and looking up the new id returns the new movie |
| Catalogue.AddKeepsAligned | main.py:71-76 | adding to an aligned catalogue keeps it aligned |
| Catalogue.UpdateMovie | main.py:96-104 | id outside 1..length is not-found with the list unchanged; otherwise only position id-1 changes, to the given id, title and genre |
| Catalogue.UpdateById | main.py:81-94 | update as documented: fails exactly when no movie has the id; the first position carrying the id now holds the new record, every other position is unchanged, and lookup of the id returns the new record |
| Catalogue.UpdateAgreesWhenAligned | main.py:96-103 | on an aligned catalogue, updating by position equals updating by id and alignment is kept |
| Catalogue.UpdateAgreesOnlyWhenAligned | main.py:96-103 | on every catalogue that is not aligned, some id is updated differently by position than by id |
| Catalogue.UpdateDivergesAfterRemoval | main.py:96-103 | after a removal, updating id 2 overwrites movie 3, and updating existing id 3 is not-found |
| Catalogue.RemoveMovie | main.py:123-130 | not-found exactly when no movie has the id; IndexError exactly when the id exists but id-1 is outside Python's index range; success exactly when the id exists and id-1 is inside it; on success the first movie equal to the one at Python index id-1 (counting from the end for id <= 0) is dropped and the others keep their order |
| Catalogue.RemoveById | main.py:107-121 | removal as documented: drops the first movie carrying the id; with unique ids the id is then absent and ids stay unique |
| Catalogue.RemoveByIdForgetsId | main.py:107-121 | with unique ids, removal by id leaves one movie fewer, none with that id, ids still unique |
| Catalogue.RemoveAgreesWhenAligned | main.py:123-130 | on an aligned catalogue, removal by position equals removal by id, and a later lookup of the id is not-found |
| Catalogue.RemoveAgreesOffAlignment | main.py:123-128 | alignment is not necessary for removal: on one movie with id 0, removal by position and by id agree for every id |
| Catalogue.RemoveBreaksAlignment | main.py:128 | removing any movie but the last from an aligned catalogue leaves it unaligned |
| Catalogue.RemoveFromShifted | main.py:123-128 | when every id is position + 2, deleting id 2 removes the movie at position 1, which carries id 3 |
| Catalogue.DeleteTwiceDiverges | main.py:123-130 | on any aligned catalogue of three or more, deleting 1 then 2 leaves movie 2 and loses movie 3 |
| Catalogue.SeedDeleteDiverges | main.py:8-21 | the same scenario on the twelve seed movies |
| Catalogue.SeedAligned | main.py:8-21 | the seed movies have ids 1..12 in order |
| Search.Select | main.py:183-184 | never more than the catalogue holds, and every movie returned is in the catalogue and matches the query (the converse is SelectMembers, the order SelectAppend) |
| Search.SelectMembers | main.py:183-184 | a movie is selected exactly when it is in the catalogue and matches the query |
| Search.SelectAppend | main.py:183-188 | selection distributes over concatenation, so matches keep catalogue order |
| Search.Renumber | main.py:185-188 | renumbering keeps the number of movies |
| Search.RenumberFields | main.py:185-188 | the copies carry ids start, start+1, ... and keep every title and genre |
| Search.Collect | main.py:181-188 | the filtering loop yields exactly the selected movies in catalogue order, renumbered from 1 |
| Search.MoviesByGenre | main.py:176-191 | missing or empty genre is an error; no case-insensitive match is an error; otherwise exactly the matching movies in order, ids 1..n, titles and genres kept |
| Search.MoviesByTitleKeyword | main.py:209-225 | missing or empty keyword is an error; no title containing it ignoring case is an error; otherwise exactly those movies in order, ids 1..n |
| Catalogue.RandomMovie | main.py:239-243 | an empty catalogue is an error; otherwise the pick is a member |
| Catalogue.RandomReachesEveryMovie | main.py:242 | every member of the catalogue is a possible pick |
| Search.RandomMovieByGenre | main.py:272-278 | missing genre is an error; no match raises AttributeError and nothing else fails; otherwise the pick is the draw from the genre handler's renumbered list, so it is a member of that list, its genre matches the query and its title and genre come from a catalogue movie |
| Search.RandomByGenreReachesEveryListed | main.py:276-277 | every movie of the genre handler's list is a possible pick, and its genre matches the query |
| Lists.Index | main.py:128 | Python subscripting: defined exactly for indices in -length..length-1; a non-negative index gives that element, a negative one the element that many places from the end |
| Lists.FirstIndexOf | main.py:128 | the position of the first element equal to the value |
| Lists.RemoveFirst | main.py:128 | `list.remove` drops one copy of the value (multiset difference) and keeps the rest in order |
| Lists.Choice | main.py:242 | `random.choice` on a non-empty list returns a member |
| Lists.ChoiceReachesEvery | main.py:242 | every member of the list is a possible draw |
| Text.Lower | main.py:184 | the lower-cased string has the same length |
| Text.LowerAt | main.py:184 | lower-casing works character by character |
| Text.ContainsIff | main.py:216 | the substring scan succeeds exactly when the needle occurs at some position |
| Text.Decimal | proximo_feriado.py:40 | the year is rendered as digits without leading zeros whose value is the year |
| Holidays.AfterTodayByMonth | proximo_feriado.py:29-30 | a later month is always after today, an earlier month never, and in today's month exactly a later day is |
| Holidays.FirstWanted | proximo_feriado.py:28-35 | the position found is after today (and of the type, if given) and no earlier holiday is; absent when no holiday qualifies |
| Holidays.SetNext | proximo_feriado.py:19-42 | untyped on an empty list raises IndexError; a chosen holiday is from the list and clears loading; typed selection chooses exactly when a qualifying holiday exists, otherwise shows the notice with loading untouched |
| Holidays.FreshSelectorWithoutMatchKeepsLoading | proximo_feriado.py:14-17 | a freshly built selector that finds no holiday of the requested type stays loading and shows the notice |
| Holidays.UntypedPicksFirstAfterToday | proximo_feriado.py:27-31 | without a type, the first holiday strictly after today is chosen and loading becomes false |
| Holidays.UntypedFallsBackToFirst | proximo_feriado.py:28-30 | without a type and with nothing after today, the first holiday of the list is chosen |
| Holidays.TypedPicksFirstOfType | proximo_feriado.py:33-38 | with a type, the first holiday after today whose type equals it ignoring case is chosen and loading becomes false |
| Holidays.TypedWithoutMatchShowsNotice | proximo_feriado.py:39-42 | with a type and no such holiday, the notice "No hay feriados para el año ... de tipo ..." is shown and loading is unchanged |
| Holidays.NormaliseKind | proximo_feriado.py:52 | a non-empty type is passed through; a missing or empty type becomes no type |
| Holidays.FetchHolidays | proximo_feriado.py:46-53 | without a type (missing or empty) an empty calendar raises IndexError and otherwise a holiday is chosen; with a type a holiday is chosen exactly when one after today has that type; the year is kept |
| Holidays.EmptyKindIsNoKind | proximo_feriado.py:46-53 | fetching with an empty type selects exactly as fetching with no type |

## Findings

| source | as written | input that shows it | evidently intended | confidence | as-written member | corrected member |
|---|---|---|---|---|---|---|
| main.py:96-103 | update overwrites the movie at position id-1 and checks only id against the list length | catalogue with ids [1, 3]: updating id 2 overwrites movie 3; updating id 3 is not-found | update the movie carrying the id (as the handler's documentation says) | high, not executed | Catalogue.UpdateDivergesAfterRemoval | Catalogue.UpdateById |
| main.py:123-128 | removal checks the id exists, then removes the movie at position id-1 | seed list: delete 1, then delete 2 removes movie 3 and movie 2 stays; ids [1, 3]: delete 3 raises IndexError | remove the movie carrying the id | high, not executed | Catalogue.DeleteTwiceDiverges | Catalogue.RemoveById |

`Catalogue.UpdateMovie` and `Catalogue.RemoveMovie` model the code as
written; `Catalogue.UpdateAgreesWhenAligned` and
`Catalogue.RemoveAgreesWhenAligned` prove that the corrected definitions
coincide with them on aligned catalogues (and `Catalogue.UpdateAgreesOnlyWhenAligned`
that update coincides nowhere else), which is why the seed scenarios in
the service's own tests do not expose the defect.

## Left out

- Flask routing, `jsonify`, `request.json` / `request.args` and HTTP status codes: query and body values are parameters (`Option<string>` for a query argument), replies are `Result` values. `random_movie_by_genre` returns its missing-genre error with `404` inside the body (main.py:275); it is modelled as `MissingGenre`. `film_for_holiday` and `film_for_holiday_type` do the same (main.py:296, 325, 328) and are left out.
- Concurrent requests: each handler is modelled as one atomic step on the catalogue. Under Flask's threaded server (`app.run()`, main.py:424) `get_new_id` and the `append` of `add_movie` (main.py:72-76), and the existence check and removal of `remove_movie` (main.py:123-128), can interleave with another request; two simultaneous additions can then receive the same id, and two simultaneous deletions of the last id can end in IndexError. The preservation facts for additions (`Catalogue.AddKeepsIdsIncreasing`, `Catalogue.AddKeepsAligned`) hold for requests served one at a time.
- Error message texts of the catalogue handlers: each error is a constructor of `Catalogue.Error`.
- A request body missing `titulo` or `genero` (a `KeyError` in Flask): the fields are parameters.
- `get_all_movies`: returns the list unchanged; nothing to state.
- `film_for_holiday` and `film_for_holiday_type`: they only combine a network fetch with `RandomMovieByGenre`; the two parts are modelled separately.
- `requests.get` to the holidays API and `date.today()`: the holiday list, today's day and month, and the year are parameters.
- `Catalogue.RandomMovie`: `random.choice` is a `pick` parameter; only membership and reachability are stated, not the uniform distribution.
- `Text.Lower`: lower-cases ASCII letters only, while Python's `str.lower` also folds non-ASCII letters such as `Á`.
- `day_of_week`, the month and day name tables and `render`: they format and print.
- The `print` in `add_movie` and the command-line entry points.
- Holidays: the API record is reduced to `dia`, `mes`, `motivo`, `tipo`; other keys are ignored by the selection.
