/**
 * The relational storages with the SQL engine replaced by abstract tables: each table is a
 * map from primary key to row, each join table a set of (key, value) pairs, and a generated
 * key the next value of an identity counter.
 */
module Dao {
  import opened Wrappers
  import opened Model
  import opened Collections

  /** A row of the films table. */
  datatype FilmRow = FilmRow(
    name: string,
    description: string,
    duration: int,
    releaseDate: Day,
    mpaRatingId: Option<int>)

  /** The columns a film writes into its row. */
  function RowOf(f: Film): (row: FilmRow)
    ensures row.name == f.name && row.description == f.description
    ensures row.duration == f.duration && row.releaseDate == f.releaseDate
    ensures row.mpaRatingId == (if f.mpa.None? then None else Some(f.mpa.value.id))
  {
    FilmRow(f.name, f.description, f.duration, f.releaseDate,
            if f.mpa.None? then None else Some(f.mpa.value.id))
  }

  /** The film-genre rows one film's genres produce. */
  function GenreRows(filmId: int, gs: seq<Genre>): (rows: set<(int, int)>)
    ensures forall p :: p in rows <==> p.0 == filmId && p.1 in GenreIds(gs)
  {
    set g | g in gs :: (filmId, g.id)
  }

  /** Every join row of a film other than `filmId` is in `after` exactly when it is in `before`. */
  ghost predicate OtherFilmsKept(before: set<(int, int)>, after: set<(int, int)>, filmId: int)
  {
    forall p: (int, int) :: p.0 != filmId ==> (p in after <==> p in before)
  }

  /** Replacing one film's genre rows leaves every other film's rows as they were. */
  lemma ReplaceKeepsOtherFilms(rel: set<(int, int)>, filmId: int, before: seq<Genre>, after: seq<Genre>)
    ensures OtherFilmsKept(rel, (rel - GenreRows(filmId, before)) + GenreRows(filmId, after), filmId)
  {
  }

  lemma {:induction false} GenreRowsStep(filmId: int, gs: seq<Genre>, i: nat)
    requires i < |gs|
    ensures GenreRows(filmId, gs[..i + 1]) == GenreRows(filmId, gs[..i]) + {(filmId, gs[i].id)}
  {
    assert gs[..i + 1] == gs[..i] + [gs[i]];
    assert GenreIds(gs[..i + 1]) == GenreIds(gs[..i]) + {gs[i].id};
  }

  /** Replacing a film's genre rows by the rows of `gs` leaves exactly GenreIds(gs) as its genres. */
  lemma {:induction false} GenreImageAfterReplace(rel: set<(int, int)>, filmId: int, previous: seq<Genre>, gs: seq<Genre>)
    requires GenreIds(previous) == Image(rel, filmId)
    ensures Image((rel - GenreRows(filmId, previous)) + GenreRows(filmId, gs), filmId) == GenreIds(gs)
  {
    var after := (rel - GenreRows(filmId, previous)) + GenreRows(filmId, gs);
    forall v | v in Image(after, filmId) ensures v in GenreIds(gs) {
      assert (filmId, v) in after;
      if (filmId, v) in rel {
        assert v in GenreIds(previous);
      }
    }
    forall v | v in GenreIds(gs) ensures v in Image(after, filmId) {
      assert (filmId, v) in GenreRows(filmId, gs);
    }
  }

  /** Deleting every row of one film removes exactly the rows its genres produce, and leaves
      it with no genres; when it had none, nothing is removed. */
  lemma {:induction false} DeleteFilmRows(rel: set<(int, int)>, filmId: int, gs: seq<Genre>)
    requires GenreIds(gs) == Image(rel, filmId)
    ensures (set p | p in rel && p.0 != filmId) == rel - GenreRows(filmId, gs)
    ensures Image((set p | p in rel && p.0 != filmId), filmId) == {}
    ensures Image(rel, filmId) == {} ==> rel - GenreRows(filmId, gs) == rel
  {
    var kept := set p | p in rel && p.0 != filmId;
    forall p | p in rel ensures p in kept <==> p !in GenreRows(filmId, gs) {
      if p.0 == filmId {
        assert p.1 in Image(rel, filmId);
      }
    }
  }

  /** Genres for the given ids, each named from the reference table, in the same order. */
  function NamedGenres(ids: seq<int>, table: map<int, string>): (gs: seq<Genre>)
    requires forall i :: 0 <= i < |ids| ==> ids[i] in table
    ensures |gs| == |ids|
    ensures forall i :: 0 <= i < |gs| ==> gs[i] == Genre(ids[i], Some(table[ids[i]]))
  {
    seq(|ids|, i requires 0 <= i < |ids| => Genre(ids[i], Some(table[ids[i]])))
  }

  /** The named genres carry exactly the given ids, each with its name from the table. */
  lemma {:induction false} NamedGenresIds(ids: seq<int>, table: map<int, string>)
    requires forall i :: 0 <= i < |ids| ==> ids[i] in table
    ensures GenreIds(NamedGenres(ids, table)) == set id | id in ids
    ensures forall g :: g in NamedGenres(ids, table) ==> g.id in table && g.name == Some(table[g.id])
  {
    var gs := NamedGenres(ids, table);
    forall id | id in GenreIds(gs) ensures id in ids {
      var g :| g in gs && g.id == id;
      var i :| 0 <= i < |gs| && gs[i] == g;
      assert ids[i] == id;
    }
    forall id | id in ids ensures id in GenreIds(gs) {
      var i :| 0 <= i < |ids| && ids[i] == id;
      assert gs[i] in gs;
    }
    forall g | g in gs ensures g.id in table && g.name == Some(table[g.id]) {
      var i :| 0 <= i < |gs| && gs[i] == g;
    }
  }

  /** Sorting a set of known genre ids yields only known ids. */
  lemma {:induction false} SortedIdsKnown(s: set<int>, table: map<int, string>)
    requires s <= table.Keys
    ensures forall i :: 0 <= i < |SortedAscending(s)| ==> SortedAscending(s)[i] in table
  {
    var ids := SortedAscending(s);
    forall i | 0 <= i < |ids| ensures ids[i] in table {
      assert ids[i] in s;
    }
  }

  /** Genres named for a sorted set of ids come in strictly ascending id order. */
  lemma {:induction false} SortedNamedGenresAscend(s: set<int>, table: map<int, string>)
    requires s <= table.Keys
    ensures forall i :: 0 <= i < |SortedAscending(s)| ==> SortedAscending(s)[i] in table
    ensures var gs := NamedGenres(SortedAscending(s), table);
      forall i, j :: 0 <= i < j < |gs| ==> gs[i].id < gs[j].id
  {
    SortedIdsKnown(s, table);
    var ids := SortedAscending(s);
    var gs := NamedGenres(ids, table);
    forall i, j | 0 <= i < j < |gs| ensures gs[i].id < gs[j].id {
      assert gs[i].id == ids[i] && gs[j].id == ids[j];
    }
  }

  /** Genres named for a sorted set of ids carry exactly that set of ids, named from the table. */
  lemma {:induction false} SortedNamedGenresIds(s: set<int>, table: map<int, string>)
    requires s <= table.Keys
    ensures forall i :: 0 <= i < |SortedAscending(s)| ==> SortedAscending(s)[i] in table
    ensures GenreIds(NamedGenres(SortedAscending(s), table)) == s
    ensures forall g :: g in NamedGenres(SortedAscending(s), table) ==> g.id in table && g.name == Some(table[g.id])
  {
    SortedIdsKnown(s, table);
    var ids := SortedAscending(s);
    NamedGenresIds(ids, table);
    assert (set id | id in ids) == s;
  }

  /** The genres one film has in a join table, sorted by ascending id and named from the
      reference table. */
  function GenresOf(rel: set<(int, int)>, filmId: int, table: map<int, string>): (gs: seq<Genre>)
    requires forall p :: p in rel ==> p.1 in table
    ensures forall i, j :: 0 <= i < j < |gs| ==> gs[i].id < gs[j].id
    ensures GenreIds(gs) == Image(rel, filmId)
    ensures forall g :: g in gs ==> g.id in table && g.name == Some(table[g.id])
  {
    var img := Image(rel, filmId);
    ImageWithin(rel, filmId, table.Keys);
    SortedIdsKnown(img, table);
    SortedNamedGenresAscend(img, table);
    SortedNamedGenresIds(img, table);
    NamedGenres(SortedAscending(img), table)
  }

  /** Popularity ranking: pairwise non-increasing by `likes`, and nothing left out has more
      likes than anything taken. No order is fixed among films with equal counts. */
  ghost predicate RankedByLikes(ids: seq<int>, universe: set<int>, likes: map<int, int>)
    requires universe <= likes.Keys
  {
    && (forall i :: 0 <= i < |ids| ==> ids[i] in universe)
    && (forall i, j :: 0 <= i < j < |ids| ==> ids[i] != ids[j])
    && (forall i, j :: 0 <= i < j < |ids| ==> likes[ids[i]] >= likes[ids[j]])
    && (forall i, x :: 0 <= i < |ids| && x in universe && x !in ids ==> likes[ids[i]] >= likes[x])
  }

  /** Selection by repeatedly taking a remaining film with the most likes. */
  method RankByLikes(universe: set<int>, likes: map<int, int>, count: nat) returns (ids: seq<int>)
    requires universe <= likes.Keys
    ensures |ids| == if count < |universe| then count else |universe|
    ensures RankedByLikes(ids, universe, likes)
  {
    var remaining := universe;
    ids := [];
    while |ids| < count && remaining != {}
      invariant remaining <= universe
      invariant forall x :: x in universe ==> (x in remaining <==> x !in ids)
      invariant forall i :: 0 <= i < |ids| ==> ids[i] in universe
      invariant |ids| + |remaining| == |universe|
      invariant |ids| <= count
      invariant forall i, j :: 0 <= i < j < |ids| ==> ids[i] != ids[j]
      invariant forall i, j :: 0 <= i < j < |ids| ==> likes[ids[i]] >= likes[ids[j]]
      invariant forall i, x :: 0 <= i < |ids| && x in remaining ==> likes[ids[i]] >= likes[x]
      decreases remaining
    {
      var counts := set y | y in remaining :: likes[y];
      ghost var w := Element(remaining);
      assert likes[w] in counts;
      var best := MaxOf(counts);
      var x :| x in remaining && likes[x] == best;
      assert forall y :: y in remaining ==> likes[y] in counts;
      ids := ids + [x];
      remaining := remaining - {x};
    }
  }

  class FilmDbStorage {
    /** The genres reference table: id to name. */
    const genreTable: map<int, string>
    /** The mpa_ratings reference table: id to name. */
    const mpaTable: map<int, string>
    /** The films table. */
    var films: map<int, FilmRow>
    /** films_genres as (film_id, genre_id) pairs. */
    var filmsGenres: set<(int, int)>
    /** films_likes as (film_id, user_id) pairs. */
    var filmsLikes: set<(int, int)>
    /** The next value of the films identity column. */
    var nextKey: int

    /** Keys are positive and below the identity counter; every genre and MPA reference
        points into its reference table. */
    ghost predicate Valid()
      reads this
    {
      && nextKey > 0
      && (forall id :: id in films ==> 0 < id < nextKey)
      && (forall p :: p in filmsGenres ==> p.0 in films && p.1 in genreTable)
      && (forall id :: id in films && films[id].mpaRatingId.Some? ==>
            films[id].mpaRatingId.value in mpaTable)
    }

    constructor (genreTable: map<int, string>, mpaTable: map<int, string>)
      ensures Valid()
      ensures this.genreTable == genreTable && this.mpaTable == mpaTable
      ensures films == map[] && filmsGenres == {} && filmsLikes == {}
    {
      this.genreTable := genreTable;
      this.mpaTable := mpaTable;
      films, filmsGenres, filmsLikes, nextKey := map[], {}, {}, 1;
    }

    // ------------------------------------------------------------ reference checks

    /** checkFilmMpaValid: a supplied MPA must be in the reference list (compared by id). */
    function CheckFilmMpaValid(f: Film): (r: Outcome<Error>)
      ensures r.Pass? <==> f.mpa.None? || f.mpa.value.id in mpaTable
      ensures r.Fail? ==> r.error == NotFoundException(MpaMissing)
    {
      if f.mpa.None? then Pass
      else if f.mpa.value.id !in mpaTable then Fail(NotFoundException(MpaMissing))
      else Pass
    }

    /** The forEach of checkFilmGenresValid: throws at the first genre not in the list. */
    function CheckGenresKnown(gs: seq<Genre>): (r: Outcome<Error>)
      ensures r.Pass? <==> forall g :: g in gs ==> g.id in genreTable
      ensures r.Fail? ==> r.error == NotFoundException(GenreMissing)
    {
      if gs == [] then Pass
      else if gs[0].id !in genreTable then Fail(NotFoundException(GenreMissing))
      else
        var rest := CheckGenresKnown(gs[1..]);
        assert forall g :: g in gs ==> g == gs[0] || g in gs[1..];
        rest
    }

    /** checkFilmGenresValid: every supplied genre must be in the reference list. */
    function CheckFilmGenresValid(f: Film): (r: Outcome<Error>)
      ensures r.Pass? <==> f.genres.None? || GenreIds(f.genres.value) <= genreTable.Keys
      ensures r.Fail? ==> r.error == NotFoundException(GenreMissing)
    {
      if f.genres.None? || |f.genres.value| == 0 then Pass
      else CheckGenresKnown(f.genres.value)
    }

    // ------------------------------------------------------------ enrichment

    /** The film the row mapper builds: likes, genres and MPA left null. */
    function RowToFilm(id: int): (f: Film)
      reads this
      requires id in films
      ensures f.id == id && RowOf(f) == films[id].(mpaRatingId := None)
      ensures f.likes.None? && f.genres.None? && f.mpa.None?
    {
      var row := films[id];
      Film(id, row.name, row.description, row.releaseDate, row.duration, None, None, None)
    }

    /** getFilmGenres: the film's genres with their names, sorted by ascending id. */
    function GetFilmGenres(filmId: int): (gs: seq<Genre>)
      reads this
      requires Valid()
      ensures forall i, j :: 0 <= i < j < |gs| ==> gs[i].id < gs[j].id
      ensures GenreIds(gs) == Image(filmsGenres, filmId)
      ensures forall g :: g in gs ==> g.id in genreTable && g.name == Some(genreTable[g.id])
    {
      GenresOf(filmsGenres, filmId, genreTable)
    }

    /** getFilmMpaRating: null when the row has no MPA id, otherwise the rating and its name. */
    function GetFilmMpaRating(filmId: int): (m: Option<Mpa>)
      reads this
      requires Valid() && filmId in films
      ensures m.None? <==> films[filmId].mpaRatingId.None?
      ensures m.Some? ==> Some(m.value.id) == films[filmId].mpaRatingId
                          && m.value.name == Some(mpaTable[m.value.id])
    {
      match films[filmId].mpaRatingId
      case None => None
      case Some(mpaId) => Some(Mpa(mpaId, Some(mpaTable[mpaId])))
    }

    /** enrichFilmByAdditionalInfo: genres and MPA re-read from the tables, null likes set to
        empty, every other field kept. */
    function Enrich(f: Film): (g: Film)
      reads this
      requires Valid() && f.id in films
      ensures g.id == f.id && g.name == f.name && g.description == f.description
      ensures g.releaseDate == f.releaseDate && g.duration == f.duration
      ensures g.likes == (if f.likes.None? then Some({}) else f.likes)
      ensures g.genres == Some(GetFilmGenres(f.id))
      ensures g.mpa == GetFilmMpaRating(f.id)
    {
      DefaultLikes(f.(genres := Some(GetFilmGenres(f.id)), mpa := GetFilmMpaRating(f.id)))
    }

    /** The number of likes a film has: COUNT(fl.user_id) of the left join, zero included. */
    function LikeCount(filmId: int): (n: nat)
      reads this
      ensures n == 0 <==> forall u :: (filmId, u) !in filmsLikes
    {
      ImageEmpty(filmsLikes, filmId);
      |Image(filmsLikes, filmId)|
    }

    // ------------------------------------------------------------ queries

    method GetFilmById(id: int) returns (r: Result<Film, Error>)
      requires Valid()
      ensures r.Ok? <==> id in films
      ensures r.Err? ==> r.error == NotFoundException(FilmMissing)
      ensures r.Ok? ==> r.value == Enrich(RowToFilm(id)) && r.value.likes == Some({})
    {
      if id !in films {
        return Err(NotFoundException(FilmMissing));
      }
      return Ok(Enrich(RowToFilm(id)));
    }

    /** The row mapper followed by enrichment, for each id in turn. */
    method EnrichAll(ids: seq<int>) returns (r: seq<Film>)
      requires Valid()
      requires forall i :: 0 <= i < |ids| ==> ids[i] in films
      ensures |r| == |ids|
      ensures forall i :: 0 <= i < |r| ==> r[i].id == ids[i] && r[i] == Enrich(RowToFilm(ids[i]))
    {
      r := [];
      for i := 0 to |ids|
        invariant |r| == i
        invariant forall k :: 0 <= k < i ==> r[k].id == ids[k] && r[k] == Enrich(RowToFilm(ids[k]))
      {
        var film := Enrich(RowToFilm(ids[i]));
        r := r + [film];
      }
    }

    /** One enriched film per row, in the order the engine returns them. */
    method GetFilms() returns (r: seq<Film>)
      requires Valid()
      ensures |r| == |films|
      ensures forall i :: 0 <= i < |r| ==> r[i].id in films && r[i] == Enrich(RowToFilm(r[i].id))
      ensures forall id :: id in films ==> exists i :: 0 <= i < |r| && r[i].id == id
      ensures forall i, j :: 0 <= i < j < |r| ==> r[i].id != r[j].id
    {
      var ids := AnyOrder(films.Keys);
      assert |ids| == |films|;
      r := EnrichAll(ids);
      forall id | id in films ensures exists i :: 0 <= i < |r| && r[i].id == id {
        assert id in ids;
        var i :| 0 <= i < |ids| && ids[i] == id;
        assert r[i].id == id;
      }
    }

    /** getMostPopularFilms: at most `count` films, zero-like films included, ordered by
        non-increasing like count. */
    method GetMostPopularFilms(count: nat) returns (r: seq<Film>)
      requires Valid()
      ensures |r| == if count < |films| then count else |films|
      ensures forall i :: 0 <= i < |r| ==> r[i].id in films && r[i] == Enrich(RowToFilm(r[i].id))
      ensures forall i, j :: 0 <= i < j < |r| ==> r[i].id != r[j].id
      ensures forall i, j :: 0 <= i < j < |r| ==> LikeCount(r[i].id) >= LikeCount(r[j].id)
      ensures forall i, id :: 0 <= i < |r| && id in films && (forall k :: 0 <= k < |r| ==> r[k].id != id)
                ==> LikeCount(r[i].id) >= LikeCount(id)
    {
      var likes := map id | id in films :: LikeCount(id);
      var ids := RankByLikes(films.Keys, likes, count);
      assert |films.Keys| == |films|;
      r := EnrichAll(ids);
      assert forall id :: id in films ==> likes[id] == LikeCount(id);
      forall i, id | 0 <= i < |r| && id in films && (forall k :: 0 <= k < |r| ==> r[k].id != id)
        ensures LikeCount(r[i].id) >= LikeCount(id)
      {
        assert id !in ids by {
          forall k | 0 <= k < |ids| ensures ids[k] != id {
            assert r[k].id == ids[k];
          }
        }
      }
    }

    // ------------------------------------------------------------ updates

    /** addFilm: null is NotFound; an unknown MPA or genre is NotFound with nothing written;
        otherwise a new row under a fresh key and one join row per supplied genre. */
    method AddFilm(f: Option<Film>) returns (r: Result<Film, Error>)
      requires Valid()
      modifies this`films, this`nextKey, this`filmsGenres
      ensures Valid()
      ensures f.None? ==> r == Err(NotFoundException(FilmMissing))
      ensures f.Some? && CheckFilmMpaValid(f.value).Fail? ==> r == Err(CheckFilmMpaValid(f.value).error)
      ensures f.Some? && CheckFilmMpaValid(f.value).Pass? && CheckFilmGenresValid(f.value).Fail? ==>
                r == Err(CheckFilmGenresValid(f.value).error)
      ensures f.Some? && CheckFilmMpaValid(f.value).Pass? && CheckFilmGenresValid(f.value).Pass? ==> r.Ok?
      ensures r.Err? ==> films == old(films) && filmsGenres == old(filmsGenres)
      ensures r.Ok? ==> f.Some? && r.value.id !in old(films) && r.value.id > 0
      ensures r.Ok? ==> films == old(films)[r.value.id := RowOf(f.value)]
      ensures r.Ok? && f.value.genres.Some? ==>
                filmsGenres == old(filmsGenres) + GenreRows(r.value.id, f.value.genres.value)
      ensures r.Ok? && f.value.genres.None? ==> filmsGenres == old(filmsGenres)
      ensures r.Ok? ==> r.value == Enrich(f.value.(id := r.value.id))
    {
      if f.None? {
        return Err(NotFoundException(FilmMissing));
      }
      var film := f.value;
      var mpaCheck := CheckFilmMpaValid(film);
      if mpaCheck.Fail? {
        return Err(mpaCheck.error);
      }
      var genreCheck := CheckFilmGenresValid(film);
      if genreCheck.Fail? {
        return Err(genreCheck.error);
      }
      var id := InsertFilmRow(RowOf(film));
      if film.genres.Some? && |film.genres.value| > 0 {
        InsertGenres(id, film.genres.value);
      } else if film.genres.Some? {
        assert GenreRows(id, film.genres.value) == {};
      }
      r := Ok(Enrich(film.(id := id)));
    }

    /** INSERT INTO films with a generated key. */
    method InsertFilmRow(row: FilmRow) returns (id: int)
      requires Valid()
      requires row.mpaRatingId.Some? ==> row.mpaRatingId.value in mpaTable
      modifies this`films, this`nextKey
      ensures Valid()
      ensures id !in old(films) && id > 0
      ensures films == old(films)[id := row]
    {
      id := nextKey;
      nextKey := nextKey + 1;
      films := films[id := row];
    }

    /** The forEach that inserts one films_genres row per genre. */
    method InsertGenres(filmId: int, gs: seq<Genre>)
      requires Valid() && filmId in films && GenreIds(gs) <= genreTable.Keys
      modifies this`filmsGenres
      ensures Valid()
      ensures filmsGenres == old(filmsGenres) + GenreRows(filmId, gs)
    {
      for i := 0 to |gs|
        invariant Valid()
        invariant filmsGenres == old(filmsGenres) + GenreRows(filmId, gs[..i])
      {
        GenreRowsStep(filmId, gs, i);
        assert gs[i] in gs;
        filmsGenres := filmsGenres + {(filmId, gs[i].id)};
      }
      assert gs[..|gs|] == gs;
    }

    /** The films row updateFilm writes: the film's own columns, except that the stored MPA id
        is kept when the film carries no MPA. */
    function UpdatedRow(f: Film): (row: FilmRow)
      reads this
      requires f.id in films
      ensures row.mpaRatingId == if f.mpa.Some? then Some(f.mpa.value.id) else films[f.id].mpaRatingId
      ensures row.(mpaRatingId := None) == RowOf(f).(mpaRatingId := None)
    {
      if f.mpa.Some? then RowOf(f) else RowOf(f).(mpaRatingId := films[f.id].mpaRatingId)
    }

    /** updateFilm deletes the genre rows of a film only for a non-empty genre set, and that
        delete touches no row when the film has none. */
    predicate GenreDeleteFails(f: Film)
      reads this
    {
      f.genres.Some? && |f.genres.value| > 0 && Image(filmsGenres, f.id) == {}
    }

    /** updateFilm: the same reference checks; the scalar columns rewritten, the MPA column
        only when an MPA is supplied; the genre rows replaced only by a non-empty set. Each
        statement fails when it touches no row, and nothing is rolled back: a missing film
        fails with nothing written, and a non-empty genre set for a film with no genre rows
        fails after its films row has already been rewritten. */
    method UpdateFilm(f: Film) returns (r: Result<Film, Error>)
      requires Valid()
      modifies this`films, this`filmsGenres
      ensures Valid()
      ensures films.Keys == old(films).Keys
      ensures CheckFilmMpaValid(f).Fail? ==> r == Err(CheckFilmMpaValid(f).error)
      ensures CheckFilmMpaValid(f).Pass? && CheckFilmGenresValid(f).Fail? ==>
                r == Err(CheckFilmGenresValid(f).error)
      ensures CheckFilmMpaValid(f).Fail? || CheckFilmGenresValid(f).Fail? ==>
                films == old(films) && filmsGenres == old(filmsGenres)
      ensures CheckFilmMpaValid(f).Pass? && CheckFilmGenresValid(f).Pass? && f.id !in old(films) ==>
                r == Err(StorageFailure) && films == old(films)
      ensures CheckFilmMpaValid(f).Pass? && CheckFilmGenresValid(f).Pass? && f.id in old(films) ==>
                films == old(films)[f.id := old(UpdatedRow(f))]
      ensures CheckFilmMpaValid(f).Pass? && CheckFilmGenresValid(f).Pass? && f.id in old(films) ==>
                r == if old(GenreDeleteFails(f)) then Err(StorageFailure) else Ok(Enrich(f))
      ensures r.Err? ==> filmsGenres == old(filmsGenres)
      ensures r.Err? && r.error.StorageFailure? ==>
                CheckFilmMpaValid(f).Pass? && CheckFilmGenresValid(f).Pass?
                && (f.id !in old(films) || old(GenreDeleteFails(f)))
      ensures r.Ok? && f.genres.Some? && |f.genres.value| > 0 ==>
                filmsGenres == (old(filmsGenres) - GenreRows(f.id, old(GetFilmGenres(f.id))))
                               + GenreRows(f.id, f.genres.value)
      ensures r.Ok? && f.genres.Some? && |f.genres.value| > 0 ==> Image(filmsGenres, f.id) == GenreIds(f.genres.value)
      ensures r.Ok? && (f.genres.None? || |f.genres.value| == 0) ==> filmsGenres == old(filmsGenres)
      ensures r.Ok? ==> OtherFilmsKept(old(filmsGenres), filmsGenres, f.id)
      ensures r.Ok? ==> r.value == Enrich(f)
    {
      var mpaCheck := CheckFilmMpaValid(f);
      if mpaCheck.Fail? {
        return Err(mpaCheck.error);
      }
      var genreCheck := CheckFilmGenresValid(f);
      if genreCheck.Fail? {
        return Err(genreCheck.error);
      }
      if f.id !in films {
        return Err(StorageFailure);
      }
      films := films[f.id := UpdatedRow(f)];
      if f.genres.Some? && |f.genres.value| > 0 {
        var replaced := ReplaceGenres(f.id, f.genres.value);
        if replaced.Fail? {
          return Err(replaced.error);
        }
      }
      r := Ok(Enrich(f));
    }

    /** The genre half of updateFilm: delete the film's genre rows, failing when there are
        none, then insert one row per genre of `gs`. */
    method ReplaceGenres(filmId: int, gs: seq<Genre>) returns (r: Outcome<Error>)
      requires Valid() && filmId in films && GenreIds(gs) <= genreTable.Keys
      modifies this`filmsGenres
      ensures Valid()
      ensures r.Pass? <==> Image(old(filmsGenres), filmId) != {}
      ensures r.Fail? ==> r.error == StorageFailure && filmsGenres == old(filmsGenres)
      ensures r.Pass? ==>
                filmsGenres == (old(filmsGenres) - GenreRows(filmId, old(GetFilmGenres(filmId)))) + GenreRows(filmId, gs)
      ensures r.Pass? ==> Image(filmsGenres, filmId) == GenreIds(gs)
      ensures r.Pass? ==> OtherFilmsKept(old(filmsGenres), filmsGenres, filmId)
    {
      ghost var before := filmsGenres;
      ghost var oldGenres := GetFilmGenres(filmId);
      r := DeleteGenres(filmId);
      if r.Fail? {
        return;
      }
      InsertGenres(filmId, gs);
      GenreImageAfterReplace(before, filmId, oldGenres, gs);
      ReplaceKeepsOtherFilms(before, filmId, oldGenres, gs);
    }

    /** DELETE FROM films_genres WHERE film_id = ?, which fails when the film has no genre rows. */
    method DeleteGenres(filmId: int) returns (r: Outcome<Error>)
      requires Valid()
      modifies this`filmsGenres
      ensures Valid()
      ensures r.Pass? <==> Image(old(filmsGenres), filmId) != {}
      ensures r.Fail? ==> r.error == StorageFailure
      ensures filmsGenres == old(filmsGenres) - GenreRows(filmId, old(GetFilmGenres(filmId)))
      ensures Image(filmsGenres, filmId) == {}
    {
      DeleteFilmRows(filmsGenres, filmId, GetFilmGenres(filmId));
      if Image(filmsGenres, filmId) == {} {
        return Fail(StorageFailure);
      }
      filmsGenres := set p | p in filmsGenres && p.0 != filmId;
      return Pass;
    }

    /** addLike: inserts the pair (film, user). */
    method AddLike(filmId: int, userId: int)
      requires Valid()
      modifies this`filmsLikes
      ensures Valid()
      ensures filmsLikes == old(filmsLikes) + {(filmId, userId)}
    {
      filmsLikes := filmsLikes + {(filmId, userId)};
    }

    /** removeLike: deletes exactly the pair (film, user), and fails when there is no such pair. */
    method RemoveLike(filmId: int, userId: int) returns (r: Outcome<Error>)
      requires Valid()
      modifies this`filmsLikes
      ensures Valid()
      ensures r.Pass? <==> (filmId, userId) in old(filmsLikes)
      ensures r.Fail? ==> r.error == StorageFailure
      ensures filmsLikes == old(filmsLikes) - {(filmId, userId)}
    {
      if (filmId, userId) !in filmsLikes {
        return Fail(StorageFailure);
      }
      filmsLikes := filmsLikes - {(filmId, userId)};
      return Pass;
    }
  }

  /** A new like raises that film's count by one and leaves every other film's count. */
  lemma {:induction false} LikeCountAfterAdd(likes: set<(int, int)>, filmId: int, userId: int, other: int)
    requires (filmId, userId) !in likes
    ensures |Image(likes + {(filmId, userId)}, filmId)| == |Image(likes, filmId)| + 1
    ensures other != filmId ==> |Image(likes + {(filmId, userId)}, other)| == |Image(likes, other)|
  {
    ImageAfterInsert(likes, filmId, userId, other);
  }

  /** Removing an existing like lowers that film's count by one and leaves every other film's. */
  lemma {:induction false} LikeCountAfterRemove(likes: set<(int, int)>, filmId: int, userId: int, other: int)
    requires (filmId, userId) in likes
    ensures |Image(likes - {(filmId, userId)}, filmId)| == |Image(likes, filmId)| - 1
    ensures other != filmId ==> |Image(likes - {(filmId, userId)}, other)| == |Image(likes, other)|
  {
    ImageAfterDelete(likes, filmId, userId, other);
  }

  // ---------------------------------------------------------------- users

  /** A row of the users table. */
  datatype UserRow = UserRow(name: Option<string>, email: Option<string>, login: string, birthday: Option<Day>)

  /** The columns a user writes into its row; the friend set is not a column. */
  function UserRowOf(u: User): (row: UserRow)
    ensures row.name == u.name && row.email == u.email && row.login == u.login && row.birthday == u.birthday
  {
    UserRow(u.name, u.email, u.login, u.birthday)
  }

  class UserDbStorage {
    /** The users table. */
    var users: map<int, UserRow>
    /** users_friendship as directed (user_id, friend_id) pairs. */
    var friendship: set<(int, int)>
    /** The next value of the users identity column. */
    var nextKey: int

    ghost predicate Valid()
      reads this
    {
      nextKey > 0 && forall id :: id in users ==> 0 < id < nextKey
    }

    constructor ()
      ensures Valid() && users == map[] && friendship == {}
    {
      users, friendship, nextKey := map[], {}, 1;
    }

    /** getUserFriends: the ids this user has outgoing friendship rows to. */
    function GetUserFriends(userId: int): (fs: set<int>)
      reads this
      ensures forall f :: f in fs <==> (userId, f) in friendship
    {
      Image(friendship, userId)
    }

    /** getUserById: NotFound without a row, otherwise the row with its friend set attached. */
    method GetUserById(id: int) returns (r: Result<User, Error>)
      requires Valid()
      ensures r.Ok? <==> id in users
      ensures r.Err? ==> r.error == NotFoundException(UserMissing)
      ensures r.Ok? ==> r.value.id == id && UserRowOf(r.value) == users[id]
                        && r.value.friends == Some(GetUserFriends(id))
    {
      if id !in users {
        return Err(NotFoundException(UserMissing));
      }
      var row := users[id];
      return Ok(User(id, row.name, row.email, row.login, row.birthday, Some(GetUserFriends(id))));
    }

    /** getUsers: one user per row; the row mapper gives every listed user an empty friend set. */
    method GetUsers() returns (r: seq<User>)
      requires Valid()
      ensures |r| == |users|
      ensures forall i :: 0 <= i < |r| ==>
                r[i].id in users && UserRowOf(r[i]) == users[r[i].id] && r[i].friends == Some({})
      ensures forall id :: id in users ==> exists i :: 0 <= i < |r| && r[i].id == id
      ensures forall i, j :: 0 <= i < j < |r| ==> r[i].id != r[j].id
    {
      var ids := AnyOrder(users.Keys);
      r := [];
      for i := 0 to |ids|
        invariant |r| == i
        invariant forall k :: 0 <= k < i ==>
                    r[k].id == ids[k] && UserRowOf(r[k]) == users[ids[k]] && r[k].friends == Some({})
      {
        var row := users[ids[i]];
        r := r + [User(ids[i], row.name, row.email, row.login, row.birthday, Some({}))];
      }
      assert forall id :: id in users ==> id in ids;
    }

    /** addUser: a new row under a generated key; a null friend set becomes empty, and no
        friendship row is written. */
    method AddUser(u: User) returns (r: User)
      requires Valid()
      modifies this
      ensures Valid()
      ensures r.id !in old(users) && r.id > 0
      ensures users == old(users)[r.id := UserRowOf(u)]
      ensures friendship == old(friendship)
      ensures r == DefaultFriends(u.(id := r.id))
    {
      var id := nextKey;
      nextKey := nextKey + 1;
      users := users[id := UserRowOf(u)];
      r := DefaultFriends(u.(id := id));
    }

    /** updateUser: rewrites name, email, login and birthday of the row with the user's id, and
        fails when there is no such row; the friendship table is not touched. */
    method UpdateUser(u: User) returns (r: Result<User, Error>)
      requires Valid()
      modifies this`users
      ensures Valid()
      ensures r.Ok? <==> u.id in old(users)
      ensures r.Err? ==> r.error == StorageFailure && users == old(users)
      ensures r.Ok? ==> users == old(users)[u.id := UserRowOf(u)] && r.value == DefaultFriends(u)
    {
      if u.id !in users {
        return Err(StorageFailure);
      }
      users := users[u.id := UserRowOf(u)];
      r := Ok(DefaultFriends(u));
    }

    /** addFriends: inserts the single directed row (user, friend). */
    method AddFriends(userId: int, friendId: int)
      requires Valid()
      modifies this`friendship
      ensures Valid()
      ensures friendship == old(friendship) + {(userId, friendId)}
    {
      friendship := friendship + {(userId, friendId)};
    }

    /** removeFriends: deletes the single directed row (user, friend). */
    method RemoveFriends(userId: int, friendId: int)
      requires Valid()
      modifies this`friendship
      ensures Valid()
      ensures friendship == old(friendship) - {(userId, friendId)}
    {
      friendship := friendship - {(userId, friendId)};
    }
  }

  /** Friendship rows are directed: adding (u, f) makes f a friend of u and changes nobody
      else's friends, so u does not become a friend of f. */
  lemma {:induction false} AddFriendsIsDirected(rel: set<(int, int)>, u: int, f: int)
    requires u != f
    ensures Image(rel + {(u, f)}, u) == Image(rel, u) + {f}
    ensures Image(rel + {(u, f)}, f) == Image(rel, f)
    ensures u in Image(rel + {(u, f)}, f) <==> (f, u) in rel
  {
    ImageAfterInsert(rel, u, f, f);
  }

  /** Removing (u, f) drops f from u's friends and changes nobody else's friends. */
  lemma {:induction false} RemoveFriendsIsDirected(rel: set<(int, int)>, u: int, f: int)
    requires u != f
    ensures Image(rel - {(u, f)}, u) == Image(rel, u) - {f}
    ensures Image(rel - {(u, f)}, f) == Image(rel, f)
  {
    ImageAfterDelete(rel, u, f, f);
  }
}
