/**
 * FilmService and UserService: the validation rules every new or updated entity must pass,
 * the fetch-merge-validate-store update, the like and friend operations, and the
 * common-friends query.
 */
module Service {
  import opened Wrappers
  import opened Model
  import opened Collections
  import opened Dto
  import opened Mapper
  import Storage
  import Dao

  // ---------------------------------------------------------------- film validation

  /** checkIsValidFilm: the rules in their fixed order; the first one broken is reported. */
  function CheckIsValidFilm(f: Option<Film>): (r: Outcome<Error>)
    ensures r.Pass? <==>
              && f.Some?
              && !IsBlank(f.value.name)
              && Utf16Length(f.value.description) <= FilmDescriptionLength
              && f.value.releaseDate >= EarliestReleaseDate
              && f.value.duration > 0
    ensures f.None? ==> r == Fail(ValidationException(NullFilm))
    ensures f.Some? && IsBlank(f.value.name) ==> r == Fail(ValidationException(BlankName))
    ensures f.Some? && !IsBlank(f.value.name) && Utf16Length(f.value.description) > FilmDescriptionLength ==>
              r == Fail(ValidationException(DescriptionTooLong))
    ensures f.Some? && !IsBlank(f.value.name) && Utf16Length(f.value.description) <= FilmDescriptionLength
              && f.value.releaseDate < EarliestReleaseDate ==>
              r == Fail(ValidationException(ReleaseTooEarly))
    ensures r.Fail? ==> r.error.ValidationException?
  {
    if f.None? then Fail(ValidationException(NullFilm))
    else if IsBlank(f.value.name) then Fail(ValidationException(BlankName))
    else if Utf16Length(f.value.description) > FilmDescriptionLength then Fail(ValidationException(DescriptionTooLong))
    else if f.value.releaseDate < EarliestReleaseDate then Fail(ValidationException(ReleaseTooEarly))
    else if f.value.duration <= 0 then Fail(ValidationException(NonPositiveDuration))
    else Pass
  }

  /** A description of exactly 200 UTF-16 code units passes the length rule and one more fails
      it; 101 characters beyond U+FFFF already fail it, and 200 characters inside it pass. */
  lemma DescriptionBoundary(f: Film)
    requires !IsBlank(f.name) && f.releaseDate >= EarliestReleaseDate && f.duration > 0
    ensures Utf16Length(f.description) == 200 ==> CheckIsValidFilm(Some(f)).Pass?
    ensures Utf16Length(f.description) == 201 ==>
              CheckIsValidFilm(Some(f)) == Fail(ValidationException(DescriptionTooLong))
    ensures |f.description| == 101 && (forall i :: 0 <= i < |f.description| ==> f.description[i] >= '\U{10000}') ==>
              CheckIsValidFilm(Some(f)) == Fail(ValidationException(DescriptionTooLong))
    ensures |f.description| == 200 && (forall i :: 0 <= i < |f.description| ==> f.description[i] < '\U{10000}') ==>
              CheckIsValidFilm(Some(f)).Pass?
  {
  }

  /** 1895-12-28 itself passes the release-date rule; the day before fails it. */
  lemma ReleaseDateBoundary(f: Film)
    requires !IsBlank(f.name) && Utf16Length(f.description) <= 200 && f.duration > 0
    ensures f.releaseDate == EarliestReleaseDate ==> CheckIsValidFilm(Some(f)).Pass?
    ensures f.releaseDate == EarliestReleaseDate - 1 ==>
              CheckIsValidFilm(Some(f)) == Fail(ValidationException(ReleaseTooEarly))
  {
  }

  /** The id and the likes play no part in film validation. */
  lemma FilmValidityIgnoresIdAndLikes(f: Film, id: int, likes: Option<set<int>>)
    ensures CheckIsValidFilm(Some(f.(id := id, likes := likes))) == CheckIsValidFilm(Some(f))
  {
  }

  // ---------------------------------------------------------------- user validation

  /** checkIsValidUser with the clock read passed in as `today`: a null user is NotFound, a
      login with a space or a birthday after today is a validation error; a valid user comes
      back with a null or empty name replaced by the login. */
  function CheckIsValidUser(u: Option<User>, today: Day): (r: Result<User, Error>)
    ensures r.Ok? <==>
              && u.Some?
              && !ContainsSpace(u.value.login)
              && (u.value.birthday.None? || u.value.birthday.value <= today)
    ensures u.None? ==> r == Err(NotFoundException(NullUser))
    ensures u.Some? && ContainsSpace(u.value.login) ==> r == Err(ValidationException(LoginWithSpace))
    ensures u.Some? && !ContainsSpace(u.value.login) && u.value.birthday.Some? && u.value.birthday.value > today ==>
              r == Err(ValidationException(BirthdayInFuture))
    ensures r.Ok? ==> r.value.name.Some?
    ensures r.Ok? && (u.value.name.None? || IsEmpty(u.value.name.value)) ==>
              r.value == u.value.(name := Some(u.value.login))
    ensures r.Ok? && u.value.name.Some? && !IsEmpty(u.value.name.value) ==> r.value == u.value
  {
    if u.None? then Err(NotFoundException(NullUser))
    else if ContainsSpace(u.value.login) then Err(ValidationException(LoginWithSpace))
    else if u.value.birthday.Some? && u.value.birthday.value > today then Err(ValidationException(BirthdayInFuture))
    else if u.value.name.None? || IsEmpty(u.value.name.value) then Ok(u.value.(name := Some(u.value.login)))
    else Ok(u.value)
  }

  /** A user that passed validation passes it again unchanged. */
  lemma {:induction false} CheckIsValidUserIdempotent(u: Option<User>, today: Day)
    requires CheckIsValidUser(u, today).Ok?
    ensures CheckIsValidUser(Some(CheckIsValidUser(u, today).value), today) == CheckIsValidUser(u, today)
  {
    var v := CheckIsValidUser(u, today).value;
    if u.value.name.None? || IsEmpty(u.value.name.value) {
      if IsEmpty(u.value.login) {
        assert v.name == Some(u.value.login);
      }
    }
  }

  /** A name of blanks only is kept: the rule tests for empty, not for blank. */
  lemma BlankNameIsKept(u: User, today: Day)
    requires !ContainsSpace(u.login) && (u.birthday.None? || u.birthday.value <= today)
    requires u.name == Some(['\t'])
    ensures CheckIsValidUser(Some(u), today) == Ok(u)
  {
  }

  // ---------------------------------------------------------------- common friends

  /** `ys` keeps some of the elements of `xs`, in the same relative order. */
  predicate IsSubsequence(ys: seq<User>, xs: seq<User>)
    decreases |xs|
  {
    || ys == []
    || (&& xs != []
        && ((ys[0] == xs[0] && IsSubsequence(ys[1..], xs[1..])) || IsSubsequence(ys, xs[1..])))
  }

  /** The stream filter of getCommonFriends: the users of `first` that `second` contains,
      where containment compares ids, as User's equals does. */
  function CommonFriends(first: seq<User>, second: seq<User>): (r: seq<User>)
    ensures forall u :: u in r <==> u in first && u.id in UserIds(second)
    ensures IsSubsequence(r, first)
    ensures first == [] || second == [] ==> r == []
  {
    if first == [] then []
    else
      var rest := CommonFriends(first[1..], second);
      assert forall u :: u in first <==> u == first[0] || u in first[1..];
      if first[0].id in UserIds(second) then
        var r := [first[0]] + rest;
        assert r[1..] == rest;
        r
      else
        rest
  }

  /** No two users of the list share an id. */
  predicate DistinctIds(us: seq<User>)
  {
    forall i, j :: 0 <= i < j < |us| ==> us[i].id != us[j].id
  }

  /** Dropping the head of a list keeps its ids distinct. */
  lemma {:induction false} DistinctIdsTail(us: seq<User>)
    requires us != [] && DistinctIds(us)
    ensures DistinctIds(us[1..])
  {
    var tail := us[1..];
    forall i, j | 0 <= i < j < |tail| ensures tail[i].id != tail[j].id {
      assert tail[i] == us[i + 1] && tail[j] == us[j + 1];
    }
  }

  /** A user whose id no user of a distinct-id list has can be put in front of it. */
  lemma {:induction false} DistinctIdsCons(u: User, us: seq<User>)
    requires DistinctIds(us) && forall v :: v in us ==> v.id != u.id
    ensures DistinctIds([u] + us)
  {
    var r := [u] + us;
    forall i, j | 0 <= i < j < |r| ensures r[i].id != r[j].id {
      assert r[j] == us[j - 1];
      if i == 0 {
        assert us[j - 1] in us;
      } else {
        assert r[i] == us[i - 1];
      }
    }
  }

  /** No user the filter keeps from the tail of a distinct-id list shares the head's id. */
  lemma {:induction false} CommonTailAvoidsHead(first: seq<User>, second: seq<User>)
    requires first != [] && DistinctIds(first)
    ensures forall u :: u in CommonFriends(first[1..], second) ==> u.id != first[0].id
  {
    var tail := first[1..];
    forall u | u in CommonFriends(tail, second) ensures u.id != first[0].id {
      assert u in tail;
      var m :| 0 <= m < |tail| && tail[m] == u;
      assert first[m + 1] == u;
    }
  }

  /** The filter keeps users of `first` only, in order, so ids that were distinct stay distinct. */
  lemma {:induction false} CommonFriendsKeepsDistinctIds(first: seq<User>, second: seq<User>)
    requires DistinctIds(first)
    ensures DistinctIds(CommonFriends(first, second))
    decreases |first|
  {
    if first != [] {
      DistinctIdsTail(first);
      CommonFriendsKeepsDistinctIds(first[1..], second);
      if first[0].id in UserIds(second) {
        CommonTailAvoidsHead(first, second);
        DistinctIdsCons(first[0], CommonFriends(first[1..], second));
      }
    }
  }

  // ---------------------------------------------------------------- FilmService

  /** For a merge whose genres are the request's when it supplies some and the stored ones
      otherwise, the storage's genre branch is taken exactly when the merge has genres, and its
      delete fails exactly when the request supplies genres for a film that has none. */
  lemma {:induction false} MergedGenresAgree(req: UpdateFilmRequest, merged: Film, rel: set<(int, int)>)
    requires merged.id == req.id
    requires req.HasGenres() ==> merged.genres == req.genres
    requires !req.HasGenres() ==> merged.genres.Some? && GenreIds(merged.genres.value) == Image(rel, req.id)
    ensures (merged.genres.Some? && |merged.genres.value| > 0 && Image(rel, merged.id) == {})
            <==> (req.HasGenres() && Image(rel, req.id) == {})
    ensures merged.genres.Some? && |merged.genres.value| > 0 ==>
              GenreIds(merged.genres.value) == if req.HasGenres() then GenreIds(req.genres.value) else Image(rel, req.id)
    ensures !(merged.genres.Some? && |merged.genres.value| > 0) ==> !req.HasGenres() && Image(rel, req.id) == {}
  {
    if merged.genres.Some? && |merged.genres.value| > 0 {
      assert merged.genres.value[0].id in GenreIds(merged.genres.value);
    }
  }

  class FilmService {
    const filmStorage: Dao.FilmDbStorage
    const userStorage: Dao.UserDbStorage

    ghost predicate Valid()
      reads filmStorage, userStorage
    {
      filmStorage.Valid() && userStorage.Valid()
    }

    constructor (filmStorage: Dao.FilmDbStorage, userStorage: Dao.UserDbStorage)
      ensures this.filmStorage == filmStorage && this.userStorage == userStorage
    {
      this.filmStorage := filmStorage;
      this.userStorage := userStorage;
    }

    /** The film updateFilm would store: the stored film, enriched, merged with the request. */
    ghost function Merged(req: UpdateFilmRequest): Film
      reads filmStorage
      requires filmStorage.Valid() && req.id in filmStorage.films
    {
      UpdateFilmFields(filmStorage.Enrich(filmStorage.RowToFilm(req.id)), req)
    }

    method GetFilmById(id: int) returns (r: Result<FilmDto, Error>)
      requires Valid()
      ensures r.Ok? <==> id in filmStorage.films
      ensures r.Err? ==> r.error == NotFoundException(FilmMissing)
      ensures r.Ok? ==> r.value == MapToFilmDto(filmStorage.Enrich(filmStorage.RowToFilm(id)))
    {
      var f := filmStorage.GetFilmById(id);
      if f.Err? {
        return Err(f.error);
      }
      return Ok(MapToFilmDto(f.value));
    }

    /** Every stored film, as responses. */
    method GetFilms() returns (r: seq<FilmDto>)
      requires Valid()
      ensures |r| == |filmStorage.films|
      ensures forall i :: 0 <= i < |r| ==>
                r[i].id in filmStorage.films && r[i] == MapToFilmDto(filmStorage.Enrich(filmStorage.RowToFilm(r[i].id)))
      ensures forall i, j :: 0 <= i < j < |r| ==> r[i].id != r[j].id
    {
      var films := filmStorage.GetFilms();
      r := MapAllToDto(films);
    }

    /** stream().map(FilmMapper::mapToFilmDto). */
    static method MapAllToDto(films: seq<Film>) returns (r: seq<FilmDto>)
      ensures |r| == |films|
      ensures forall i :: 0 <= i < |r| ==> r[i] == MapToFilmDto(films[i])
    {
      r := [];
      for i := 0 to |films|
        invariant |r| == i
        invariant forall k :: 0 <= k < i ==> r[k] == MapToFilmDto(films[k])
      {
        r := r + [MapToFilmDto(films[i])];
      }
    }

    /** addFilm: validation first; a valid film goes to the storage, which may still refuse an
        unknown MPA or genre. */
    method AddFilm(req: NewFilmRequest) returns (r: Result<FilmDto, Error>)
      requires Valid()
      modifies filmStorage
      ensures Valid()
      ensures CheckIsValidFilm(Some(MapToFilm(req))).Fail? ==>
                r == Err(CheckIsValidFilm(Some(MapToFilm(req))).error)
      ensures CheckIsValidFilm(Some(MapToFilm(req))).Pass? && filmStorage.CheckFilmMpaValid(MapToFilm(req)).Fail? ==>
                r == Err(NotFoundException(MpaMissing))
      ensures (&& CheckIsValidFilm(Some(MapToFilm(req))).Pass?
               && filmStorage.CheckFilmMpaValid(MapToFilm(req)).Pass?
               && filmStorage.CheckFilmGenresValid(MapToFilm(req)).Fail?) ==>
                r == Err(NotFoundException(GenreMissing))
      ensures (&& CheckIsValidFilm(Some(MapToFilm(req))).Pass?
               && filmStorage.CheckFilmMpaValid(MapToFilm(req)).Pass?
               && filmStorage.CheckFilmGenresValid(MapToFilm(req)).Pass?) ==> r.Ok?
      ensures r.Err? ==> filmStorage.films == old(filmStorage.films)
                         && filmStorage.filmsGenres == old(filmStorage.filmsGenres)
      ensures r.Ok? ==> CheckIsValidFilm(Some(MapToFilm(req))).Pass?
      ensures r.Ok? ==> r.value.id !in old(filmStorage.films)
                        && filmStorage.films == old(filmStorage.films)[r.value.id := Dao.RowOf(MapToFilm(req))]
      ensures r.Ok? ==> filmStorage.filmsGenres == old(filmStorage.filmsGenres) +
                          (if req.genres.Some? then Dao.GenreRows(r.value.id, req.genres.value) else {})
      ensures r.Ok? ==> r.value == MapToFilmDto(filmStorage.Enrich(MapToFilm(req).(id := r.value.id)))
      ensures filmStorage.filmsLikes == old(filmStorage.filmsLikes)
    {
      var film := MapToFilm(req);
      var check := CheckIsValidFilm(Some(film));
      if check.Fail? {
        return Err(check.error);
      }
      var stored := filmStorage.AddFilm(Some(film));
      if stored.Err? {
        return Err(stored.error);
      }
      return Ok(MapToFilmDto(stored.value));
    }

    /** updateFilm: fetch the stored film (NotFound when missing), merge the request into it,
        validate the merge, and only then hand it to the storage, whose reference checks may
        still refuse it and whose genre delete fails, after the films row is rewritten, when
        genres are supplied for a film that has none. */
    method UpdateFilm(req: UpdateFilmRequest) returns (r: Result<FilmDto, Error>)
      requires Valid()
      modifies filmStorage`films, filmStorage`filmsGenres
      ensures Valid()
      ensures req.id !in old(filmStorage.films) ==> r == Err(NotFoundException(FilmMissing))
      ensures req.id in old(filmStorage.films) ==>
                var m := old(Merged(req));
                && (CheckIsValidFilm(Some(m)).Fail? ==> r == Err(CheckIsValidFilm(Some(m)).error))
                && (CheckIsValidFilm(Some(m)).Pass? && filmStorage.CheckFilmMpaValid(m).Fail? ==>
                      r == Err(NotFoundException(MpaMissing)))
                && (CheckIsValidFilm(Some(m)).Pass? && filmStorage.CheckFilmMpaValid(m).Pass?
                    && filmStorage.CheckFilmGenresValid(m).Fail? ==>
                      r == Err(NotFoundException(GenreMissing)))
                && (CheckIsValidFilm(Some(m)).Pass? && filmStorage.CheckFilmMpaValid(m).Pass?
                    && filmStorage.CheckFilmGenresValid(m).Pass? ==>
                      (r.Ok? <==> !(req.HasGenres() && Image(old(filmStorage.filmsGenres), req.id) == {})))
      ensures r.Err? && !r.error.StorageFailure? ==>
                filmStorage.films == old(filmStorage.films) && filmStorage.filmsGenres == old(filmStorage.filmsGenres)
      ensures r.Err? ==> filmStorage.filmsGenres == old(filmStorage.filmsGenres)
      ensures r.Err? && r.error.StorageFailure? ==>
                req.HasGenres() && Image(old(filmStorage.filmsGenres), req.id) == {}
      ensures r.Ok? || r.error.StorageFailure? ==>
                && req.id in old(filmStorage.films) && CheckIsValidFilm(Some(old(Merged(req)))).Pass?
                && filmStorage.films == old(filmStorage.films)[req.id := Dao.RowOf(old(Merged(req)))]
      ensures r.Ok? ==> Image(filmStorage.filmsGenres, req.id) ==
                          if req.HasGenres() then GenreIds(req.genres.value)
                          else Image(old(filmStorage.filmsGenres), req.id)
      ensures r.Ok? ==> Dao.OtherFilmsKept(old(filmStorage.filmsGenres), filmStorage.filmsGenres, req.id)
      ensures r.Ok? ==> r.value == MapToFilmDto(filmStorage.Enrich(old(Merged(req))))
      ensures filmStorage.filmsLikes == old(filmStorage.filmsLikes)
    {
      var stored := filmStorage.GetFilmById(req.id);
      if stored.Err? {
        return Err(stored.error);
      }
      var merged := UpdateFilmFields(stored.value, req);
      assert merged == Merged(req);
      var check := CheckIsValidFilm(Some(merged));
      if check.Fail? {
        return Err(check.error);
      }
      r := StoreMerged(req, merged);
    }

    /** The storage call of updateFilm, for a merge that passed validation. */
    method StoreMerged(req: UpdateFilmRequest, merged: Film) returns (r: Result<FilmDto, Error>)
      requires Valid() && req.id in filmStorage.films && merged.id == req.id
      requires req.HasGenres() ==> merged.genres == req.genres
      requires !req.HasGenres() ==>
                 merged.genres.Some? && GenreIds(merged.genres.value) == Image(filmStorage.filmsGenres, req.id)
      requires merged.mpa.None? ==> filmStorage.films[req.id].mpaRatingId.None?
      modifies filmStorage`films, filmStorage`filmsGenres
      ensures Valid()
      ensures filmStorage.films.Keys == old(filmStorage.films).Keys
      ensures filmStorage.CheckFilmMpaValid(merged).Fail? ==> r == Err(NotFoundException(MpaMissing))
      ensures filmStorage.CheckFilmMpaValid(merged).Pass? && filmStorage.CheckFilmGenresValid(merged).Fail? ==>
                r == Err(NotFoundException(GenreMissing))
      ensures filmStorage.CheckFilmMpaValid(merged).Pass? && filmStorage.CheckFilmGenresValid(merged).Pass? ==>
                (r.Ok? <==> !(req.HasGenres() && Image(old(filmStorage.filmsGenres), req.id) == {}))
      ensures r.Err? && !r.error.StorageFailure? ==>
                filmStorage.films == old(filmStorage.films) && filmStorage.filmsGenres == old(filmStorage.filmsGenres)
      ensures r.Err? ==> filmStorage.filmsGenres == old(filmStorage.filmsGenres)
      ensures r.Err? && r.error.StorageFailure? ==>
                req.HasGenres() && Image(old(filmStorage.filmsGenres), req.id) == {}
      ensures r.Ok? || r.error.StorageFailure? ==>
                filmStorage.films == old(filmStorage.films)[req.id := Dao.RowOf(merged)]
      ensures r.Ok? ==> Image(filmStorage.filmsGenres, req.id) ==
                          if req.HasGenres() then GenreIds(req.genres.value)
                          else Image(old(filmStorage.filmsGenres), req.id)
      ensures r.Ok? ==> Dao.OtherFilmsKept(old(filmStorage.filmsGenres), filmStorage.filmsGenres, req.id)
      ensures r.Ok? ==> r.value == MapToFilmDto(filmStorage.Enrich(merged))
      ensures filmStorage.filmsLikes == old(filmStorage.filmsLikes)
    {
      MergedGenresAgree(req, merged, filmStorage.filmsGenres);
      ghost var deleteFails := filmStorage.GenreDeleteFails(merged);
      assert deleteFails <==> req.HasGenres() && Image(filmStorage.filmsGenres, req.id) == {};
      assert filmStorage.UpdatedRow(merged) == Dao.RowOf(merged);
      var updated := filmStorage.UpdateFilm(merged);
      if updated.Err? {
        return Err(updated.error);
      }
      return Ok(MapToFilmDto(updated.value));
    }

    /** addLike: the user must exist (checked first), then the film; only then is the pair stored. */
    method AddLike(filmId: int, userId: int) returns (r: Outcome<Error>)
      requires Valid()
      modifies filmStorage
      ensures Valid()
      ensures userId !in userStorage.users ==> r == Fail(NotFoundException(UserMissing))
      ensures userId in userStorage.users && filmId !in filmStorage.films ==> r == Fail(NotFoundException(FilmMissing))
      ensures r.Pass? <==> userId in userStorage.users && filmId in filmStorage.films
      ensures r.Pass? ==> filmStorage.filmsLikes == old(filmStorage.filmsLikes) + {(filmId, userId)}
      ensures r.Pass? && (filmId, userId) !in old(filmStorage.filmsLikes) ==>
                filmStorage.LikeCount(filmId) == old(filmStorage.LikeCount(filmId)) + 1
      ensures r.Fail? ==> filmStorage.filmsLikes == old(filmStorage.filmsLikes)
      ensures filmStorage.films == old(filmStorage.films) && filmStorage.filmsGenres == old(filmStorage.filmsGenres)
    {
      var user := userStorage.GetUserById(userId);
      if user.Err? {
        return Fail(user.error);
      }
      var film := filmStorage.GetFilmById(filmId);
      if film.Err? {
        return Fail(film.error);
      }
      ghost var likes := filmStorage.filmsLikes;
      filmStorage.AddLike(filmId, userId);
      if (filmId, userId) !in likes {
        Dao.LikeCountAfterAdd(likes, filmId, userId, filmId);
      }
      return Pass;
    }

    /** removeLike: the same existence checks, then the pair is deleted; a like that was never
        given is a storage failure. */
    method RemoveLike(filmId: int, userId: int) returns (r: Outcome<Error>)
      requires Valid()
      modifies filmStorage
      ensures Valid()
      ensures userId !in userStorage.users ==> r == Fail(NotFoundException(UserMissing))
      ensures userId in userStorage.users && filmId !in filmStorage.films ==> r == Fail(NotFoundException(FilmMissing))
      ensures userId in userStorage.users && filmId in filmStorage.films && (filmId, userId) !in old(filmStorage.filmsLikes) ==>
                r == Fail(StorageFailure)
      ensures r.Pass? <==> userId in userStorage.users && filmId in filmStorage.films
                           && (filmId, userId) in old(filmStorage.filmsLikes)
      ensures r.Pass? ==> filmStorage.filmsLikes == old(filmStorage.filmsLikes) - {(filmId, userId)}
      ensures r.Pass? ==> filmStorage.LikeCount(filmId) == old(filmStorage.LikeCount(filmId)) - 1
      ensures r.Fail? ==> filmStorage.filmsLikes == old(filmStorage.filmsLikes)
      ensures filmStorage.films == old(filmStorage.films) && filmStorage.filmsGenres == old(filmStorage.filmsGenres)
    {
      var user := userStorage.GetUserById(userId);
      if user.Err? {
        return Fail(user.error);
      }
      var film := filmStorage.GetFilmById(filmId);
      if film.Err? {
        return Fail(film.error);
      }
      ghost var likes := filmStorage.filmsLikes;
      r := filmStorage.RemoveLike(filmId, userId);
      if r.Pass? {
        Dao.LikeCountAfterRemove(likes, filmId, userId, filmId);
      }
    }

    /** getMostPopularFilms: the storage's ranking, as responses. */
    method GetMostPopularFilms(count: nat) returns (r: seq<FilmDto>)
      requires Valid()
      ensures |r| == if count < |filmStorage.films| then count else |filmStorage.films|
      ensures forall i :: 0 <= i < |r| ==>
                r[i].id in filmStorage.films && r[i] == MapToFilmDto(filmStorage.Enrich(filmStorage.RowToFilm(r[i].id)))
      ensures forall i, j :: 0 <= i < j < |r| ==> r[i].id != r[j].id
      ensures forall i, j :: 0 <= i < j < |r| ==> filmStorage.LikeCount(r[i].id) >= filmStorage.LikeCount(r[j].id)
      ensures forall i, id :: 0 <= i < |r| && id in filmStorage.films && (forall k :: 0 <= k < |r| ==> r[k].id != id)
                ==> filmStorage.LikeCount(r[i].id) >= filmStorage.LikeCount(id)
    {
      var films := filmStorage.GetMostPopularFilms(count);
      r := MapAllToDto(films);
    }
  }

  // ---------------------------------------------------------------- UserService

  /** `u` with `friend` added to its friend set. */
  function WithFriend(u: User, friend: int): (v: User)
    requires u.friends.Some?
    ensures v.friends.Some? && friend in v.friends.value
    ensures v == u.(friends := v.friends) && v.friends.value - {friend} == u.friends.value - {friend}
  {
    u.(friends := Some(u.friends.value + {friend}))
  }

  /** `u` with `friend` removed from its friend set. */
  function WithoutFriend(u: User, friend: int): (v: User)
    requires u.friends.Some?
    ensures v.friends.Some? && friend !in v.friends.value
    ensures v == u.(friends := v.friends) && v.friends.value + {friend} == u.friends.value + {friend}
  {
    u.(friends := Some(u.friends.value - {friend}))
  }

  /** The user service over the map-backed user storage. */
  class UserService {
    const userStorage: Storage.InMemoryUserStorage

    ghost predicate Valid()
      reads userStorage
    {
      userStorage.Valid()
    }

    constructor (userStorage: Storage.InMemoryUserStorage)
      ensures this.userStorage == userStorage
    {
      this.userStorage := userStorage;
    }

    /** addUser: validation (with the name defaulted) and then the storage insert. */
    method AddUser(u: Option<User>, today: Day) returns (r: Result<User, Error>)
      requires Valid()
      modifies userStorage
      ensures Valid()
      ensures CheckIsValidUser(u, today).Err? ==>
                r == Err(CheckIsValidUser(u, today).error) && userStorage.users == old(userStorage.users)
      ensures CheckIsValidUser(u, today).Ok? ==>
                var stored := DefaultFriends(CheckIsValidUser(u, today).value.(id := Storage.NextId(old(userStorage.users).Keys)));
                r == Ok(stored) && userStorage.users == old(userStorage.users)[stored.id := stored]
    {
      var checked := CheckIsValidUser(u, today);
      if checked.Err? {
        return Err(checked.error);
      }
      r := userStorage.AddUser(Some(checked.value));
    }

    /** updateUser: validation (with the name defaulted) and then the storage update, which
        refuses an id it does not hold. */
    method UpdateUser(u: Option<User>, today: Day) returns (r: Result<User, Error>)
      requires Valid()
      modifies userStorage
      ensures Valid()
      ensures CheckIsValidUser(u, today).Err? ==>
                r == Err(CheckIsValidUser(u, today).error) && userStorage.users == old(userStorage.users)
      ensures CheckIsValidUser(u, today).Ok? && u.value.id !in old(userStorage.users) ==>
                r == Err(NotFoundException(UserMissing)) && userStorage.users == old(userStorage.users)
      ensures CheckIsValidUser(u, today).Ok? && u.value.id in old(userStorage.users) ==>
                var stored := DefaultFriends(CheckIsValidUser(u, today).value);
                r == Ok(stored) && userStorage.users == old(userStorage.users)[u.value.id := stored]
    {
      var checked := CheckIsValidUser(u, today);
      if checked.Err? {
        return Err(checked.error);
      }
      r := userStorage.UpdateUser(Some(checked.value));
    }

    /** addFriends: both users must exist; each gets the other's id in its friend set and both
        are written back. */
    method AddFriends(first: int, second: int) returns (r: Outcome<Error>)
      requires Valid()
      modifies userStorage
      ensures Valid()
      ensures r.Pass? <==> first in old(userStorage.users) && second in old(userStorage.users)
      ensures r.Fail? ==> r.error == NotFoundException(UserMissing) && userStorage.users == old(userStorage.users)
      ensures r.Pass? ==>
                userStorage.users == old(userStorage.users)
                  [first := WithFriend(old(userStorage.users)[first], second)]
                  [second := WithFriend(old(userStorage.users)[second], first)]
      ensures r.Pass? ==> second in userStorage.users[first].friends.value
                          && first in userStorage.users[second].friends.value
      ensures forall id :: id in old(userStorage.users) && id != first && id != second ==>
                id in userStorage.users && userStorage.users[id] == old(userStorage.users)[id]
      ensures userStorage.users.Keys == old(userStorage.users).Keys
    {
      var a := userStorage.GetUserById(first);
      if a.Err? {
        return Fail(a.error);
      }
      var b := userStorage.GetUserById(second);
      if b.Err? {
        return Fail(b.error);
      }
      var x := userStorage.UpdateUser(Some(WithFriend(a.value, second)));
      var y := userStorage.UpdateUser(Some(WithFriend(b.value, a.value.id)));
      return Pass;
    }

    /** removeFriends: both users must exist; each loses the other's id and both are written back. */
    method RemoveFriends(first: int, second: int) returns (r: Outcome<Error>)
      requires Valid()
      modifies userStorage
      ensures Valid()
      ensures r.Pass? <==> first in old(userStorage.users) && second in old(userStorage.users)
      ensures r.Fail? ==> r.error == NotFoundException(UserMissing) && userStorage.users == old(userStorage.users)
      ensures r.Pass? ==>
                userStorage.users == old(userStorage.users)
                  [first := WithoutFriend(old(userStorage.users)[first], second)]
                  [second := WithoutFriend(old(userStorage.users)[second], first)]
      ensures r.Pass? ==> second !in userStorage.users[first].friends.value
                          && first !in userStorage.users[second].friends.value
      ensures forall id :: id in old(userStorage.users) && id != first && id != second ==>
                id in userStorage.users && userStorage.users[id] == old(userStorage.users)[id]
      ensures userStorage.users.Keys == old(userStorage.users).Keys
    {
      var a := userStorage.GetUserById(first);
      if a.Err? {
        return Fail(a.error);
      }
      var b := userStorage.GetUserById(second);
      if b.Err? {
        return Fail(b.error);
      }
      var x := userStorage.UpdateUser(Some(WithoutFriend(a.value, second)));
      var y := userStorage.UpdateUser(Some(WithoutFriend(b.value, first)));
      return Pass;
    }

    /** getUserFriendsById: the user must exist, and so must every id in its friend set; the
        friends come back in the set's iteration order. */
    method GetUserFriendsById(id: int) returns (r: Result<seq<User>, Error>)
      requires Valid()
      ensures r.Ok? <==> id in userStorage.users && userStorage.users[id].friends.value <= userStorage.users.Keys
      ensures r.Err? ==> r.error == NotFoundException(UserMissing)
      ensures r.Ok? ==> UserIds(r.value) == userStorage.users[id].friends.value
      ensures r.Ok? ==> |r.value| == |userStorage.users[id].friends.value|
      ensures r.Ok? ==> forall i :: 0 <= i < |r.value| ==> r.value[i] == userStorage.users[r.value[i].id]
      ensures r.Ok? ==> forall i, j :: 0 <= i < j < |r.value| ==> r.value[i].id != r.value[j].id
    {
      var user := userStorage.GetUserById(id);
      if user.Err? {
        return Err(user.error);
      }
      var ids := AnyOrder(user.value.friends.value);
      var friends: seq<User> := [];
      for i := 0 to |ids|
        invariant |friends| == i
        invariant forall k :: 0 <= k < i ==> ids[k] in userStorage.users && friends[k] == userStorage.users[ids[k]]
        invariant forall k :: 0 <= k < i ==> friends[k].id == ids[k]
      {
        var friend := userStorage.GetUserById(ids[i]);
        if friend.Err? {
          return Err(friend.error);
        }
        friends := friends + [friend.value];
      }
      forall f | f in UserIds(friends) ensures f in user.value.friends.value {
        var u :| u in friends && u.id == f;
      }
      forall f | f in user.value.friends.value ensures f in UserIds(friends) {
        assert f in ids;
        var k :| 0 <= k < |ids| && ids[k] == f;
        assert friends[k] in friends;
      }
      return Ok(friends);
    }

    /** getCommonFriends: both friend lists must load; the first is then filtered by the second. */
    method GetCommonFriends(first: int, second: int) returns (r: Result<seq<User>, Error>)
      requires Valid()
      ensures r.Ok? <==>
                && first in userStorage.users && userStorage.users[first].friends.value <= userStorage.users.Keys
                && second in userStorage.users && userStorage.users[second].friends.value <= userStorage.users.Keys
      ensures r.Err? ==> r.error == NotFoundException(UserMissing)
      ensures r.Ok? ==>
                UserIds(r.value) == userStorage.users[first].friends.value * userStorage.users[second].friends.value
      ensures r.Ok? ==> forall u :: u in r.value ==> u.id in userStorage.users && userStorage.users[u.id] == u
      ensures r.Ok? ==> forall i, j :: 0 <= i < j < |r.value| ==> r.value[i].id != r.value[j].id
    {
      var a := GetUserFriendsById(first);
      if a.Err? {
        return Err(a.error);
      }
      var b := GetUserFriendsById(second);
      if b.Err? {
        return Err(b.error);
      }
      var common := CommonFriends(a.value, b.value);
      CommonFriendsKeepsDistinctIds(a.value, b.value);
      forall f | f in UserIds(common)
        ensures f in userStorage.users[first].friends.value * userStorage.users[second].friends.value
      {
        var u :| u in common && u.id == f;
      }
      forall f | f in userStorage.users[first].friends.value * userStorage.users[second].friends.value
        ensures f in UserIds(common)
      {
        var u :| u in a.value && u.id == f;
        assert u in common;
      }
      forall u | u in common ensures u.id in userStorage.users && userStorage.users[u.id] == u {
        var i :| 0 <= i < |a.value| && a.value[i] == u;
      }
      return Ok(common);
    }
  }

  /** UserService over the relational user storage, which is the primary user storage bean and
      so the one the deployed service runs on. */
  class DbUserService {
    const userStorage: Dao.UserDbStorage

    constructor (userStorage: Dao.UserDbStorage)
      ensures this.userStorage == userStorage
    {
      this.userStorage := userStorage;
    }

    /** addUser over the relational storage: validation (with the name defaulted), then the
        insert under a generated key. */
    method AddUser(u: Option<User>, today: Day) returns (r: Result<User, Error>)
      requires userStorage.Valid()
      modifies userStorage
      ensures userStorage.Valid()
      ensures userStorage.friendship == old(userStorage.friendship)
      ensures CheckIsValidUser(u, today).Err? ==>
                r == Err(CheckIsValidUser(u, today).error) && userStorage.users == old(userStorage.users)
      ensures CheckIsValidUser(u, today).Ok? ==>
                && r.Ok? && r.value.id !in old(userStorage.users) && r.value.id > 0
                && r.value == DefaultFriends(CheckIsValidUser(u, today).value.(id := r.value.id))
                && userStorage.users == old(userStorage.users)[r.value.id := Dao.UserRowOf(CheckIsValidUser(u, today).value)]
    {
      var checked := CheckIsValidUser(u, today);
      if checked.Err? {
        return Err(checked.error);
      }
      var stored := userStorage.AddUser(checked.value);
      return Ok(stored);
    }

    /** updateUser over the relational storage: validation, then the UPDATE, which touches no
        row for an unknown id and so fails. */
    method UpdateUser(u: Option<User>, today: Day) returns (r: Result<User, Error>)
      requires userStorage.Valid()
      modifies userStorage
      ensures userStorage.Valid()
      ensures userStorage.friendship == old(userStorage.friendship)
      ensures CheckIsValidUser(u, today).Err? ==>
                r == Err(CheckIsValidUser(u, today).error) && userStorage.users == old(userStorage.users)
      ensures CheckIsValidUser(u, today).Ok? && u.value.id !in old(userStorage.users) ==>
                r == Err(StorageFailure) && userStorage.users == old(userStorage.users)
      ensures CheckIsValidUser(u, today).Ok? && u.value.id in old(userStorage.users) ==>
                && r == Ok(DefaultFriends(CheckIsValidUser(u, today).value))
                && userStorage.users == old(userStorage.users)[u.value.id := Dao.UserRowOf(CheckIsValidUser(u, today).value)]
    {
      var checked := CheckIsValidUser(u, today);
      if checked.Err? {
        return Err(checked.error);
      }
      r := userStorage.UpdateUser(checked.value);
    }

    /** getUserFriendsById over the relational storage: the user must exist, and so must every
        id it has a friendship row towards; each friend is read with its own friend set. */
    method GetUserFriendsById(id: int) returns (r: Result<seq<User>, Error>)
      requires userStorage.Valid()
      ensures r.Ok? <==> id in userStorage.users && userStorage.GetUserFriends(id) <= userStorage.users.Keys
      ensures r.Err? ==> r.error == NotFoundException(UserMissing)
      ensures r.Ok? ==> UserIds(r.value) == userStorage.GetUserFriends(id)
      ensures r.Ok? ==> forall i :: 0 <= i < |r.value| ==>
                && r.value[i].id in userStorage.users
                && Dao.UserRowOf(r.value[i]) == userStorage.users[r.value[i].id]
                && r.value[i].friends == Some(userStorage.GetUserFriends(r.value[i].id))
      ensures r.Ok? ==> DistinctIds(r.value)
    {
      var user := userStorage.GetUserById(id);
      if user.Err? {
        return Err(user.error);
      }
      var ids := AnyOrder(user.value.friends.value);
      var friends: seq<User> := [];
      for i := 0 to |ids|
        invariant |friends| == i
        invariant forall k :: 0 <= k < i ==> friends[k].id == ids[k]
        invariant forall k :: 0 <= k < i ==>
                    && ids[k] in userStorage.users
                    && Dao.UserRowOf(friends[k]) == userStorage.users[ids[k]]
                    && friends[k].friends == Some(userStorage.GetUserFriends(ids[k]))
      {
        var friend := userStorage.GetUserById(ids[i]);
        if friend.Err? {
          assert ids[i] in userStorage.GetUserFriends(id);
          return Err(friend.error);
        }
        friends := friends + [friend.value];
      }
      forall f | f in UserIds(friends) ensures f in user.value.friends.value {
        var u :| u in friends && u.id == f;
      }
      forall f | f in user.value.friends.value ensures f in UserIds(friends) {
        var k :| 0 <= k < |ids| && ids[k] == f;
        assert friends[k] in friends;
      }
      return Ok(friends);
    }

    /** getCommonFriends over the relational storage: both friend lists must load; the first is
        then filtered by the second. */
    method GetCommonFriends(first: int, second: int) returns (r: Result<seq<User>, Error>)
      requires userStorage.Valid()
      ensures r.Ok? <==>
                && first in userStorage.users && userStorage.GetUserFriends(first) <= userStorage.users.Keys
                && second in userStorage.users && userStorage.GetUserFriends(second) <= userStorage.users.Keys
      ensures r.Err? ==> r.error == NotFoundException(UserMissing)
      ensures r.Ok? ==> UserIds(r.value) == userStorage.GetUserFriends(first) * userStorage.GetUserFriends(second)
      ensures r.Ok? ==> forall u :: u in r.value ==>
                && u.id in userStorage.users
                && Dao.UserRowOf(u) == userStorage.users[u.id]
                && u.friends == Some(userStorage.GetUserFriends(u.id))
      ensures r.Ok? ==> DistinctIds(r.value)
    {
      var a := GetUserFriendsById(first);
      if a.Err? {
        return Err(a.error);
      }
      var b := GetUserFriendsById(second);
      if b.Err? {
        return Err(b.error);
      }
      var common := CommonFriends(a.value, b.value);
      CommonFriendsKeepsDistinctIds(a.value, b.value);
      forall f | f in UserIds(common)
        ensures f in userStorage.GetUserFriends(first) * userStorage.GetUserFriends(second)
      {
        var u :| u in common && u.id == f;
      }
      forall f | f in userStorage.GetUserFriends(first) * userStorage.GetUserFriends(second)
        ensures f in UserIds(common)
      {
        var u :| u in a.value && u.id == f;
        assert u in common;
      }
      forall u | u in common
        ensures && u.id in userStorage.users
                && Dao.UserRowOf(u) == userStorage.users[u.id]
                && u.friends == Some(userStorage.GetUserFriends(u.id))
      {
        var k :| 0 <= k < |a.value| && a.value[k] == u;
      }
      return Ok(common);
    }

    /** addFriends as written: both users are loaded with their friend sets, the sets are
        extended and both users go back through updateUser, which writes no friendship row, so
        the friendship table is left as it was. */
    method AddFriends(first: int, second: int) returns (r: Outcome<Error>)
      requires userStorage.Valid()
      modifies userStorage
      ensures userStorage.Valid()
      ensures r.Pass? <==> first in old(userStorage.users) && second in old(userStorage.users)
      ensures r.Fail? ==> r.error == NotFoundException(UserMissing)
      ensures userStorage.friendship == old(userStorage.friendship)
      ensures userStorage.users == old(userStorage.users)
      ensures userStorage.GetUserFriends(first) == old(userStorage.GetUserFriends(first))
    {
      var a := userStorage.GetUserById(first);
      if a.Err? {
        return Fail(a.error);
      }
      var b := userStorage.GetUserById(second);
      if b.Err? {
        return Fail(b.error);
      }
      var x := userStorage.UpdateUser(WithFriend(a.value, second));
      var y := userStorage.UpdateUser(WithFriend(b.value, a.value.id));
      return Pass;
    }

    /** addFriends with the friendship stored: one directed row each way, so each user is
        then in the other's friend set. */
    method AddFriendsPersisted(first: int, second: int) returns (r: Outcome<Error>)
      requires userStorage.Valid()
      modifies userStorage
      ensures userStorage.Valid()
      ensures r.Pass? <==> first in old(userStorage.users) && second in old(userStorage.users)
      ensures r.Fail? ==> r.error == NotFoundException(UserMissing) && userStorage.friendship == old(userStorage.friendship)
      ensures userStorage.users == old(userStorage.users)
      ensures r.Pass? ==> userStorage.friendship == old(userStorage.friendship) + {(first, second), (second, first)}
      ensures r.Pass? ==> second in userStorage.GetUserFriends(first) && first in userStorage.GetUserFriends(second)
    {
      var a := userStorage.GetUserById(first);
      if a.Err? {
        return Fail(a.error);
      }
      var b := userStorage.GetUserById(second);
      if b.Err? {
        return Fail(b.error);
      }
      userStorage.AddFriends(first, second);
      userStorage.AddFriends(second, first);
      return Pass;
    }

    /** removeFriends as written: the shrunken friend sets go back through updateUser and the
        friendship table is left as it was. */
    method RemoveFriends(first: int, second: int) returns (r: Outcome<Error>)
      requires userStorage.Valid()
      modifies userStorage
      ensures userStorage.Valid()
      ensures r.Pass? <==> first in old(userStorage.users) && second in old(userStorage.users)
      ensures r.Fail? ==> r.error == NotFoundException(UserMissing)
      ensures userStorage.friendship == old(userStorage.friendship)
      ensures userStorage.users == old(userStorage.users)
      ensures userStorage.GetUserFriends(first) == old(userStorage.GetUserFriends(first))
    {
      var a := userStorage.GetUserById(first);
      if a.Err? {
        return Fail(a.error);
      }
      var b := userStorage.GetUserById(second);
      if b.Err? {
        return Fail(b.error);
      }
      var x := userStorage.UpdateUser(WithoutFriend(a.value, second));
      var y := userStorage.UpdateUser(WithoutFriend(b.value, first));
      return Pass;
    }

    /** removeFriends with the friendship stored: both directed rows deleted, so neither user
        is then in the other's friend set. */
    method RemoveFriendsPersisted(first: int, second: int) returns (r: Outcome<Error>)
      requires userStorage.Valid()
      modifies userStorage
      ensures userStorage.Valid()
      ensures r.Pass? <==> first in old(userStorage.users) && second in old(userStorage.users)
      ensures r.Fail? ==> r.error == NotFoundException(UserMissing) && userStorage.friendship == old(userStorage.friendship)
      ensures userStorage.users == old(userStorage.users)
      ensures r.Pass? ==> userStorage.friendship == old(userStorage.friendship) - {(first, second), (second, first)}
      ensures r.Pass? ==> second !in userStorage.GetUserFriends(first) && first !in userStorage.GetUserFriends(second)
    {
      var a := userStorage.GetUserById(first);
      if a.Err? {
        return Fail(a.error);
      }
      var b := userStorage.GetUserById(second);
      if b.Err? {
        return Fail(b.error);
      }
      userStorage.RemoveFriends(first, second);
      userStorage.RemoveFriends(second, first);
      return Pass;
    }
  }
}
