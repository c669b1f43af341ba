/**
 * FilmMapper and UserMapper: request to entity, entity to response, and the
 * partial-update merge that overwrites a stored field only when the request supplies it.
 */
module Mapper {
  import opened Wrappers
  import opened Model
  import opened Dto

  // ---------------------------------------------------------------- FilmMapper

  /** A new film built from a creation request; id stays at int's default and likes at null. */
  function MapToFilm(r: NewFilmRequest): (f: Film)
    ensures f.id == 0 && f.likes.None?
    ensures f.name == r.name && f.description == r.description
    ensures f.releaseDate == r.releaseDate && f.duration == r.duration
    ensures f.genres == r.genres && f.mpa == r.mpa
  {
    Film(0, r.name, r.description, r.releaseDate, r.duration, None, r.genres, r.mpa)
  }

  /** The response for a film; the likes are not carried. */
  function MapToFilmDto(f: Film): (d: FilmDto)
    ensures d.id == f.id && d.name == f.name && d.description == f.description
    ensures d.releaseDate == f.releaseDate && d.duration == f.duration
    ensures d.genres == f.genres && d.mpa == f.mpa
  {
    FilmDto(f.id, f.name, f.description, f.releaseDate, f.duration, f.genres, f.mpa)
  }

  /** The stored film with every field the request supplies overwritten, in the source's order
      name, description, duration, release date, genres, MPA. */
  function UpdateFilmFields(f: Film, r: UpdateFilmRequest): (g: Film)
    ensures g.name == (if r.HasName() then r.name.value else f.name)
    ensures g.description == (if r.HasDescription() then r.description.value else f.description)
    ensures g.duration == (if r.HasDuration() then r.duration.value else f.duration)
    ensures g.releaseDate == (if r.HasReleaseDate() then r.releaseDate.value else f.releaseDate)
    ensures g.genres == (if r.HasGenres() then r.genres else f.genres)
    ensures g.mpa == (if r.HasMpaRating() then r.mpa else f.mpa)
    ensures g.id == f.id && g.likes == f.likes
  {
    var f1 := if r.HasName() then f.(name := r.name.value) else f;
    var f2 := if r.HasDescription() then f1.(description := r.description.value) else f1;
    var f3 := if r.HasDuration() then f2.(duration := r.duration.value) else f2;
    var f4 := if r.HasReleaseDate() then f3.(releaseDate := r.releaseDate.value) else f3;
    var f5 := if r.HasGenres() then f4.(genres := r.genres) else f4;
    if r.HasMpaRating() then f5.(mpa := r.mpa) else f5
  }

  /** Applying the same update twice gives the same film as applying it once. */
  lemma UpdateFilmFieldsIdempotent(f: Film, r: UpdateFilmRequest)
    ensures UpdateFilmFields(UpdateFilmFields(f, r), r) == UpdateFilmFields(f, r)
  {
  }

  /** An update never clears the genres or the MPA rating: a null or empty value in the
      request counts as absent. */
  lemma UpdateNeverClearsGenresOrMpa(f: Film, r: UpdateFilmRequest)
    ensures f.genres.Some? && |f.genres.value| > 0 ==>
              UpdateFilmFields(f, r).genres.Some? && |UpdateFilmFields(f, r).genres.value| > 0
    ensures f.mpa.Some? ==> UpdateFilmFields(f, r).mpa.Some?
  {
  }

  /** A request that supplies only a name leaves every other field as stored. */
  lemma UpdateOnlyNameKeepsRest(f: Film, id: int, name: string)
    requires HasVisibleChar(name)
    ensures UpdateFilmFields(f, UpdateFilmRequest(id, Some(name), None, None, None, None, None))
              == f.(name := name)
  {
  }

  /** The response of a freshly mapped film carries every field of the request, with id 0. */
  lemma NewFilmToDto(r: NewFilmRequest)
    ensures MapToFilmDto(MapToFilm(r))
              == FilmDto(0, r.name, r.description, r.releaseDate, r.duration, r.genres, r.mpa)
  {
  }

  /** Two films with the same response differ at most in their likes. */
  lemma FilmDtoForgetsOnlyLikes(f: Film, g: Film)
    ensures MapToFilmDto(f) == MapToFilmDto(g) <==> f.(likes := g.likes) == g
  {
  }

  // ---------------------------------------------------------------- UserMapper

  /** A new user built from a creation request; id stays at int's default and friends at null. */
  function MapToUser(r: NewUserRequest): (u: User)
    ensures u.id == 0 && u.friends.None?
    ensures u.name == r.name && u.email == r.email && u.login == r.login && u.birthday == r.birthday
  {
    User(0, r.name, r.email, r.login, r.birthday, None)
  }

  /** The response for a user; the friends are dropped. */
  function MapToUserDto(u: User): (d: UserDto)
    ensures d.id == u.id && d.name == u.name && d.email == u.email
    ensures d.login == u.login && d.birthday == u.birthday
  {
    UserDto(u.id, u.name, u.email, u.login, u.birthday)
  }

  /** The stored user with every field the request supplies overwritten, in the source's order
      login, name, email, birthday. */
  function UpdateUserFields(u: User, r: UpdateUserRequest): (v: User)
    ensures v.login == (if r.HasLogin() then r.login.value else u.login)
    ensures v.name == (if r.HasName() then r.name else u.name)
    ensures v.email == (if r.HasEmail() then r.email else u.email)
    ensures v.birthday == (if r.HasBirthday() then r.birthday else u.birthday)
    ensures v.id == u.id && v.friends == u.friends
  {
    var u1 := if r.HasLogin() then u.(login := r.login.value) else u;
    var u2 := if r.HasName() then u1.(name := r.name) else u1;
    var u3 := if r.HasEmail() then u2.(email := r.email) else u2;
    if r.HasBirthday() then u3.(birthday := r.birthday) else u3
  }

  /** Applying the same update twice equals applying it once. */
  lemma UpdateUserFieldsIdempotent(u: User, r: UpdateUserRequest)
    ensures UpdateUserFields(UpdateUserFields(u, r), r) == UpdateUserFields(u, r)
  {
  }

  /** The response of a freshly mapped user carries every field of the request, with id 0. */
  lemma NewUserToDto(r: NewUserRequest)
    ensures MapToUserDto(MapToUser(r)) == UserDto(0, r.name, r.email, r.login, r.birthday)
  {
  }

  /** Two users with the same response differ at most in their friends. */
  lemma UserDtoForgetsOnlyFriends(u: User, v: User)
    ensures MapToUserDto(u) == MapToUserDto(v) <==> u.(friends := v.friends) == v
  {
  }
}
