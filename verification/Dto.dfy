/**
 * Request and response shapes. An update request carries each field as a nullable value
 * and one `Has` predicate per field that decides whether the field counts as supplied.
 */
module Dto {
  import opened Wrappers
  import opened Model

  /** Some character of s is not whitespace. */
  predicate HasVisibleChar(s: string)
  {
    exists i :: 0 <= i < |s| && !IsWhitespace(s[i])
  }

  /** A nullable text field counts as supplied when it is non-null and not blank. */
  predicate IsSupplied(text: Option<string>)
    ensures IsSupplied(text) <==> text.Some? && HasVisibleChar(text.value)
  {
    !(text.None? || IsBlank(text.value))
  }

  /** The body of a film creation request. */
  datatype NewFilmRequest = NewFilmRequest(
    name: string,
    description: string,
    releaseDate: Day,
    duration: int,
    genres: Option<seq<Genre>>,
    mpa: Option<Mpa>)

  /** The body of a film update request; every field but the id may be null. */
  datatype UpdateFilmRequest = UpdateFilmRequest(
    id: int,
    name: Option<string>,
    description: Option<string>,
    releaseDate: Option<Day>,
    duration: Option<int>,
    genres: Option<seq<Genre>>,
    mpa: Option<Mpa>)
  {
    predicate HasName()
      ensures HasName() <==> name.Some? && HasVisibleChar(name.value)
    {
      IsSupplied(name)
    }

    predicate HasDescription()
      ensures HasDescription() <==> description.Some? && HasVisibleChar(description.value)
    {
      IsSupplied(description)
    }

    predicate HasReleaseDate()
      ensures forall v :: releaseDate == Some(v) ==> HasReleaseDate()
      ensures releaseDate.None? ==> !HasReleaseDate()
    {
      !(releaseDate.None?)
    }

    predicate HasDuration()
      ensures forall v :: duration == Some(v) ==> HasDuration()
      ensures duration.None? ==> !HasDuration()
    {
      !(duration.None?)
    }

    predicate HasGenres()
      ensures HasGenres() <==> genres.Some? && exists g :: g in genres.value
    {
      assert genres.Some? && |genres.value| > 0 ==> genres.value[0] in genres.value;
      !(genres.None? || |genres.value| == 0)
    }

    predicate HasMpaRating()
      ensures forall v :: mpa == Some(v) ==> HasMpaRating()
      ensures mpa.None? ==> !HasMpaRating()
    {
      !(mpa.None?)
    }
  }

  /** The film as returned to clients: every field of Film except the likes. */
  datatype FilmDto = FilmDto(
    id: int,
    name: string,
    description: string,
    releaseDate: Day,
    duration: int,
    genres: Option<seq<Genre>>,
    mpa: Option<Mpa>)

  /** The body of a user creation request. */
  datatype NewUserRequest = NewUserRequest(
    name: Option<string>,
    email: Option<string>,
    login: string,
    birthday: Option<Day>)

  /** The body of a user update request; every field but the id may be null. */
  datatype UpdateUserRequest = UpdateUserRequest(
    id: int,
    name: Option<string>,
    email: Option<string>,
    login: Option<string>,
    birthday: Option<Day>)
  {
    predicate HasLogin()
      ensures HasLogin() <==> login.Some? && HasVisibleChar(login.value)
    {
      IsSupplied(login)
    }

    predicate HasName()
      ensures HasName() <==> name.Some? && HasVisibleChar(name.value)
    {
      IsSupplied(name)
    }

    predicate HasEmail()
      ensures HasEmail() <==> email.Some? && HasVisibleChar(email.value)
    {
      IsSupplied(email)
    }

    predicate HasBirthday()
      ensures forall v :: birthday == Some(v) ==> HasBirthday()
      ensures birthday.None? ==> !HasBirthday()
    {
      !(birthday.None?)
    }
  }

  /** The user as returned to clients: every field of User except the friends. */
  datatype UserDto = UserDto(
    id: int,
    name: Option<string>,
    email: Option<string>,
    login: string,
    birthday: Option<Day>)

  /** A duration of zero or less is still "supplied"; only null is absent. */
  lemma NonPositiveDurationIsPresent(r: UpdateFilmRequest, d: int)
    requires r.duration == Some(d) && d <= 0
    ensures r.HasDuration()
  {
  }

  /** An empty genre collection never counts as supplied. */
  lemma EmptyGenresAreAbsent(r: UpdateFilmRequest)
    requires r.genres == Some([])
    ensures !r.HasGenres()
  {
  }

  /** A whitespace-only name, description, login or email never counts as supplied. */
  lemma WhitespaceTextIsAbsent(f: UpdateFilmRequest, u: UpdateUserRequest, s: string)
    requires forall i :: 0 <= i < |s| ==> s[i] == ' ' || s[i] == '\t' || s[i] == '\n'
    ensures f.name == Some(s) ==> !f.HasName()
    ensures f.description == Some(s) ==> !f.HasDescription()
    ensures u.login == Some(s) ==> !u.HasLogin()
    ensures u.name == Some(s) ==> !u.HasName()
    ensures u.email == Some(s) ==> !u.HasEmail()
  {
  }

  /** Release date, duration, MPA and birthday count as supplied exactly when they are non-null. */
  lemma PresenceIsNonNull(f: UpdateFilmRequest, u: UpdateUserRequest)
    ensures f.HasReleaseDate() <==> f.releaseDate.Some?
    ensures f.HasDuration() <==> f.duration.Some?
    ensures f.HasMpaRating() <==> f.mpa.Some?
    ensures u.HasBirthday() <==> u.birthday.Some?
  {
  }
}
