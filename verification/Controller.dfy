/**
 * FilmController and UserController: the older request handlers that keep their own id-keyed
 * maps and carry their own copies of the validation rules.
 */
module Controller {
  import opened Wrappers
  import opened Model
  import Storage
  import Service

  // ---------------------------------------------------------------- validation

  /** The controller's film rules: null, description length, release date and duration, in
      that order. Unlike the service's rules there is no name check. */
  function CheckIsValidFilm(f: Option<Film>): (r: Outcome<Error>)
    ensures r.Pass? <==>
              && f.Some?
              && Utf16Length(f.value.description) <= FilmDescriptionLength
              && f.value.releaseDate >= EarliestReleaseDate
              && f.value.duration > 0
    ensures f.None? ==> r == Fail(ValidationException(NullFilm))
    ensures f.Some? && Utf16Length(f.value.description) > FilmDescriptionLength ==>
              r == Fail(ValidationException(DescriptionTooLong))
    ensures r.Fail? ==> r.error.ValidationException?
  {
    if f.None? then Fail(ValidationException(NullFilm))
    else if Utf16Length(f.value.description) > FilmDescriptionLength then Fail(ValidationException(DescriptionTooLong))
    else if f.value.releaseDate < EarliestReleaseDate then Fail(ValidationException(ReleaseTooEarly))
    else if f.value.duration <= 0 then Fail(ValidationException(NonPositiveDuration))
    else Pass
  }

  /** The two film rule sets differ only in the name check: the controller accepts everything
      the service accepts, and the service rejects what the controller accepts only for a blank name. */
  lemma FilmRulesDifferOnlyInName(f: Option<Film>)
    ensures Service.CheckIsValidFilm(f).Pass? ==> CheckIsValidFilm(f).Pass?
    ensures CheckIsValidFilm(f).Pass? && Service.CheckIsValidFilm(f).Fail? ==>
              IsBlank(f.value.name) && Service.CheckIsValidFilm(f).error == ValidationException(BlankName)
    ensures f.Some? && !IsBlank(f.value.name) ==> CheckIsValidFilm(f) == Service.CheckIsValidFilm(f)
  {
  }

  /** The controller's user rules; a null user is a validation error here. */
  function CheckIsValidUser(u: Option<User>, today: Day): (r: Result<User, Error>)
    ensures r.Ok? <==>
              && u.Some?
              && !ContainsSpace(u.value.login)
              && (u.value.birthday.None? || u.value.birthday.value <= today)
    ensures u.None? ==> r == Err(ValidationException(NullUser))
    ensures u.Some? && ContainsSpace(u.value.login) ==> r == Err(ValidationException(LoginWithSpace))
    ensures r.Err? ==> r.error.ValidationException?
    ensures r.Ok? ==> r.value.name.Some? && r.value.id == u.value.id && r.value.login == u.value.login
    ensures r.Ok? && (u.value.name.None? || IsEmpty(u.value.name.value)) ==> r.value.name == Some(u.value.login)
    ensures r.Ok? && u.value.name.Some? && !IsEmpty(u.value.name.value) ==> r.value == u.value
  {
    if u.None? then Err(ValidationException(NullUser))
    else if ContainsSpace(u.value.login) then Err(ValidationException(LoginWithSpace))
    else if u.value.birthday.Some? && u.value.birthday.value > today then Err(ValidationException(BirthdayInFuture))
    else if u.value.name.None? || IsEmpty(u.value.name.value) then Ok(u.value.(name := Some(u.value.login)))
    else Ok(u.value)
  }

  /** The two user rule sets agree on every non-null user and differ only in the exception a
      null user raises. */
  lemma UserRulesDifferOnlyOnNull(u: Option<User>, today: Day)
    ensures u.Some? ==> CheckIsValidUser(u, today) == Service.CheckIsValidUser(u, today)
    ensures u.None? ==> CheckIsValidUser(u, today).error.ValidationException?
                        && Service.CheckIsValidUser(u, today).error.NotFoundException?
  {
  }

  // ---------------------------------------------------------------- FilmController

  class FilmController {
    var films: map<int, Film>

    /** Every film is stored under its own positive id. */
    ghost predicate Valid()
      reads this
    {
      forall id :: id in films ==> id > 0 && films[id].id == id
    }

    constructor ()
      ensures Valid() && films == map[]
    {
      films := map[];
    }

    /** addFilm: validation first; a valid film is stored under max key + 1 (1 when empty). */
    method AddFilm(f: Film) returns (r: Result<Film, Error>)
      requires Valid()
      modifies this
      ensures Valid()
      ensures CheckIsValidFilm(Some(f)).Fail? ==> r == Err(CheckIsValidFilm(Some(f)).error) && films == old(films)
      ensures CheckIsValidFilm(Some(f)).Pass? ==>
                var stored := f.(id := Storage.NextId(old(films).Keys));
                r == Ok(stored) && films == old(films)[stored.id := stored]
      ensures r.Ok? ==> r.value.id > 0 && r.value.id !in old(films)
    {
      var check := CheckIsValidFilm(Some(f));
      if check.Fail? {
        return Err(check.error);
      }
      Storage.NextIdPositive(films.Keys);
      var film := f.(id := Storage.NextId(films.Keys));
      films := films[film.id := film];
      return Ok(film);
    }

    /** updateFilm: validation first; an id the map does not hold is a validation error, not
        NotFound; otherwise only that entry is replaced. */
    method UpdateFilm(f: Film) returns (r: Result<Film, Error>)
      requires Valid()
      modifies this
      ensures Valid()
      ensures CheckIsValidFilm(Some(f)).Fail? ==> r == Err(CheckIsValidFilm(Some(f)).error) && films == old(films)
      ensures CheckIsValidFilm(Some(f)).Pass? && f.id !in old(films) ==>
                r == Err(ValidationException(FilmMissing)) && films == old(films)
      ensures CheckIsValidFilm(Some(f)).Pass? && f.id in old(films) ==>
                r == Ok(f) && films == old(films)[f.id := f]
    {
      var check := CheckIsValidFilm(Some(f));
      if check.Fail? {
        return Err(check.error);
      }
      if f.id !in films {
        return Err(ValidationException(FilmMissing));
      }
      films := films[f.id := f];
      return Ok(f);
    }
  }

  // ---------------------------------------------------------------- UserController

  class UserController {
    var users: map<int, User>

    /** Every user is stored under its own positive id and has a name. */
    ghost predicate Valid()
      reads this
    {
      forall id :: id in users ==> id > 0 && users[id].id == id && users[id].name.Some?
    }

    constructor ()
      ensures Valid() && users == map[]
    {
      users := map[];
    }

    /** addUser: validation (with the name defaulted) first; a valid user is stored under
        max key + 1 (1 when empty). */
    method AddUser(u: User, today: Day) returns (r: Result<User, Error>)
      requires Valid()
      modifies this
      ensures Valid()
      ensures CheckIsValidUser(Some(u), today).Err? ==>
                r == Err(CheckIsValidUser(Some(u), today).error) && users == old(users)
      ensures CheckIsValidUser(Some(u), today).Ok? ==>
                var stored := CheckIsValidUser(Some(u), today).value.(id := Storage.NextId(old(users).Keys));
                r == Ok(stored) && users == old(users)[stored.id := stored]
      ensures r.Ok? ==> r.value.id > 0 && r.value.id !in old(users)
    {
      var checked := CheckIsValidUser(Some(u), today);
      if checked.Err? {
        return Err(checked.error);
      }
      Storage.NextIdPositive(users.Keys);
      var user := checked.value.(id := Storage.NextId(users.Keys));
      users := users[user.id := user];
      return Ok(user);
    }

    /** updateUser: validation (with the name defaulted) first; an id the map does not hold is
        a validation error; otherwise only that entry is replaced. */
    method UpdateUser(u: User, today: Day) returns (r: Result<User, Error>)
      requires Valid()
      modifies this
      ensures Valid()
      ensures CheckIsValidUser(Some(u), today).Err? ==>
                r == Err(CheckIsValidUser(Some(u), today).error) && users == old(users)
      ensures CheckIsValidUser(Some(u), today).Ok? && u.id !in old(users) ==>
                r == Err(ValidationException(UserMissing)) && users == old(users)
      ensures CheckIsValidUser(Some(u), today).Ok? && u.id in old(users) ==>
                r == Ok(CheckIsValidUser(Some(u), today).value)
                && users == old(users)[u.id := CheckIsValidUser(Some(u), today).value]
    {
      var checked := CheckIsValidUser(Some(u), today);
      if checked.Err? {
        return Err(checked.error);
      }
      if u.id !in users {
        return Err(ValidationException(UserMissing));
      }
      users := users[u.id := checked.value];
      return Ok(checked.value);
    }
  }
}
