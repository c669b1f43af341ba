/**
 * The domain of Filmorate: films, users, genres and MPA ratings, the day numbers used
 * for dates, the text predicates of java.lang.String that the validators rely on, and
 * the exceptions the core throws.
 */
module Model {
  import opened Wrappers

  /** A LocalDate as its day number counted from 1970-01-01 (LocalDate.toEpochDay). */
  type Day = int

  /** 1895-12-28, the earliest release date a film may have, as a day number. */
  const EarliestReleaseDate: Day := -27032

  /** The longest description a film may have, in UTF-16 code units (String.length). */
  const FilmDescriptionLength: int := 200

  /** Character.isWhitespace: the Unicode space, line and paragraph separators except the
      non-breaking ones, and the ASCII controls \t \n \u000B \f \r \u001C-\u001F. */
  predicate IsWhitespace(c: char)
  {
    || c == ' ' || c == '\t' || c == '\n' || c == '\U{000B}' || c == '\U{000C}' || c == '\r'
    || ('\U{001C}' <= c <= '\U{001F}')
    || c == '\U{1680}'
    || ('\U{2000}' <= c <= '\U{2006}') || ('\U{2008}' <= c <= '\U{200A}')
    || c == '\U{2028}' || c == '\U{2029}' || c == '\U{205F}' || c == '\U{3000}'
  }

  /** String.isBlank: empty, or whitespace only. */
  predicate IsBlank(s: string)
  {
    forall i :: 0 <= i < |s| ==> IsWhitespace(s[i])
  }

  /** String.isEmpty. */
  predicate IsEmpty(s: string)
  {
    |s| == 0
  }

  /** String.contains(" "). */
  predicate ContainsSpace(s: string)
  {
    ' ' in s
  }

  /** String.length(): the number of UTF-16 code units, so a character beyond U+FFFF, which
      Java stores as a surrogate pair, counts twice. */
  function Utf16Length(s: string): (n: nat)
    ensures |s| <= n <= 2 * |s|
    ensures (forall i :: 0 <= i < |s| ==> s[i] < '\U{10000}') ==> n == |s|
    ensures (forall i :: 0 <= i < |s| ==> s[i] >= '\U{10000}') ==> n == 2 * |s|
  {
    if s == [] then 0
    else (if s[0] < '\U{10000}' then 1 else 2) + Utf16Length(s[1..])
  }

  /** A genre; Genre.equals compares ids only. */
  datatype Genre = Genre(id: int, name: Option<string>)

  /** An MPA rating. */
  datatype Mpa = Mpa(id: int, name: Option<string>)

  /** A film. `genres` is the set in its iteration order; Film.equals compares ids only. */
  datatype Film = Film(
    id: int,
    name: string,
    description: string,
    releaseDate: Day,
    duration: int,
    likes: Option<set<int>>,
    genres: Option<seq<Genre>>,
    mpa: Option<Mpa>)

  /** A user; User.equals compares ids only. */
  datatype User = User(
    id: int,
    name: Option<string>,
    email: Option<string>,
    login: string,
    birthday: Option<Day>,
    friends: Option<set<int>>)

  /** Which rule or lookup produced an exception. */
  datatype Reason =
    | NullFilm | BlankName | DescriptionTooLong | ReleaseTooEarly | NonPositiveDuration
    | NullUser | LoginWithSpace | BirthdayInFuture
    | FilmMissing | UserMissing | MpaMissing | GenreMissing

  /** The exceptions of the core: ValidationException, NotFoundException, and a failure
      raised inside the JDBC layer. */
  datatype Error =
    | ValidationException(reason: Reason)
    | NotFoundException(reason: Reason)
    | StorageFailure

  /** The film with null likes replaced by an empty set. */
  function DefaultLikes(f: Film): (g: Film)
    ensures g.likes.Some? && g == f.(likes := g.likes)
    ensures f.likes.Some? ==> g == f
  {
    if f.likes.None? then f.(likes := Some({})) else f
  }

  /** The user with a null friend set replaced by an empty set. */
  function DefaultFriends(u: User): (v: User)
    ensures v.friends.Some? && v == u.(friends := v.friends)
    ensures u.friends.Some? ==> v == u
  {
    if u.friends.None? then u.(friends := Some({})) else u
  }

  /** The ids of a sequence of genres. */
  function GenreIds(gs: seq<Genre>): (ids: set<int>)
    ensures forall g :: g in gs ==> g.id in ids
    ensures forall id :: id in ids ==> exists g :: g in gs && g.id == id
  {
    set g | g in gs :: g.id
  }

  /** The ids of a sequence of users. */
  function UserIds(us: seq<User>): (ids: set<int>)
    ensures forall u :: u in us ==> u.id in ids
    ensures forall id :: id in ids ==> exists u :: u in us && u.id == id
  {
    set u | u in us :: u.id
  }
}
