/**
 * The in-memory storages: a HashMap from id to record, ids handed out as the largest key
 * plus one, and null like and friend sets defaulted to empty on every write.
 */
module Storage {
  import opened Wrappers
  import opened Model
  import opened Collections

  /** getNextId: one more than the largest key, or 1 when there is no key. */
  function NextId(keys: set<int>): (id: int)
    ensures id !in keys
    ensures keys == {} ==> id == 1
    ensures keys != {} ==> id - 1 in keys && forall k :: k in keys ==> k < id
  {
    if keys == {} then 1 else MaxOf(keys) + 1
  }

  /** Ids handed out by NextId from positive keys stay positive. */
  lemma {:induction false} NextIdPositive(keys: set<int>)
    requires forall k :: k in keys ==> k > 0
    ensures NextId(keys) > 0
  {
    if keys != {} {
      assert NextId(keys) - 1 in keys;
    }
  }

  /** Adding the id NextId handed out makes the next one exactly one larger. */
  lemma {:induction false} NextIdAfterInsert(keys: set<int>)
    ensures NextId(keys + {NextId(keys)}) == NextId(keys) + 1
  {
    var id := NextId(keys);
    var keys' := keys + {id};
    assert keys' != {};
    assert NextId(keys') - 1 in keys';
    assert id in keys';
  }

  class InMemoryFilmStorage {
    var films: map<int, Film>

    /** Every film is stored under its own positive id and has a like set. */
    ghost predicate Valid()
      reads this
    {
      forall id :: id in films ==> id > 0 && films[id].id == id && films[id].likes.Some?
    }

    constructor ()
      ensures Valid() && films == map[]
    {
      films := map[];
    }

    method GetFilmById(id: int) returns (r: Result<Film, Error>)
      requires Valid()
      ensures r.Ok? <==> id in films
      ensures r.Ok? ==> r.value == films[id] && r.value.id == id && r.value.likes.Some?
      ensures r.Err? ==> r.error == NotFoundException(FilmMissing)
    {
      if id !in films {
        return Err(NotFoundException(FilmMissing));
      }
      return Ok(films[id]);
    }

    /** One element per stored entry, in the map's iteration order. */
    method GetFilms() returns (r: seq<Film>)
      requires Valid()
      ensures |r| == |films|
      ensures forall f :: f in r ==> f.id in films && films[f.id] == f
      ensures forall id :: id in films ==> films[id] in r
      ensures forall i, j :: 0 <= i < j < |r| ==> r[i].id != r[j].id
    {
      var ids := AnyOrder(films.Keys);
      r := [];
      for i := 0 to |ids|
        invariant |r| == i
        invariant forall k :: 0 <= k < i ==> r[k] == films[ids[k]] && r[k].id == ids[k]
      {
        r := r + [films[ids[i]]];
      }
    }

    method AddFilm(f: Option<Film>) returns (r: Result<Film, Error>)
      requires Valid()
      modifies this
      ensures Valid()
      ensures f.None? ==> r == Err(NotFoundException(FilmMissing)) && films == old(films)
      ensures f.Some? ==>
        var stored := DefaultLikes(f.value.(id := NextId(old(films).Keys)));
        r == Ok(stored) && films == old(films)[stored.id := stored]
      ensures r.Ok? ==> r.value.id > 0 && r.value.id !in old(films)
    {
      if f.None? {
        return Err(NotFoundException(FilmMissing));
      }
      NextIdPositive(films.Keys);
      var film := f.value.(id := NextId(films.Keys));
      film := DefaultLikes(film);
      films := films[film.id := film];
      return Ok(film);
    }

    method UpdateFilm(f: Option<Film>) returns (r: Result<Film, Error>)
      requires Valid()
      modifies this
      ensures Valid()
      ensures f.None? || f.value.id !in old(films) ==>
        r == Err(NotFoundException(FilmMissing)) && films == old(films)
      ensures f.Some? && f.value.id in old(films) ==>
        r == Ok(DefaultLikes(f.value)) && films == old(films)[f.value.id := DefaultLikes(f.value)]
    {
      if f.None? {
        return Err(NotFoundException(FilmMissing));
      }
      if f.value.id !in films {
        return Err(NotFoundException(FilmMissing));
      }
      var film := DefaultLikes(f.value);
      films := films[film.id := film];
      return Ok(film);
    }
  }

  class InMemoryUserStorage {
    var users: map<int, User>

    /** Every user is stored under its own positive id and has a friend set. */
    ghost predicate Valid()
      reads this
    {
      forall id :: id in users ==> id > 0 && users[id].id == id && users[id].friends.Some?
    }

    constructor ()
      ensures Valid() && users == map[]
    {
      users := map[];
    }

    method GetUserById(id: int) returns (r: Result<User, Error>)
      requires Valid()
      ensures r.Ok? <==> id in users
      ensures r.Ok? ==> r.value == users[id] && r.value.id == id && r.value.friends.Some?
      ensures r.Err? ==> r.error == NotFoundException(UserMissing)
    {
      if id !in users {
        return Err(NotFoundException(UserMissing));
      }
      return Ok(users[id]);
    }

    /** One element per stored entry, in the map's iteration order. */
    method GetUsers() returns (r: seq<User>)
      requires Valid()
      ensures |r| == |users|
      ensures forall u :: u in r ==> u.id in users && users[u.id] == u
      ensures forall id :: id in users ==> users[id] in r
      ensures forall i, j :: 0 <= i < j < |r| ==> r[i].id != r[j].id
    {
      var ids := AnyOrder(users.Keys);
      r := [];
      for i := 0 to |ids|
        invariant |r| == i
        invariant forall k :: 0 <= k < i ==> r[k] == users[ids[k]] && r[k].id == ids[k]
      {
        r := r + [users[ids[i]]];
      }
    }

    method AddUser(u: Option<User>) returns (r: Result<User, Error>)
      requires Valid()
      modifies this
      ensures Valid()
      ensures u.None? ==> r == Err(NotFoundException(UserMissing)) && users == old(users)
      ensures u.Some? ==>
        var stored := DefaultFriends(u.value.(id := NextId(old(users).Keys)));
        r == Ok(stored) && users == old(users)[stored.id := stored]
      ensures r.Ok? ==> r.value.id > 0 && r.value.id !in old(users)
    {
      if u.None? {
        return Err(NotFoundException(UserMissing));
      }
      NextIdPositive(users.Keys);
      var user := u.value.(id := NextId(users.Keys));
      user := DefaultFriends(user);
      users := users[user.id := user];
      return Ok(user);
    }

    method UpdateUser(u: Option<User>) returns (r: Result<User, Error>)
      requires Valid()
      modifies this
      ensures Valid()
      ensures u.None? || u.value.id !in old(users) ==>
        r == Err(NotFoundException(UserMissing)) && users == old(users)
      ensures u.Some? && u.value.id in old(users) ==>
        r == Ok(DefaultFriends(u.value)) && users == old(users)[u.value.id := DefaultFriends(u.value)]
    {
      if u.None? {
        return Err(NotFoundException(UserMissing));
      }
      if u.value.id !in users {
        return Err(NotFoundException(UserMissing));
      }
      var user := DefaultFriends(u.value);
      users := users[user.id := user];
      return Ok(user);
    }
  }
}
