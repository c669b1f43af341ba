# Filmorate core in Dafny

Filmorate is a small film-rating backend. Users register and befriend one another, films
are added with genres and an MPA rating, users like films, and the service lists the most
liked films. This project models its core:

- the request objects with their "has field" tests;
- the mappers between requests, entities and responses, including the partial-update merge;
- the in-memory storages, which hand out ids as the largest key plus one;
- the JDBC storages, with tables modelled as maps and join tables as sets of pairs;
- the two services with their validation rules;
- the validating controllers of the earlier, in-memory version of the API.

Modules follow the source's packages:

- `Model`: entities, dates as epoch days, exceptions.
- `Dto`: request predicates.
- `Mapper`: mappers.
- `Storage`: in-memory storages.
- `Dao`: JDBC storages.
- `Service`: FilmService and UserService.
- `Controller`: FilmController and UserController.
- `Collections` and `Wrappers`: shared helpers.

Anything the source changes in place is a `class`, and its methods carry `modifies` clauses.
This covers the storages, the services over them and the controllers with their own maps.
Validation, mapping and the SQL reads are functions.

FilmService runs over the two JDBC storages, because both are the primary beans.
UserDbStorage is also the primary user storage, so the deployed UserService runs over it.
`Service.DbUserService` models UserService over that storage: adding and updating users,
listing friends and common friends, and the friend bookkeeping (see Findings). Running
UserService over the in-memory user storage is a modelling choice. `Service.UserService`
shows what the same code does there, where its friend bookkeeping does what it says.

The JDBC storages fail, as `StorageFailure`, whenever an UPDATE or DELETE touches no row.
Nothing runs in a transaction. So an update of a film that supplies genres for a film with
no genre rows fails only after the films row has been rewritten.

## Model

| member | source | states |
|---|---|---|
| Model.Utf16Length | src/main/java/ru/yandex/practicum/filmorate/service/FilmService.java:137-139 | the length Java reports for a string: one per character up to U+FFFF and two beyond it, so between the character count and twice that |
| Model.DefaultLikes | src/main/java/ru/yandex/practicum/filmorate/storage/InMemoryFilmStorage.java:58-60 | a null like set becomes empty; every other field and an existing set are kept |
| Model.DefaultFriends | src/main/java/ru/yandex/practicum/filmorate/storage/InMemoryUserStorage.java:56-58 | a null friend set becomes empty; every other field and an existing set are kept |
| Dto.UpdateFilmRequest.HasName | src/main/java/ru/yandex/practicum/filmorate/dto/film/UpdateFilmRequest.java:26-28 | the name is present exactly when it is non-null and holds a non-whitespace character |
| Dto.UpdateFilmRequest.HasDescription | src/main/java/ru/yandex/practicum/filmorate/dto/film/UpdateFilmRequest.java:30-32 | the description is present exactly when it is non-null and not blank |
| Dto.UpdateFilmRequest.HasGenres | src/main/java/ru/yandex/practicum/filmorate/dto/film/UpdateFilmRequest.java:42-44 | genres are present exactly when the set is non-null and non-empty |
| Dto.UpdateFilmRequest.HasReleaseDate | src/main/java/ru/yandex/practicum/filmorate/dto/film/UpdateFilmRequest.java:34-36 | any non-null release date counts as supplied, whatever the day; null does not |
| Dto.UpdateFilmRequest.HasDuration | src/main/java/ru/yandex/practicum/filmorate/dto/film/UpdateFilmRequest.java:38-40 | any non-null duration counts as supplied, whatever its value; null does not |
| Dto.UpdateFilmRequest.HasMpaRating | src/main/java/ru/yandex/practicum/filmorate/dto/film/UpdateFilmRequest.java:46-48 | any non-null rating counts as supplied; null does not |
| Dto.UpdateUserRequest.HasLogin | src/main/java/ru/yandex/practicum/filmorate/dto/user/UpdateUserRequest.java:20-22 | the login is present exactly when it is non-null and not blank |
| Dto.UpdateUserRequest.HasName | src/main/java/ru/yandex/practicum/filmorate/dto/user/UpdateUserRequest.java:24-26 | the name is present exactly when it is non-null and not blank |
| Dto.UpdateUserRequest.HasEmail | src/main/java/ru/yandex/practicum/filmorate/dto/user/UpdateUserRequest.java:28-30 | the email is present exactly when it is non-null and not blank |
| Dto.UpdateUserRequest.HasBirthday | src/main/java/ru/yandex/practicum/filmorate/dto/user/UpdateUserRequest.java:32-34 | any non-null birthday counts as supplied, whatever the day; null does not |
| Dto.PresenceIsNonNull | src/main/java/ru/yandex/practicum/filmorate/dto/film/UpdateFilmRequest.java:34-48 | release date, duration, MPA and birthday count as present exactly when non-null, with no check on their value |
| Dto.NonPositiveDurationIsPresent | src/main/java/ru/yandex/practicum/filmorate/dto/film/UpdateFilmRequest.java:38-40 | a zero or negative duration still counts as supplied |
| Dto.EmptyGenresAreAbsent | src/main/java/ru/yandex/practicum/filmorate/dto/film/UpdateFilmRequest.java:42-44 | an empty genre set counts as not supplied |
| Dto.WhitespaceTextIsAbsent | src/main/java/ru/yandex/practicum/filmorate/dto/user/UpdateUserRequest.java:20-30 | text made only of spaces, tabs and newlines counts as not supplied, in both request types |
| Mapper.MapToFilm | src/main/java/ru/yandex/practicum/filmorate/mapper/FilmMapper.java:17-33 | the new film carries every request field, with id 0 and null likes |
| Mapper.MapToFilmDto | src/main/java/ru/yandex/practicum/filmorate/mapper/FilmMapper.java:35-45 | the response carries every film field except the likes |
| Mapper.UpdateFilmFields | src/main/java/ru/yandex/practicum/filmorate/mapper/FilmMapper.java:47-72 | each field is the request's value when the request supplies it, else the stored one; id and likes are kept |
| Mapper.UpdateFilmFieldsIdempotent | src/main/java/ru/yandex/practicum/filmorate/mapper/FilmMapper.java:47-72 | applying an update twice equals applying it once |
| Mapper.UpdateNeverClearsGenresOrMpa | src/main/java/ru/yandex/practicum/filmorate/mapper/FilmMapper.java:64-70 | a film with genres or an MPA rating keeps them after any update |
| Mapper.UpdateOnlyNameKeepsRest | src/main/java/ru/yandex/practicum/filmorate/mapper/FilmMapper.java:49-51 | a request supplying only a name changes only the name |
| Mapper.NewFilmToDto | src/main/java/ru/yandex/practicum/filmorate/mapper/FilmMapper.java:17-45 | mapping a request to a film and then to a response keeps every request field |
| Mapper.FilmDtoForgetsOnlyLikes | src/main/java/ru/yandex/practicum/filmorate/mapper/FilmMapper.java:35-45 | two films have the same response exactly when they differ at most in their likes |
| Mapper.MapToUser | src/main/java/ru/yandex/practicum/filmorate/mapper/UserMapper.java:14-26 | the new user carries every request field, with id 0 and null friends |
| Mapper.MapToUserDto | src/main/java/ru/yandex/practicum/filmorate/mapper/UserMapper.java:28-36 | the response carries every user field except the friends |
| Mapper.UpdateUserFields | src/main/java/ru/yandex/practicum/filmorate/mapper/UserMapper.java:38-56 | each field is the request's value when supplied, else the stored one; id and friends are kept |
| Mapper.UpdateUserFieldsIdempotent | src/main/java/ru/yandex/practicum/filmorate/mapper/UserMapper.java:38-56 | applying a user update twice equals applying it once |
| Mapper.NewUserToDto | src/main/java/ru/yandex/practicum/filmorate/mapper/UserMapper.java:14-36 | mapping a request to a user and then to a response keeps every request field |
| Mapper.UserDtoForgetsOnlyFriends | src/main/java/ru/yandex/practicum/filmorate/mapper/UserMapper.java:28-36 | two users have the same response exactly when they differ at most in their friends |
| Storage.NextId | src/main/java/ru/yandex/practicum/filmorate/storage/InMemoryFilmStorage.java:102-109 | the new id is unused: 1 on an empty map, otherwise greater than every key and just above the largest |
| Storage.NextIdPositive | src/main/java/ru/yandex/practicum/filmorate/storage/InMemoryUserStorage.java:100-107 | positive keys yield a positive new id |
| Storage.NextIdAfterInsert | src/main/java/ru/yandex/practicum/filmorate/storage/InMemoryUserStorage.java:100-107 | after storing the id handed out, the next one is exactly one larger |
| Storage.InMemoryFilmStorage.GetFilmById | src/main/java/ru/yandex/practicum/filmorate/storage/InMemoryFilmStorage.java:23-30 | the stored film when the id is a key, otherwise NotFoundException |
| Storage.InMemoryFilmStorage.GetFilms | src/main/java/ru/yandex/practicum/filmorate/storage/InMemoryFilmStorage.java:36-38 | every stored film exactly once, in an unspecified order |
| Storage.InMemoryFilmStorage.AddFilm | src/main/java/ru/yandex/practicum/filmorate/storage/InMemoryFilmStorage.java:48-65 | null is NotFoundException; otherwise the film gets a fresh positive id and an empty like set if it had none, and is the only new entry |
| Storage.InMemoryFilmStorage.UpdateFilm | src/main/java/ru/yandex/practicum/filmorate/storage/InMemoryFilmStorage.java:76-96 | null or an unknown id is NotFoundException and changes nothing; otherwise only that entry is replaced |
| Storage.InMemoryUserStorage.GetUserById | src/main/java/ru/yandex/practicum/filmorate/storage/InMemoryUserStorage.java:20-28 | the stored user when the id is a key, otherwise NotFoundException |
| Storage.InMemoryUserStorage.GetUsers | src/main/java/ru/yandex/practicum/filmorate/storage/InMemoryUserStorage.java:34-36 | every stored user exactly once, in an unspecified order |
| Storage.InMemoryUserStorage.AddUser | src/main/java/ru/yandex/practicum/filmorate/storage/InMemoryUserStorage.java:46-63 | null is NotFoundException; otherwise the user gets a fresh positive id and an empty friend set if it had none |
| Storage.InMemoryUserStorage.UpdateUser | src/main/java/ru/yandex/practicum/filmorate/storage/InMemoryUserStorage.java:73-94 | null or an unknown id is NotFoundException and changes nothing; otherwise only that entry is replaced |
| Dao.RowOf | src/main/java/ru/yandex/practicum/filmorate/storage/dao/FilmDbStorage.java:103-109 | the films row holds the scalar fields and the MPA id, or null when there is no rating |
| Dao.GenreRows | src/main/java/ru/yandex/practicum/filmorate/storage/dao/FilmDbStorage.java:113-115 | the join rows written for a film are exactly (film, genre id) for each of its genres |
| Dao.GenreRowsStep | src/main/java/ru/yandex/practicum/filmorate/storage/dao/FilmDbStorage.java:113-115 | each loop step inserts exactly one more join row |
| Dao.GenreImageAfterReplace | src/main/java/ru/yandex/practicum/filmorate/storage/dao/FilmDbStorage.java:143-147 | deleting a film's genre rows and inserting new ones leaves exactly the new genres |
| Dao.NamedGenres | src/main/java/ru/yandex/practicum/filmorate/storage/dao/FilmDbStorage.java:212-230 | one genre per id, in the same order, named from the genre table |
| Dao.NamedGenresIds | src/main/java/ru/yandex/practicum/filmorate/storage/dao/FilmDbStorage.java:212-230 | the named genres carry exactly the requested ids, each named from the genre table |
| Dao.SortedIdsKnown | src/main/java/ru/yandex/practicum/filmorate/storage/dao/FilmDbStorage.java:212-230 | sorting a set of known genre ids yields only known ids |
| Dao.SortedNamedGenresAscend | src/main/java/ru/yandex/practicum/filmorate/storage/dao/FilmDbStorage.java:212-230 | genres read back for a set of ids come in strictly ascending id order |
| Dao.SortedNamedGenresIds | src/main/java/ru/yandex/practicum/filmorate/storage/dao/FilmDbStorage.java:212-230 | genres read back for a set of ids carry exactly that set, each named from the genre table |
| Dao.GenresOf | src/main/java/ru/yandex/practicum/filmorate/storage/dao/FilmDbStorage.java:212-230 | a film's genres in a join table: strictly ascending ids, exactly the ids the table pairs with the film, names from the genre table |
| Dao.RankByLikes | src/main/java/ru/yandex/practicum/filmorate/storage/dao/FilmDbStorage.java:38-42 | min(count, #films) distinct films in descending like count, none left out that has more likes than one taken |
| Dao.FilmDbStorage.CheckFilmMpaValid | src/main/java/ru/yandex/practicum/filmorate/storage/dao/FilmDbStorage.java:247-255 | passes exactly when the film has no rating or its rating id is in the MPA table; otherwise NotFoundException |
| Dao.FilmDbStorage.CheckGenresKnown | src/main/java/ru/yandex/practicum/filmorate/storage/dao/FilmDbStorage.java:260-270 | passes exactly when every genre id is in the genre table |
| Dao.FilmDbStorage.CheckFilmGenresValid | src/main/java/ru/yandex/practicum/filmorate/storage/dao/FilmDbStorage.java:260-270 | passes exactly when the film has no genre set or all its genre ids are known; otherwise NotFoundException |
| Dao.FilmDbStorage.RowToFilm | src/main/java/ru/yandex/practicum/filmorate/storage/dao/FilmDbStorage.java:68-76 | a film read back from its row carries the row's id, name, description, release date and duration, and no likes, genres or rating |
| Dao.FilmDbStorage.GetFilmGenres | src/main/java/ru/yandex/practicum/filmorate/storage/dao/FilmDbStorage.java:212-230 | the film's genres from the join table, strictly ascending by id, named from the genre table |
| Dao.FilmDbStorage.GetFilmMpaRating | src/main/java/ru/yandex/practicum/filmorate/storage/dao/FilmDbStorage.java:235-242 | the rating the row references, or none when the row has none |
| Dao.FilmDbStorage.Enrich | src/main/java/ru/yandex/practicum/filmorate/storage/dao/FilmDbStorage.java:193-207 | the film with its stored genres and rating filled in and null likes made empty |
| Dao.FilmDbStorage.GetFilmById | src/main/java/ru/yandex/practicum/filmorate/storage/dao/FilmDbStorage.java:68-76 | the enriched row when the id is a film, otherwise NotFoundException |
| Dao.FilmDbStorage.EnrichAll | src/main/java/ru/yandex/practicum/filmorate/storage/dao/FilmDbStorage.java:82-84 | every listed id enriched, in the same order |
| Dao.FilmDbStorage.GetFilms | src/main/java/ru/yandex/practicum/filmorate/storage/dao/FilmDbStorage.java:82-84 | every film row exactly once, enriched |
| Dao.FilmDbStorage.GetMostPopularFilms | src/main/java/ru/yandex/practicum/filmorate/storage/dao/FilmDbStorage.java:186-188 | the top min(count, #films) films by like count, descending, distinct, enriched |
| Dao.FilmDbStorage.AddFilm | src/main/java/ru/yandex/practicum/filmorate/storage/dao/FilmDbStorage.java:93-119 | null, an unknown rating or an unknown genre is NotFoundException and changes nothing; a non-null film whose rating and genres are known always succeeds, with one new row under a fresh id and its genre rows |
| Dao.FilmDbStorage.InsertFilmRow | src/main/java/ru/yandex/practicum/filmorate/storage/dao/FilmDbStorage.java:102-110 | the row is stored under a fresh positive key and nothing else changes |
| Dao.FilmDbStorage.InsertGenres | src/main/java/ru/yandex/practicum/filmorate/storage/dao/FilmDbStorage.java:113-115 | exactly the film's genre rows are added |
| Dao.FilmDbStorage.UpdatedRow | src/main/java/ru/yandex/practicum/filmorate/storage/dao/FilmDbStorage.java:135-141 | the row an update writes has the film's columns, with the stored rating id kept when the film has no rating |
| Dao.FilmDbStorage.UpdateFilm | src/main/java/ru/yandex/practicum/filmorate/storage/dao/FilmDbStorage.java:130-155 | an unknown rating, then unknown genres, is NotFoundException and a missing row is StorageFailure, each writing nothing; otherwise the row is rewritten, and the result is StorageFailure with the genre rows untouched when a non-empty genre set meets a film without genre rows, else success with the new genre set as the film's genres and every other film's genre rows as they were |
| Dao.FilmDbStorage.ReplaceGenres | src/main/java/ru/yandex/practicum/filmorate/storage/dao/FilmDbStorage.java:143-147 | fails, changing nothing, when the film has no genre rows; otherwise the film's genres become exactly the given ones and no other film's genre row changes |
| Dao.FilmDbStorage.DeleteGenres | src/main/java/ru/yandex/practicum/filmorate/storage/dao/FilmDbStorage.java:143-145 | removes exactly the film's genre rows, leaving it no genres; fails exactly when there were none |
| Dao.ReplaceKeepsOtherFilms | src/main/java/ru/yandex/practicum/filmorate/storage/dao/FilmDbStorage.java:143-147 | deleting one film's genre rows and inserting new ones for it leaves every other film's rows as they were |
| Dao.DeleteFilmRows | src/main/java/ru/yandex/practicum/filmorate/storage/dao/FilmDbStorage.java:144 | deleting every row of a film removes exactly the rows of its genres, and nothing when it has none |
| Dao.FilmDbStorage.AddLike | src/main/java/ru/yandex/practicum/filmorate/storage/dao/FilmDbStorage.java:161-168 | the like row is added |
| Dao.FilmDbStorage.RemoveLike | src/main/java/ru/yandex/practicum/filmorate/storage/dao/FilmDbStorage.java:174-181 | the like row is removed; StorageFailure exactly when there was no such row |
| Dao.LikeCountAfterAdd | src/main/java/ru/yandex/practicum/filmorate/storage/dao/FilmDbStorage.java:161-168 | a new like raises that film's count by one and no other film's |
| Dao.FilmDbStorage.LikeCount | src/main/java/ru/yandex/practicum/filmorate/storage/dao/FilmDbStorage.java:38-42 | the likes_count of the left join: zero exactly when the film has no like row |
| Dao.LikeCountAfterRemove | src/main/java/ru/yandex/practicum/filmorate/storage/dao/FilmDbStorage.java:174-181 | removing an existing like lowers that film's count by one and no other film's |
| Dao.UserRowOf | src/main/java/ru/yandex/practicum/filmorate/storage/dao/UserDbStorage.java:75-87 | the users row holds name, email, login and birthday |
| Dao.UserDbStorage.GetUserFriends | src/main/java/ru/yandex/practicum/filmorate/storage/dao/UserDbStorage.java:145-153 | the ids the user has a friendship row towards |
| Dao.UserDbStorage.GetUserById | src/main/java/ru/yandex/practicum/filmorate/storage/dao/UserDbStorage.java:44-52 | the user read from its row when it exists, otherwise NotFoundException |
| Dao.UserDbStorage.GetUsers | src/main/java/ru/yandex/practicum/filmorate/storage/dao/UserDbStorage.java:58-65 | every user row exactly once, with an empty friend set |
| Dao.UserDbStorage.AddUser | src/main/java/ru/yandex/practicum/filmorate/storage/dao/UserDbStorage.java:75-87 | one new row under a fresh positive id; friendships unchanged |
| Dao.UserDbStorage.UpdateUser | src/main/java/ru/yandex/practicum/filmorate/storage/dao/UserDbStorage.java:96-111 | the row is rewritten when it exists; an unknown id is StorageFailure and changes nothing; friendships are never written |
| Dao.UserDbStorage.AddFriends | src/main/java/ru/yandex/practicum/filmorate/storage/dao/UserDbStorage.java:118-125 | one directed friendship row is added |
| Dao.UserDbStorage.RemoveFriends | src/main/java/ru/yandex/practicum/filmorate/storage/dao/UserDbStorage.java:132-139 | one directed friendship row is removed |
| Dao.AddFriendsIsDirected | src/main/java/ru/yandex/practicum/filmorate/storage/dao/UserDbStorage.java:118-125 | adding a row gives the user the friend, but gives the friend nothing |
| Dao.RemoveFriendsIsDirected | src/main/java/ru/yandex/practicum/filmorate/storage/dao/UserDbStorage.java:132-139 | removing a row drops the friend from the user only |
| Service.CheckIsValidFilm | src/main/java/ru/yandex/practicum/filmorate/service/FilmService.java:128-148 | passes exactly when the film is non-null, has a non-blank name, a description of at most 200 UTF-16 code units, release no earlier than 1895-12-28 and positive duration; the first broken rule decides the error |
| Service.DescriptionBoundary | src/main/java/ru/yandex/practicum/filmorate/service/FilmService.java:137-139 | a description of 200 UTF-16 code units passes and one of 201 fails; 101 characters beyond U+FFFF fail, 200 characters within it pass |
| Service.ReleaseDateBoundary | src/main/java/ru/yandex/practicum/filmorate/service/FilmService.java:141-143 | release on 1895-12-28 passes and the day before fails |
| Service.FilmValidityIgnoresIdAndLikes | src/main/java/ru/yandex/practicum/filmorate/service/FilmService.java:128-148 | the verdict does not depend on id or likes |
| Service.CheckIsValidUser | src/main/java/ru/yandex/practicum/filmorate/service/UserService.java:156-172 | null is NotFoundException; otherwise it passes exactly when the login has no space and the birthday is not after today; an empty or null name becomes the login |
| Service.CheckIsValidUserIdempotent | src/main/java/ru/yandex/practicum/filmorate/service/UserService.java:156-172 | validating an accepted user again accepts it unchanged |
| Service.BlankNameIsKept | src/main/java/ru/yandex/practicum/filmorate/service/UserService.java:169-171 | a whitespace name is not empty and is kept, not replaced by the login |
| Service.CommonFriends | src/main/java/ru/yandex/practicum/filmorate/service/UserService.java:136-138 | the first list's users whose id occurs in the second, in the first list's order |
| Service.CommonFriendsKeepsDistinctIds | src/main/java/ru/yandex/practicum/filmorate/service/UserService.java:136-138 | filtering a list whose ids are distinct keeps them distinct |
| Service.MergedGenresAgree | src/main/java/ru/yandex/practicum/filmorate/storage/dao/FilmDbStorage.java:143-144 | for a merged film the genre delete runs exactly when the merge has genres, and touches no row exactly when the request supplies genres for a film that has none |
| Service.FilmService.GetFilmById | src/main/java/ru/yandex/practicum/filmorate/service/FilmService.java:39-41 | the response of the enriched stored film, or NotFoundException |
| Service.FilmService.GetFilms | src/main/java/ru/yandex/practicum/filmorate/service/FilmService.java:47-49 | one response per film, each of the enriched stored film |
| Service.FilmService.MapAllToDto | src/main/java/ru/yandex/practicum/filmorate/service/FilmService.java:47-49 | each film mapped to its response, in order |
| Service.FilmService.AddFilm | src/main/java/ru/yandex/practicum/filmorate/service/FilmService.java:56-66 | an invalid film is the validation error and an unknown rating or genre is NotFoundException, each changing nothing; a valid film with known rating and genres is always stored under a fresh id, with exactly one genre row per requested genre added, and returned; likes untouched |
| Service.FilmService.UpdateFilm | src/main/java/ru/yandex/practicum/filmorate/service/FilmService.java:73-84 | unknown id is NotFoundException; then the merged film's validation error; then an unknown rating or genre is NotFoundException; otherwise the row is rewritten, and the result is StorageFailure with genres untouched when the request supplies genres for a film without any, else success with the supplied or stored genres, every other film's genre rows as they were, and the merged film returned |
| Service.FilmService.StoreMerged | src/main/java/ru/yandex/practicum/filmorate/service/FilmService.java:83 | an unknown rating or genre of the merge is NotFoundException and writes nothing; otherwise the merged row is stored, and the result is StorageFailure with genres untouched exactly when the request supplies genres for a film without any, else success with genres the requested ones when supplied and the stored ones otherwise, and every other film's genre rows as they were |
| Service.FilmService.AddLike | src/main/java/ru/yandex/practicum/filmorate/service/FilmService.java:91-99 | unknown user, then unknown film, is NotFoundException; otherwise the like is recorded and a new like raises the count by one |
| Service.FilmService.RemoveLike | src/main/java/ru/yandex/practicum/filmorate/service/FilmService.java:106-114 | unknown user, then unknown film, is NotFoundException; a like that does not exist is StorageFailure; otherwise the like is removed and the count drops by one |
| Service.FilmService.GetMostPopularFilms | src/main/java/ru/yandex/practicum/filmorate/service/FilmService.java:120-122 | min(count, #films) distinct films by like count, descending, none more liked left out |
| Service.WithFriend | src/main/java/ru/yandex/practicum/filmorate/service/UserService.java:97-98 | the friend is added and no other friend changes |
| Service.WithoutFriend | src/main/java/ru/yandex/practicum/filmorate/service/UserService.java:117-118 | the friend is removed and no other friend changes |
| Service.UserService.AddUser | src/main/java/ru/yandex/practicum/filmorate/service/UserService.java:54-64 | an invalid user is the validation error; a valid one, with the name defaulted, is stored under a fresh id |
| Service.UserService.UpdateUser | src/main/java/ru/yandex/practicum/filmorate/service/UserService.java:74-85 | an invalid user is the validation error; an unknown id is NotFoundException; otherwise only that user is replaced |
| Service.UserService.AddFriends | src/main/java/ru/yandex/practicum/filmorate/service/UserService.java:91-105 | both users must exist; each then has the other as a friend, and no other user changes |
| Service.UserService.RemoveFriends | src/main/java/ru/yandex/practicum/filmorate/service/UserService.java:111-125 | both users must exist; neither then has the other as a friend, and no other user changes |
| Service.UserService.GetUserFriendsById | src/main/java/ru/yandex/practicum/filmorate/service/UserService.java:145-150 | the stored users whose ids are the user's friends, each once; NotFoundException for an unknown user or a dangling friend id |
| Service.UserService.GetCommonFriends | src/main/java/ru/yandex/practicum/filmorate/service/UserService.java:131-139 | the stored users that are friends of both, each once, under the same error cases |
| Service.DbUserService.AddUser | src/main/java/ru/yandex/practicum/filmorate/service/UserService.java:54-64 | an invalid user is the validation error; a valid one, with the name defaulted, is inserted under a fresh positive id with no friendship rows |
| Service.DbUserService.UpdateUser | src/main/java/ru/yandex/practicum/filmorate/service/UserService.java:74-85 | an invalid user is the validation error; an unknown id is StorageFailure; otherwise only that user's row is rewritten |
| Service.DbUserService.GetUserFriendsById | src/main/java/ru/yandex/practicum/filmorate/service/UserService.java:145-150 | the users the user has friendship rows towards, each once and read with its own friends; NotFoundException for an unknown user or friend |
| Service.DbUserService.GetCommonFriends | src/main/java/ru/yandex/practicum/filmorate/service/UserService.java:131-139 | the users both have friendship rows towards, each once and read with its own row and friend set, under the same error cases |
| Service.DbUserService.AddFriends | src/main/java/ru/yandex/practicum/filmorate/service/UserService.java:91-105 | as written over the JDBC storage: succeeds when both exist but leaves the friendship table unchanged, and writes back each user's row unchanged |
| Service.DbUserService.AddFriendsPersisted | src/main/java/ru/yandex/practicum/filmorate/service/UserService.java:91-105 | corrected: both directed rows are written, so each user has the other as a friend |
| Service.DbUserService.RemoveFriends | src/main/java/ru/yandex/practicum/filmorate/service/UserService.java:111-125 | as written over the JDBC storage: succeeds when both exist but removes no friendship row, and writes back each user's row unchanged |
| Service.DbUserService.RemoveFriendsPersisted | src/main/java/ru/yandex/practicum/filmorate/service/UserService.java:111-125 | corrected: both directed rows are removed |
| Controller.CheckIsValidFilm | src/main/java/ru/yandex/practicum/filmorate/controller/FilmController.java:107-123 | the service's film rules without the name rule |
| Controller.FilmRulesDifferOnlyInName | src/main/java/ru/yandex/practicum/filmorate/controller/FilmController.java:107-123 | the controller accepts whatever the service accepts, and they differ only on a blank name |
| Controller.CheckIsValidUser | src/main/java/ru/yandex/practicum/filmorate/controller/UserController.java:105-121 | the service's user rules, except that null is a ValidationException |
| Controller.UserRulesDifferOnlyOnNull | src/main/java/ru/yandex/practicum/filmorate/controller/UserController.java:105-121 | on a non-null user the controller and the service agree |
| Controller.FilmController.AddFilm | src/main/java/ru/yandex/practicum/filmorate/controller/FilmController.java:43-57 | an invalid film is the validation error; a valid one is stored under NextId |
| Controller.FilmController.UpdateFilm | src/main/java/ru/yandex/practicum/filmorate/controller/FilmController.java:68-88 | an invalid film is the validation error; an unknown id is a ValidationException; otherwise the entry is replaced |
| Controller.UserController.AddUser | src/main/java/ru/yandex/practicum/filmorate/controller/UserController.java:40-55 | an invalid user is the validation error; a valid one, with the name defaulted, is stored under NextId |
| Controller.UserController.UpdateUser | src/main/java/ru/yandex/practicum/filmorate/controller/UserController.java:66-86 | an invalid user is the validation error; an unknown id is a ValidationException; otherwise the entry is replaced |

## Left out

- HTTP layer: request mapping, status codes, ErrorHandler and the error response body are not modelled. Errors are returned as values.
- GenreController, MpaController, GenreService, MpaService, GenreDbStorage and MpaDbStorage are read-only lookups and are not part of this model. Their tables are the constant `genreTable` and `mpaTable` maps of `Dao.FilmDbStorage`.
- Logging is not modelled.
- The SQL engine and the shared JDBC base class are not part of this model.
  - Tables are maps and join tables are sets of pairs.
  - Driver failures such as DataIntegrityViolationException (a broken foreign key, a duplicate key) are not modelled.
  - An UPDATE or DELETE that touches no row is `StorageFailure`. This covers the films and users UPDATE, the genre DELETE of an update and the like DELETE. It does not cover the friendship statements, which bypass that check.
  - Inserting a duplicate join row is absorbed by the set.
- The row mappers are folded into `RowToFilm` and `GetUserById`. The user row mapper yields an empty friend set, and the model does the same. A NULL birthday column, which the user rules accept, would make the user row mapper throw NullPointerException on reading; the model reads such a user back with no birthday.
- A null name, description, login or scalar field of a request would raise NullPointerException in Java. The model's records have these fields non-null, except where the source tests them for null.
- Aliasing: Java hands out the stored object and mutates it in place, as in `user.setName` and `getFriends().add`. The model returns new values and stores them explicitly. Later changes through a still-held reference are not captured.
- FilmService over InMemoryFilmStorage is not modelled. The in-memory film storage has no like or popularity operations, and the JDBC storage is the primary bean.
- Dao.FilmDbStorage.GetMostPopularFilms: the count is a `nat`. A negative count reaches SQL `LIMIT` and is not modelled.
- Service.FilmService.GetMostPopularFilms: the count is a `nat` for the same reason.
- Storage.NextId: Java `int` overflow of the largest id plus one is not modelled.
- `LocalDate.now()` is the `today` parameter, and dates are epoch day numbers.
- HashMap and HashSet iteration order is left unspecified: results are "each element once, in some order".
- Ties in like count are ordered arbitrarily, as SQL leaves them.
- A film's `Set<Genre>` is a sequence. Sets with equal ids count as the same genre only through `GenreIds`.
- MPA ratings are compared by id. The Mpa entity itself is not part of this model.
- UserService.getUserById and getUsers, FilmController.getFilms and UserController.getUsers pass straight through to storage. They are covered by the storage members.

## Findings

| source | as written | input that shows it | evidently intended | confidence | as-written member | corrected member |
|---|---|---|---|---|---|---|
| src/main/java/ru/yandex/practicum/filmorate/service/UserService.java:97-103 | addFriends adds to the in-memory friend sets of the fetched users, then saves them with updateUser. Over the primary JDBC storage, updateUser writes only name, email, login and birthday, so no friendship row is written. | users 1 and 2 exist; addFriends(1, 2); getUserFriends(1) is still empty | both users have each other as friends afterwards | high, not executed | Service.DbUserService.AddFriends | Service.DbUserService.AddFriendsPersisted |
| src/main/java/ru/yandex/practicum/filmorate/service/UserService.java:117-123 | removeFriends saves the reduced sets through updateUser, which writes no friendship row | users 1 and 2 have friendship rows in both directions; removeFriends(1, 2); getUserFriends(1) still holds 2 | neither user has the other as a friend afterwards | high, not executed | Service.DbUserService.RemoveFriends | Service.DbUserService.RemoveFriendsPersisted |
