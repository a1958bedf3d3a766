# FilmCollection in Dafny

A model of the request-handling core of FilmCollection, a small HTTP service
that keeps actors, films and the `moviecast` table linking them in a
relational database, with basic-auth over a `users` table. The model covers
two revisions of the handlers. There is the package-`main` revision
(handlers.go with the reads of structs.go), and the package revision:
handlers/actors.go, handlers/films.go and the middleware of
handlers/middlewares.go. It also covers the `Date` decoder of both
revisions (structs/structs.go and structs.go).

The tables the handlers write are the fields of one class, `Store.Database`:
- `actors` and `films` are maps from id to row.
- `moviecast` is a sequence of `(filmid, actorid)` rows in table order.
- Two serial counters hand out new ids.

Of the code modelled, only the middleware reads the `users` table, which is
part of what it sees (`Auth.Env`). The authorization functions behind
`authError`, whose code is not part of this model, presumably read it too. Each write statement the handlers issue, and each read of
structs.go, is a method of the class. Whether a
statement fails is an input (`fails`, or a `Fault` naming the failing
statement of a loop), so every error branch of the handlers is reachable;
the two single-row reads are the exception noted under "## Left out". A
handler is a method that returns its HTTP status, plus the record or list it
would encode. It changes the tables through those statement methods, and its
`ensures` clauses state the status and the new tables for every branch.

Modules, in dependency order:
- `Common`: Option/Result, fault inputs and status codes.
- `Text`: `strconv.Atoi`, `%d` and ASCII `strings.ToLower`.
- `Dates`: `time.Parse` for the two layouts, and both `UnmarshalJSON`s.
- `Records`: Actor/Film, and the update merge.
- `ListQuery`: list-parameter validation and the query text.
- `Store`: the tables, the statements, the structs.go reads, the cast rule and the shared write sequences.
- `Auth`: the middleware and `Wrap`.
- `MainHandlers`: handlers.go.
- `ActorHandlers`: handlers/actors.go, plus `AddActor` and `DeleteActor` of handlers.go. Those issue the same statements in the same order as the package revision. They differ only in the authorization function and in the `Date` decoder of the body, which are inputs.
- `FilmHandlers`: handlers/films.go.

Functions whose code is not part of this model become parameters:
- `checkForAutorization(r, needAdmin)` and `db.CheckForAutorization(r, needAdmin)` become `authError: bool -> bool`, which says whether the check fails for that flag.
- `db.GetActorByID` and `db.GetFilmByID` become `fetch: int -> Fetched<T>`.
- The evaluation of a list query (`ILIKE`, `ORDER BY`, `LIMIT`) becomes `query: Statement -> Answer<T>`: an error, or rows with possibly one failing scan.

The handler methods return the statement they sent (`issued`), so the
properties of the query text are stated of what reaches the database.

Behaviour of the code worth knowing:
- The UpdateFilm cast rule deletes the film's cast for every list except a single non-zero id. A single non-zero id `[x]` is appended to the existing cast, not substituted for it.
- `limit` has no positivity check.
- Both revisions of the actor list default to descending order.
- `UpdateActor` reads the stored actor before it checks for id 0.
- handlers/handlers.go:7-18 registers the package handlers without `Wrap`, and main.go:22-23 serves that mux. Only main_test.go wraps them. So in the served program the context never holds `admin`: the handlers/films.go `AddFilm`, `UpdateFilm` and `DeleteFilm` always answer 401 (`FilmHandlers.AdminGate`: a context without `admin` is refused), and `GetFilm` and `GetFilms` are open to everyone.
- The handlers/films.go read handlers have no gate of their own. The comments at handlers/films.go:67 and handlers/films.go:103 ask for a user's basic auth, which only the middleware checks.
- The `rows.Next()` loops of structs.go (structs.go:40-48, structs.go:56-64) never call `rows.Err()`. A stream that breaks after k rows ends the loop as if the rows had run out, and the read reports success with the first k ids (`StreamEndsAt(k)`, `Store.BrokenStreamIsSilent`). The handlers built on those reads then answer 200 with a shorter list.

## Model

| member | source | states |
|---|---|---|
| `Text.Atoi` | handlers.go:88-91 | strconv.Atoi: an optional sign and at least one decimal digit, and only values in the int64 range are accepted |
| `Text.AtoiItoa` | handlers.go:120 | the decimal printed by `%d` for any int64 reads back through Atoi as the same number |
| `Text.NatDigitsValue` | handlers.go:120 | the digits printed for a natural number denote that number |
| `Text.ToLower` | handlers.go:97 | lower-casing keeps the length and lower-cases each character on its own |
| `Text.Itoa` | handlers.go:120 | `%d` prints at least one character, a leading '-' exactly for negative numbers, and decimal digits otherwise |
| `Dates.ParseDayFirst` | structs/structs.go:14 | layout `02.01.2006`: any accepted text is a valid calendar day with a four-digit year |
| `Dates.ParseIsoMidnight` | structs/structs.go:16 | layout `2006-01-02T00:00:00Z`: any accepted text is a valid calendar day with a four-digit year |
| `Dates.Unquote` | structs/structs.go:13 | exactly the first and the last byte are removed, and only when there are at least two |
| `Dates.UnmarshalDate` | structs/structs.go:11-23 | any success is a valid calendar day; the slicing error happens exactly when the token is shorter than two bytes |
| `Dates.UnmarshalDateDayFirst` | structs.go:11-16 | as UnmarshalDate, for the revision with the day-first layout only |
| `Dates.ParseDayFirstFormat` | structs/structs.go:14 | every date with a four-digit year, printed day-first, parses back to itself |
| `Dates.ParseDayFirstCanonical` | structs/structs.go:14 | an accepted text is exactly the day-first printing of its date: fixed width, no trailing text |
| `Dates.ParseIsoMidnightFormat` | structs/structs.go:16 | every date printed as `YYYY-MM-DD` followed by `T00:00:00Z` parses back to itself |
| `Dates.ParseIsoMidnightCanonical` | structs/structs.go:16 | an accepted fallback text is exactly that printing with the literal zero time |
| `Dates.UnmarshalDateAccepts` | structs/structs.go:13-22 | both printed forms, between any two delimiter bytes, decode to the date with no error |
| `Dates.UnmarshalDateOnlyPrintedForms` | structs/structs.go:13-22 | a decoded token holds one of the two printed forms of the result and nothing else |
| `Dates.LayoutsDisjoint` | structs/structs.go:14-16 | no text matches both layouts, so the fallback never overrides a primary success |
| `Dates.DayFirstRevisionIsNarrower` | structs.go:11-16 | the single-layout revision agrees with the two-layout one where it succeeds, and refuses the ISO form |
| `Dates.ExampleBirthDate` | main_test.go:26-42 | `"01.01.2000"` decodes to 1 January 2000, which `2006-01-02` prints as `2000-01-01` |
| `Dates.FormatDayFirst` | structs/structs.go:14 | the day-first printing is ten characters with dots at positions 2 and 5 |
| `Dates.FormatIsoDay` | handlers/films.go:44 | `Format("2006-01-02")` is ten characters with dashes at positions 4 and 7 |
| `Dates.YearOneIsZero` | structs/structs.go:14 | `01.01.0001` decodes to the zero time, which the merge treats as unset |
| `Records.MergeActor` | handlers.go:184-192 | each of name, gender and birth date is the incoming value when it is set and the stored value when it is empty or zero; id and films stay incoming |
| `Records.MergeActorExtremes` | handlers.go:184-192 | an all-unset request stores the stored row again; an all-set request is kept as it is |
| `Records.MergeActorIdempotent` | handlers.go:184-192 | merging a merged actor with the same stored actor changes nothing |
| `Records.MergeActorSequential` | handlers.go:184-192 | two updates in a row store the same row as one update with the later set fields winning |
| `Records.MergeActorNeverStoresZeroDate` | handlers.go:184-192 | the merged birth date is zero, the name empty or the gender empty exactly when both incoming and stored are |
| `Records.MergeFilm` | handlers.go:396-407 | each of name, description, rating and release date is the incoming value when it is set and the stored value when it is empty or zero; id and actors stay incoming |
| `Records.MergeFilmExtremes` | handlers.go:396-407 | an all-unset request stores the stored row again; an all-set request is kept as it is |
| `Records.MergeFilmIdempotent` | handlers.go:396-407 | merging a merged film with the same stored film changes nothing |
| `Records.MergeFilmSequential` | handlers.go:396-407 | two updates in a row store the same row as one update with the later set fields winning |
| `Records.MergeFilmNeverStoresZero` | handlers.go:396-407 | the stored rating is 0 after an update only if it already was and the request sent 0: a rating of 0 cannot be set through update; the same for the zero date, an empty name and an empty description |
| `ListQuery.ParseLimit` | handlers.go:88-91 | an empty limit means 10; any accepted limit is an int64 |
| `ListQuery.ParseReverse` | handlers.go:97-105 | an empty reverse means descending; an accepted token is at most five characters long |
| `ListQuery.ParseSortParameter` | handlers.go:106-114 | an accepted column is whitelisted, and it is the one given unless none was given, when it is the default |
| `ListQuery.QueryText` | handlers.go:120 | the text starts with the fixed head and the column, and ends with the limit in decimal |
| `ListQuery.ListStatement` | handlers.go:86-121 | a statement is built exactly when validation passes, with validation's error otherwise; its bound argument is `%keyword%` |
| `ListQuery.DefaultSortColumn` | handlers.go:106-108 | the default column, "id" for actors and "rating" for films, is on the entity's whitelist |
| `ListQuery.ValidateList` | handlers.go:86-114 | an accepted request has a whitelisted column and an int64 limit |
| `ListQuery.ValidationOrder` | handlers.go:86-114 | limit is checked first, then reverse, then sort_parameter, and the first failing check names the error; validation passes exactly when all three pass |
| `ListQuery.Defaults` | handlers/films.go:100-102 | empty parameters give limit 10, descending order and column "id" (actors) or "rating" (films) |
| `ListQuery.ReverseTokens` | handlers.go:97-105 | reverse is compared after lower-casing with exactly "true" and "false"; other spellings are refused |
| `ListQuery.DescendingIffTrue` | handlers.go:116-119 | the order is DESC exactly when the lower-cased reverse is empty or "true" |
| `ListQuery.SortParameterWhitelist` | handlers/actors.go:102-110 | sort_parameter passes exactly when empty or whitelisted, and the column used is the one given or the default |
| `ListQuery.LimitUnbounded` | handlers.go:88-91 | every int64, zero and negatives included, is accepted as the limit |
| `ListQuery.StatementShape` | handlers.go:120-121 | the text is the fixed head, the whitelisted column, ASC or DESC and the limit; the bound argument is `%keyword%`; the text does not depend on the keyword |
| `ListQuery.LimitPrinted` | handlers.go:120 | the text ends with the limit in decimal, and reading that tail back gives the limit |
| `Store.CastActors` | structs.go:51-65 | a film's cast rows and the rows of other films together make up the table |
| `Store.CastFilms` | structs.go:35-49 | an actor's film list is no longer than the table |
| `Store.WithoutFilm` | handlers.go:415 | the DELETE leaves no row of the film and never adds rows |
| `Store.CastAfterUpdate` | handlers.go:414-427 | the rows written are at the end, all for the film and with non-zero actor ids; when nothing was deleted the old table is kept as a prefix |
| `Store.BrokenStreamIsSilent` | structs.go:40-48 | a stream broken after k rows reports no error and yields the first k film ids |
| `Store.CastActorsMembers` | structs.go:51-65 | an actor id is listed for a film exactly when a cast row pairs them |
| `Store.CastFilmsMembers` | structs.go:35-49 | a film id is listed for an actor exactly when a cast row pairs them |
| `Store.WithoutFilmMembers` | handlers.go:415 | the DELETE keeps exactly the rows of other films |
| `Store.NonZeroMembers` | handlers.go:417-420 | the ids the update loop inserts are exactly the non-zero listed ids |
| `Store.CastActorsAppend` | structs.go:51-65 | listing a film's cast distributes over appending rows to the table |
| `Store.CastFilmsAppend` | structs.go:35-49 | listing an actor's films distributes over appending rows to the table |
| `Store.CastActorsRowsFor` | handlers.go:249-256 | rows written for one film list exactly the written ids for it and nothing for any other film |
| `Store.CastActorsWithoutFilm` | handlers.go:414-416 | after the DELETE the film's cast is empty and every other film's cast is as before |
| `Store.NonZeroAppend` | handlers.go:417-420 | dropping zeros distributes over concatenation |
| `Store.NonZeroPrefix` | handlers.go:417-426 | the ids inserted before a failing insert are a prefix of the non-zero ids |
| `Store.CastActorsAboveAll` | handlers.go:242 | a film id above every row's film id has no cast |
| `Store.FreshFilmCast` | handlers.go:242-256 | the rows AddFilm writes for its new id are that film's whole cast |
| `Store.UpdateReplacesCast` | handlers.go:414-427 | a list other than one non-zero id makes the film's cast its non-zero ids in list order and leaves other films alone; an empty list or `[0]` clears it |
| `Store.UpdateAppendsSingle` | handlers.go:414-427 | a single non-zero id is appended to the film's existing cast and nothing is deleted |
| `Store.Database.InsertActor` | handlers.go:33 | the new row gets the next serial id, which no row had |
| `Store.Database.InsertFilm` | handlers.go:242 | the new row gets the next serial id, returned by RETURNING |
| `Store.Database.UpdateActorRow` | handlers.go:193 | an Exec UPDATE: a missing id is not an error and changes nothing |
| `Store.Database.UpdateFilmRow` | handlers.go:408 | UPDATE ... RETURNING through Scan: a missing id is an error |
| `Store.Database.DeleteActorRow` | handlers.go:217 | only the actor row goes; cast rows stay |
| `Store.Database.DeleteFilmRow` | handlers.go:446 | only the film row goes; cast rows stay |
| `Store.Database.InsertCast` | handlers.go:250 | appends one `(filmid, actorid)` row, with no uniqueness or actor check |
| `Store.Database.DeleteCastOfFilm` | handlers.go:415 | removes exactly the film's cast rows |
| `Store.Database.ActorById` | structs.go:67-77 | an error exactly when no row has the id; the zero Actor on error; films never filled in |
| `Store.Database.AppendActorsFilms` | structs.go:35-49 | appends the actor's film ids in row order to what the slice already holds; on a failed scan the ids before it stay and the error is reported; a broken stream stops the loop without an error |
| `Store.Database.AppendFilmsActors` | structs.go:51-65 | the same for a film's actor ids |
| `Store.Database.FilmById` | structs.go:79-93 | the zero Film when either the row read or the cast read fails; otherwise the row with the cast rows read, all of them unless the stream broke |
| `Store.Database.InsertFilmAndCast` | handlers.go:242-256 | the film row, then one cast row per listed id, zeros and repeats included, up to the first failing insert and with no rollback |
| `Store.Database.InsertCastRows` | handlers.go:249-256 | one insert per listed id in list order; the first failing insert stops the loop and the rows before it stay |
| `Store.Database.ApplyActorUpdate` | handlers.go:184-198 | the merged actor is written to the row with the request's id |
| `Store.Database.ApplyFilmUpdate` | handlers.go:396-427 | the merged film is written; the cast follows the delete-then-insert rule, the DELETE's error is ignored, and a failing insert stops the loop |
| `Store.Database.UpdateCast` | handlers.go:414-427 | the film's rows are deleted unless the list is one non-zero id, a failed DELETE changes nothing and is not reported, then the non-zero ids are inserted up to the first failure |
| `Store.Database.InsertNonZeroCast` | handlers.go:417-427 | zeros are skipped, each other id is one insert, and the first failing insert stops the loop, keeping what was written |
| `Auth.LookupUser` | handlers/middlewares.go:32 | a found user is a row of the table matching login and password; none is found exactly when no row matches |
| `Auth.Authenticate` | handlers/middlewares.go:22-46 | no credentials or a failed lookup rejects; a request that proceeds gets a non-zero `user` id and a boolean `admin`, with every other context key kept |
| `Auth.AuthMiddleware` | handlers/middlewares.go:22-46 | every rejected request is answered 401 with the challenge header |
| `Auth.FirstMatch` | handlers/middlewares.go:32 | the first row in table order whose login and password both equal the credentials, or none |
| `Auth.AuthenticateIff` | handlers/middlewares.go:22-46 | the request proceeds exactly when credentials are present, the lookup succeeds and the first matching row has a non-zero id; the context then gets that row's id and admin flag |
| `Auth.NoCredentialsRejected` | handlers/middlewares.go:22-27 | without basic auth the answer is 401 with `WWW-Authenticate: Basic realm="Restricted"`, whatever the inner handler |
| `Auth.FailedLookupRejected` | handlers/middlewares.go:33-37 | a failed lookup, no match, or a match with id 0 gives the 401 answer, and the inner handler plays no part |
| `Auth.AcceptedRunsInner` | handlers/middlewares.go:40-46 | once accepted, the answer is the inner handler's on the request with `user` = id and `admin` = the stored flag; the admin gate then passes exactly when the flag is set |
| `Auth.LookupNeedsBoth` | handlers/middlewares.go:32 | a looked-up user matches both login and password and is a row of the table |
| `Auth.Wrap` | handlers/middlewares.go:10-18 | applying the middleware list in order gives exactly authMiddleware(f) |
| `Auth.WrapAppliesOneMiddleware` | handlers/middlewares.go:11-13 | the middleware list holds exactly one middleware, authMiddleware |
| `MainHandlers.GetActor` | handlers.go:43-77 | 401 if the read check fails, 400 on a bad id, 500 if the row or its films cannot be read; otherwise the actor with the films read, all of them unless the stream broke |
| `MainHandlers.HydratedActorsFilms` | handlers.go:141-148 | the i-th listed actor is the i-th row; every film id in its list has a cast row pairing the two, and on a clean read every such row's film is listed |
| `MainHandlers.GetActors` | handlers.go:79-157 | 401, then 400 with no statement sent, then the validated statement; 500 on a query error, a failed scan or a failed film read; otherwise every row with its films |
| `MainHandlers.ScanActors` | handlers.go:128-139 | succeeds exactly when no scan fails, and then holds every row, in row order, with no films yet |
| `MainHandlers.HydrateActors` | handlers.go:141-148 | succeeds exactly when no actor's film read fails, and then every actor carries the film ids of its cast rows |
| `MainHandlers.UpdateActor` | handlers.go:159-201 | the read comes before the id check, so id 0 gives 400 only if a row with id 0 exists; otherwise the merged row is stored |
| `MainHandlers.AddFilm` | handlers.go:227-259 | no id check; the film gets a fresh id and its cast is exactly the listed ids written before the first failing insert |
| `MainHandlers.GetFilm` | handlers.go:261-289 | 401, 400 on a bad id, 500 if the film or its cast cannot be read; otherwise the film with the cast rows read, all of them unless the stream broke |
| `MainHandlers.HydratedFilmsCast` | handlers.go:353-360 | the i-th listed film is the i-th row; every actor id in its list has a cast row pairing the two, and on a clean read every such row's actor is listed |
| `MainHandlers.GetFilms` | handlers.go:291-369 | as GetActors, over films and their casts, with the films whitelist and default column |
| `MainHandlers.ScanFilms` | handlers.go:340-351 | succeeds exactly when no scan fails, and then holds every row, in row order, with no cast yet |
| `MainHandlers.HydrateFilms` | handlers.go:353-360 | succeeds exactly when no film's cast read fails, and then every film carries the actor ids of its cast rows |
| `MainHandlers.UpdateFilm` | handlers.go:371-430 | id 0 gives 400 before any read; a missing film or failed read gives 500; otherwise merge, UPDATE and the cast rule |
| `MainHandlers.DeleteFilm` | handlers.go:432-454 | only the film row is deleted; cast rows and actors stay |
| `ActorHandlers.AddActor` | handlers/actors.go:16-43 | a non-zero id gives 400 and nothing is inserted; otherwise one row with a fresh id (also handlers.go:14-41) |
| `ActorHandlers.DeleteActor` | handlers/actors.go:192-214 | only the actor row is deleted; cast rows and films stay (also handlers.go:203-225) |
| `ActorHandlers.GetActor` | handlers/actors.go:45-73 | 401, 400 on a bad id, 500 on a read error, otherwise the actor as read |
| `ActorHandlers.VisitedIds` | handlers/actors.go:124-136 | the fetched ids are the row ids, except that a failed scan contributes one last id 0 and ends the list; fewer ids than rows exactly when a scan before the last row fails |
| `ActorHandlers.ListedActors` | handlers/actors.go:126-135 | every listed actor has its birth date overwritten by the zero date, and is otherwise the actor db.GetActorByID returned |
| `ActorHandlers.GetActors` | handlers/actors.go:75-146 | an id-only statement; each id is read through db.GetActorByID in row order, and the first read error gives 500 |
| `ActorHandlers.FetchListed` | handlers/actors.go:124-136 | the scan error is never checked: a failed scan reads id 0 and then the stream ends |
| `ActorHandlers.ListedBirthDatesZero` | handlers/actors.go:124-136 | a failed scan of row k still answers 200, with k+1 actors, when reading id 0 succeeds; every birth date is zero |
| `ActorHandlers.UpdateActor` | handlers/actors.go:148-190 | the read comes before the id check; then the merge against what was read, and the UPDATE |
| `FilmHandlers.AddFilm` | handlers/films.go:25-61 | 401 unless admin; a missing body gives 400 and nothing is inserted; then the same insert sequence as handlers.go |
| `FilmHandlers.GetFilm` | handlers/films.go:72-94 | never 401; 400 on a bad id, 500 on a read error, otherwise the film as read |
| `FilmHandlers.ScannedFilms` | handlers/films.go:155-166 | one film per row, in row order, and none has its actors filled in |
| `FilmHandlers.GetFilms` | handlers/films.go:110-177 | never 401; validation as in the other list handlers; every scanned film with an empty actor list |
| `FilmHandlers.UpdateFilm` | handlers/films.go:190-249 | 401 unless admin; id 0 gives 400 before any read; then the merge, UPDATE and cast rule with the DELETE's error ignored |
| `FilmHandlers.DeleteFilm` | handlers/films.go:260-282 | 401 unless admin; only the film row is deleted |
| `FilmHandlers.AdminGate` | handlers/films.go:26 | only the context value `true` opens the gate: no value, `false` or a value of another kind is refused |

## Left out

- HTTP plumbing is not modelled: the response writer, headers other than `WWW-Authenticate`, and response bodies. A handler's outcome is its status code, the record or list it would encode, and the table changes.
- JSON is not modelled. Decoding a whole request body is an input (`Body<T>`), which carries already-decoded `Date`s. `Body<Actor>` stands for the revision's own decoder: `Dates.UnmarshalDateDayFirst` for handlers.go, where `{"birth_date":"2000-01-01T00:00:00Z"}` gives 400, and `Dates.UnmarshalDate` for the package, where it is accepted. Nothing in the model links `Body<T>` to either decoder. JSON encoding of answers is not modelled, including the 500 when encoding fails.
- `slog` logging is not modelled.
- Postgres evaluation of the list queries is not modelled: `ILIKE`, `ORDER BY`, `LIMIT` and the rows they return are the `query` parameter. A broken stream of a list query amounts to fewer rows in that parameter.
- `initTables` is not part of this model. `Store.Database.constructor` starts from empty tables with both serial counters at 1, which is an assumed starting state.
- `checkForAutorization`, `db.CheckForAutorization`, `db.GetActorByID` and `db.GetFilmByID` are not part of this model. They are parameters.
- `r.BasicAuth()` (header decoding per section 2 of RFC 7617) is an input, `Request.basicAuth`.
- The single-row reads of structs.go (`getActorByID`, and the row read of `getFilmByID`) fail exactly when no row has the id. Connection errors on those two reads are not modelled. Every other statement takes an explicit failure input.
- `Store.Database.FilmById`: the row read reports an error only for a missing row, not for a connection error, for the reason given for `ActorById` below. The cast read takes an explicit fault input.
- `Store.Database.ActorById`: reports an error only for a missing row, not for a connection error. `QueryRow(...).Scan` folds both into one error, so a connection error takes the same branch in every caller as a missing row, and the callers' contracts for a missing row cover its outcome.
- Rows of `moviecast` and `users` come back in table order. Postgres promises no order without `ORDER BY`, and the model assumes table order.
- `Text.ToLower`: lower-cases ASCII letters only. Unicode case mapping is left out. Every token the comparison accepts is ASCII.
- `Dates.UnmarshalDate`: a token shorter than two bytes makes the Go code panic on the slice (structs/structs.go:13). The model returns the error `SliceOutOfRange` instead.
- `Dates.UnmarshalDateDayFirst`: the same panic, on the slice at structs.go:13, is also returned as `SliceOutOfRange`.
- Time of day and location are not modelled: a date is its calendar day, and both layouts give midnight UTC.
- Concurrency on the shared connection is not modelled. Multi-statement writes are not atomic, and the model states only that nothing is rolled back.
- The handlers/films.go nil-body check is modelled (`hasBody`). The other handlers decode without that check; with a nil body the Go code would panic, which is not modelled.
- Configuration loading (config.go, config/config.go), main.go, db/conn.go, the routing tables (handlers.go:456-467, handlers/handlers.go) and the integration tests of main_test.go are not modelled. main_test.go only supplies the example of `Dates.ExampleBirthDate`.
