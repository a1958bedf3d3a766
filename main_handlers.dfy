/** handlers.go, the revision in package main.  It reads through the functions
    of structs.go (the `Database` reads of `Store`) and checks authorization
    with `checkForAutorization`, whose code is not part of this model:
    `authError(needAdmin)` says whether that check returns an error.
    `AddActor` and `DeleteActor` issue the same statements in the same order
    as in handlers/actors.go and are modelled once, in `ActorHandlers`: the
    two revisions differ in the authorization function and in the `Date`
    decoder behind the request body, and both are inputs there. */
module MainHandlers {
  import opened Common
  import opened Text
  import opened Records
  import opened ListQuery
  import opened Store

  // ---- actors ----

  /** GetActor: the actor row, then its films. */
  method GetActor(db: Database, authError: bool -> bool, idString: string, filmsFault: ReadFault)
    returns (status: int, actor: Actor)
    ensures authError(false) ==> status == StatusUnauthorized
    ensures !authError(false) && Atoi(idString).None? ==> status == StatusBadRequest
    ensures !authError(false) && Atoi(idString).Some? ==>
      var id := Atoi(idString).value;
      if id !in db.actors || ReadFails(filmsFault, |CastFilms(db.moviecast, id)|) then status == StatusInternalServerError
      else status == StatusOK && actor == ActorOf(id, db.actors[id], FilmsRead(db.moviecast, id, filmsFault))
  {
    if authError(false) {
      return StatusUnauthorized, ZeroActor;
    }
    var parsed := Atoi(idString);
    if parsed.None? {
      return StatusBadRequest, ZeroActor;
    }
    var id := parsed.value;
    var fetched := db.ActorById(id);
    if fetched.err {
      return StatusInternalServerError, ZeroActor;
    }
    var err;
    actor, err := db.AppendActorsFilms(fetched.value, id, filmsFault);
    if err {
      return StatusInternalServerError, ZeroActor;
    }
    status := StatusOK;
  }

  /** The list GetActors answers with: each scanned row with the films its
      read returned (the i-th read is the i-th row's). */
  function HydratedActors(rows: seq<(int, ActorRow)>, cast: seq<CastRow>, filmsFault: nat -> ReadFault): (r: seq<Actor>)
    ensures |r| == |rows|
  {
    seq(|rows|, i requires 0 <= i < |rows| => ActorOf(rows[i].0, rows[i].1, FilmsRead(cast, rows[i].0, filmsFault(i))))
  }

  /** The i-th listed actor is the i-th row; every film listed for it is one
      a cast row pairs it with, and after a clean read every such film is
      listed.  A broken stream can leave films out without an error. */
  lemma HydratedActorsFilms(rows: seq<(int, ActorRow)>, cast: seq<CastRow>, filmsFault: nat -> ReadFault, i: nat, f: int)
    requires i < |rows|
    ensures HydratedActors(rows, cast, filmsFault)[i].id == rows[i].0
    ensures f in HydratedActors(rows, cast, filmsFault)[i].films ==> CastRow(f, rows[i].0) in cast
    ensures filmsFault(i).ReadOk? ==> (f in HydratedActors(rows, cast, filmsFault)[i].films <==> CastRow(f, rows[i].0) in cast)
  {
    assert HydratedActors(rows, cast, filmsFault)[i] == ActorOf(rows[i].0, rows[i].1, FilmsRead(cast, rows[i].0, filmsFault(i)));
    CastFilmsMembers(cast, rows[i].0, f);
  }

  /** Some actor's film read fails (the i-th read is the i-th row's). */
  predicate ActorFilmsFail(rows: seq<(int, ActorRow)>, cast: seq<CastRow>, filmsFault: nat -> ReadFault)
  {
    exists i :: 0 <= i < |rows| && ReadFails(filmsFault(i), |CastFilms(cast, rows[i].0)|)
  }

  /** GetActors: validation, then `SELECT * FROM actors ...`, every row scanned
      into the list, then each actor's films read in list order.  `query` is
      the database's answer to a statement; `issued` is the statement sent. */
  method GetActors(db: Database, authError: bool -> bool, limit: string, keyword: string, reverse: string, sortParameter: string,
                   query: Statement -> Answer<(int, ActorRow)>, filmsFault: nat -> ReadFault)
    returns (status: int, issued: Option<Statement>, actors: seq<Actor>)
    ensures authError(false) ==> status == StatusUnauthorized && issued == None
    ensures !authError(false) ==>
      match ListStatement(ActorList, "*", limit, keyword, reverse, sortParameter)
      case Err(_) => status == StatusBadRequest && issued == None
      case Ok(st) =>
        && issued == Some(st)
        && (query(st).QueryError? ==> status == StatusInternalServerError)
        && (query(st).Rows? ==>
              var rows := query(st).rows;
              if Completed(query(st).scanFault, |rows|) < |rows| || ActorFilmsFail(rows, db.moviecast, filmsFault)
              then status == StatusInternalServerError
              else status == StatusOK && actors == HydratedActors(rows, db.moviecast, filmsFault))
  {
    if authError(false) {
      return StatusUnauthorized, None, [];
    }
    var statement := ListStatement(ActorList, "*", limit, keyword, reverse, sortParameter);
    if statement.Err? {
      return StatusBadRequest, None, [];
    }
    var st := statement.value;
    issued := Some(st);
    var answer := query(st);
    if answer.QueryError? {
      return StatusInternalServerError, issued, [];
    }
    var rows := answer.rows;
    var scanned, listed := ScanActors(rows, answer.scanFault);
    if !scanned {
      return StatusInternalServerError, issued, [];
    }
    var hydrated;
    hydrated, listed := HydrateActors(db, rows, listed, filmsFault);
    if !hydrated {
      return StatusInternalServerError, issued, [];
    }
    return StatusOK, issued, listed;
  }

  /** The `rows.Next` loop of GetActors: each row scanned into an actor with no
      films yet; a failed scan ends the handler. */
  method ScanActors(rows: seq<(int, ActorRow)>, scanFault: Fault) returns (ok: bool, listed: seq<Actor>)
    ensures ok <==> Completed(scanFault, |rows|) == |rows|
    ensures ok ==> |listed| == |rows| && forall j :: 0 <= j < |rows| ==> listed[j] == ActorOf(rows[j].0, rows[j].1, [])
  {
    listed := [];
    var i := 0;
    while i < |rows|
      invariant 0 <= i <= |rows|
      invariant |listed| == i
      invariant forall j :: 0 <= j < i ==> listed[j] == ActorOf(rows[j].0, rows[j].1, [])
      invariant scanFault.FailAt? ==> scanFault.k >= i
    {
      if scanFault == FailAt(i) {
        return false, listed;
      }
      listed := listed + [ActorOf(rows[i].0, rows[i].1, [])];
      i := i + 1;
    }
    ok := true;
  }

  /** The second loop of GetActors: the films of each listed actor read in list order and
      written back in place; the first failed read ends the handler. */
  method HydrateActors(db: Database, rows: seq<(int, ActorRow)>, listed: seq<Actor>, filmsFault: nat -> ReadFault)
    returns (ok: bool, actors: seq<Actor>)
    requires |listed| == |rows| && forall j :: 0 <= j < |rows| ==> listed[j] == ActorOf(rows[j].0, rows[j].1, [])
    ensures ok <==> !ActorFilmsFail(rows, db.moviecast, filmsFault)
    ensures ok ==> actors == HydratedActors(rows, db.moviecast, filmsFault)
  {
    actors := listed;
    var k := 0;
    while k < |actors|
      invariant 0 <= k <= |actors| == |rows|
      invariant forall j :: 0 <= j < k ==> actors[j] == ActorOf(rows[j].0, rows[j].1, FilmsRead(db.moviecast, rows[j].0, filmsFault(j)))
      invariant forall j :: k <= j < |actors| ==> actors[j] == ActorOf(rows[j].0, rows[j].1, [])
      invariant forall j :: 0 <= j < k ==> !ReadFails(filmsFault(j), |CastFilms(db.moviecast, rows[j].0)|)
    {
      var hydrated, err := db.AppendActorsFilms(actors[k], actors[k].id, filmsFault(k));
      if err {
        return false, actors;
      }
      actors := actors[k := hydrated];
      k := k + 1;
    }
    ok := true;
  }

  /** UpdateActor: the stored actor is read before the id is checked, so
      id 0 gets its 400 only when a row with id 0 exists, and 500 otherwise. */
  method UpdateActor(db: Database, authError: bool -> bool, body: Body<Actor>, updateFails: bool) returns (status: int)
    requires db.Valid()
    modifies db`actors
    ensures db.Valid()
    ensures authError(true) || body.Malformed? || body.value.id !in old(db.actors) || body.value.id == 0 || updateFails
            ==> unchanged(db)
    ensures authError(true) ==> status == StatusUnauthorized
    ensures !authError(true) && body.Malformed? ==> status == StatusBadRequest
    ensures !authError(true) && body.Decoded? ==>
      var a := body.value;
      if a.id !in old(db.actors) then status == StatusInternalServerError
      else if a.id == 0 then status == StatusBadRequest
      else if updateFails then status == StatusInternalServerError
      else (status == StatusOK
            && db.actors == old(db.actors)[a.id := ActorRowOf(MergeActor(a, ActorOf(a.id, old(db.actors)[a.id], [])))])
  {
    if authError(true) {
      return StatusUnauthorized;
    }
    if body.Malformed? {
      return StatusBadRequest;
    }
    var actor := body.value;
    var fetched := db.ActorById(actor.id);
    if fetched.err {
      return StatusInternalServerError;
    }
    if actor.id == 0 {
      return StatusBadRequest;
    }
    var ok := db.ApplyActorUpdate(actor, fetched.value, updateFails);
    status := if ok then StatusOK else StatusInternalServerError;
  }

  // ---- films ----

  /** AddFilm: no id check; the film row, then one cast row per listed id. */
  method AddFilm(db: Database, authError: bool -> bool, body: Body<Film>, insertFails: bool, castFault: Fault) returns (status: int)
    requires db.Valid()
    modifies db`films, db`nextFilmId, db`moviecast
    ensures db.Valid()
    ensures authError(true) || body.Malformed? || insertFails ==> unchanged(db)
    ensures authError(true) ==> status == StatusUnauthorized
    ensures !authError(true) && body.Malformed? ==> status == StatusBadRequest
    ensures !authError(true) && body.Decoded? && insertFails ==> status == StatusInternalServerError
    ensures !authError(true) && body.Decoded? && !insertFails ==>
      var f := body.value;
      var id := old(db.nextFilmId);
      var n := Completed(castFault, |f.actors|);
      && id !in old(db.films)
      && db.films == old(db.films)[id := FilmRowOf(f)]
      && db.moviecast == old(db.moviecast) + RowsFor(id, f.actors[..n])
      && CastActors(db.moviecast, id) == f.actors[..n]
      && status == (if n == |f.actors| then StatusOK else StatusInternalServerError)
  {
    if authError(true) {
      return StatusUnauthorized;
    }
    if body.Malformed? {
      return StatusBadRequest;
    }
    ghost var cast := db.moviecast;
    var ok, id := db.InsertFilmAndCast(body.value, insertFails, castFault);
    if insertFails {
      return StatusInternalServerError;
    }
    FreshFilmCast(cast, id, body.value.actors[..Completed(castFault, |body.value.actors|)]);
    status := if ok then StatusOK else StatusInternalServerError;
  }

  /** GetFilm: the film and its cast, through getFilmByID. */
  method GetFilm(db: Database, authError: bool -> bool, idString: string, castFault: ReadFault) returns (status: int, film: Film)
    ensures authError(false) ==> status == StatusUnauthorized
    ensures !authError(false) && Atoi(idString).None? ==> status == StatusBadRequest
    ensures !authError(false) && Atoi(idString).Some? ==>
      var id := Atoi(idString).value;
      if id !in db.films || ReadFails(castFault, |CastActors(db.moviecast, id)|) then status == StatusInternalServerError
      else status == StatusOK && film == FilmOf(id, db.films[id], CastRead(db.moviecast, id, castFault))
  {
    if authError(false) {
      return StatusUnauthorized, ZeroFilm;
    }
    var parsed := Atoi(idString);
    if parsed.None? {
      return StatusBadRequest, ZeroFilm;
    }
    var err;
    film, err := db.FilmById(parsed.value, castFault);
    status := if err then StatusInternalServerError else StatusOK;
  }

  /** The list GetFilms answers with: each scanned row with the cast its
      read returned. */
  function HydratedFilms(rows: seq<(int, FilmRow)>, cast: seq<CastRow>, castFault: nat -> ReadFault): (r: seq<Film>)
    ensures |r| == |rows|
  {
    seq(|rows|, i requires 0 <= i < |rows| => FilmOf(rows[i].0, rows[i].1, CastRead(cast, rows[i].0, castFault(i))))
  }

  /** The i-th listed film is the i-th row; every actor listed for it is one
      a cast row pairs it with, and after a clean read every such actor is
      listed. */
  lemma HydratedFilmsCast(rows: seq<(int, FilmRow)>, cast: seq<CastRow>, castFault: nat -> ReadFault, i: nat, a: int)
    requires i < |rows|
    ensures HydratedFilms(rows, cast, castFault)[i].id == rows[i].0
    ensures a in HydratedFilms(rows, cast, castFault)[i].actors ==> CastRow(rows[i].0, a) in cast
    ensures castFault(i).ReadOk? ==> (a in HydratedFilms(rows, cast, castFault)[i].actors <==> CastRow(rows[i].0, a) in cast)
  {
    assert HydratedFilms(rows, cast, castFault)[i] == FilmOf(rows[i].0, rows[i].1, CastRead(cast, rows[i].0, castFault(i)));
    CastActorsMembers(cast, rows[i].0, a);
  }

  predicate FilmActorsFail(rows: seq<(int, FilmRow)>, cast: seq<CastRow>, castFault: nat -> ReadFault)
  {
    exists i :: 0 <= i < |rows| && ReadFails(castFault(i), |CastActors(cast, rows[i].0)|)
  }

  /** GetFilms: as GetActors, over films and their casts. */
  method GetFilms(db: Database, authError: bool -> bool, limit: string, keyword: string, reverse: string, sortParameter: string,
                  query: Statement -> Answer<(int, FilmRow)>, castFault: nat -> ReadFault)
    returns (status: int, issued: Option<Statement>, films: seq<Film>)
    ensures authError(false) ==> status == StatusUnauthorized && issued == None
    ensures !authError(false) ==>
      match ListStatement(FilmList, "*", limit, keyword, reverse, sortParameter)
      case Err(_) => status == StatusBadRequest && issued == None
      case Ok(st) =>
        && issued == Some(st)
        && (query(st).QueryError? ==> status == StatusInternalServerError)
        && (query(st).Rows? ==>
              var rows := query(st).rows;
              if Completed(query(st).scanFault, |rows|) < |rows| || FilmActorsFail(rows, db.moviecast, castFault)
              then status == StatusInternalServerError
              else status == StatusOK && films == HydratedFilms(rows, db.moviecast, castFault))
  {
    if authError(false) {
      return StatusUnauthorized, None, [];
    }
    var statement := ListStatement(FilmList, "*", limit, keyword, reverse, sortParameter);
    if statement.Err? {
      return StatusBadRequest, None, [];
    }
    var st := statement.value;
    issued := Some(st);
    var answer := query(st);
    if answer.QueryError? {
      return StatusInternalServerError, issued, [];
    }
    var rows := answer.rows;
    var scanned, listed := ScanFilms(rows, answer.scanFault);
    if !scanned {
      return StatusInternalServerError, issued, [];
    }
    var hydrated;
    hydrated, listed := HydrateFilms(db, rows, listed, castFault);
    if !hydrated {
      return StatusInternalServerError, issued, [];
    }
    return StatusOK, issued, listed;
  }

  /** The `rows.Next` loop of GetFilms: each row scanned into a film with no
      cast yet; a failed scan ends the handler. */
  method ScanFilms(rows: seq<(int, FilmRow)>, scanFault: Fault) returns (ok: bool, listed: seq<Film>)
    ensures ok <==> Completed(scanFault, |rows|) == |rows|
    ensures ok ==> |listed| == |rows| && forall j :: 0 <= j < |rows| ==> listed[j] == FilmOf(rows[j].0, rows[j].1, [])
  {
    listed := [];
    var i := 0;
    while i < |rows|
      invariant 0 <= i <= |rows|
      invariant |listed| == i
      invariant forall j :: 0 <= j < i ==> listed[j] == FilmOf(rows[j].0, rows[j].1, [])
      invariant scanFault.FailAt? ==> scanFault.k >= i
    {
      if scanFault == FailAt(i) {
        return false, listed;
      }
      listed := listed + [FilmOf(rows[i].0, rows[i].1, [])];
      i := i + 1;
    }
    ok := true;
  }

  /** The second loop of GetFilms: the cast of each listed film read in list order and
      written back in place; the first failed read ends the handler. */
  method HydrateFilms(db: Database, rows: seq<(int, FilmRow)>, listed: seq<Film>, castFault: nat -> ReadFault)
    returns (ok: bool, films: seq<Film>)
    requires |listed| == |rows| && forall j :: 0 <= j < |rows| ==> listed[j] == FilmOf(rows[j].0, rows[j].1, [])
    ensures ok <==> !FilmActorsFail(rows, db.moviecast, castFault)
    ensures ok ==> films == HydratedFilms(rows, db.moviecast, castFault)
  {
    films := listed;
    var k := 0;
    while k < |films|
      invariant 0 <= k <= |films| == |rows|
      invariant forall j :: 0 <= j < k ==> films[j] == FilmOf(rows[j].0, rows[j].1, CastRead(db.moviecast, rows[j].0, castFault(j)))
      invariant forall j :: k <= j < |films| ==> films[j] == FilmOf(rows[j].0, rows[j].1, [])
      invariant forall j :: 0 <= j < k ==> !ReadFails(castFault(j), |CastActors(db.moviecast, rows[j].0)|)
    {
      var hydrated, err := db.AppendFilmsActors(films[k], films[k].id, castFault(k));
      if err {
        return false, films;
      }
      films := films[k := hydrated];
      k := k + 1;
    }
    ok := true;
  }

  /** UpdateFilm: id 0 is refused before any read; then getFilmByID, the merge,
      the UPDATE and the cast rule. */
  method UpdateFilm(db: Database, authError: bool -> bool, body: Body<Film>, readFault: ReadFault,
                    updateFails: bool, deleteFails: bool, castFault: Fault) returns (status: int)
    requires db.Valid()
    modifies db`films, db`moviecast
    ensures db.Valid()
    ensures authError(true) ==> status == StatusUnauthorized && unchanged(db)
    ensures !authError(true) && body.Malformed? ==> status == StatusBadRequest && unchanged(db)
    ensures !authError(true) && body.Decoded? && body.value.id == 0 ==> status == StatusBadRequest && unchanged(db)
    ensures !authError(true) && body.Decoded? && body.value.id != 0 ==>
      var f := body.value;
      if f.id !in old(db.films) || ReadFails(readFault, |CastActors(old(db.moviecast), f.id)|) || updateFails
      then status == StatusInternalServerError && unchanged(db)
      else
        var stored := FilmOf(f.id, old(db.films)[f.id], CastRead(old(db.moviecast), f.id, readFault));
        var n := Completed(castFault, |NonZero(f.actors)|);
        && db.films == old(db.films)[f.id := FilmRowOf(MergeFilm(f, stored))]
        && db.moviecast == CastAfterUpdate(old(db.moviecast), f.id, f.actors, deleteFails, n)
        && status == (if n == |NonZero(f.actors)| then StatusOK else StatusInternalServerError)
  {
    if authError(true) {
      return StatusUnauthorized;
    }
    if body.Malformed? {
      return StatusBadRequest;
    }
    var film := body.value;
    if film.id == 0 {
      return StatusBadRequest;
    }
    var stored, err := db.FilmById(film.id, readFault);
    if err {
      return StatusInternalServerError;
    }
    var ok := db.ApplyFilmUpdate(film, stored, updateFails, deleteFails, castFault);
    status := if ok then StatusOK else StatusInternalServerError;
  }

  /** DeleteFilm: only the film row goes; its cast rows stay. */
  method DeleteFilm(db: Database, authError: bool -> bool, idString: string, deleteFails: bool) returns (status: int)
    requires db.Valid()
    modifies db`films
    ensures db.Valid()
    ensures db.moviecast == old(db.moviecast) && db.actors == old(db.actors)
    ensures authError(true) ==> status == StatusUnauthorized && unchanged(db)
    ensures !authError(true) && Atoi(idString).None? ==> status == StatusBadRequest && unchanged(db)
    ensures !authError(true) && Atoi(idString).Some? ==>
      if deleteFails then status == StatusInternalServerError && unchanged(db)
      else status == StatusOK && db.films == old(db.films) - {Atoi(idString).value}
  {
    if authError(true) {
      return StatusUnauthorized;
    }
    var parsed := Atoi(idString);
    if parsed.None? {
      return StatusBadRequest;
    }
    var ok := db.DeleteFilmRow(parsed.value, deleteFails);
    status := if ok then StatusOK else StatusInternalServerError;
  }
}
