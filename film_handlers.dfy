/** handlers/films.go, the package revision of the film handlers.  Writes are
    gated on the context value "admin" that the middleware of `Auth` sets;
    reads have no gate of their own.  `db.GetFilmByID` is not part of this
    model: `fetch(id)` is what it returns. */
module FilmHandlers {
  import opened Common
  import opened Text
  import opened Records
  import opened ListQuery
  import opened Store
  import opened Auth
  import MainHandlers

  /** AddFilm: admin only; a missing body is refused before decoding. */
  method AddFilm(db: Database, ctx: Context, hasBody: bool, body: Body<Film>, insertFails: bool, castFault: Fault)
    returns (status: int)
    requires db.Valid()
    modifies db`films, db`nextFilmId, db`moviecast
    ensures db.Valid()
    ensures !IsAdmin(ctx) || !hasBody || body.Malformed? || insertFails ==> unchanged(db)
    ensures !IsAdmin(ctx) ==> status == StatusUnauthorized
    ensures IsAdmin(ctx) && (!hasBody || body.Malformed?) ==> status == StatusBadRequest
    ensures IsAdmin(ctx) && hasBody && body.Decoded? && insertFails ==> status == StatusInternalServerError
    ensures IsAdmin(ctx) && hasBody && body.Decoded? && !insertFails ==>
      var f := body.value;
      var id := old(db.nextFilmId);
      var n := Completed(castFault, |f.actors|);
      && id !in old(db.films)
      && db.films == old(db.films)[id := FilmRowOf(f)]
      && db.moviecast == old(db.moviecast) + RowsFor(id, f.actors[..n])
      && CastActors(db.moviecast, id) == f.actors[..n]
      && status == (if n == |f.actors| then StatusOK else StatusInternalServerError)
  {
    if !IsAdmin(ctx) {
      return StatusUnauthorized;
    }
    if !hasBody {
      return StatusBadRequest;
    }
    if body.Malformed? {
      return StatusBadRequest;
    }
    ghost var cast := db.moviecast;
    var ok, id := db.InsertFilmAndCast(body.value, insertFails, castFault);
    if insertFails {
      return StatusInternalServerError;
    }
    FreshFilmCast(cast, id, body.value.actors[..Completed(castFault, |body.value.actors|)]);
    status := if ok then StatusOK else StatusInternalServerError;
  }

  /** GetFilm: no gate; the film as db.GetFilmByID returns it. */
  method GetFilm(fetch: int -> Fetched<Film>, idString: string) returns (status: int, film: Film)
    ensures status != StatusUnauthorized
    ensures Atoi(idString).None? ==> status == StatusBadRequest
    ensures Atoi(idString).Some? ==>
      var fetched := fetch(Atoi(idString).value);
      if fetched.err then status == StatusInternalServerError
      else status == StatusOK && film == fetched.value
  {
    var parsed := Atoi(idString);
    if parsed.None? {
      return StatusBadRequest, ZeroFilm;
    }
    var fetched := fetch(parsed.value);
    if fetched.err {
      return StatusInternalServerError, ZeroFilm;
    }
    return StatusOK, fetched.value;
  }

  /** The GetFilms answer: the scanned rows as films, `actors` never filled in. */
  function ScannedFilms(rows: seq<(int, FilmRow)>): (r: seq<Film>)
    ensures |r| == |rows|
    ensures forall i :: 0 <= i < |rows| ==> r[i].id == rows[i].0
    ensures forall f :: f in r ==> f.actors == []
  {
    seq(|rows|, i requires 0 <= i < |rows| => FilmOf(rows[i].0, rows[i].1, []))
  }

  /** GetFilms: no gate; validation, `SELECT * FROM films ...`, then every row
      scanned into the list (the same loop as handlers.go's, so
      `MainHandlers.ScanFilms`), with no cast read. */
  method GetFilms(limit: string, keyword: string, reverse: string, sortParameter: string,
                  query: Statement -> Answer<(int, FilmRow)>)
    returns (status: int, issued: Option<Statement>, films: seq<Film>)
    ensures status != StatusUnauthorized
    ensures match ListStatement(FilmList, "*", limit, keyword, reverse, sortParameter)
      case Err(_) => status == StatusBadRequest && issued == None
      case Ok(st) =>
        && issued == Some(st)
        && (query(st).QueryError? ==> status == StatusInternalServerError)
        && (query(st).Rows? ==>
              var rows := query(st).rows;
              if Completed(query(st).scanFault, |rows|) < |rows| then status == StatusInternalServerError
              else status == StatusOK && films == ScannedFilms(rows)
                   && forall i :: 0 <= i < |films| ==> films[i].actors == [])
  {
    var statement := ListStatement(FilmList, "*", limit, keyword, reverse, sortParameter);
    if statement.Err? {
      return StatusBadRequest, None, [];
    }
    var st := statement.value;
    issued := Some(st);
    var answer := query(st);
    if answer.QueryError? {
      return StatusInternalServerError, issued, [];
    }
    var rows := answer.rows;
    var scanned;
    scanned, films := MainHandlers.ScanFilms(rows, answer.scanFault);
    if !scanned {
      return StatusInternalServerError, issued, [];
    }
    status := StatusOK;
  }

  /** UpdateFilm: admin only; id 0 is refused before any read; then the merge
      against what db.GetFilmByID returned, the UPDATE and the cast rule, with
      the DELETE's error ignored. */
  method UpdateFilm(db: Database, ctx: Context, body: Body<Film>, fetch: int -> Fetched<Film>,
                    updateFails: bool, deleteFails: bool, castFault: Fault) returns (status: int)
    requires db.Valid()
    modifies db`films, db`moviecast
    ensures db.Valid()
    ensures !IsAdmin(ctx) ==> status == StatusUnauthorized && unchanged(db)
    ensures IsAdmin(ctx) && body.Malformed? ==> status == StatusBadRequest && unchanged(db)
    ensures IsAdmin(ctx) && body.Decoded? && body.value.id == 0 ==> status == StatusBadRequest && unchanged(db)
    ensures IsAdmin(ctx) && body.Decoded? && body.value.id != 0 ==>
      var f := body.value;
      if fetch(f.id).err || updateFails || f.id !in old(db.films)
      then status == StatusInternalServerError && unchanged(db)
      else
        var n := Completed(castFault, |NonZero(f.actors)|);
        && db.films == old(db.films)[f.id := FilmRowOf(MergeFilm(f, fetch(f.id).value))]
        && db.moviecast == CastAfterUpdate(old(db.moviecast), f.id, f.actors, deleteFails, n)
        && status == (if n == |NonZero(f.actors)| then StatusOK else StatusInternalServerError)
  {
    if !IsAdmin(ctx) {
      return StatusUnauthorized;
    }
    if body.Malformed? {
      return StatusBadRequest;
    }
    var film := body.value;
    if film.id == 0 {
      return StatusBadRequest;
    }
    var fetched := fetch(film.id);
    if fetched.err {
      return StatusInternalServerError;
    }
    var ok := db.ApplyFilmUpdate(film, fetched.value, updateFails, deleteFails, castFault);
    status := if ok then StatusOK else StatusInternalServerError;
  }

  /** DeleteFilm: admin only; only the film row goes. */
  method DeleteFilm(db: Database, ctx: Context, idString: string, deleteFails: bool) returns (status: int)
    requires db.Valid()
    modifies db`films
    ensures db.Valid()
    ensures db.moviecast == old(db.moviecast) && db.actors == old(db.actors)
    ensures !IsAdmin(ctx) ==> status == StatusUnauthorized && unchanged(db)
    ensures IsAdmin(ctx) && Atoi(idString).None? ==> status == StatusBadRequest && unchanged(db)
    ensures IsAdmin(ctx) && Atoi(idString).Some? ==>
      if deleteFails then status == StatusInternalServerError && unchanged(db)
      else status == StatusOK && db.films == old(db.films) - {Atoi(idString).value}
  {
    if !IsAdmin(ctx) {
      return StatusUnauthorized;
    }
    var parsed := Atoi(idString);
    if parsed.None? {
      return StatusBadRequest;
    }
    var ok := db.DeleteFilmRow(parsed.value, deleteFails);
    status := if ok then StatusOK else StatusInternalServerError;
  }

  /** The gate needs the value `true` itself: no value, `false`, or a value of another kind is refused. */
  lemma AdminGate(ctx: Context, id: int)
    ensures !IsAdmin(map[])
    ensures "admin" !in ctx ==> !IsAdmin(ctx)
    ensures !IsAdmin(ctx["admin" := BoolValue(false)])
    ensures !IsAdmin(ctx["admin" := IntValue(id)])
    ensures IsAdmin(ctx["admin" := BoolValue(true)])
  {
  }
}
