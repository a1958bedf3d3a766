/** An in-memory model of the `actors`, `films` and `moviecast` tables, the
    write statements the handlers issue against them, and the reads of
    structs.go.  The `users` table is read only by the middleware, which sees
    it through `Auth.Env`.  Whether a statement fails is an input (`fails`,
    `Fault`, `ReadFault`): the database's reasons are not part of the model. */
module Store {
  import opened Common
  import opened Dates
  import opened Records

  /** A `moviecast` row. */
  datatype CastRow = CastRow(filmId: int, actorId: int)

  /** A `users` row, as the middleware's lookup sees it. */
  datatype UserRow = UserRow(id: int, login: string, password: string, admin: bool)

  /** `SELECT actorid FROM moviecast WHERE filmid = $1`, rows in table order. */
  function CastActors(cast: seq<CastRow>, filmId: int): (r: seq<int>)
    ensures |r| + |WithoutFilm(cast, filmId)| == |cast|
  {
    if cast == [] then []
    else (if cast[0].filmId == filmId then [cast[0].actorId] else []) + CastActors(cast[1..], filmId)
  }

  /** `SELECT filmid FROM moviecast WHERE actorid = $1`, rows in table order. */
  function CastFilms(cast: seq<CastRow>, actorId: int): (r: seq<int>)
    ensures |r| <= |cast|
  {
    if cast == [] then []
    else (if cast[0].actorId == actorId then [cast[0].filmId] else []) + CastFilms(cast[1..], actorId)
  }

  /** `DELETE FROM moviecast WHERE filmid = $1`. */
  function WithoutFilm(cast: seq<CastRow>, filmId: int): (r: seq<CastRow>)
    ensures |r| <= |cast|
    ensures forall i :: 0 <= i < |r| ==> r[i].filmId != filmId
  {
    if cast == [] then []
    else (if cast[0].filmId == filmId then [] else [cast[0]]) + WithoutFilm(cast[1..], filmId)
  }

  /** One row per listed actor id, in list order. */
  function RowsFor(filmId: int, actorIds: seq<int>): (r: seq<CastRow>)
    ensures |r| == |actorIds|
    ensures forall i :: 0 <= i < |r| ==> r[i] == CastRow(filmId, actorIds[i])
  {
    if actorIds == [] then [] else RowsFor(filmId, actorIds[..|actorIds| - 1]) + [CastRow(filmId, actorIds[|actorIds| - 1])]
  }

  /** The listed ids without the zeros, in list order. */
  function NonZero(ids: seq<int>): seq<int>
  {
    if ids == [] then []
    else NonZero(ids[..|ids| - 1]) + (if ids[|ids| - 1] != 0 then [ids[|ids| - 1]] else [])
  }

  /** The film ids getActorsFilms appends under f: those of the rows it reads. */
  function FilmsRead(cast: seq<CastRow>, actorId: int, f: ReadFault): seq<int>
  {
    CastFilms(cast, actorId)[..RowsRead(f, |CastFilms(cast, actorId)|)]
  }

  /** The actor ids getFilmsActors appends under f: those of the rows it reads. */
  function CastRead(cast: seq<CastRow>, filmId: int, f: ReadFault): seq<int>
  {
    CastActors(cast, filmId)[..RowsRead(f, |CastActors(cast, filmId)|)]
  }

  /** A stream that breaks after k of an actor's cast rows is not an error:
      the read reports success with only the first k film ids. */
  lemma BrokenStreamIsSilent(cast: seq<CastRow>, actorId: int, k: nat)
    requires k < |CastFilms(cast, actorId)|
    ensures !ReadFails(StreamEndsAt(k), |CastFilms(cast, actorId)|)
    ensures FilmsRead(cast, actorId, StreamEndsAt(k)) == CastFilms(cast, actorId)[..k]
    ensures |FilmsRead(cast, actorId, StreamEndsAt(k))| < |CastFilms(cast, actorId)|
  {
  }

  /** Whether UpdateFilm deletes the film's cast before inserting: every list but a single non-zero id. */
  predicate ReplacesCast(ids: seq<int>)
  {
    |ids| != 1 || ids[0] == 0
  }

  /** The cast table after UpdateFilm's cast step: the film's rows deleted
      (unless the list is a single non-zero id, or the unchecked DELETE
      failed), then `inserted` of the non-zero ids appended in list order. */
  function CastAfterUpdate(cast: seq<CastRow>, filmId: int, ids: seq<int>, deleteFails: bool, inserted: nat): (r: seq<CastRow>)
    requires inserted <= |NonZero(ids)|
    ensures inserted <= |r| <= |cast| + inserted
    ensures forall i :: |r| - inserted <= i < |r| ==> r[i].filmId == filmId && r[i].actorId != 0
    ensures !ReplacesCast(ids) || deleteFails ==> |cast| <= |r| && r[..|cast|] == cast
  {
    NonZeroHasNoZero(ids);
    (if ReplacesCast(ids) && !deleteFails then WithoutFilm(cast, filmId) else cast)
      + RowsFor(filmId, NonZero(ids)[..inserted])
  }

  // ---- lemmas about the cast table ----

  /** An actor id is listed for a film exactly when a cast row pairs them. */
  lemma {:induction false} CastActorsMembers(cast: seq<CastRow>, filmId: int, a: int)
    ensures a in CastActors(cast, filmId) <==> CastRow(filmId, a) in cast
  {
    if cast != [] {
      CastActorsMembers(cast[1..], filmId, a);
      assert cast == [cast[0]] + cast[1..];
    }
  }

  /** A film id is listed for an actor exactly when a cast row pairs them. */
  lemma {:induction false} CastFilmsMembers(cast: seq<CastRow>, actorId: int, f: int)
    ensures f in CastFilms(cast, actorId) <==> CastRow(f, actorId) in cast
  {
    if cast != [] {
      CastFilmsMembers(cast[1..], actorId, f);
      assert cast == [cast[0]] + cast[1..];
    }
  }

  /** The DELETE keeps exactly the rows of the other films. */
  lemma {:induction false} WithoutFilmMembers(cast: seq<CastRow>, filmId: int, row: CastRow)
    ensures row in WithoutFilm(cast, filmId) <==> row in cast && row.filmId != filmId
  {
    if cast != [] {
      WithoutFilmMembers(cast[1..], filmId, row);
      assert cast == [cast[0]] + cast[1..];
    }
  }

  /** The ids UpdateFilm inserts are exactly the non-zero listed ids. */
  lemma {:induction false} NonZeroMembers(ids: seq<int>, x: int)
    ensures x in NonZero(ids) <==> x in ids && x != 0
  {
    if ids != [] {
      NonZeroMembers(ids[..|ids| - 1], x);
      assert ids == ids[..|ids| - 1] + [ids[|ids| - 1]];
    }
  }

  /** No id the update loop inserts is 0. */
  lemma NonZeroHasNoZero(ids: seq<int>)
    ensures forall i :: 0 <= i < |NonZero(ids)| ==> NonZero(ids)[i] != 0
  {
    forall i | 0 <= i < |NonZero(ids)| {
      NonZeroMembers(ids, NonZero(ids)[i]);
    }
  }

  lemma {:induction false} CastActorsAppend(a: seq<CastRow>, b: seq<CastRow>, filmId: int)
    ensures CastActors(a + b, filmId) == CastActors(a, filmId) + CastActors(b, filmId)
  {
    if a != [] {
      assert (a + b)[1..] == a[1..] + b;
      CastActorsAppend(a[1..], b, filmId);
    } else {
      assert a + b == b;
    }
  }

  lemma {:induction false} CastFilmsAppend(a: seq<CastRow>, b: seq<CastRow>, actorId: int)
    ensures CastFilms(a + b, actorId) == CastFilms(a, actorId) + CastFilms(b, actorId)
  {
    if a != [] {
      assert (a + b)[1..] == a[1..] + b;
      CastFilmsAppend(a[1..], b, actorId);
    } else {
      assert a + b == b;
    }
  }

  /** Rows written for one film list exactly the written ids for it and nothing for any other film. */
  lemma {:induction false} CastActorsRowsFor(filmId: int, ids: seq<int>, other: int)
    ensures CastActors(RowsFor(filmId, ids), other) == if other == filmId then ids else []
  {
    if ids != [] {
      var front := ids[..|ids| - 1];
      CastActorsRowsFor(filmId, front, other);
      CastActorsAppend(RowsFor(filmId, front), [CastRow(filmId, ids[|ids| - 1])], other);
      assert [CastRow(filmId, ids[|ids| - 1])][1..] == [];
      assert front + [ids[|ids| - 1]] == ids;
    }
  }

  /** Deleting a film's rows empties its cast and leaves every other film's cast as it was. */
  lemma {:induction false} CastActorsWithoutFilm(cast: seq<CastRow>, filmId: int, other: int)
    ensures CastActors(WithoutFilm(cast, filmId), other) == if other == filmId then [] else CastActors(cast, other)
  {
    if cast != [] {
      CastActorsWithoutFilm(cast[1..], filmId, other);
      var head := if cast[0].filmId == filmId then [] else [cast[0]];
      CastActorsAppend(head, WithoutFilm(cast[1..], filmId), other);
      if head != [] {
        assert head[1..] == [];
      }
    }
  }

  lemma {:induction false} NonZeroAppend(a: seq<int>, b: seq<int>)
    ensures NonZero(a + b) == NonZero(a) + NonZero(b)
  {
    if b == [] {
      assert a + b == a;
    } else {
      var front := b[..|b| - 1];
      assert (a + b)[..|a + b| - 1] == a + front;
      NonZeroAppend(a, front);
    }
  }

  lemma NonZeroStep(ids: seq<int>, i: nat)
    requires i < |ids|
    ensures NonZero(ids[..i + 1]) == NonZero(ids[..i]) + (if ids[i] != 0 then [ids[i]] else [])
  {
    assert ids[..i + 1][..i] == ids[..i];
  }

  lemma RowsForSnoc(filmId: int, ids: seq<int>, x: int)
    ensures RowsFor(filmId, ids + [x]) == RowsFor(filmId, ids) + [CastRow(filmId, x)]
  {
    assert (ids + [x])[..|ids|] == ids;
  }

  /** The non-zero ids of a prefix are a prefix of the non-zero ids. */
  lemma NonZeroPrefix(ids: seq<int>, i: nat)
    requires i <= |ids|
    ensures |NonZero(ids[..i])| <= |NonZero(ids)|
    ensures NonZero(ids)[..|NonZero(ids[..i])|] == NonZero(ids[..i])
    ensures i < |ids| && ids[i] != 0 ==> |NonZero(ids[..i])| < |NonZero(ids)|
  {
    assert ids == ids[..i] + ids[i..];
    NonZeroAppend(ids[..i], ids[i..]);
    if i < |ids| && ids[i] != 0 {
      assert ids[i] in ids[i..];
      NonZeroMembers(ids[i..], ids[i]);
    }
  }

  /** One turn of AddFilm's insert loop: the row for ids[i] is appended. */
  lemma RowsStep(start: seq<CastRow>, filmId: int, ids: seq<int>, i: nat)
    requires i < |ids|
    ensures start + RowsFor(filmId, ids[..i + 1]) == (start + RowsFor(filmId, ids[..i])) + [CastRow(filmId, ids[i])]
  {
    assert ids[..i + 1] == ids[..i] + [ids[i]];
    RowsForSnoc(filmId, ids[..i], ids[i]);
  }

  /** One turn of UpdateFilm's insert loop: a zero adds nothing, any other id one row. */
  lemma CastLoopStep(start: seq<CastRow>, filmId: int, ids: seq<int>, i: nat)
    requires i < |ids|
    ensures |NonZero(ids[..i + 1])| == |NonZero(ids[..i])| + (if ids[i] != 0 then 1 else 0)
    ensures start + RowsFor(filmId, NonZero(ids[..i + 1]))
         == (start + RowsFor(filmId, NonZero(ids[..i]))) + (if ids[i] != 0 then [CastRow(filmId, ids[i])] else [])
  {
    NonZeroStep(ids, i);
    if ids[i] != 0 {
      RowsForSnoc(filmId, NonZero(ids[..i]), ids[i]);
    } else {
      assert NonZero(ids[..i + 1]) == NonZero(ids[..i]);
    }
  }

  /** The insert that fails is the one for ids[i]: what was written is the
      non-zero ids before it, a proper prefix of all of them. */
  lemma NonZeroFailsAt(ids: seq<int>, i: nat, f: Fault)
    requires i < |ids| && ids[i] != 0 && f == FailAt(|NonZero(ids[..i])|)
    ensures |NonZero(ids[..i])| < |NonZero(ids)|
    ensures Completed(f, |NonZero(ids)|) == |NonZero(ids[..i])|
    ensures NonZero(ids)[..Completed(f, |NonZero(ids)|)] == NonZero(ids[..i])
  {
    NonZeroPrefix(ids, i);
  }

  /** No insert failed: all of the non-zero ids were written. */
  lemma NonZeroAllWritten(ids: seq<int>, f: Fault)
    requires f.FailAt? ==> f.k >= |NonZero(ids[..|ids|])|
    ensures Completed(f, |NonZero(ids)|) == |NonZero(ids)|
    ensures NonZero(ids)[..Completed(f, |NonZero(ids)|)] == NonZero(ids[..|ids|])
  {
    assert ids[..|ids|] == ids;
  }

  /** A film id above every row's film id has an empty cast. */
  lemma {:induction false} CastActorsAboveAll(cast: seq<CastRow>, filmId: int)
    requires forall row :: row in cast ==> row.filmId < filmId
    ensures CastActors(cast, filmId) == []
  {
    if cast != [] {
      assert forall row :: row in cast[1..] ==> row in cast;
      CastActorsAboveAll(cast[1..], filmId);
    }
  }

  /** Rows appended for a film no earlier row names make up that film's whole cast. */
  lemma FreshFilmCast(cast: seq<CastRow>, filmId: int, ids: seq<int>)
    requires forall row :: row in cast ==> row.filmId < filmId
    ensures CastActors(cast + RowsFor(filmId, ids), filmId) == ids
  {
    CastActorsAppend(cast, RowsFor(filmId, ids), filmId);
    CastActorsRowsFor(filmId, ids, filmId);
    CastActorsAboveAll(cast, filmId);
  }

  /** A list other than one non-zero id replaces the film's cast with its
      non-zero ids, in list order; other films keep their casts.  An empty
      list, or the list [0], therefore clears the cast. */
  lemma UpdateReplacesCast(cast: seq<CastRow>, filmId: int, ids: seq<int>, other: int)
    requires ReplacesCast(ids)
    ensures CastActors(CastAfterUpdate(cast, filmId, ids, false, |NonZero(ids)|), other)
         == if other == filmId then NonZero(ids) else CastActors(cast, other)
    ensures (ids == [] || ids == [0]) ==> CastActors(CastAfterUpdate(cast, filmId, ids, false, 0), filmId) == []
  {
    var rest := WithoutFilm(cast, filmId);
    assert NonZero(ids)[..|NonZero(ids)|] == NonZero(ids);
    CastActorsAppend(rest, RowsFor(filmId, NonZero(ids)), other);
    CastActorsWithoutFilm(cast, filmId, other);
    CastActorsRowsFor(filmId, NonZero(ids), other);
    if ids == [] || ids == [0] {
      assert NonZero(ids)[..0] == [];
      CastActorsAppend(rest, RowsFor(filmId, []), filmId);
      CastActorsWithoutFilm(cast, filmId, filmId);
    }
  }

  /** A single non-zero id is appended to the film's cast; nothing is deleted. */
  lemma UpdateAppendsSingle(cast: seq<CastRow>, filmId: int, x: int, deleteFails: bool)
    requires x != 0
    ensures CastAfterUpdate(cast, filmId, [x], deleteFails, 1) == cast + [CastRow(filmId, x)]
    ensures CastActors(CastAfterUpdate(cast, filmId, [x], deleteFails, 1), filmId) == CastActors(cast, filmId) + [x]
  {
    assert [x][..0] == [];
    assert NonZero([x]) == [x];
    CastActorsAppend(cast, [CastRow(filmId, x)], filmId);
    assert [CastRow(filmId, x)][1..] == [];
  }

  /** The tables.  Ids come from the tables' sequences, which start at 1 and
      only grow; cast rows only ever name films the sequence has handed out. */
  class Database {
    var actors: map<int, ActorRow>
    var films: map<int, FilmRow>
    var moviecast: seq<CastRow>
    var nextActorId: int
    var nextFilmId: int

    ghost predicate Valid()
      reads this
    {
      && 1 <= nextActorId && 1 <= nextFilmId
      && (forall id :: id in actors ==> id < nextActorId)
      && (forall id :: id in films ==> id < nextFilmId)
      && (forall row :: row in moviecast ==> row.filmId < nextFilmId)
    }

    /** Empty tables, both sequences at 1: the starting state the model assumes. */
    constructor ()
      ensures Valid()
      ensures actors == map[] && films == map[] && moviecast == [] && nextActorId == 1 && nextFilmId == 1
    {
      actors, films, moviecast := map[], map[], [];
      nextActorId, nextFilmId := 1, 1;
    }

    /** `INSERT INTO actors (name, gender, birth_date) VALUES ($1, $2, $3)`. */
    method InsertActor(row: ActorRow, fails: bool) returns (ok: bool, id: int)
      requires Valid()
      modifies this`actors, this`nextActorId
      ensures Valid()
      ensures ok == !fails
      ensures ok ==> id == old(nextActorId) && id !in old(actors) && actors == old(actors)[id := row] && nextActorId == id + 1
      ensures !ok ==> actors == old(actors) && nextActorId == old(nextActorId)
    {
      if fails {
        return false, 0;
      }
      id := nextActorId;
      actors := actors[id := row];
      nextActorId := nextActorId + 1;
      ok := true;
    }

    /** `INSERT INTO films (...) VALUES (...) RETURNING id`. */
    method InsertFilm(row: FilmRow, fails: bool) returns (ok: bool, id: int)
      requires Valid()
      modifies this`films, this`nextFilmId
      ensures Valid()
      ensures ok == !fails
      ensures ok ==> id == old(nextFilmId) && id !in old(films) && films == old(films)[id := row] && nextFilmId == id + 1
      ensures !ok ==> films == old(films) && nextFilmId == old(nextFilmId)
    {
      if fails {
        return false, 0;
      }
      id := nextFilmId;
      films := films[id := row];
      nextFilmId := nextFilmId + 1;
      ok := true;
    }

    /** `UPDATE actors SET ... WHERE id = $4` through Exec: no matching row is not an error. */
    method UpdateActorRow(id: int, row: ActorRow, fails: bool) returns (ok: bool)
      requires Valid()
      modifies this`actors
      ensures Valid()
      ensures ok == !fails
      ensures actors == if ok && id in old(actors) then old(actors)[id := row] else old(actors)
    {
      if fails {
        return false;
      }
      if id in actors {
        actors := actors[id := row];
      }
      ok := true;
    }

    /** `UPDATE films SET ... WHERE id = $5 RETURNING id` through QueryRow().Scan:
        no matching row is ErrNoRows. */
    method UpdateFilmRow(id: int, row: FilmRow, fails: bool) returns (ok: bool)
      requires Valid()
      modifies this`films
      ensures Valid()
      ensures ok == (!fails && id in old(films))
      ensures films == if ok then old(films)[id := row] else old(films)
    {
      if fails || id !in films {
        return false;
      }
      films := films[id := row];
      ok := true;
    }

    /** `DELETE FROM actors WHERE id = $1`: the cast table is not touched. */
    method DeleteActorRow(id: int, fails: bool) returns (ok: bool)
      requires Valid()
      modifies this`actors
      ensures Valid()
      ensures ok == !fails
      ensures actors == if ok then old(actors) - {id} else old(actors)
    {
      if fails {
        return false;
      }
      actors := actors - {id};
      ok := true;
    }

    /** `DELETE FROM films WHERE id = $1`: the cast table is not touched. */
    method DeleteFilmRow(id: int, fails: bool) returns (ok: bool)
      requires Valid()
      modifies this`films
      ensures Valid()
      ensures ok == !fails
      ensures films == if ok then old(films) - {id} else old(films)
    {
      if fails {
        return false;
      }
      films := films - {id};
      ok := true;
    }

    /** `INSERT INTO moviecast (filmid, actorid) VALUES ($1, $2)`: no uniqueness
        of the pair and no check on the actor id. */
    method InsertCast(filmId: int, actorId: int, fails: bool) returns (ok: bool)
      requires Valid() && filmId < nextFilmId
      modifies this`moviecast
      ensures Valid()
      ensures ok == !fails
      ensures moviecast == if ok then old(moviecast) + [CastRow(filmId, actorId)] else old(moviecast)
    {
      if fails {
        return false;
      }
      moviecast := moviecast + [CastRow(filmId, actorId)];
      ok := true;
    }

    /** `DELETE FROM moviecast WHERE filmid = $1`. */
    method DeleteCastOfFilm(filmId: int, fails: bool) returns (ok: bool)
      requires Valid()
      modifies this`moviecast
      ensures Valid()
      ensures ok == !fails
      ensures moviecast == if ok then WithoutFilm(old(moviecast), filmId) else old(moviecast)
    {
      if fails {
        return false;
      }
      forall row | row in WithoutFilm(moviecast, filmId)
        ensures row.filmId < nextFilmId
      {
        WithoutFilmMembers(moviecast, filmId, row);
      }
      moviecast := WithoutFilm(moviecast, filmId);
      ok := true;
    }

    // ---- the reads of structs.go ----

    /** getActorByID: the zero Actor on error (no such row), and `films` never filled in. */
    function ActorById(id: int): (r: Fetched<Actor>)
      reads this
      ensures r.err <==> id !in actors
      ensures r.err ==> r.value == ZeroActor
      ensures !r.err ==> r.value.id == id && ActorRowOf(r.value) == actors[id] && r.value.films == []
    {
      if id in actors then Fetched(ActorOf(id, actors[id], []), false) else Fetched(ZeroActor, true)
    }

    /** (*Actor).getActorsFilms: appends the actor's film ids, in row order, to
        what `a.films` already holds; on an error the ids appended so far stay.
        A broken stream ends the loop like the last row: no error, and only
        the ids read before it. */
    method AppendActorsFilms(a: Actor, actorId: int, fault: ReadFault) returns (r: Actor, err: bool)
      ensures var rows := CastFilms(moviecast, actorId);
        && err == ReadFails(fault, |rows|)
        && r == a.(films := a.films + rows[..RowsRead(fault, |rows|)])
    {
      if fault.QueryFails? {
        return a, true;
      }
      var rows := CastFilms(moviecast, actorId);
      var films := a.films;
      var i := 0;
      while i < |rows|
        invariant 0 <= i <= |rows|
        invariant films == a.films + rows[..i]
        invariant fault.ScanFailsAt? || fault.StreamEndsAt? ==> fault.k >= i
      {
        if fault == ScanFailsAt(i) {
          return a.(films := films), true;
        }
        if fault == StreamEndsAt(i) {
          return a.(films := films), false;
        }
        assert rows[..i + 1] == rows[..i] + [rows[i]];
        films := films + [rows[i]];
        i := i + 1;
      }
      assert rows[..i] == rows;
      r, err := a.(films := films), false;
    }

    /** (*Film).getFilmsActors: the same for a film's actor ids. */
    method AppendFilmsActors(f: Film, filmId: int, fault: ReadFault) returns (r: Film, err: bool)
      ensures var rows := CastActors(moviecast, filmId);
        && err == ReadFails(fault, |rows|)
        && r == f.(actors := f.actors + rows[..RowsRead(fault, |rows|)])
    {
      if fault.QueryFails? {
        return f, true;
      }
      var rows := CastActors(moviecast, filmId);
      var actors := f.actors;
      var i := 0;
      while i < |rows|
        invariant 0 <= i <= |rows|
        invariant actors == f.actors + rows[..i]
        invariant fault.ScanFailsAt? || fault.StreamEndsAt? ==> fault.k >= i
      {
        if fault == ScanFailsAt(i) {
          return f.(actors := actors), true;
        }
        if fault == StreamEndsAt(i) {
          return f.(actors := actors), false;
        }
        assert rows[..i + 1] == rows[..i] + [rows[i]];
        actors := actors + [rows[i]];
        i := i + 1;
      }
      assert rows[..i] == rows;
      r, err := f.(actors := actors), false;
    }

    /** getFilmByID: the film with its cast, or the zero Film when either the
        row read or the cast read fails.  A broken cast stream gives the film
        with the part of its cast read before the break, and no error. */
    method FilmById(id: int, castFault: ReadFault) returns (f: Film, err: bool)
      ensures err <==> id !in films || ReadFails(castFault, |CastActors(moviecast, id)|)
      ensures err ==> f == ZeroFilm
      ensures !err ==> f == FilmOf(id, films[id], CastRead(moviecast, id, castFault))
    {
      if id !in films {
        return ZeroFilm, true;
      }
      var film := FilmOf(id, films[id], []);
      film, err := AppendFilmsActors(film, id, castFault);
      if err {
        return ZeroFilm, true;
      }
      f := film;
    }

    // ---- the write sequences both revisions share ----

    /** AddFilm once its checks pass: the film row, then one cast row per
        listed id (zeros and repeats included), stopping at the first failed
        insert and keeping what was written.  The request's id is ignored. */
    method InsertFilmAndCast(film: Film, insertFails: bool, castFault: Fault) returns (ok: bool, id: int)
      requires Valid()
      modifies this`films, this`nextFilmId, this`moviecast
      ensures Valid()
      ensures insertFails ==> !ok && films == old(films) && nextFilmId == old(nextFilmId) && moviecast == old(moviecast)
      ensures !insertFails ==>
        var n := Completed(castFault, |film.actors|);
        && id == old(nextFilmId) && id !in old(films)
        && films == old(films)[id := FilmRowOf(film)] && nextFilmId == id + 1
        && moviecast == old(moviecast) + RowsFor(id, film.actors[..n])
        && (ok <==> n == |film.actors|)
    {
      var inserted;
      inserted, id := InsertFilm(FilmRowOf(film), insertFails);
      if !inserted {
        return false, id;
      }
      ok := InsertCastRows(id, film.actors, castFault);
    }

    /** AddFilm's insert loop: one insert statement per listed id, the k-th
        being the one `castFault` can fail, stopping at the first failure. */
    method InsertCastRows(filmId: int, ids: seq<int>, castFault: Fault) returns (ok: bool)
      requires Valid() && filmId < nextFilmId
      modifies this`moviecast
      ensures Valid()
      ensures var n := Completed(castFault, |ids|);
        && moviecast == old(moviecast) + RowsFor(filmId, ids[..n])
        && (ok <==> n == |ids|)
    {
      ghost var start := moviecast;
      var i := 0;
      while i < |ids|
        invariant 0 <= i <= |ids|
        invariant Valid() && filmId < nextFilmId
        invariant moviecast == start + RowsFor(filmId, ids[..i])
        invariant castFault.FailAt? ==> castFault.k >= i
      {
        var written := InsertCast(filmId, ids[i], castFault == FailAt(i));
        if !written {
          return false;
        }
        RowsStep(start, filmId, ids, i);
        i := i + 1;
      }
      assert ids[..i] == ids;
      ok := true;
    }

    /** UpdateActor once the stored actor is known: each unset field of the
        request replaced by the stored one, in place, then the UPDATE. */
    method ApplyActorUpdate(incoming: Actor, stored: Actor, fails: bool) returns (ok: bool)
      requires Valid()
      modifies this`actors
      ensures Valid()
      ensures ok == !fails
      ensures actors == if ok && incoming.id in old(actors)
                        then old(actors)[incoming.id := ActorRowOf(MergeActor(incoming, stored))]
                        else old(actors)
    {
      var actor := incoming;
      if actor.name == "" {
        actor := actor.(name := stored.name);
      }
      if actor.gender == "" {
        actor := actor.(gender := stored.gender);
      }
      if IsZero(actor.birthDate) {
        actor := actor.(birthDate := stored.birthDate);
      }
      ok := UpdateActorRow(actor.id, ActorRowOf(actor), fails);
    }

    /** UpdateFilm once the stored film is known: the merge in place, the
        UPDATE, then the cast rule.  The DELETE's error is not checked; each
        non-zero id is inserted and the k-th insert statement is the one
        `castFault` can fail. */
    method ApplyFilmUpdate(incoming: Film, stored: Film, updateFails: bool, deleteFails: bool, castFault: Fault)
      returns (ok: bool)
      requires Valid()
      modifies this`films, this`moviecast
      ensures Valid()
      ensures updateFails || incoming.id !in old(films) ==>
        !ok && films == old(films) && moviecast == old(moviecast)
      ensures !updateFails && incoming.id in old(films) ==>
        var n := Completed(castFault, |NonZero(incoming.actors)|);
        && films == old(films)[incoming.id := FilmRowOf(MergeFilm(incoming, stored))]
        && moviecast == CastAfterUpdate(old(moviecast), incoming.id, incoming.actors, deleteFails, n)
        && (ok <==> n == |NonZero(incoming.actors)|)
    {
      var film := incoming;
      if film.name == "" {
        film := film.(name := stored.name);
      }
      if film.description == "" {
        film := film.(description := stored.description);
      }
      if film.rating == 0 {
        film := film.(rating := stored.rating);
      }
      if IsZero(film.releaseDate) {
        film := film.(releaseDate := stored.releaseDate);
      }
      assert film == MergeFilm(incoming, stored);
      assert film.id == incoming.id && film.actors == incoming.actors;
      var updated := UpdateFilmRow(film.id, FilmRowOf(film), updateFails);
      if !updated {
        return false;
      }
      ok := UpdateCast(film.id, film.actors, deleteFails, castFault);
    }

    /** UpdateFilm's cast step: the film's rows are deleted unless the list
        is a single non-zero id (the DELETE's error is not checked), then the
        non-zero ids are inserted. */
    method UpdateCast(filmId: int, ids: seq<int>, deleteFails: bool, castFault: Fault) returns (ok: bool)
      requires Valid() && filmId in films
      modifies this`moviecast
      ensures Valid()
      ensures var n := Completed(castFault, |NonZero(ids)|);
        && moviecast == CastAfterUpdate(old(moviecast), filmId, ids, deleteFails, n)
        && (ok <==> n == |NonZero(ids)|)
    {
      if |ids| != 1 || ids[0] == 0 {
        var _ := DeleteCastOfFilm(filmId, deleteFails);
      }
      ok := InsertNonZeroCast(filmId, ids, castFault);
    }

    /** UpdateFilm's insert loop: zeros are skipped, every other id is one
        insert statement, and the loop stops at the first failed one. */
    method InsertNonZeroCast(filmId: int, ids: seq<int>, castFault: Fault) returns (ok: bool)
      requires Valid() && filmId < nextFilmId
      modifies this`moviecast
      ensures Valid()
      ensures var n := Completed(castFault, |NonZero(ids)|);
        && moviecast == old(moviecast) + RowsFor(filmId, NonZero(ids)[..n])
        && (ok <==> n == |NonZero(ids)|)
    {
      ghost var start := moviecast;
      ghost var done: seq<int> := [];
      var i, issued := 0, 0;
      while i < |ids|
        invariant 0 <= i <= |ids|
        invariant Valid() && filmId < nextFilmId
        invariant done == NonZero(ids[..i]) && issued == |done|
        invariant moviecast == start + RowsFor(filmId, done)
        invariant castFault.FailAt? ==> castFault.k >= issued
      {
        CastLoopStep(start, filmId, ids, i);
        if ids[i] != 0 {
          var written := InsertCast(filmId, ids[i], castFault == FailAt(issued));
          if !written {
            NonZeroFailsAt(ids, i, castFault);
            return false;
          }
          issued := issued + 1;
        }
        done := NonZero(ids[..i + 1]);
        i := i + 1;
      }
      NonZeroAllWritten(ids, castFault);
      ok := true;
    }
  }
}
