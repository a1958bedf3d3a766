/** handlers/actors.go, the package revision of the actor handlers.  The gate
    is `db.CheckForAutorization(r, needAdmin)` and the reads are
    `db.GetActorByID`; neither is part of this model, so `authError(needAdmin)`
    says whether the gate returns an error and `fetch(id)` is what the read
    returns.  `AddActor` and `DeleteActor` also model those of handlers.go,
    which issue the same statements; the revision's own gate and `Date`
    decoder are the `authError` and `body` inputs. */
module ActorHandlers {
  import opened Common
  import opened Text
  import opened Dates
  import opened Records
  import opened ListQuery
  import opened Store

  /** AddActor: a decoded actor with a non-zero id is refused and nothing is inserted. */
  method AddActor(db: Database, authError: bool -> bool, body: Body<Actor>, insertFails: bool) returns (status: int)
    requires db.Valid()
    modifies db`actors, db`nextActorId
    ensures db.Valid()
    ensures authError(true) || body.Malformed? || body.value.id != 0 || insertFails ==> unchanged(db)
    ensures authError(true) ==> status == StatusUnauthorized
    ensures !authError(true) && body.Malformed? ==> status == StatusBadRequest
    ensures !authError(true) && body.Decoded? && body.value.id != 0 ==> status == StatusBadRequest
    ensures !authError(true) && body.Decoded? && body.value.id == 0 ==>
      if insertFails then status == StatusInternalServerError
      else
        var id := old(db.nextActorId);
        && status == StatusOK
        && id !in old(db.actors)
        && db.actors == old(db.actors)[id := ActorRowOf(body.value)]
  {
    if authError(true) {
      return StatusUnauthorized;
    }
    if body.Malformed? {
      return StatusBadRequest;
    }
    var actor := body.value;
    if actor.id != 0 {
      return StatusBadRequest;
    }
    var ok, _ := db.InsertActor(ActorRowOf(actor), insertFails);
    status := if ok then StatusOK else StatusInternalServerError;
  }

  /** DeleteActor: only the actor row goes; the cast rows naming it stay. */
  method DeleteActor(db: Database, authError: bool -> bool, idString: string, deleteFails: bool) returns (status: int)
    requires db.Valid()
    modifies db`actors
    ensures db.Valid()
    ensures db.moviecast == old(db.moviecast) && db.films == old(db.films)
    ensures authError(true) ==> status == StatusUnauthorized && unchanged(db)
    ensures !authError(true) && Atoi(idString).None? ==> status == StatusBadRequest && unchanged(db)
    ensures !authError(true) && Atoi(idString).Some? ==>
      if deleteFails then status == StatusInternalServerError && unchanged(db)
      else status == StatusOK && db.actors == old(db.actors) - {Atoi(idString).value}
  {
    if authError(true) {
      return StatusUnauthorized;
    }
    var parsed := Atoi(idString);
    if parsed.None? {
      return StatusBadRequest;
    }
    var ok := db.DeleteActorRow(parsed.value, deleteFails);
    status := if ok then StatusOK else StatusInternalServerError;
  }

  /** GetActor: the actor as db.GetActorByID returns it. */
  method GetActor(authError: bool -> bool, fetch: int -> Fetched<Actor>, idString: string) returns (status: int, actor: Actor)
    ensures authError(false) ==> status == StatusUnauthorized
    ensures !authError(false) && Atoi(idString).None? ==> status == StatusBadRequest
    ensures !authError(false) && Atoi(idString).Some? ==>
      var fetched := fetch(Atoi(idString).value);
      if fetched.err then status == StatusInternalServerError
      else status == StatusOK && actor == fetched.value
  {
    if authError(false) {
      return StatusUnauthorized, ZeroActor;
    }
    var parsed := Atoi(idString);
    if parsed.None? {
      return StatusBadRequest, ZeroActor;
    }
    var fetched := fetch(parsed.value);
    if fetched.err {
      return StatusInternalServerError, ZeroActor;
    }
    return StatusOK, fetched.value;
  }

  /** The ids the GetActors loop fetches.  The scan's error is not checked:
      when the scan of row k fails, the id is left at 0 and fetched, and the
      failed scan has closed the stream, so no row after it is read. */
  function VisitedIds(rows: seq<int>, scanFault: Fault): (r: seq<int>)
    ensures |r| <= |rows|
    ensures forall i :: 0 <= i < |r| ==> r[i] == rows[i] || (i == |r| - 1 && r[i] == 0)
    ensures |r| < |rows| <==> Completed(scanFault, |rows|) + 1 < |rows|
  {
    var n := Completed(scanFault, |rows|);
    if n < |rows| then rows[..n] + [0] else rows
  }

  /** The answer list: each fetched actor with its birth date overwritten by the zero date. */
  function ListedActors(ids: seq<int>, fetch: int -> Fetched<Actor>): (r: seq<Actor>)
    ensures |r| == |ids|
    ensures forall a :: a in r ==> a.birthDate == ZeroDate
    ensures forall i :: 0 <= i < |ids| ==> r[i].(birthDate := fetch(ids[i]).value.birthDate) == fetch(ids[i]).value
  {
    seq(|ids|, i requires 0 <= i < |ids| => fetch(ids[i]).value.(birthDate := ZeroDate))
  }

  predicate FetchFails(ids: seq<int>, fetch: int -> Fetched<Actor>)
  {
    exists i :: 0 <= i < |ids| && fetch(ids[i]).err
  }

  /** GetActors: validation, `SELECT id FROM actors ...`, then each id read
      through db.GetActorByID in row order; the first read error gives 500. */
  method GetActors(authError: bool -> bool, limit: string, keyword: string, reverse: string, sortParameter: string,
                   query: Statement -> Answer<int>, fetch: int -> Fetched<Actor>)
    returns (status: int, issued: Option<Statement>, actors: seq<Actor>)
    ensures authError(false) ==> status == StatusUnauthorized && issued == None
    ensures !authError(false) ==>
      match ListStatement(ActorList, "id", limit, keyword, reverse, sortParameter)
      case Err(_) => status == StatusBadRequest && issued == None
      case Ok(st) =>
        && issued == Some(st)
        && (query(st).QueryError? ==> status == StatusInternalServerError)
        && (query(st).Rows? ==>
              var ids := VisitedIds(query(st).rows, query(st).scanFault);
              if FetchFails(ids, fetch) then status == StatusInternalServerError
              else status == StatusOK && actors == ListedActors(ids, fetch))
  {
    if authError(false) {
      return StatusUnauthorized, None, [];
    }
    var statement := ListStatement(ActorList, "id", limit, keyword, reverse, sortParameter);
    if statement.Err? {
      return StatusBadRequest, None, [];
    }
    var st := statement.value;
    issued := Some(st);
    var answer := query(st);
    if answer.QueryError? {
      return StatusInternalServerError, issued, [];
    }
    var ok;
    ok, actors := FetchListed(answer.rows, answer.scanFault, fetch);
    status := if ok then StatusOK else StatusInternalServerError;
  }

  /** The GetActors loop: scan an id (0 when the scan fails), read the actor,
      zero its birth date, append; stop at a read error or a closed stream. */
  method FetchListed(rows: seq<int>, scanFault: Fault, fetch: int -> Fetched<Actor>) returns (ok: bool, listed: seq<Actor>)
    ensures ok <==> !FetchFails(VisitedIds(rows, scanFault), fetch)
    ensures ok ==> listed == ListedActors(VisitedIds(rows, scanFault), fetch)
  {
    ghost var ids := VisitedIds(rows, scanFault);
    listed := [];
    var i := 0;
    while i < |rows|
      invariant 0 <= i <= |rows|
      invariant scanFault.FailAt? ==> scanFault.k >= i
      invariant i <= |ids| && forall j :: 0 <= j < i ==> ids[j] == rows[j]
      invariant |listed| == i
      invariant forall j :: 0 <= j < i ==> listed[j] == fetch(ids[j]).value.(birthDate := ZeroDate)
      invariant forall j :: 0 <= j < i ==> !fetch(ids[j]).err
    {
      var scanned := scanFault != FailAt(i);
      var id := if scanned then rows[i] else 0;
      assert ids[i] == id;
      var fetched := fetch(id);
      if fetched.err {
        return false, [];
      }
      listed := listed + [fetched.value.(birthDate := ZeroDate)];
      if !scanned {
        assert |ids| == i + 1;
        return true, listed;
      }
      i := i + 1;
    }
    assert |ids| == i;
    ok := true;
  }

  /** Every actor in a GetActors answer carries the zero birth date, and a
      failed scan of row k still answers 200 when reading id 0 succeeds. */
  lemma ListedBirthDatesZero(rows: seq<int>, k: nat, fetch: int -> Fetched<Actor>)
    requires k < |rows| && !fetch(0).err
    requires forall i :: 0 <= i < k ==> !fetch(rows[i]).err
    ensures VisitedIds(rows, FailAt(k)) == rows[..k] + [0]
    ensures !FetchFails(VisitedIds(rows, FailAt(k)), fetch)
    ensures var r := ListedActors(VisitedIds(rows, FailAt(k)), fetch);
      |r| == k + 1 && r[k] == fetch(0).value.(birthDate := ZeroDate)
      && forall i :: 0 <= i < |r| ==> IsZero(r[i].birthDate)
  {
    var ids := VisitedIds(rows, FailAt(k));
    assert forall i :: 0 <= i < k ==> ids[i] == rows[i];
  }

  /** UpdateActor: db.GetActorByID runs before the id check, then the merge and the UPDATE. */
  method UpdateActor(db: Database, authError: bool -> bool, body: Body<Actor>, fetch: int -> Fetched<Actor>, updateFails: bool)
    returns (status: int)
    requires db.Valid()
    modifies db`actors
    ensures db.Valid()
    ensures authError(true) ==> status == StatusUnauthorized && unchanged(db)
    ensures !authError(true) && body.Malformed? ==> status == StatusBadRequest && unchanged(db)
    ensures !authError(true) && body.Decoded? ==>
      var a := body.value;
      if fetch(a.id).err then status == StatusInternalServerError && unchanged(db)
      else if a.id == 0 then status == StatusBadRequest && unchanged(db)
      else if updateFails then status == StatusInternalServerError && unchanged(db)
      else (status == StatusOK
            && db.actors == if a.id in old(db.actors)
                            then old(db.actors)[a.id := ActorRowOf(MergeActor(a, fetch(a.id).value))]
                            else old(db.actors))
  {
    if authError(true) {
      return StatusUnauthorized;
    }
    if body.Malformed? {
      return StatusBadRequest;
    }
    var actor := body.value;
    var fetched := fetch(actor.id);
    if fetched.err {
      return StatusInternalServerError;
    }
    if actor.id == 0 {
      return StatusBadRequest;
    }
    var ok := db.ApplyActorUpdate(actor, fetched.value, updateFails);
    status := if ok then StatusOK else StatusInternalServerError;
  }
}
