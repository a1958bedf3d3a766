/** The Actor and Film records as the handlers decode and encode them, the
    scalar rows the tables store, and the merge an update applies. */
module Records {
  import opened Dates

  /** `structs.Actor`; `films` is filled only when the cast table is read. */
  datatype Actor = Actor(id: int, name: string, gender: string, birthDate: Date, films: seq<int>)

  /** `structs.Film`; `actors` lists the cast's actor ids. */
  datatype Film = Film(id: int, name: string, description: string, rating: int, releaseDate: Date, actors: seq<int>)

  const ZeroActor: Actor := Actor(0, "", "", ZeroDate, [])
  const ZeroFilm: Film := Film(0, "", "", 0, ZeroDate, [])

  /** The columns of `actors` beside the id. */
  datatype ActorRow = ActorRow(name: string, gender: string, birthDate: Date)

  /** The columns of `films` beside the id. */
  datatype FilmRow = FilmRow(name: string, description: string, rating: int, releaseDate: Date)

  function ActorRowOf(a: Actor): ActorRow
  {
    ActorRow(a.name, a.gender, a.birthDate)
  }

  function FilmRowOf(f: Film): FilmRow
  {
    FilmRow(f.name, f.description, f.rating, f.releaseDate)
  }

  /** The record a `SELECT *` row scans into: no film list. */
  function ActorOf(id: int, row: ActorRow, films: seq<int>): Actor
  {
    Actor(id, row.name, row.gender, row.birthDate, films)
  }

  function FilmOf(id: int, row: FilmRow, actors: seq<int>): Film
  {
    Film(id, row.name, row.description, row.rating, row.releaseDate, actors)
  }

  /** An incoming field counts as unset when it is Go's zero value for its type. */
  function OrString(incoming: string, stored: string): string
  {
    if incoming == "" then stored else incoming
  }

  function OrInt(incoming: int, stored: int): int
  {
    if incoming == 0 then stored else incoming
  }

  function OrDate(incoming: Date, stored: Date): Date
  {
    if IsZero(incoming) then stored else incoming
  }

  /** The actor UpdateActor writes: every unset field of the request taken from the stored actor. */
  function MergeActor(incoming: Actor, stored: Actor): (m: Actor)
    ensures m.id == incoming.id && m.films == incoming.films
    ensures m.name in {incoming.name, stored.name} && m.gender in {incoming.gender, stored.gender}
    ensures m.birthDate in {incoming.birthDate, stored.birthDate}
    ensures incoming.name != "" ==> m.name == incoming.name
    ensures incoming.gender != "" ==> m.gender == incoming.gender
    ensures !IsZero(incoming.birthDate) ==> m.birthDate == incoming.birthDate
    ensures incoming.name == "" ==> m.name == stored.name
    ensures incoming.gender == "" ==> m.gender == stored.gender
    ensures IsZero(incoming.birthDate) ==> m.birthDate == stored.birthDate
  {
    incoming.(name := OrString(incoming.name, stored.name),
              gender := OrString(incoming.gender, stored.gender),
              birthDate := OrDate(incoming.birthDate, stored.birthDate))
  }

  /** The film UpdateFilm writes. */
  function MergeFilm(incoming: Film, stored: Film): (m: Film)
    ensures m.id == incoming.id && m.actors == incoming.actors
    ensures m.name in {incoming.name, stored.name} && m.description in {incoming.description, stored.description}
    ensures m.rating in {incoming.rating, stored.rating} && m.releaseDate in {incoming.releaseDate, stored.releaseDate}
    ensures incoming.name != "" ==> m.name == incoming.name
    ensures incoming.description != "" ==> m.description == incoming.description
    ensures incoming.rating != 0 ==> m.rating == incoming.rating
    ensures !IsZero(incoming.releaseDate) ==> m.releaseDate == incoming.releaseDate
    ensures incoming.name == "" ==> m.name == stored.name
    ensures incoming.description == "" ==> m.description == stored.description
    ensures incoming.rating == 0 ==> m.rating == stored.rating
    ensures IsZero(incoming.releaseDate) ==> m.releaseDate == stored.releaseDate
  {
    incoming.(name := OrString(incoming.name, stored.name),
              description := OrString(incoming.description, stored.description),
              rating := OrInt(incoming.rating, stored.rating),
              releaseDate := OrDate(incoming.releaseDate, stored.releaseDate))
  }

  predicate ActorFieldsUnset(a: Actor)
  {
    a.name == "" && a.gender == "" && IsZero(a.birthDate)
  }

  predicate ActorFieldsSet(a: Actor)
  {
    a.name != "" && a.gender != "" && !IsZero(a.birthDate)
  }

  predicate FilmFieldsUnset(f: Film)
  {
    f.name == "" && f.description == "" && f.rating == 0 && IsZero(f.releaseDate)
  }

  predicate FilmFieldsSet(f: Film)
  {
    f.name != "" && f.description != "" && f.rating != 0 && !IsZero(f.releaseDate)
  }

  /** A request that sets nothing writes the stored row back; one that sets
      everything writes itself. */
  lemma MergeActorExtremes(incoming: Actor, stored: Actor)
    ensures ActorFieldsUnset(incoming) ==> ActorRowOf(MergeActor(incoming, stored)) == ActorRowOf(stored)
    ensures ActorFieldsSet(incoming) ==> MergeActor(incoming, stored) == incoming
  {
  }

  /** Merging the merged record with the same stored record again changes nothing. */
  lemma MergeActorIdempotent(incoming: Actor, stored: Actor)
    ensures MergeActor(MergeActor(incoming, stored), stored) == MergeActor(incoming, stored)
  {
  }

  /** Two updates in a row write what one update with the first request merged over the second would. */
  lemma MergeActorSequential(first: Actor, second: Actor, stored: Actor)
    ensures ActorRowOf(MergeActor(second, MergeActor(first, stored)))
         == ActorRowOf(MergeActor(MergeActor(second, first), stored))
  {
  }

  lemma MergeFilmExtremes(incoming: Film, stored: Film)
    ensures FilmFieldsUnset(incoming) ==> FilmRowOf(MergeFilm(incoming, stored)) == FilmRowOf(stored)
    ensures FilmFieldsSet(incoming) ==> MergeFilm(incoming, stored) == incoming
  {
  }

  lemma MergeFilmIdempotent(incoming: Film, stored: Film)
    ensures MergeFilm(MergeFilm(incoming, stored), stored) == MergeFilm(incoming, stored)
  {
  }

  lemma MergeFilmSequential(first: Film, second: Film, stored: Film)
    ensures FilmRowOf(MergeFilm(second, MergeFilm(first, stored)))
         == FilmRowOf(MergeFilm(MergeFilm(second, first), stored))
  {
  }

  /** A rating of 0 means "unset", so an update stores 0 only where 0 was
      already stored; a film with a rating can never get 0 back.  The same
      holds for the zero date, which "01.01.0001" decodes to. */
  lemma MergeFilmNeverStoresZero(incoming: Film, stored: Film)
    ensures MergeFilm(incoming, stored).rating == 0 <==> incoming.rating == 0 && stored.rating == 0
    ensures IsZero(MergeFilm(incoming, stored).releaseDate) <==> IsZero(incoming.releaseDate) && IsZero(stored.releaseDate)
    ensures MergeFilm(incoming, stored).name == "" <==> incoming.name == "" && stored.name == ""
    ensures MergeFilm(incoming, stored).description == "" <==> incoming.description == "" && stored.description == ""
  {
  }

  lemma MergeActorNeverStoresZeroDate(incoming: Actor, stored: Actor)
    ensures IsZero(MergeActor(incoming, stored).birthDate) <==> IsZero(incoming.birthDate) && IsZero(stored.birthDate)
    ensures MergeActor(incoming, stored).name == "" <==> incoming.name == "" && stored.name == ""
    ensures MergeActor(incoming, stored).gender == "" <==> incoming.gender == "" && stored.gender == ""
  {
  }
}
