/** The list endpoints' query-string validation and the SELECT they build:
    `limit`, then `reverse`, then `sort_parameter` are checked in that order;
    the column, direction and limit are printed into the query text and the
    keyword travels only as the bound parameter $1. */
module ListQuery {
  import opened Common
  import opened Text

  datatype Entity = ActorList | FilmList

  function Table(e: Entity): string
  {
    match e
    case ActorList => "actors"
    case FilmList => "films"
  }

  /** The whitelist of sortable columns. */
  predicate IsSortColumn(e: Entity, c: string)
  {
    match e
    case ActorList => c == "id" || c == "name" || c == "gender" || c == "birth_date"
    case FilmList => c == "id" || c == "name" || c == "description" || c == "rating" || c == "release_date"
  }

  function DefaultSortColumn(e: Entity): (c: string)
    ensures IsSortColumn(e, c)
  {
    match e
    case ActorList => "id"
    case FilmList => "rating"
  }

  const DefaultLimit: int := 10

  /** What a valid query string asks for. */
  datatype ListParams = ListParams(limit: int, descending: bool, column: string)

  datatype ParamError = InvalidLimit | InvalidReverse | InvalidSortParameter

  /** `limit`: absent means 10, anything else must satisfy strconv.Atoi; no bound is checked. */
  function ParseLimit(s: string): (r: Option<int>)
    ensures s == "" ==> r == Some(DefaultLimit)
    ensures r.Some? ==> MinInt64 <= r.value <= MaxInt64
  {
    if s == "" then Some(DefaultLimit) else Atoi(s)
  }

  /** `reverse`, lower-cased: absent means "true"; only "true" and "false" are accepted. */
  function ParseReverse(s: string): (r: Option<bool>)
    ensures s == "" ==> r == Some(true)
    ensures r.Some? ==> |s| <= 5
  {
    var t := ToLower(s);
    if t == "" || t == "true" then Some(true)
    else if t == "false" then Some(false)
    else None
  }

  /** `sort_parameter`, compared as written: absent means the entity's default column. */
  function ParseSortParameter(e: Entity, s: string): (r: Option<string>)
    ensures r.Some? ==> IsSortColumn(e, r.value)
    ensures r.Some? && s != "" ==> r.value == s
    ensures s == "" ==> r == Some(DefaultSortColumn(e))
  {
    var c := if s == "" then DefaultSortColumn(e) else s;
    if IsSortColumn(e, c) then Some(c) else None
  }

  /** The validation GetActors and GetFilms run before any query: the first failing check decides the error. */
  function ValidateList(e: Entity, limit: string, reverse: string, sortParameter: string): (r: Result<ListParams, ParamError>)
    ensures r.Ok? ==> IsSortColumn(e, r.value.column) && MinInt64 <= r.value.limit <= MaxInt64
  {
    match ParseLimit(limit)
    case None => Err(InvalidLimit)
    case Some(n) =>
      match ParseReverse(reverse)
      case None => Err(InvalidReverse)
      case Some(descending) =>
        match ParseSortParameter(e, sortParameter)
        case None => Err(InvalidSortParameter)
        case Some(c) => Ok(ListParams(n, descending, c))
  }

  function Direction(descending: bool): string
  {
    if descending then "DESC" else "ASC"
  }

  /** Everything of the query text before the interpolated column. */
  function QueryHead(e: Entity, projection: string): string
  {
    "SELECT " + projection + " FROM " + Table(e) + " WHERE name ILIKE $1 ORDER BY "
  }

  /** fmt.Sprintf(`SELECT <projection> FROM <table> WHERE name ILIKE $1 ORDER BY %s %s LIMIT %d`, column, order, limit). */
  function QueryText(e: Entity, projection: string, p: ListParams): (t: string)
    ensures QueryHead(e, projection) + p.column <= t
    ensures |Itoa(p.limit)| < |t| && t[|t| - |Itoa(p.limit)|..] == Itoa(p.limit)
  {
    var front := QueryHead(e, projection) + p.column + " " + Direction(p.descending) + " LIMIT ";
    assert (front + Itoa(p.limit))[|front|..] == Itoa(p.limit);
    front + Itoa(p.limit)
  }

  /** The value bound to $1. */
  function Pattern(keyword: string): string
  {
    "%" + keyword + "%"
  }

  /** A statement as handed to the driver: its text and its one bound argument. */
  datatype Statement = Statement(text: string, arg: string)

  function ListStatement(e: Entity, projection: string, limit: string, keyword: string, reverse: string, sortParameter: string)
    : (r: Result<Statement, ParamError>)
    ensures r.Ok? <==> ValidateList(e, limit, reverse, sortParameter).Ok?
    ensures r.Err? ==> r.error == ValidateList(e, limit, reverse, sortParameter).error
    ensures r.Ok? ==> r.value.arg == Pattern(keyword)
  {
    match ValidateList(e, limit, reverse, sortParameter)
    case Err(err) => Err(err)
    case Ok(p) => Ok(Statement(QueryText(e, projection, p), Pattern(keyword)))
  }

  // ---- properties ----

  /** The checks run in a fixed order and the first one to fail decides the error. */
  lemma ValidationOrder(e: Entity, limit: string, reverse: string, sortParameter: string)
    ensures limit != "" && Atoi(limit).None? ==> ValidateList(e, limit, reverse, sortParameter) == Err(InvalidLimit)
    ensures ParseLimit(limit).Some? && ParseReverse(reverse).None?
            ==> ValidateList(e, limit, reverse, sortParameter) == Err(InvalidReverse)
    ensures ParseLimit(limit).Some? && ParseReverse(reverse).Some? && sortParameter != "" && !IsSortColumn(e, sortParameter)
            ==> ValidateList(e, limit, reverse, sortParameter) == Err(InvalidSortParameter)
    ensures ValidateList(e, limit, reverse, sortParameter).Ok?
            <==> ParseLimit(limit).Some? && ParseReverse(reverse).Some? && (sortParameter == "" || IsSortColumn(e, sortParameter))
  {
  }

  /** An empty query string gives limit 10, descending order and the entity's default column. */
  lemma Defaults()
    ensures ValidateList(ActorList, "", "", "") == Ok(ListParams(10, true, "id"))
    ensures ValidateList(FilmList, "", "", "") == Ok(ListParams(10, true, "rating"))
  {
  }

  /** `reverse` is matched case-insensitively against exactly "true" and "false":
      other spellings of a boolean are refused. */
  lemma ReverseTokens()
    ensures ParseReverse("TRUE") == Some(true) && ParseReverse("False") == Some(false)
    ensures ParseReverse("1") == None && ParseReverse("yes") == None && ParseReverse(" true") == None
  {
    assert ToLower("TRUE") == "true";
    assert ToLower("False") == "false";
  }

  /** Descending order exactly when the lower-cased token is absent or "true". */
  lemma DescendingIffTrue(e: Entity, limit: string, reverse: string, sortParameter: string)
    requires ValidateList(e, limit, reverse, sortParameter).Ok?
    ensures ValidateList(e, limit, reverse, sortParameter).value.descending <==> ToLower(reverse) == "" || ToLower(reverse) == "true"
  {
  }

  /** `sort_parameter` is accepted exactly when it is empty or whitelisted, and
      the column used is the one given (or the default). */
  lemma SortParameterWhitelist(e: Entity, limit: string, reverse: string, sortParameter: string)
    requires ParseLimit(limit).Some? && ParseReverse(reverse).Some?
    ensures ValidateList(e, limit, reverse, sortParameter).Ok? <==> sortParameter == "" || IsSortColumn(e, sortParameter)
    ensures ValidateList(e, limit, reverse, sortParameter).Ok? ==>
      ValidateList(e, limit, reverse, sortParameter).value.column == (if sortParameter == "" then DefaultSortColumn(e) else sortParameter)
  {
  }

  /** Any 64-bit number is accepted as a limit, 0 and negative ones included. */
  lemma LimitUnbounded(e: Entity, n: int)
    requires MinInt64 <= n <= MaxInt64
    ensures ValidateList(e, Itoa(n), "", "") == Ok(ListParams(n, true, DefaultSortColumn(e)))
  {
    AtoiItoa(n);
    assert |Itoa(n)| > 0;
  }

  /** The text holds the fixed head, a whitelisted column, ASC or DESC and the
      limit; the keyword only reaches the bound argument, so the text does not
      depend on it at all. */
  lemma StatementShape(e: Entity, projection: string, limit: string, keyword: string, other: string, reverse: string, sortParameter: string)
    requires ValidateList(e, limit, reverse, sortParameter).Ok?
    ensures var p := ValidateList(e, limit, reverse, sortParameter).value;
            var st := ListStatement(e, projection, limit, keyword, reverse, sortParameter);
      && st.Ok?
      && IsSortColumn(e, p.column)
      && st.value.text == QueryHead(e, projection) + p.column + " " + (if p.descending then "DESC" else "ASC") + " LIMIT " + Itoa(p.limit)
      && st.value.arg == "%" + keyword + "%"
      && ListStatement(e, projection, limit, other, reverse, sortParameter).value.text == st.value.text
  {
  }

  /** The limit is printed in decimal at the end of the text: reading the tail back gives the limit. */
  lemma LimitPrinted(e: Entity, projection: string, p: ListParams)
    requires MinInt64 <= p.limit <= MaxInt64
    ensures var t := QueryText(e, projection, p); var digits := Itoa(p.limit);
      |digits| <= |t| && t[|t| - |digits|..] == digits && Atoi(t[|t| - |digits|..]) == Some(p.limit)
  {
    var t := QueryText(e, projection, p);
    var digits := Itoa(p.limit);
    var front := QueryHead(e, projection) + p.column + " " + Direction(p.descending) + " LIMIT ";
    assert t == front + digits;
    assert t[|front|..] == digits;
    AtoiItoa(p.limit);
  }
}
