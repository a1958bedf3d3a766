/** handlers/middlewares.go: the basic-auth middleware and `Wrap`.  A handler
    is modelled as a function from request to response; what the wrapped
    handler does to the tables is the business of the handler methods, which
    read the context this middleware builds. */
module Auth {
  import opened Common
  import opened Store

  /** The result of `r.BasicAuth()` when it reports `ok`. */
  datatype Credentials = Credentials(user: string, pass: string)

  /** The two kinds of value the middleware puts in the request context. */
  datatype CtxValue = IntValue(i: int) | BoolValue(b: bool)

  type Context = map<string, CtxValue>

  datatype Request = Request(basicAuth: Option<Credentials>, ctx: Context)

  /** Status code and the `WWW-Authenticate` header, when one is set. */
  datatype Response = Response(status: int, authenticate: Option<string>)

  type Handler = Request -> Response

  /** What the middleware sees of the database: the `users` table and whether
      the lookup statement itself fails (a connection error, say). */
  datatype Env = Env(users: seq<UserRow>, lookupFails: bool)

  const Challenge := "Basic realm=\"Restricted\""

  /** The 401 "authorization error" answer with the challenge header. */
  const Unauthorized := Response(StatusUnauthorized, Some(Challenge))

  /** The `WHERE login = $1 AND password = $2` condition: both must be equal, exactly. */
  predicate Matches(u: UserRow, c: Credentials)
  {
    u.login == c.user && u.password == c.pass
  }

  /** The index of the first matching row in table order, or |users| when none matches. */
  function FirstMatch(users: seq<UserRow>, c: Credentials): (i: nat)
    ensures i <= |users|
    ensures i < |users| ==> Matches(users[i], c)
    ensures forall j :: 0 <= j < i ==> !Matches(users[j], c)
  {
    if users == [] then 0
    else if Matches(users[0], c) then 0
    else 1 + FirstMatch(users[1..], c)
  }

  /** `QueryRow(...).Scan(&id, &admin)`: the first matching row, or ErrNoRows (None). */
  function LookupUser(users: seq<UserRow>, c: Credentials): (r: Option<UserRow>)
    ensures r.Some? ==> r.value in users && Matches(r.value, c)
    ensures r.None? <==> forall u :: u in users ==> !Matches(u, c)
  {
    var i := FirstMatch(users, c);
    if i < |users| then Some(users[i]) else None
  }

  datatype Decision = Reject | Proceed(ctx: Context)

  /** The middleware's decision: reject without credentials, on a failed
      lookup or on id 0; otherwise extend the context with `user` and `admin`. */
  function Authenticate(env: Env, r: Request): (d: Decision)
    ensures r.basicAuth.None? || env.lookupFails ==> d == Reject
    ensures d.Proceed? ==> d.ctx.Keys == r.ctx.Keys + {"user", "admin"}
    ensures d.Proceed? ==> d.ctx["user"].IntValue? && d.ctx["user"].i != 0 && d.ctx["admin"].BoolValue?
    ensures d.Proceed? ==> forall k :: k in r.ctx && k != "user" && k != "admin" ==> d.ctx[k] == r.ctx[k]
  {
    match r.basicAuth
    case None => Reject
    case Some(c) =>
      if env.lookupFails then Reject
      else match LookupUser(env.users, c)
        case None => Reject
        case Some(u) =>
          if u.id == 0 then Reject
          else Proceed(r.ctx["user" := IntValue(u.id)]["admin" := BoolValue(u.admin)])
  }

  /** authMiddleware(f). */
  function AuthMiddleware(env: Env, f: Handler): (g: Handler)
    ensures forall r :: Authenticate(env, r).Reject? ==> g(r) == Unauthorized
  {
    r => match Authenticate(env, r)
         case Reject => Unauthorized
         case Proceed(ctx) => f(r.(ctx := ctx))
  }

  /** `r.Context().Value("admin") == true`: a missing value, or any other value, is not admin. */
  predicate IsAdmin(ctx: Context)
  {
    "admin" in ctx && ctx["admin"] == BoolValue(true)
  }

  /** The middleware list `Wrap` applies. */
  function Middlewares(env: Env): seq<Handler -> Handler>
  {
    [h => AuthMiddleware(env, h)]
  }

  /** The handler after `f = mw(f)` for each middleware in list order. */
  function Chain(mws: seq<Handler -> Handler>, f: Handler): Handler
  {
    if mws == [] then f else mws[|mws| - 1](Chain(mws[..|mws| - 1], f))
  }

  /** Wrap: the middleware list applied in order; that is exactly one authMiddleware. */
  method Wrap(env: Env, f: Handler) returns (g: Handler)
    ensures g == AuthMiddleware(env, f)
  {
    var mws := Middlewares(env);
    g := f;
    var i := 0;
    while i < |mws|
      invariant 0 <= i <= |mws|
      invariant g == Chain(mws[..i], f)
    {
      assert mws[..i + 1][..i] == mws[..i];
      g := mws[i](g);
      i := i + 1;
    }
    assert mws[..i] == mws;
  }

  // ---- properties of the decision ----

  /** The middleware proceeds exactly when credentials are present, the lookup
      runs, and the first row (in table order) whose login and password both
      match has a non-zero id; the handler then sees that row's id and flag. */
  lemma AuthenticateIff(env: Env, r: Request)
    ensures Authenticate(env, r).Proceed? <==>
      && r.basicAuth.Some? && !env.lookupFails
      && exists i :: 0 <= i < |env.users| && Matches(env.users[i], r.basicAuth.value) && env.users[i].id != 0
                   && (forall j :: 0 <= j < i ==> !Matches(env.users[j], r.basicAuth.value))
    ensures Authenticate(env, r).Proceed? ==>
      var u := env.users[FirstMatch(env.users, r.basicAuth.value)];
      Authenticate(env, r).ctx == r.ctx["user" := IntValue(u.id)]["admin" := BoolValue(u.admin)]
  {
    if r.basicAuth.Some? && !env.lookupFails {
      var c := r.basicAuth.value;
      var k := FirstMatch(env.users, c);
      if exists i :: 0 <= i < |env.users| && Matches(env.users[i], c) && env.users[i].id != 0
                   && (forall j :: 0 <= j < i ==> !Matches(env.users[j], c)) {
        var i :| 0 <= i < |env.users| && Matches(env.users[i], c) && env.users[i].id != 0
                   && (forall j :: 0 <= j < i ==> !Matches(env.users[j], c));
        assert i == k;
      }
    }
  }

  /** Without credentials the answer is the 401 challenge, whatever the inner handler. */
  lemma NoCredentialsRejected(env: Env, f: Handler, r: Request)
    requires r.basicAuth.None?
    ensures AuthMiddleware(env, f)(r) == Unauthorized
    ensures Unauthorized.status == 401 && Unauthorized.authenticate == Some("Basic realm=\"Restricted\"")
  {
    assert Authenticate(env, r) == Reject;
  }

  /** A failed lookup, no matching row, or a matching row with id 0 gives the
      401 challenge; the inner handler's answer plays no part. */
  lemma FailedLookupRejected(env: Env, f: Handler, g: Handler, r: Request)
    requires r.basicAuth.Some?
    requires env.lookupFails
          || (forall i :: 0 <= i < |env.users| ==> !Matches(env.users[i], r.basicAuth.value))
          || (exists i :: 0 <= i < |env.users| && Matches(env.users[i], r.basicAuth.value) && env.users[i].id == 0
                        && (forall j :: 0 <= j < i ==> !Matches(env.users[j], r.basicAuth.value)))
    ensures AuthMiddleware(env, f)(r) == AuthMiddleware(env, g)(r) == Unauthorized
  {
    AuthenticateIff(env, r);
  }

  /** Once accepted, the answer is the inner handler's on the request with
      `user` = the row's id and `admin` = its flag; other context keys are kept. */
  lemma AcceptedRunsInner(env: Env, f: Handler, r: Request, u: UserRow)
    requires r.basicAuth.Some? && !env.lookupFails
    requires LookupUser(env.users, r.basicAuth.value) == Some(u) && u.id != 0
    ensures AuthMiddleware(env, f)(r) == f(r.(ctx := r.ctx["user" := IntValue(u.id)]["admin" := BoolValue(u.admin)]))
    ensures var ctx := r.ctx["user" := IntValue(u.id)]["admin" := BoolValue(u.admin)];
      && ctx["user"] == IntValue(u.id)
      && (IsAdmin(ctx) <==> u.admin)
      && (forall k :: k in r.ctx && k != "user" && k != "admin" ==> k in ctx && ctx[k] == r.ctx[k])
  {
    assert Authenticate(env, r) == Proceed(r.ctx["user" := IntValue(u.id)]["admin" := BoolValue(u.admin)]);
  }

  /** The lookup needs both fields: a row whose login matches but whose password does not is never chosen. */
  lemma LookupNeedsBoth(users: seq<UserRow>, c: Credentials, u: UserRow)
    requires LookupUser(users, c) == Some(u)
    ensures u.login == c.user && u.password == c.pass && u in users
  {
  }

  /** Wrap runs the middleware's decision exactly once: it is the same handler as authMiddleware(f). */
  lemma WrapAppliesOneMiddleware(env: Env, f: Handler)
    ensures Chain(Middlewares(env), f) == AuthMiddleware(env, f)
  {
    var mws := Middlewares(env);
    assert mws[..0] == [];
  }
}
