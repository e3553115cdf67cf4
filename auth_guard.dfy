/**
 * The opening every authenticated handler shares: read the two token
 * cookies, answer 401 when either is missing or empty, resolve the session,
 * and answer 401 when no user comes back.
 */
module AuthGuard {
  import opened Js
  import opened Config
  import opened Backend
  import opened Http
  import opened SupabaseServer

  /** `cookies.get(name)?.value` */
  function Cookie(cookies: map<string, string>, name: string): (value: Option<string>)
    ensures value.Some? <==> name in cookies
    ensures value.Some? ==> value.value == cookies[name]
  {
    if name in cookies then Some(cookies[name]) else None
  }

  function AccessToken(env: Env, cookies: map<string, string>): Option<string>
  {
    Cookie(cookies, AccessTokenName(CookiePrefix(env)))
  }

  function RefreshToken(env: Env, cookies: map<string, string>): Option<string>
  {
    Cookie(cookies, RefreshTokenName(CookiePrefix(env)))
  }

  predicate TokensPresent(env: Env, cookies: map<string, string>)
  {
    Present(AccessToken(env, cookies)) && Present(RefreshToken(env, cookies))
  }

  /** Either the caller's user record and the calls made finding it, or the finished 401 run. */
  datatype Gate = Admit(user: UserRecord, calls: seq<Call>) | Refuse(handled: Handled)

  function Authenticate(env: Env, cookies: map<string, string>, backend: AuthBackend): (g: Gate)
    ensures g.Refuse? ==> g.handled.response.status == 401
    // a missing token is refused before the backend is asked anything
    ensures !TokensPresent(env, cookies) ==> g == Refuse(Handled(Response(401, Failure(UNAUTHORIZED)), []))
    // admitted exactly when getUser returns a record
    ensures g.Admit? <==>
      && TokensPresent(env, cookies)
      && IsSupabaseConfigured(env)
      && backend.session.Some?
      && ProfileLookupAcceptable(backend.profile)
    // with both tokens, a refusal is "Invalid session" after the calls getUser made, and admission keeps those calls
    ensures TokensPresent(env, cookies) && g.Refuse? ==>
      g.handled == Handled(Response(401, Failure(INVALID_SESSION)),
                           GetUser(env, AccessToken(env, cookies), RefreshToken(env, cookies), backend).calls)
    ensures g.Admit? ==> g.calls == GetUser(env, AccessToken(env, cookies), RefreshToken(env, cookies), backend).calls
    ensures g.Admit? ==> g.user.id == backend.session.value.id
    ensures g.Admit? ==> forall c :: c in g.calls ==> IsSessionCall(c)
    ensures g.Refuse? ==> forall c :: c in g.handled.calls ==> IsSessionCall(c)
  {
    var accessToken, refreshToken := AccessToken(env, cookies), RefreshToken(env, cookies);
    if !Present(accessToken) || !Present(refreshToken) then
      Refuse(Handled(Response(401, Failure(UNAUTHORIZED)), []))
    else
      var lookup := GetUser(env, accessToken, refreshToken, backend);
      if lookup.user.None? then Refuse(Handled(Response(401, Failure(INVALID_SESSION)), lookup.calls))
      else Admit(lookup.user.value, lookup.calls)
  }
}
