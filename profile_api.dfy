/**
 * `POST /api/profile`: after the session checks, validates `username` and
 * `website` and upserts the caller's profile row, keyed by the caller's id.
 */
module ProfileApi {
  import opened Js
  import opened Config
  import opened Backend
  import opened Http
  import opened SupabaseServer
  import opened AuthGuard

  const INVALID_USERNAME := "Invalid username"
  const INVALID_WEBSITE := "Invalid website URL"
  const MAX_USERNAME_LENGTH := 50
  const MAX_WEBSITE_LENGTH := 200

  /** What the table `upsert` returns, or that it threw (which the catch-all answers). */
  datatype UpsertOutcome = UpsertOk(data: JsValue) | UpsertError(message: string) | UpsertThrew

  /**
   * `v && (typeof v !== 'string' || v.length > max)`: a falsy value is never
   * checked, a string is refused only for its length, anything else truthy is refused.
   */
  predicate InvalidText(v: JsValue, max: nat)
    ensures v.Undefined? || v.Null? ==> !InvalidText(v, max)
    ensures v.Str? ==> (InvalidText(v, max) <==> |v.s| > max)
    ensures !v.Str? ==> (InvalidText(v, max) <==> Truthy(v))
  {
    Truthy(v) && (!v.Str? || |v.s| > max)
  }

  /** The body destructures, so the three fields can be read. */
  predicate Destructures(body: Option<JsValue>)
  {
    body.Some? && !body.value.Null? && !body.value.Undefined?
  }

  function Username(body: JsValue): JsValue
    requires !body.Null? && !body.Undefined?
  {
    Field(body, "username").value
  }

  function Website(body: JsValue): JsValue
    requires !body.Null? && !body.Undefined?
  {
    Field(body, "website").value
  }

  function AvatarUrlField(body: JsValue): JsValue
    requires !body.Null? && !body.Undefined?
  {
    Field(body, "avatar_url").value
  }

  /** Signed in, a body that destructures, and both checked fields acceptable. */
  predicate UpdateAllowed(env: Env, cookies: map<string, string>, backend: AuthBackend, body: Option<JsValue>)
  {
    && Authenticate(env, cookies, backend).Admit?
    && Destructures(body)
    && !InvalidText(Username(body.value), MAX_USERNAME_LENGTH)
    && !InvalidText(Website(body.value), MAX_WEBSITE_LENGTH)
  }

  /** Whether a run wrote a profile row. */
  predicate Upserts(calls: seq<Call>)
  {
    exists c :: c in calls && c.UpsertRow?
  }

  function Post(env: Env, cookies: map<string, string>, backend: AuthBackend, body: Option<JsValue>, now: string, upserted: UpsertOutcome): (h: Handled)
    ensures !TokensPresent(env, cookies) ==> h == Handled(Response(401, Failure(UNAUTHORIZED)), [])
    ensures !Authenticate(env, cookies, backend).Admit? ==> h.response.status == 401
    // unconfigured, getUser is always absent: 401 and no backend call at all
    ensures !IsSupabaseConfigured(env) ==> h.response.status == 401 && h.calls == []
    // a body that does not parse or destructure is the catch-all 500
    ensures var g := Authenticate(env, cookies, backend);
      g.Admit? && !Destructures(body) ==> h == Handled(Response(500, Failure(INTERNAL_ERROR)), g.calls)
    // username is checked first, then website
    ensures var g := Authenticate(env, cookies, backend);
      g.Admit? && Destructures(body) && InvalidText(Username(body.value), MAX_USERNAME_LENGTH) ==>
        h == Handled(Response(400, Failure(INVALID_USERNAME)), g.calls)
    ensures var g := Authenticate(env, cookies, backend);
      g.Admit? && Destructures(body) && !InvalidText(Username(body.value), MAX_USERNAME_LENGTH)
      && InvalidText(Website(body.value), MAX_WEBSITE_LENGTH) ==>
        h == Handled(Response(400, Failure(INVALID_WEBSITE)), g.calls)
    // the row is written exactly when every check passes; its id is the caller's, avatar_url goes through as sent
    ensures Upserts(h.calls) <==> UpdateAllowed(env, cookies, backend, body)
    ensures UpdateAllowed(env, cookies, backend, body) ==>
      h.calls == Authenticate(env, cookies, backend).calls +
        [UpsertRow(PROFILES_TABLE, ProfileRow(Authenticate(env, cookies, backend).user.id,
                                              Username(body.value), Website(body.value), AvatarUrlField(body.value), now))]
    ensures UpdateAllowed(env, cookies, backend, body) && upserted.UpsertError? ==>
      h.response == Response(500, Failure(upserted.message))
    ensures UpdateAllowed(env, cookies, backend, body) && upserted.UpsertThrew? ==>
      h.response == Response(500, Failure(INTERNAL_ERROR))
    ensures h.response.status == 200 <==> UpdateAllowed(env, cookies, backend, body) && upserted.UpsertOk?
    ensures h.response.status == 200 ==> h.response.payload == Saved(upserted.data)
    ensures h.response.status in {200, 400, 401, 500}
  {
    match Authenticate(env, cookies, backend)
    case Refuse(refused) => refused
    case Admit(user, authCalls) =>
      if !Destructures(body) then Handled(Response(500, Failure(INTERNAL_ERROR)), authCalls)
      else
        var username, website, avatarUrl := Username(body.value), Website(body.value), AvatarUrlField(body.value);
        if InvalidText(username, MAX_USERNAME_LENGTH) then Handled(Response(400, Failure(INVALID_USERNAME)), authCalls)
        else if InvalidText(website, MAX_WEBSITE_LENGTH) then Handled(Response(400, Failure(INVALID_WEBSITE)), authCalls)
        // with no client, `supabase.from` would throw into the catch-all; an admitted caller rules that out
        else if ServerClient(env).None? then Handled(Response(500, Failure(INTERNAL_ERROR)), authCalls)
        else
          var calls := authCalls + [UpsertRow(PROFILES_TABLE, ProfileRow(user.id, username, website, avatarUrl, now))];
          assert calls[|authCalls|] in calls;
          match upserted
          case UpsertError(message) => Handled(Response(500, Failure(message)), calls)
          case UpsertThrew => Handled(Response(500, Failure(INTERNAL_ERROR)), calls)
          case UpsertOk(data) => Handled(Response(200, Saved(data)), calls)
  }

  /** A 51-character username is refused; a 50-character one reaches the upsert. */
  lemma UsernameLengthBoundary(env: Env, cookies: map<string, string>, backend: AuthBackend, name: string, now: string, upserted: UpsertOutcome)
    requires Authenticate(env, cookies, backend).Admit?
    ensures |name| == 51 ==>
      Post(env, cookies, backend, Some(Object(map["username" := Str(name)])), now, upserted).response
        == Response(400, Failure(INVALID_USERNAME))
    ensures |name| == 50 ==>
      Upserts(Post(env, cookies, backend, Some(Object(map["username" := Str(name)])), now, upserted).calls)
  {
  }
}
