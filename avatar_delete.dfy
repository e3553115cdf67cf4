/**
 * `POST /api/avatar/delete`: a no-op success when unconfigured; otherwise
 * the session, the path's format and its owner are checked before the object
 * is removed, and a failed removal still reports success.
 */
module AvatarDelete {
  import opened Js
  import opened Config
  import opened Backend
  import opened Http
  import opened SupabaseServer
  import opened AuthGuard
  import opened AvatarPaths

  const DELETE_SKIPPED := "Avatar delete skipped - Supabase not configured"
  const NOT_OWNER := "Unauthorized to delete this avatar"

  /**
   * The request body's `avatarPath` when it is a non-empty string; `None` when
   * it is anything else (missing, empty, not a string). Only called once the
   * body is known to destructure.
   */
  function PathArgument(body: JsValue): (path: Option<string>)
    requires Field(body, "avatarPath").Some?
    // truthy and a string means a non-empty string: other strings and every other value are refused
    ensures path.Some? <==> Field(body, "avatarPath").value.Str? && Field(body, "avatarPath").value.s != ""
    ensures path.Some? ==> path.value == Field(body, "avatarPath").value.s
  {
    var v := Field(body, "avatarPath").value;
    if !Truthy(v) || !v.Str? then None else Some(v.s)
  }

  /** What the storage `remove` call does: succeeds, returns an error, or throws. */
  datatype RemoveOutcome = Removed | RemoveError(message: string) | RemoveThrew

  /** Whether a run issued a storage removal. */
  predicate Removes(calls: seq<Call>)
  {
    exists c :: c in calls && c.StorageRemove?
  }

  /** Every check passes: configured, signed in, a well-formed path in the caller's own folder. */
  predicate DeletionAllowed(env: Env, cookies: map<string, string>, backend: AuthBackend, body: Option<JsValue>)
  {
    var g := Authenticate(env, cookies, backend);
    && g.Admit?
    && body.Some? && Field(body.value, "avatarPath").Some?
    && PathArgument(body.value).Some?
    && WellFormedPath(PathArgument(body.value).value)
    && Owner(PathArgument(body.value).value) == g.user.id
  }

  function Post(env: Env, cookies: map<string, string>, backend: AuthBackend, body: Option<JsValue>, removal: RemoveOutcome): (h: Handled)
    // unconfigured: success, and no authentication, path check or removal
    ensures !IsSupabaseConfigured(env) ==> h == Handled(Response(200, Done(Some(DELETE_SKIPPED))), [])
    ensures IsSupabaseConfigured(env) && !TokensPresent(env, cookies) ==>
      h == Handled(Response(401, Failure(UNAUTHORIZED)), [])
    ensures IsSupabaseConfigured(env) && !Authenticate(env, cookies, backend).Admit? ==> h.response.status == 401
    // a body that does not parse or destructure is the catch-all 500
    ensures var g := Authenticate(env, cookies, backend);
      g.Admit? && (body.None? || Field(body.value, "avatarPath").None?) ==>
        h == Handled(Response(500, Failure(INTERNAL_ERROR)), g.calls)
    // a missing, empty or non-string path, or a malformed one, is a 400
    ensures var g := Authenticate(env, cookies, backend);
      g.Admit? && body.Some? && Field(body.value, "avatarPath").Some? && PathArgument(body.value).None? ==>
        h == Handled(Response(400, Failure(PATH_REQUIRED)), g.calls)
    ensures var g := Authenticate(env, cookies, backend);
      g.Admit? && body.Some? && Field(body.value, "avatarPath").Some? && PathArgument(body.value).Some?
      && !WellFormedPath(PathArgument(body.value).value) ==>
        h == Handled(Response(400, Failure(INVALID_PATH_FORMAT)), g.calls)
    // someone else's folder is a 403, and nothing is removed
    ensures var g := Authenticate(env, cookies, backend);
      g.Admit? && body.Some? && Field(body.value, "avatarPath").Some? && PathArgument(body.value).Some?
      && WellFormedPath(PathArgument(body.value).value) && Owner(PathArgument(body.value).value) != g.user.id ==>
        h == Handled(Response(403, Failure(NOT_OWNER)), g.calls)
    // removal happens exactly when every check passes, and removes exactly the given path
    ensures Removes(h.calls) <==> DeletionAllowed(env, cookies, backend, body)
    ensures DeletionAllowed(env, cookies, backend, body) ==>
      h.calls == Authenticate(env, cookies, backend).calls + [StorageRemove(AVATAR_BUCKET, [PathArgument(body.value).value])]
    // and then the answer is success, even when the removal returned an error; only a throw is a 500
    ensures DeletionAllowed(env, cookies, backend, body) && !removal.RemoveThrew? ==> h.response == Response(200, Done(None))
    ensures DeletionAllowed(env, cookies, backend, body) && removal.RemoveThrew? ==>
      h.response == Response(500, Failure(INTERNAL_ERROR))
    ensures h.response.status == 403 ==> !Removes(h.calls)
    ensures h.response.status == 500 ==>
      body.None? || Field(body.value, "avatarPath").None? || (Removes(h.calls) && removal.RemoveThrew?)
    ensures h.response.status in {200, 400, 401, 403, 500}
  {
    if !IsSupabaseConfigured(env) then
      Handled(Response(200, Done(Some(DELETE_SKIPPED))), [])
    else
      match Authenticate(env, cookies, backend)
      case Refuse(refused) => refused
      case Admit(user, authCalls) =>
        if body.None? || Field(body.value, "avatarPath").None? then
          Handled(Response(500, Failure(INTERNAL_ERROR)), authCalls)
        else
          var argument := PathArgument(body.value);
          if argument.None? then Handled(Response(400, Failure(PATH_REQUIRED)), authCalls)
          else
            var path := argument.value;
            if !WellFormedPath(path) then Handled(Response(400, Failure(INVALID_PATH_FORMAT)), authCalls)
            else if Owner(path) != user.id then Handled(Response(403, Failure(NOT_OWNER)), authCalls)
            else if ServerClient(env).None? then Handled(Response(500, Failure(CLIENT_UNAVAILABLE)), authCalls)
            else
              var calls := authCalls + [StorageRemove(AVATAR_BUCKET, [path])];
              assert calls[|authCalls|] in calls;
              // a returned removal error is only logged
              match removal
              case RemoveThrew => Handled(Response(500, Failure(INTERNAL_ERROR)), calls)
              case RemoveError(_) => Handled(Response(200, Done(None)), calls)
              case Removed => Handled(Response(200, Done(None)), calls)
  }

  /** An error returned by the removal never shows in the run. */
  lemma RemoveErrorSwallowed(env: Env, cookies: map<string, string>, backend: AuthBackend, body: Option<JsValue>, message: string)
    ensures Post(env, cookies, backend, body, RemoveError(message)) == Post(env, cookies, backend, body, Removed)
  {
  }
}
