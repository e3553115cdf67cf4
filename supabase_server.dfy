/**
 * The server-side backend client, present only when the configuration is
 * real, and the session resolver `getUser`, which turns a token pair into a
 * user record or collapses every failure to "absent".
 */
module SupabaseServer {
  import opened Js
  import opened Config
  import opened Backend

  /** A client handle: where it points and whether it persists sessions locally. */
  datatype Client = Client(url: string, anonKey: string, persistSession: bool)

  /** The process-wide server client; `None` stands for `null`. */
  function ServerClient(env: Env): (client: Option<Client>)
    ensures client.Some? <==> IsSupabaseConfigured(env)
    ensures client.Some? ==>
      && client.value.url == env.supabaseUrl.value
      && client.value.anonKey == env.supabaseAnonKey.value
      && !client.value.persistSession
  {
    if IsSupabaseConfigured(env)
    then Some(Client(SupabaseUrl(env), SupabaseAnonKey(env), false))
    else None
  }

  /**
   * The record `getUser` returns: the auth user's `id`, `email` and `phone`,
   * written after the profile columns so that they win, and the profile
   * columns, `None` when the user has no profile row yet.
   */
  datatype UserRecord = UserRecord(id: string, email: Option<string>, phone: Option<string>, profile: Option<ProfileData>)

  /** The result of `getUser` and the calls it made on the way. */
  datatype Lookup = Lookup(user: Option<UserRecord>, calls: seq<Call>)

  /** Whether a profile lookup leaves the user record standing. */
  predicate ProfileLookupAcceptable(lookup: ProfileLookup)
  {
    lookup.ProfileFound? || lookup.code == PROFILE_NOT_FOUND
  }

  function GetUser(env: Env, accessToken: Option<string>, refreshToken: Option<string>, backend: AuthBackend): (r: Lookup)
    // with no client, or a token missing, nothing is asked of the backend
    ensures r.calls == [] <==> !IsSupabaseConfigured(env) || !Present(accessToken) || !Present(refreshToken)
    // a record comes back exactly when every step succeeds, a missing profile row included
    ensures r.user.Some? <==>
      && IsSupabaseConfigured(env) && Present(accessToken) && Present(refreshToken)
      && backend.session.Some?
      && ProfileLookupAcceptable(backend.profile)
    // identity and contact fields always come from the auth user
    ensures r.user.Some? ==>
      && r.user.value.id == backend.session.value.id
      && r.user.value.email == backend.session.value.email
      && r.user.value.phone == backend.session.value.phone
    // profile fields come from the row, and are absent when there is no row
    ensures r.user.Some? ==>
      r.user.value.profile == (if backend.profile.ProfileFound? then Some(backend.profile.data) else None)
    // the session is established from exactly the two tokens, and only the session user's row is read
    ensures r.calls != [] ==> r.calls[0] == SetSession(accessToken.value, refreshToken.value)
    ensures forall c :: c in r.calls ==> IsSessionCall(c)
    ensures forall c :: c in r.calls && c.SelectProfile? ==>
      backend.session.Some? && c == SelectProfile(PROFILES_TABLE, PROFILE_COLUMNS, backend.session.value.id)
  {
    if ServerClient(env).None? then Lookup(None, [])
    else if !Present(accessToken) || !Present(refreshToken) then Lookup(None, [])
    else
      var established := [SetSession(accessToken.value, refreshToken.value), GetSession];
      match backend.session
      case None => Lookup(None, established)
      case Some(user) =>
        var calls := established + [SelectProfile(PROFILES_TABLE, PROFILE_COLUMNS, user.id)];
        match backend.profile
        case ProfileFound(data) =>
          Lookup(Some(UserRecord(user.id, user.email, user.phone, Some(data))), calls)
        case ProfileError(code, _) =>
          if code == PROFILE_NOT_FOUND
          then Lookup(Some(UserRecord(user.id, user.email, user.phone, None)), calls)
          else Lookup(None, calls)
  }
}
