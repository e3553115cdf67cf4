/**
 * The backend-as-a-service as the handlers see it: the calls they issue,
 * recorded as values in the order issued, and the outcomes those calls
 * return, which the handlers receive as parameters.
 */
module Backend {
  import opened Js

  const AVATAR_BUCKET := "avatars"
  const PROFILES_TABLE := "profiles"
  const PROFILE_COLUMNS := "username, website, avatar_url"
  /** Lifetime in seconds of a signed avatar URL. */
  const SIGNED_URL_EXPIRY := 3600
  /** The data store's "no row matched `.single()`" error code. */
  const PROFILE_NOT_FOUND := "PGRST116"

  /** The user record the auth subsystem attaches to a session. */
  datatype AuthUser = AuthUser(id: string, email: Option<string>, phone: Option<string>)

  /** The three profile columns a lookup selects. */
  datatype ProfileData = ProfileData(username: Option<string>, website: Option<string>, avatarUrl: Option<string>)

  /** What `from("profiles").select(...).eq("id", id).single()` returns. */
  datatype ProfileLookup =
    | ProfileFound(data: ProfileData)
    | ProfileError(code: string, message: string)

  /**
   * What the auth subsystem answers for one request: the user of the session
   * established from the request's tokens (`None` when `getSession` yields no
   * user), and the result of looking up that user's profile row. This
   * assumes `setSession` succeeded and that no other request changed the
   * shared client's session before `getSession` reads it back.
   */
  datatype AuthBackend = AuthBackend(session: Option<AuthUser>, profile: ProfileLookup)

  /** The row a profile update writes; the request's fields are passed as given. */
  datatype ProfileRow = ProfileRow(id: string, username: JsValue, website: JsValue, avatarUrl: JsValue, updatedAt: string)

  /** One SDK call, with the arguments it carries. */
  datatype Call =
    | SetSession(accessToken: string, refreshToken: string)
    | GetSession
    | SelectProfile(table: string, columns: string, id: string)
    | StorageUpload(bucket: string, path: string, contentType: string, upsert: bool)
    | StorageRemove(bucket: string, paths: seq<string>)
    | CreateSignedUrl(bucket: string, path: string, expiresIn: nat)
    | GetPublicUrl(bucket: string, path: string)
    | UpsertRow(table: string, row: ProfileRow)

  /** Calls made while resolving a session, as opposed to storage and table writes. */
  predicate IsSessionCall(c: Call)
  {
    c.SetSession? || c.GetSession? || c.SelectProfile?
  }
}
