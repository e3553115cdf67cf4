/**
 * `GET /api/avatar/url`: checks the `path` query parameter, then the
 * configuration, then asks for a signed URL and falls back to the public
 * URL. It takes no cookies: the answer never depends on who asks.
 */
module AvatarUrl {
  import opened Js
  import opened Config
  import opened Backend
  import opened Http
  import opened SupabaseServer
  import opened AvatarPaths

  const URL_UNAVAILABLE := "Supabase not configured"

  /**
   * What `createSignedUrl` returns: the URL, if any, and the error message, if
   * any; or that the call threw (which the catch-all answers).
   */
  datatype SignedUrlOutcome = SignedUrlOutcome(signedUrl: Option<string>, error: Option<string>) | SigningThrew

  /** `!signedError && signedUrlData?.signedUrl` */
  predicate SignedUrlObtained(signed: SignedUrlOutcome)
  {
    signed.SignedUrlOutcome? && signed.error.None? && Present(signed.signedUrl)
  }

  /** The signing call returned, but without a usable URL: the public URL is tried next. */
  predicate FallsBackToPublic(signed: SignedUrlOutcome)
  {
    signed.SignedUrlOutcome? && !SignedUrlObtained(signed)
  }

  /** The path is present, non-empty and well formed. */
  predicate PathAccepted(path: Option<string>)
  {
    Present(path) && WellFormedPath(path.value)
  }

  function Get(env: Env, path: Option<string>, signed: SignedUrlOutcome, publicUrl: Option<string>): (h: Handled)
    // path checks come first, even before the configuration check, and call nothing
    ensures !Present(path) ==> h == Handled(Response(400, Failure(PATH_REQUIRED)), [])
    ensures Present(path) && !WellFormedPath(path.value) ==> h == Handled(Response(400, Failure(INVALID_PATH_FORMAT)), [])
    ensures PathAccepted(path) && !IsSupabaseConfigured(env) ==> h == Handled(Response(503, Unavailable(URL_UNAVAILABLE)), [])
    // once both pass, a signed URL valid for an hour is always requested first
    ensures PathAccepted(path) && IsSupabaseConfigured(env) ==>
      |h.calls| >= 1 && h.calls[0] == CreateSignedUrl(AVATAR_BUCKET, path.value, SIGNED_URL_EXPIRY)
    // a usable signed URL is returned as is, and the public URL is never consulted
    ensures PathAccepted(path) && IsSupabaseConfigured(env) && SignedUrlObtained(signed) ==>
      h == Handled(Response(200, UrlFound(signed.signedUrl.value, SignedUrl)),
                   [CreateSignedUrl(AVATAR_BUCKET, path.value, SIGNED_URL_EXPIRY)])
    // a throwing signing call ends in the catch-all, before the public URL is asked for
    ensures PathAccepted(path) && IsSupabaseConfigured(env) && signed.SigningThrew? ==>
      h == Handled(Response(500, Failure(INTERNAL_ERROR)), [CreateSignedUrl(AVATAR_BUCKET, path.value, SIGNED_URL_EXPIRY)])
    // otherwise the public URL is the fallback
    ensures PathAccepted(path) && IsSupabaseConfigured(env) && FallsBackToPublic(signed) ==>
      h.calls == [CreateSignedUrl(AVATAR_BUCKET, path.value, SIGNED_URL_EXPIRY), GetPublicUrl(AVATAR_BUCKET, path.value)]
    ensures PathAccepted(path) && IsSupabaseConfigured(env) && FallsBackToPublic(signed) && Present(publicUrl) ==>
      h.response == Response(200, UrlFound(publicUrl.value, PublicUrl))
    // and when neither comes back, the details say so and echo the path
    ensures PathAccepted(path) && IsSupabaseConfigured(env) && FallsBackToPublic(signed) && !Present(publicUrl) ==>
      h.response == Response(500, UrlMissing(signed.error, false, path.value))
    ensures h.response.status == 200 <==>
      PathAccepted(path) && IsSupabaseConfigured(env) && (SignedUrlObtained(signed) || (FallsBackToPublic(signed) && Present(publicUrl)))
    ensures h.response.status in {200, 400, 500, 503}
  {
    if !Present(path) then Handled(Response(400, Failure(PATH_REQUIRED)), [])
    else
      var avatarPath := path.value;
      if !WellFormedPath(avatarPath) then Handled(Response(400, Failure(INVALID_PATH_FORMAT)), [])
      else if !IsSupabaseConfigured(env) then Handled(Response(503, Unavailable(URL_UNAVAILABLE)), [])
      else if ServerClient(env).None? then Handled(Response(500, Failure(CLIENT_UNAVAILABLE)), [])
      else
        var signing := [CreateSignedUrl(AVATAR_BUCKET, avatarPath, SIGNED_URL_EXPIRY)];
        if signed.SigningThrew? then Handled(Response(500, Failure(INTERNAL_ERROR)), signing)
        else if SignedUrlObtained(signed) then
          Handled(Response(200, UrlFound(signed.signedUrl.value, SignedUrl)), signing)
        else
          var calls := signing + [GetPublicUrl(AVATAR_BUCKET, avatarPath)];
          if Present(publicUrl) then Handled(Response(200, UrlFound(publicUrl.value, PublicUrl)), calls)
          else Handled(Response(500, UrlMissing(signed.error, Present(publicUrl), avatarPath)), calls)
  }
}
