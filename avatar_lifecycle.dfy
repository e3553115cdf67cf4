/**
 * How the three avatar handlers fit together through the path convention:
 * what upload stores, delete lets its owner remove and nobody else, and the
 * URL handler accepts.
 */
module AvatarLifecycle {
  import opened Js
  import opened Config
  import opened Backend
  import opened Http
  import opened AuthGuard
  import opened AvatarPaths
  import AvatarUpload
  import AvatarDelete
  import AvatarUrl

  function DeleteBody(path: string): JsValue
  {
    Object(map["avatarPath" := Str(path)])
  }

  /** The uploader can delete what was uploaded: the removal goes through and reports success. */
  lemma OwnerCanDeleteUploadedAvatar(env: Env, cookies: map<string, string>, backend: AuthBackend,
                                     now: nat, name: string, removal: AvatarDelete.RemoveOutcome)
    requires Authenticate(env, cookies, backend).Admit?
    requires '/' !in Authenticate(env, cookies, backend).user.id
    requires |AvatarUpload.AvatarPath(Authenticate(env, cookies, backend).user.id, now, name)| <= MAX_PATH_LENGTH
    ensures var g := Authenticate(env, cookies, backend);
      var path := AvatarUpload.AvatarPath(g.user.id, now, name);
      var h := AvatarDelete.Post(env, cookies, backend, Some(DeleteBody(path)), removal);
      h.calls == g.calls + [StorageRemove(AVATAR_BUCKET, [path])]
      && (!removal.RemoveThrew? ==> h.response == Response(200, Done(None)))
  {
    var g := Authenticate(env, cookies, backend);
    AvatarUpload.AvatarPathOwnedByUploader(g.user.id, now, name);
  }

  /** Another signed-in user is refused with 403 and nothing is removed. */
  lemma OthersCannotDeleteUploadedAvatar(env: Env, cookies: map<string, string>, backend: AuthBackend,
                                         owner: string, now: nat, name: string, removal: AvatarDelete.RemoveOutcome)
    requires Authenticate(env, cookies, backend).Admit?
    requires '/' !in owner && owner != Authenticate(env, cookies, backend).user.id
    requires |AvatarUpload.AvatarPath(owner, now, name)| <= MAX_PATH_LENGTH
    ensures var h := AvatarDelete.Post(env, cookies, backend, Some(DeleteBody(AvatarUpload.AvatarPath(owner, now, name))), removal);
      h.response.status == 403 && !AvatarDelete.Removes(h.calls)
  {
    AvatarUpload.AvatarPathOwnedByUploader(owner, now, name);
  }

  /** The URL handler accepts every uploaded path and asks for a signed URL for it. */
  lemma UploadedAvatarHasUrl(env: Env, userId: string, now: nat, name: string,
                             signed: AvatarUrl.SignedUrlOutcome, publicUrl: Option<string>)
    requires IsSupabaseConfigured(env)
    requires |AvatarUpload.AvatarPath(userId, now, name)| <= MAX_PATH_LENGTH
    ensures var path := AvatarUpload.AvatarPath(userId, now, name);
      AvatarUrl.Get(env, Some(path), signed, publicUrl).calls[0] == CreateSignedUrl(AVATAR_BUCKET, path, SIGNED_URL_EXPIRY)
  {
  }
}
