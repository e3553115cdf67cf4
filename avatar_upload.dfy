/**
 * `POST /api/avatar/upload`: checks, in order, configuration, the session,
 * and the uploaded file, then stores the file under `userId/timestamp.ext`.
 */
module AvatarUpload {
  import opened Js
  import opened Config
  import opened Backend
  import opened Http
  import opened SupabaseServer
  import opened AuthGuard
  import opened AvatarPaths

  const UPLOAD_UNAVAILABLE := "Avatar upload not available - Supabase storage not configured"
  const NO_FILE := "No file provided"
  const INVALID_FILE := "Invalid file"
  const INVALID_TYPE := "Invalid file type. Only images are allowed."
  const TOO_LARGE := "File too large. Maximum size is 5MB."
  const INVALID_NAME := "Invalid filename"

  const ALLOWED_TYPES: seq<string> := ["image/jpeg", "image/jpg", "image/png", "image/gif", "image/webp"]
  /** 5 MiB, in bytes. */
  const MAX_FILE_SIZE := 5 * 1024 * 1024
  const MAX_NAME_LENGTH := 255
  const DEFAULT_EXTENSION := "jpg"

  /** An uploaded file: its name, its declared MIME type and its size in bytes. */
  datatype File = File(name: string, mimeType: string, size: nat)

  /** What `formData.get('avatar')` yields: nothing, a text field, or a file. */
  datatype FormValue = NoEntry | TextEntry(text: string) | FileEntry(file: File)

  /** The request body: unreadable as form data (the parse throws), or its `avatar` entry. */
  datatype FormBody = Unreadable | Form(avatar: FormValue)

  /** What the storage `upload` call returns, or that it threw (which the catch-all answers). */
  datatype UploadOutcome = UploadOk(path: string) | UploadError(message: string) | UploadThrew

  /** A file that passes every check of the upload handler. */
  predicate AcceptableFile(entry: FormValue)
  {
    && entry.FileEntry?
    && 0 < entry.file.size <= MAX_FILE_SIZE
    && entry.file.mimeType in ALLOWED_TYPES
    && 0 < |entry.file.name| <= MAX_NAME_LENGTH
  }

  /** The file checks, in the handler's order; `None` when the file is accepted. */
  function FileProblem(entry: FormValue): (problem: Option<string>)
    ensures problem.None? <==> AcceptableFile(entry)
    // an absent or empty entry is "no file"; a text entry or an empty file is "invalid"
    ensures entry.NoEntry? || entry == TextEntry("") ==> problem == Some(NO_FILE)
    ensures entry.TextEntry? && entry.text != "" ==> problem == Some(INVALID_FILE)
    ensures entry.FileEntry? && entry.file.size == 0 ==> problem == Some(INVALID_FILE)
    // a disallowed type is refused whatever the size, and before the size limit
    ensures entry.FileEntry? && entry.file.mimeType !in ALLOWED_TYPES ==> problem.Some?
    ensures entry.FileEntry? && entry.file.size > 0 && entry.file.mimeType !in ALLOWED_TYPES ==>
      problem == Some(INVALID_TYPE)
    ensures entry.FileEntry? && entry.file.size > MAX_FILE_SIZE ==> problem.Some?
    ensures entry.FileEntry? && entry.file.mimeType in ALLOWED_TYPES && entry.file.size > MAX_FILE_SIZE ==>
      problem == Some(TOO_LARGE)
    // the name is checked last, once the size and type have passed
    ensures entry.FileEntry? && 0 < entry.file.size <= MAX_FILE_SIZE && entry.file.mimeType in ALLOWED_TYPES ==>
      (entry.file.name == "" || |entry.file.name| > MAX_NAME_LENGTH) ==> problem == Some(INVALID_NAME)
  {
    match entry
    case NoEntry => Some(NO_FILE)
    case TextEntry(text) => if text == "" then Some(NO_FILE) else Some(INVALID_FILE)
    case FileEntry(file) =>
      if file.size == 0 then Some(INVALID_FILE)
      else if file.mimeType !in ALLOWED_TYPES then Some(INVALID_TYPE)
      else if file.size > MAX_FILE_SIZE then Some(TOO_LARGE)
      else if file.name == "" || |file.name| > MAX_NAME_LENGTH then Some(INVALID_NAME)
      else None
  }

  /** Exactly 5 MiB passes the size check; one byte more is refused as too large. */
  lemma SizeLimitBoundary(name: string, mimeType: string)
    requires mimeType in ALLOWED_TYPES && 0 < |name| <= MAX_NAME_LENGTH
    ensures FileProblem(FileEntry(File(name, mimeType, 5 * 1024 * 1024))) == None
    ensures FileProblem(FileEntry(File(name, mimeType, 5 * 1024 * 1024 + 1))) == Some(TOO_LARGE)
  {
  }

  /**
   * `name.split('.').pop()?.toLowerCase() || 'jpg'`: the last `.`-separated
   * segment, lower-cased, or `jpg` when that segment is empty. (`pop` of a
   * split never comes back `undefined`.)
   */
  function Extension(name: string): (ext: string)
    ensures ext != ""
    ensures name == "" ==> ext == DEFAULT_EXTENSION
    ensures '.' !in name && name != "" ==> ext == ToLower(name)
  {
    SplitPieces(name, '.');
    var segments := Split(name, '.');
    var lowered := ToLower(segments[|segments| - 1]);
    if lowered == "" then DEFAULT_EXTENSION else lowered
  }

  /** `${userId}/${now}.${ext}`: the uploader's folder, then the timestamp and the extension. */
  function AvatarPath(userId: string, now: nat, name: string): (path: string)
    ensures userId + "/" <= path
    ensures |path| == |userId| + 1 + |DecimalString(now)| + 1 + |Extension(name)|
    ensures path[|userId| + 1..|userId| + 1 + |DecimalString(now)|] == DecimalString(now)
    ensures path[|userId| + 1 + |DecimalString(now)|] == '.'
    ensures path[|path| - |Extension(name)|..] == Extension(name)
  {
    var path := userId + "/" + (DecimalString(now) + "." + Extension(name));
    assert path[..|userId| + 1] == userId + "/";
    assert path[|userId| + 1..|userId| + 1 + |DecimalString(now)|] == DecimalString(now);
    path
  }

  /**
   * Two uploads by the same user at different times never share a path,
   * whatever the file names: the timestamp is the stored name up to its first `.`.
   */
  lemma {:induction false} DistinctTimesDistinctPaths(userId: string, now1: nat, name1: string, now2: nat, name2: string)
    ensures AvatarPath(userId, now1, name1) == AvatarPath(userId, now2, name2) ==> now1 == now2
  {
    var d1, d2 := DecimalString(now1), DecimalString(now2);
    var f1, f2 := d1 + "." + Extension(name1), d2 + "." + Extension(name2);
    assert AvatarPath(userId, now1, name1)[|userId| + 1..] == f1;
    assert AvatarPath(userId, now2, name2)[|userId| + 1..] == f2;
    assert '.' !in d1 && '.' !in d2;
    StampBeforeFirstDot(d1, Extension(name1));
    StampBeforeFirstDot(d2, Extension(name2));
    DecimalRoundTrip(now1);
    DecimalRoundTrip(now2);
  }

  /** The part of `stamp.ext` before its first `.` is the `.`-free stamp. */
  lemma StampBeforeFirstDot(stamp: string, ext: string)
    requires '.' !in stamp
    ensures Split(stamp + "." + ext, '.')[0] == stamp
  {
    SplitAtSeparator(stamp, ext, '.');
    SplitPieces(stamp, '.');
  }

  /**
   * With `Extension`'s own contract this settles every name: the extension
   * is what follows the last `.`, lower-cased, and `jpg` only when nothing does.
   */
  lemma {:induction false} ExtensionAfterLastDot(stem: string, suffix: string)
    requires '.' !in suffix
    ensures Extension(stem + "." + suffix) == if suffix == "" then DEFAULT_EXTENSION else ToLower(suffix)
  {
    SplitAtSeparator(stem, suffix, '.');
    SplitPieces(suffix, '.');
    assert Split(stem + "." + suffix, '.') == Split(stem, '.') + [suffix];
  }

  /** The stored name of `photo.PNG` ends in `.png`. */
  lemma ExtensionOfPhotoPng()
    ensures Extension("photo.PNG") == "png"
  {
    ExtensionAfterLastDot("photo", "PNG");
    assert "photo" + "." + "PNG" == "photo.PNG";
    var lowered := ToLower("PNG");
    assert lowered[0] == 'p' && lowered[1] == 'n' && lowered[2] == 'g';
  }

  /** The stored path always lies under the uploader's own folder, whatever the file name. */
  lemma AvatarPathOwnedByUploader(userId: string, now: nat, name: string)
    requires '/' !in userId
    ensures Owner(AvatarPath(userId, now, name)) == userId
    ensures '/' in AvatarPath(userId, now, name)
  {
    OwnerOfJoined(userId, DecimalString(now) + "." + Extension(name));
    assert AvatarPath(userId, now, name)[|userId|] == '/';
  }

  /** Whether a run issued a storage upload. */
  predicate Uploads(calls: seq<Call>)
  {
    exists c :: c in calls && c.StorageUpload?
  }

  function Post(env: Env, cookies: map<string, string>, backend: AuthBackend, form: FormBody, now: nat, uploaded: UploadOutcome): (h: Handled)
    // unconfigured: 503 whatever else holds, and nothing reaches the backend
    ensures !IsSupabaseConfigured(env) ==> h == Handled(Response(503, Unavailable(UPLOAD_UNAVAILABLE)), [])
    // session checks come before any look at the file; an unreadable form is the catch-all 500
    ensures IsSupabaseConfigured(env) && !TokensPresent(env, cookies) ==>
      h == Handled(Response(401, Failure(UNAUTHORIZED)), [])
    ensures IsSupabaseConfigured(env) && !Authenticate(env, cookies, backend).Admit? ==> h.response.status == 401
    ensures var g := Authenticate(env, cookies, backend);
      g.Admit? && form.Form? && !AcceptableFile(form.avatar) ==>
        h == Handled(Response(400, Failure(FileProblem(form.avatar).value)), g.calls)
    ensures var g := Authenticate(env, cookies, backend);
      g.Admit? && form.Unreadable? ==> h == Handled(Response(500, Failure(INTERNAL_ERROR)), g.calls)
    // the file is stored only once every check has passed, under the constructed path, never overwriting
    ensures Uploads(h.calls) <==>
      Authenticate(env, cookies, backend).Admit? && form.Form? && AcceptableFile(form.avatar)
    ensures var g := Authenticate(env, cookies, backend);
      Uploads(h.calls) ==>
        h.calls == g.calls + [StorageUpload(AVATAR_BUCKET, AvatarPath(g.user.id, now, form.avatar.file.name),
                                            form.avatar.file.mimeType, false)]
    // the upload's outcome decides between 500 with the backend's message and 200 with the path
    ensures Uploads(h.calls) && uploaded.UploadError? ==> h.response == Response(500, Failure(uploaded.message))
    ensures Uploads(h.calls) && uploaded.UploadThrew? ==> h.response == Response(500, Failure(INTERNAL_ERROR))
    ensures h.response.status == 200 <==> Uploads(h.calls) && uploaded.UploadOk?
    ensures h.response.status == 200 ==>
      h.response.payload == Uploaded(uploaded.path, AvatarPath(Authenticate(env, cookies, backend).user.id, now, form.avatar.file.name))
    // a 500 comes only from an unreadable form or a failed upload: the "client not available" branch is dead
    ensures h.response.status == 500 ==> form.Unreadable? || (Uploads(h.calls) && !uploaded.UploadOk?)
    ensures h.response.status in {200, 400, 401, 500, 503}
  {
    if !IsSupabaseConfigured(env) then
      Handled(Response(503, Unavailable(UPLOAD_UNAVAILABLE)), [])
    else
      match Authenticate(env, cookies, backend)
      case Refuse(refused) => refused
      case Admit(user, authCalls) =>
        match form
        case Unreadable => Handled(Response(500, Failure(INTERNAL_ERROR)), authCalls)
        case Form(entry) =>
          var problem := FileProblem(entry);
          if problem.Some? then Handled(Response(400, Failure(problem.value)), authCalls)
          else
            var path := AvatarPath(user.id, now, entry.file.name);
            if ServerClient(env).None? then Handled(Response(500, Failure(CLIENT_UNAVAILABLE)), authCalls)
            else
              var calls := authCalls + [StorageUpload(AVATAR_BUCKET, path, entry.file.mimeType, false)];
              assert calls[|authCalls|] in calls;
              match uploaded
              case UploadError(message) => Handled(Response(500, Failure(message)), calls)
              case UploadThrew => Handled(Response(500, Failure(INTERNAL_ERROR)), calls)
              case UploadOk(stored) => Handled(Response(200, Uploaded(stored, path)), calls)
  }
}
