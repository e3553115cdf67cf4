# User-profile API handlers: a verified Dafny model

This project models the decision logic of a small set of HTTP endpoints that sit in front of a
backend-as-a-service (Supabase):

- avatar upload (`POST /api/avatar/upload`);
- avatar delete (`POST /api/avatar/delete`);
- avatar URL resolution (`GET /api/avatar/url`);
- profile update (`POST /api/profile`).

It also models the two utilities the handlers depend on:

- the configuration resolver, with its placeholder defaults and cookie names;
- the session resolver `getUser`, which collapses every failure to "absent".

Every handler is a pure function. Whatever the remote backend would decide is an input:

- the session user;
- the profile lookup;
- the outcome of upload, remove, createSignedUrl, getPublicUrl and upsert;
- the clock.

Each handler returns a `Handled` value: the HTTP response (status and JSON shape) and the ordered
list of SDK calls the run issued. Recording the calls lets the contracts state, for example, that
no storage call is made before validation passes. They can also state the exact arguments each
call carries: bucket `avatars`, `upsert: false`, and expiry 3600.

The configuration comes from an `Env` value that holds the four environment variables. Each
handler derives the configured flag and the server client from it, as the source's module-level
constants do. So the `!supabase` branches the source keeps inside its handlers are modelled, and
proved unreachable.

Modules, one per source file, plus shared pieces:

- `Js` (`js.dfy`): truthiness, destructuring, `split`, `toLowerCase`, and `${n}` for integers.
- `Backend` (`backend.dfy`): SDK calls as values, and the outcome types.
- `Http` (`http.dfy`): responses and payload shapes.
- `Config` (`config.dfy`): the configuration resolver.
- `SupabaseServer` (`supabase_server.dfy`): the server client and `getUser`.
- `AuthGuard` (`auth_guard.dfy`): the cookie, token and session prologue that every authenticated
  handler repeats.
- `AvatarPaths` (`avatar_paths.dfy`): path format and ownership.
- `AvatarUpload`, `AvatarDelete`, `AvatarUrl`, `ProfileApi`: the four handlers.
- `AvatarLifecycle` (`avatar_lifecycle.dfy`): how upload, delete and URL resolution agree on
  paths.

The stored extension is `name.split('.').pop()`, lowercased, `|| 'jpg'`. The fallback `jpg`
applies only when the last `.`-segment is empty (for example `photo.`). A name without `.` keeps
its whole name as the extension, so a file named `avatar` is stored as `<id>/<time>.avatar`.
`Extension` and `ExtensionAfterLastDot` state this behaviour.

## Model

| member | source | states |
|---|---|---|
| `Js.Field` | src/pages/api/profile.ts:24-25 | Destructuring throws exactly on `null`/`undefined`. An object yields its property, or `undefined` when the property is missing. |
| `Js.ToLower` | src/pages/api/avatar/upload.ts:79 | Lowercasing keeps the length and lowercases each character in place (ASCII letters only). |
| `Js.Split` | src/pages/api/avatar/delete.ts:54 | `split` always returns at least one piece. |
| `Js.SplitPieces` | src/pages/api/avatar/upload.ts:79 | No piece contains the separator. A string without the separator is one piece, the whole string. A string with one gives at least two pieces. |
| `Js.SplitFirstPiece` | src/pages/api/avatar/delete.ts:54 | The first piece is a separator-free prefix of the string. When the string has a separator, the first piece ends right before it. |
| `Js.SplitJoin` | src/pages/api/avatar/upload.ts:79 | Joining the pieces of a split with the separator gives back the original string. |
| `Js.SplitAtSeparator` | src/pages/api/avatar/delete.ts:54 | Splitting `x + sep + y` gives the pieces of `x` followed by the pieces of `y`. |
| `Js.JoinSplit` | src/pages/api/avatar/upload.ts:79 | Splitting separator-free pieces joined by the separator gives back those pieces, so split and join are mutual inverses. |
| `Js.DecimalString` | src/pages/api/avatar/upload.ts:80 | The rendered timestamp is a non-empty string of decimal digits. It has a leading zero only for 0. |
| `Js.DecimalRoundTrip` | src/pages/api/avatar/upload.ts:80 | Reading the rendered timestamp back gives the timestamp, so distinct timestamps give distinct file names. |
| `Config.SupabaseUrl` | src/utils/config.ts:3 | The URL is the environment value when that value is set and non-empty. Otherwise it is the placeholder. It is never empty. |
| `Config.SupabaseAnonKey` | src/utils/config.ts:4 | The key is the environment value when that value is set and non-empty. Otherwise it is the placeholder. It is never empty. |
| `Config.CookiePrefix` | src/utils/config.ts:5 | The prefix is the environment value when that value is set and non-empty. Otherwise it is `supabase`. |
| `Config.IsSupabaseConfigured` | src/utils/config.ts:13-18 | Configured if and only if neither resolved URL nor resolved key is its placeholder. When configured, the resolved URL and key are exactly the environment values. |
| `Config.CookieNamesNeverCollide` | src/utils/config.ts:9-10 | The access-token cookie name differs from the refresh-token cookie name, whatever the two prefixes are. |
| `Config.CookieNamesDeterminePrefix` | src/utils/config.ts:9-10 | Each cookie name determines its prefix: equal names come from equal prefixes. |
| `Config.AppMailRedirects` | src/utils/config.ts:7 | The redirect URL is the environment value when that value is set and non-empty. Otherwise it is `http://localhost:3000`. It is never empty. |
| `Config.AccessTokenName` | src/utils/config.ts:9 | The name is the prefix followed by `-access-token`, so the prefix can be read back from its front. |
| `Config.RefreshTokenName` | src/utils/config.ts:10 | The name is the prefix followed by `-refresh-token`, so the prefix can be read back from its front. |
| `SupabaseServer.ServerClient` | src/utils/supabaseServer.ts:6-8 | The client exists if and only if the backend is configured. It points at the environment URL and key and does not persist sessions. |
| `SupabaseServer.GetUser` | src/utils/supabaseServer.ts:10-59 | No backend call is made unless the backend is configured and both tokens are present. A record is returned if and only if that holds, the session has a user, and the profile lookup succeeds or fails with `PGRST116`. Any other failure gives absent. `id`, `email` and `phone` always come from the auth user. Profile fields are absent when there is no row. The session is set from exactly the two tokens, and only that user's row is read. |
| `AuthGuard.Cookie` | src/pages/api/avatar/upload.ts:17-18 | A cookie's value is present if and only if the request carries a cookie of that name, and it is that cookie's value. |
| `AuthGuard.Authenticate` | src/pages/api/avatar/upload.ts:17-33 | A missing or empty token gives 401 "Unauthorized" with no backend call. With both tokens, a refusal is 401 "Invalid session" carrying exactly the calls `getUser` made, and admission carries those same calls. The caller is admitted if and only if `getUser` would return a record. An admitted caller implies the backend is configured, and the caller's id is the session user's. Only session calls are made. |
| `AvatarPaths.WellFormedPath` | src/pages/api/avatar/delete.ts:46 | A path passes the format check if and only if it has at most 500 characters and its `split('/')` has at least two segments. |
| `AvatarPaths.Owner` | src/pages/api/avatar/delete.ts:54-55 | The owner segment is the longest prefix with no `/`. In a path that has a `/`, the owner segment is followed by it. |
| `AvatarPaths.OwnerOfJoined` | src/pages/api/avatar/delete.ts:54-55 | For a `/`-free `owner`, the path `owner/rest` has owner `owner`. |
| `AvatarUpload.FileProblem` | src/pages/api/avatar/upload.ts:38-77 | A file is accepted if and only if it is a file of size 1 to 5 MiB, with an allowed MIME type and a name of 1 to 255 characters. A disallowed type is refused whatever the size. A missing entry or an empty text entry is "no file". A non-empty text entry or an empty file is "invalid". A non-empty file of disallowed type is "invalid type". An allowed file over 5 MiB is "too large". A file that passes size and type but has an empty name, or one over 255 characters, is "invalid filename". |
| `AvatarUpload.SizeLimitBoundary` | src/pages/api/avatar/upload.ts:62-69 | Exactly 5·1024·1024 bytes passes. One byte more is refused as too large. |
| `AvatarUpload.Extension` | src/pages/api/avatar/upload.ts:79 | The extension is never empty. An empty name gives `jpg`. A name without `.` gives the whole name, lowercased. |
| `AvatarUpload.ExtensionAfterLastDot` | src/pages/api/avatar/upload.ts:79 | The extension is the text after the last `.`, lowercased. It is `jpg` only when that text is empty. |
| `AvatarUpload.ExtensionOfPhotoPng` | src/pages/api/avatar/upload.ts:79-81 | `photo.PNG` is stored with extension `png`. |
| `AvatarUpload.AvatarPath` | src/pages/api/avatar/upload.ts:80-81 | The stored path starts with the uploader's id and a `/`. Then comes the timestamp's decimal numeral, then a `.`, and the path ends with the extension: it is `id/time.ext`. |
| `AvatarUpload.DistinctTimesDistinctPaths` | src/pages/api/avatar/upload.ts:80-81 | Two uploads by the same user at different times get different paths, whatever the file names. |
| `AvatarUpload.AvatarPathOwnedByUploader` | src/pages/api/avatar/upload.ts:79-81 | For an uploader id without `/`, the stored path contains a `/` and its first segment is the uploader's id, whatever the file name. |
| `AvatarUpload.Post` | src/pages/api/avatar/upload.ts:4-125 | Unconfigured gives 503 with no call. Token and session failures give 401 before the file is looked at. For a signed-in caller, an unreadable form gives the catch-all 500. Each file problem gives 400 with its message. The upload is issued if and only if every check passed, with path `id/time.ext`, the file's type and `upsert: false`. An upload error gives 500 with the backend's message, and a thrown upload gives 500 "Internal server error". Success gives 200 with the constructed `fullPath`. A 500 comes only from an unreadable form or a failed upload. |
| `AvatarDelete.PathArgument` | src/pages/api/avatar/delete.ts:35-43 | The path is accepted if and only if `avatarPath` is a non-empty string. |
| `AvatarDelete.Post` | src/pages/api/avatar/delete.ts:4-92 | Unconfigured gives 200 with the skip message and no call. Missing tokens or session give 401. For a signed-in caller, a body that does not parse or destructure gives the catch-all 500. A bad argument or format gives 400. A foreign owner gives 403 with no removal. The removal is issued if and only if every check passed, and it carries exactly `[avatarPath]`. The answer is then 200 `success: true`, unless the removal throws, which gives 500 "Internal server error". |
| `AvatarDelete.RemoveErrorSwallowed` | src/pages/api/avatar/delete.ts:69-83 | A removal that returns an error gives the same run as a successful one. |
| `AvatarUrl.Get` | src/pages/api/avatar/url.ts:4-101 | A missing, empty or malformed path gives 400 with no call, even when unconfigured. A valid path while unconfigured gives 503. A signed URL with expiry 3600 is requested first. If that call throws, the answer is 500 "Internal server error" and nothing else is called. A usable signed URL gives 200 `signed` and the public URL is never consulted. Otherwise a non-empty public URL gives 200 `public`. Otherwise the answer is 500 with `hasPublicUrl` false and the path echoed. It takes no cookie or session input. |
| `ProfileApi.Post` | src/pages/api/profile.ts:4-73 | Missing tokens or session give 401. Unconfigured gives 401 with no call at all. For a signed-in caller, a body that does not parse or destructure gives the catch-all 500. An invalid username gives 400, checked before the website. An invalid website gives 400. The upsert is issued if and only if every check passed. Its row has the caller's id, the three fields as sent and the given timestamp. An upsert error gives 500 with its message, and a thrown upsert gives 500 "Internal server error". Success gives 200 with the returned data. |
| `ProfileApi.InvalidText` | src/pages/api/profile.ts:28 | A missing or `null` field is never invalid. A string is invalid if and only if it is longer than the limit. Any other value is invalid if and only if it is truthy. |
| `ProfileApi.UsernameLengthBoundary` | src/pages/api/profile.ts:28-33 | A 51-character username is refused with 400. A 50-character one reaches the upsert. |
| `AvatarLifecycle.OwnerCanDeleteUploadedAvatar` | src/pages/api/avatar/delete.ts:45-83 | An uploader whose id has no `/` can delete a path that upload built (within 500 characters). The removal is issued for exactly that path, and the answer is success unless the removal throws. |
| `AvatarLifecycle.OthersCannotDeleteUploadedAvatar` | src/pages/api/avatar/delete.ts:53-60 | For an owner id without `/`, any other signed-in user trying to delete the owner's uploaded path gets 403, and nothing is removed. |
| `AvatarLifecycle.UploadedAvatarHasUrl` | src/pages/api/avatar/url.ts:15-47 | The URL handler accepts every path that upload built (within 500 characters) and requests a signed URL for it. |

## Left out

- src/utils/supabaseBrowser.ts is not part of this model. It only constructs a client behind the same configured flag that `Config.IsSupabaseConfigured` models.
- The SDK's own behaviour is not modelled: `setSession`, `getSession`, the storage calls and the table calls. Their results are parameters, and the calls are recorded as values.
- An exception thrown inside an SDK call during `getUser` is not separate from "the session has no user". Both collapse to absent, as in the source.
- Cookie parsing, `request.formData()` and `request.json()` parsing, and the reading of the `path` query parameter are plumbing. Each appears only as its result. A body that cannot be parsed leads to the catch-all 500.
- `file.arrayBuffer()` is not modelled: the file's bytes are not modelled, only its name, type and size. A failure while reading the bytes would reach the catch-all 500.
- A storage or table call that throws (`upload`, `remove`, `createSignedUrl`, `upsert`) is an outcome of its own that leads to the catch-all 500. `getPublicUrl` only builds a URL and is not modelled as throwing.
- User ids are not assumed `/`-free. The backend's ids are UUIDs, which have no `/`, but the model does not encode that. So the ownership results `AvatarUpload.AvatarPathOwnedByUploader`, `AvatarLifecycle.OwnerCanDeleteUploadedAvatar` and `AvatarLifecycle.OthersCannotDeleteUploadedAvatar` require a `/`-free id. For an id with a `/`, the first segment of the path is only part of the id: the owner would get 403 and another user could remove the file.
- The server client is one module-level value shared by all requests. `getUser` calls `setSession` with this request's tokens, ignores its result, and then reads the session back with `getSession`. The model assumes that the session read back belongs to this request's tokens: `AuthBackend.session` is that user. This assumption fails in two ways. First, another request's `setSession` may run between the two calls. Second, a failed `setSession` may leave a session from an earlier request in place, if the SDK does not clear it. In either case `getSession` could return another caller's user, and the delete handler would check ownership against that user's id. Whether a failed `setSession` clears the stored session is SDK behaviour, which is not part of this model.
- JSON serialisation of responses and the `Content-Type` header are not modelled; payloads are datatypes.
- `Date.now()` is a `nat` parameter and `new Date().toISOString()` is a string parameter.
- Logging (`console.log`/`console.error`) is left out: it has no effect on results.
- `async`/`await` sequencing is left out: the handlers run their calls one after another, so the model is straight-line.
- `appMailRedirects` is modelled (`Config.AppMailRedirects`) but nothing in the core reads it.
- Js.ToLower: lowercases ASCII `A`–`Z` only, not JavaScript's full Unicode case mapping.
- String lengths are lengths of `seq<char>`. JavaScript's `.length` counts UTF-16 code units, so the limits of 255, 500, 50 and 200 are compared against character counts.
- JSON numbers are `real`s. `NaN` cannot come out of `JSON.parse` and is not represented.
- Js.DecimalString: renders a non-negative integer in decimal. It does not model JavaScript's exponent notation for numbers of 10^21 and above, which `Date.now()` does not reach.
