/** The JSON responses the handlers return, and what each handler run amounts to. */
module Http {
  import opened Js
  import opened Backend

  const UNAUTHORIZED := "Unauthorized"
  const INVALID_SESSION := "Invalid session"
  const INTERNAL_ERROR := "Internal server error"
  const CLIENT_UNAVAILABLE := "Supabase client not available"

  datatype UrlKind = SignedUrl | PublicUrl

  /** The body of a response, one variant per JSON shape the handlers emit. */
  datatype Payload =
      /** `{ error }` */
    | Failure(error: string)
      /** `{ error, configured: false }` */
    | Unavailable(error: string)
      /** `{ success: true }`, with an optional `message` */
    | Done(message: Option<string>)
      /** `{ success: true, path, fullPath }` */
    | Uploaded(path: string, fullPath: string)
      /** `{ success: true, url, type }` */
    | UrlFound(url: string, kind: UrlKind)
      /** `{ error, details: { signedError, hasPublicUrl, avatarPath } }` */
    | UrlMissing(signedError: Option<string>, hasPublicUrl: bool, avatarPath: string)
      /** `{ success: true, data }` */
    | Saved(data: JsValue)

  datatype Response = Response(status: int, payload: Payload)

  /** A handler run: the response it returns and the backend calls it issued, in order. */
  datatype Handled = Handled(response: Response, calls: seq<Call>)
}
