/** Values shared by both controllers: optional values and the shape of a handler's reply. */
module Http {

  /** An instant, as a number of time units since a fixed origin. */
  type Timestamp = nat

  /** A value that may be absent, as SQL NULL or a JavaScript `undefined`. */
  datatype Option<+T> = None | Some(value: T)

  /** What a controller hands to Express: either a JSON body carrying the HTTP status, the
      `success` flag, an optional `message` and the handler's own payload, or a file download
      sent with `res.send` under a content type and an attachment file name. */
  datatype Response<P> =
    | Json(status: nat, success: bool, message: Option<string>, payload: P)
    | Download(status: nat, contentType: string, filename: string, body: string)
}
