/** What the route handlers read from a request and what they answer: JSON body
    fields as JavaScript sees them, request headers, and the JSON response. */
module Http {
  import opened Outcomes

  /** A field of the parsed JSON body: missing (`undefined`), a string, or any other
      JSON value, of which only its truthiness matters to the handlers. */
  datatype Value = Absent | Str(s: string) | Other(truthy: bool)

  /** JavaScript truthiness: `!v` is false exactly for these values. */
  predicate Truthy(v: Value) {
    match v
    case Absent => false
    case Str(s) => |s| > 0
    case Other(t) => t
  }

  /** `a || b` for a string that may be `null` or `undefined` (a header read with
      `headers.get`, an optional setting): the empty string counts as missing too. */
  function OrElse(header: Option<string>, fallback: string): (r: string)
    ensures header.Some? && header.value != "" ==> r == header.value
    ensures header.None? || header.value == "" ==> r == fallback
  {
    if header.Some? && header.value != "" then header.value else fallback
  }

  /** Results of the identity provider's `verifyOtp`: an error message, or the user and
      session it returns (opaque to the handlers). */
  datatype AuthResult = AuthError(message: string) | AuthOk(user: string, session: string)

  /** The JSON bodies the handlers answer with. */
  datatype Body =
    | ErrorBody(error: string)
    | MessageBody(message: string)
    | VerifiedBody(message: string, session: string)
    | UserSessionBody(user: string, session: string)

  datatype Response = Response(status: nat, body: Body)

  function Error(status: nat, message: string): Response {
    Response(status, ErrorBody(message))
  }
}
