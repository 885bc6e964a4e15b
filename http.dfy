/** What every serverless handler shares: the status codes it answers with, the
    authenticated principal decoded from the session cookie, and request headers. */
module Http {
  import opened Common

  /** The non-200 answers of the handlers. */
  datatype Status =
    | BadRequest        // 400: a missing or malformed field
    | Unauthorized      // 401: no valid session, or wrong credentials at login
    | Forbidden         // 403: a valid session without the admin role
    | NotFound          // 404: the referenced record or user does not exist
    | MethodNotAllowed  // 405: the wrong HTTP verb
    | TooManyRequests   // 429: login lockout
    | InternalError     // 500: an exception inside the handler's try block

  /** A handler's answer: 200 with a body, or an error status. */
  datatype Result<+T> = Ok(value: T) | Err(status: Status)

  /** The decoded session token. The role is whatever the token carries; tokens that
      this login issues carry none. */
  datatype Principal = Principal(id: string, username: string, role: Option<string>)

  predicate IsAdmin(p: Principal) {
    p.role == Some("admin")
  }

  /** `!user || user.role !== 'admin'` fails exactly when this holds. */
  predicate IsAdminCaller(user: Option<Principal>): (b: bool)
    ensures b <==> user.Some? && user.value.role == Some("admin")
  {
    user.Some? && IsAdmin(user.value)
  }

  type Headers = map<string, string>

  function Header(h: Headers, name: string): Option<string> {
    if name in h then Some(h[name]) else None
  }

  /** `event.headers['client-ip'] || event.headers['x-forwarded-for'] || 'unknown'`:
      the first truthy header in that order, else `'unknown'`. Never empty. */
  function ClientIp(h: Headers): (ip: string)
    ensures ip != ""
    ensures Truthy(Header(h, "client-ip")) ==> ip == h["client-ip"]
    ensures !Truthy(Header(h, "client-ip")) && Truthy(Header(h, "x-forwarded-for")) ==>
              ip == h["x-forwarded-for"]
    ensures !Truthy(Header(h, "client-ip")) && !Truthy(Header(h, "x-forwarded-for")) ==>
              ip == "unknown"
  {
    if Truthy(Header(h, "client-ip")) then h["client-ip"]
    else if Truthy(Header(h, "x-forwarded-for")) then h["x-forwarded-for"]
    else "unknown"
  }
}
