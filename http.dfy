/**
 * The parts of `net/http` the handlers read and write: a request's
 * `Authorization` header and cookies, and the fields of a cookie being set.
 */
module Http {
  /** The parts of an HTTP request the handlers read. */
  datatype Request = Request(
    authorization: string,          // the first `Authorization` header value, "" when absent
    cookies: map<string, string>)   // cookie values by name

  /** The fields of an `http.Cookie` being set. */
  datatype Cookie = Cookie(path: string, name: string, value: string, expires: int, httpOnly: bool, secure: bool)
}
