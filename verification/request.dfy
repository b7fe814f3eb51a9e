/**
 * The parts of an HTTP request the access-control code reads: the verb, the
 * URL path, the Authorization header and the `auth` query value (each "" when
 * absent, as Go's Header.Get and Query().Get return).
 */
module Requests {

  datatype Request = Request(
    verb: string,
    path: string,
    authHeader: string,
    authQuery: string)
}
