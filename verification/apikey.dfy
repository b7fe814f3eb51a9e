/** The API-key credential provider (v1/provider/apikey/apikey.go). */
module ApiKey {
  import opened Wrappers
  import opened Errors
  import opened Requests
  import opened Authorizations
  import opened BasicAuth
  import opened Resolution

  /**
   * The outcome of DataSource.AuthorizationForKeyAndSecret: a record, the
   * store's not-found error, or any other error.
   */
  datatype Lookup = Found(auth: Authorization) | NotFound | LookupFailed(err: Error)

  /** The datastore is not part of this model; it is passed in as a function. */
  type DataSource = (string, string) -> Lookup

  /** The provider's translation of credential errors. */
  function CredentialError(e: Error): (r: Error)
    ensures e == NoAuthorization ==> r == Unauthorized
    ensures e == UnsupportedMethod ==> r == Unauthorized
    ensures e == MalformedRequest ==> r == Malformed
    ensures e !in {NoAuthorization, UnsupportedMethod, MalformedRequest} ==> r == e
  {
    if e == NoAuthorization || e == UnsupportedMethod then Unauthorized
    else if e == MalformedRequest then Malformed
    else e
  }

  /**
   * APIKeyProvider.Validate: None grants the request. Credential errors are
   * translated, an unknown credential is unauthorized, an inactive one is
   * forbidden, and an active one is decided by its policies.
   */
  function Validate(b: Base64, src: DataSource, req: Request): (r: Option<Error>)
    ensures Credential(b, req).Failure? ==> r == Some(CredentialError(Credential(b, req).error))
    ensures Credential(b, req).Success? ==>
      var (key, secret) := Credential(b, req).value;
      (src(key, secret) == NotFound ==> r == Some(Unauthorized)) &&
      (src(key, secret).LookupFailed? ==> r == Some(src(key, secret).err)) &&
      (src(key, secret).Found? && !src(key, secret).auth.active ==> r == Some(Forbidden))
  {
    match Credential(b, req)
    case Failure(e) => Some(CredentialError(e))
    case Success((key, secret)) =>
      match src(key, secret)
      case NotFound => Some(Unauthorized)
      case LookupFailed(err) => Some(err)
      case Found(a) =>
        if !a.active then Some(Forbidden) else Resolve(a.policies, req)
  }

  /** An active credential is decided by the shared policy loop alone. */
  lemma ReducesToResolve(b: Base64, src: DataSource, req: Request)
    requires Credential(b, req).Success?
    requires src(Credential(b, req).value.0, Credential(b, req).value.1).Found?
    requires src(Credential(b, req).value.0, Credential(b, req).value.1).auth.active
    ensures Validate(b, src, req) ==
      Resolve(src(Credential(b, req).value.0, Credential(b, req).value.1).auth.policies, req)
  {
  }

  /**
   * A request is granted only with a well-formed credential that the store
   * knows, that is active, and that has an allowing policy preceded only by
   * passing ones.
   */
  lemma GrantedIff(b: Base64, src: DataSource, req: Request)
    ensures Validate(b, src, req).None? <==>
      Credential(b, req).Success? &&
      var (key, secret) := Credential(b, req).value;
      src(key, secret).Found? && src(key, secret).auth.active &&
      exists i :: AllowedAt(src(key, secret).auth.policies, i, req)
  {
    var c := Credential(b, req);
    if c.Success? {
      var (key, secret) := c.value;
      if src(key, secret).Found? && src(key, secret).auth.active {
        AllowedIff(src(key, secret).auth.policies, req);
      }
    }
  }

  /** A request without any credential is unauthorized, whatever the store holds. */
  lemma NoCredentialUnauthorized(b: Base64, src: DataSource, req: Request)
    requires req.authHeader == "" && req.authQuery == ""
    ensures Validate(b, src, req) == Some(Unauthorized)
  {
  }
}
