/** The signed bearer-token credential provider (v1/provider/bearer/bearer.go). */
module Bearer {
  import opened Wrappers
  import opened Errors
  import opened Text
  import opened Requests
  import opened Policies
  import opened Resolution
  import BasicAuth
  import ApiKey

  /** The scheme name and the separator between signature and payload. */
  const MethodBearer := "Bearer"
  const Sep := '$'

  /**
   * The outcome of crypto.VerifyMessage: the decoded policies, the
   * signature-not-valid error, or any other verification or decoding error.
   */
  datatype Verification = Verified(policies: seq<ResourcePolicy>) | SignatureNotValid | VerifyFailed(err: Error)

  /**
   * Signature checking is not part of this model; it is passed in as a
   * function of the key, the signature and the payload.
   */
  type Verifier = (string, string, string) -> Verification

  /** BearerProvider: the verification key, never changed. */
  datatype BearerProvider = BearerProvider(key: string)

  /**
   * The header's scheme and token: the text around the first space, which
   * must not be the first character.
   */
  function SplitScheme(header: string): (r: Option<(string, string)>)
    ensures r.Some? <==> IndexOf(header, ' ') > 0
    ensures r.Some? ==> r.value.0 != "" && ' ' !in r.value.0 && header == r.value.0 + " " + r.value.1
  {
    var x := IndexOf(header, ' ');
    if x > 0 then
      assert header == header[..x] + " " + header[x + 1..];
      Some((header[..x], header[x + 1..]))
    else None
  }

  /** strings.SplitN(token, "$", 2): the signature before the first `$` and the payload after it. */
  function SplitToken(token: string): (r: Option<(string, string)>)
    ensures r.Some? <==> Sep in token
    ensures r.Some? ==> Sep !in r.value.0 && token == r.value.0 + [Sep] + r.value.1
  {
    var x := IndexOf(token, Sep);
    if x < 0 then None
    else
      assert token == token[..x] + [Sep] + token[x + 1..];
      Some((token[..x], token[x + 1..]))
  }

  /**
   * BearerProvider.Validate: None grants the request. The header must be
   * "Bearer <signature>$<payload>" with the scheme in any case; the payload
   * must verify under the key, and the policies it carries decide.
   */
  function Validate(p: BearerProvider, verify: Verifier, req: Request): (r: Option<Error>)
    ensures req.authHeader == "" ==> r == Some(Unauthorized)
    ensures req.authHeader != "" && IndexOf(req.authHeader, ' ') <= 0 ==> r == Some(Malformed)
    ensures var h := SplitScheme(req.authHeader);
      req.authHeader != "" && h.Some? && !EqualFold(h.value.0, MethodBearer) ==> r == Some(Unsupported)
    ensures var h := SplitScheme(req.authHeader);
      req.authHeader != "" && h.Some? && EqualFold(h.value.0, MethodBearer) && SplitToken(h.value.1).None? ==>
        r == Some(Malformed)
    ensures r.Some? ==> r.value in {Unauthorized, Malformed, Unsupported, Forbidden, InvalidPolicyEffect, MethodNotSupported}
  {
    if req.authHeader == "" then Some(Unauthorized)
    else match SplitScheme(req.authHeader)
      case None => Some(Malformed)
      case Some((scheme, token)) =>
        if !EqualFold(scheme, MethodBearer) then Some(Unsupported)
        else match SplitToken(token)
          case None => Some(Malformed)
          case Some((signature, payload)) =>
            match verify(p.key, signature, payload)
            case SignatureNotValid => Some(Unauthorized)
            case VerifyFailed(_) => Some(Malformed)
            case Verified(ps) => Resolve(ps, req)
  }

  /**
   * A well-formed header reaches the verifier with exactly its signature and
   * payload, and from there the outcome is fixed by the verification: an
   * invalid signature is unauthorized, any other failure malformed, and
   * verified policies are decided by the shared loop, exactly as the API-key
   * provider decides them.
   */
  lemma WellFormedHeader(p: BearerProvider, verify: Verifier, req: Request,
                         scheme: string, signature: string, payload: string)
    requires scheme != "" && ' ' !in scheme && EqualFold(scheme, MethodBearer)
    requires Sep !in signature
    requires req.authHeader == scheme + " " + signature + [Sep] + payload
    ensures verify(p.key, signature, payload) == SignatureNotValid ==> Validate(p, verify, req) == Some(Unauthorized)
    ensures verify(p.key, signature, payload).VerifyFailed? ==> Validate(p, verify, req) == Some(Malformed)
    ensures verify(p.key, signature, payload).Verified? ==>
      Validate(p, verify, req) == Resolve(verify(p.key, signature, payload).policies, req)
  {
    var h := req.authHeader;
    var token := signature + [Sep] + payload;
    assert h == scheme + [' '] + token;
    assert h[|scheme|] == ' ' && h[..|scheme|] == scheme && h[|scheme| + 1..] == token;
    IndexOfAt(h, ' ', |scheme|);
    assert token[|signature|] == Sep && token[..|signature|] == signature && token[|signature| + 1..] == payload;
    IndexOfAt(token, Sep, |signature|);
  }

  /**
   * Given the same policies, a bearer token and an API key reach the same
   * decision on requests with the same verb and path.
   */
  lemma AgreesWithApiKey(p: BearerProvider, verify: Verifier, req: Request,
                         b: BasicAuth.Base64, src: ApiKey.DataSource, req2: Request,
                         scheme: string, signature: string, payload: string)
    requires scheme != "" && ' ' !in scheme && EqualFold(scheme, MethodBearer)
    requires Sep !in signature
    requires req.authHeader == scheme + " " + signature + [Sep] + payload
    requires verify(p.key, signature, payload).Verified?
    requires BasicAuth.Credential(b, req2).Success?
    requires var (key, secret) := BasicAuth.Credential(b, req2).value;
      src(key, secret).Found? && src(key, secret).auth.active &&
      src(key, secret).auth.policies == verify(p.key, signature, payload).policies
    requires req2.verb == req.verb && req2.path == req.path
    ensures Validate(p, verify, req) == ApiKey.Validate(b, src, req2)
  {
    WellFormedHeader(p, verify, req, scheme, signature, payload);
    ApiKey.ReducesToResolve(b, src, req2);
    SameRequestLine(verify(p.key, signature, payload).policies, req, req2);
  }
}
