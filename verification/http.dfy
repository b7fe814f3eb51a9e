/**
 * Basic credentials of a request (v1/http.go): an `Authorization: Basic
 * <base64>` header, or else the base64 text of the `auth` query value,
 * decoding to `key:secret`.
 */
module BasicAuth {
  import opened Wrappers
  import opened Errors
  import opened Text
  import opened Requests
  import opened Percent

  /**
   * The standard base64 codec (section 4 of RFC 4648) is not part of this
   * model; it is passed in as a pair of functions.
   */
  datatype Base64 = Base64(encode: string -> string, decode: string -> Option<string>)

  /** The characters of the standard base64 alphabet, padding included. */
  predicate InAlphabet(c: char)
  {
    'A' <= c <= 'Z' || 'a' <= c <= 'z' || '0' <= c <= '9' || c == '+' || c == '/' || c == '='
  }

  /**
   * What the model assumes of the codec on byte strings, which is what Go's
   * base64 encodes: decoding undoes encoding, the encoding uses only
   * alphabet characters, and only the empty text encodes to nothing.
   */
  ghost predicate Lawful(b: Base64)
  {
    forall x: Octets {:trigger b.encode(x)} ::
      b.decode(b.encode(x)) == Some(x) &&
      (x != [] ==> b.encode(x) != []) &&
      (forall i :: 0 <= i < |b.encode(x)| ==> InAlphabet(b.encode(x)[i]))
  }

  /**
   * A codec that meets `Lawful`, so the hypothesis can be met: each octet
   * as two upper-case hexadecimal digits, all of them base64 alphabet
   * characters. It is not the base64 encoding itself.
   */
  function HexEncode(s: string): string
    decreases |s|
  {
    if s == [] then []
    else (if s[0] < 256 as char then HexPair(s[0]) else []) + HexEncode(s[1..])
  }

  /** One octet as two upper-case hexadecimal digits. */
  function HexPair(c: Octet): (p: string)
    ensures |p| == 2 && InAlphabet(p[0]) && InAlphabet(p[1])
  {
    [HexDigit(c as nat / 16), HexDigit(c as nat % 16)]
  }

  /** Reads pairs of hexadecimal digits back as octets. */
  function HexDecode(s: string): Option<string>
    decreases |s|
  {
    if s == [] then Some([])
    else if |s| < 2 || HexValue(s[0]).None? || HexValue(s[1]).None? then None
    else
      match HexDecode(s[2..])
      case None => None
      case Some(t) => Some([(HexValue(s[0]).value * 16 + HexValue(s[1]).value) as char] + t)
  }

  /** The digits of one octet, in front of any text, decode back to that octet. */
  lemma HexPairDecode(c: Octet, rest: string)
    ensures HexDecode(HexPair(c) + rest) ==
      match HexDecode(rest)
      case None => None
      case Some(t) => Some([c] + t)
  {
  }

  /** The hexadecimal encoding is in the base64 alphabet. */
  lemma {:induction false} HexAlphabet(x: string)
    ensures forall i :: 0 <= i < |HexEncode(x)| ==> InAlphabet(HexEncode(x)[i])
    decreases |x|
  {
    if x != [] {
      HexAlphabet(x[1..]);
    }
  }

  /** The hexadecimal codec reads back every byte string, in alphabet characters. */
  lemma {:induction false} HexRoundTrip(x: Octets)
    ensures HexDecode(HexEncode(x)) == Some(x)
    ensures x != [] ==> HexEncode(x) != []
    ensures forall i :: 0 <= i < |HexEncode(x)| ==> InAlphabet(HexEncode(x)[i])
    decreases |x|
  {
    HexAlphabet(x);
    if x != [] {
      var rest := HexEncode(x[1..]);
      HexRoundTrip(x[1..]);
      assert HexEncode(x) == HexPair(x[0]) + rest;
      HexPairDecode(x[0], rest);
      assert [x[0]] + x[1..] == x;
    }
  }

  /** The hexadecimal codec is lawful. */
  lemma LawfulWitness()
    ensures Lawful(Base64(HexEncode, HexDecode))
  {
    var b := Base64(HexEncode, HexDecode);
    forall x: Octets
      ensures b.decode(b.encode(x)) == Some(x) && (x != [] ==> b.encode(x) != []) &&
        (forall i :: 0 <= i < |b.encode(x)| ==> InAlphabet(b.encode(x)[i]))
    {
      HexRoundTrip(x);
    }
  }

  /**
   * BasicAuthCredentialFromAuthorizationData: the data must decode and the
   * decoded text must hold exactly one `:`, which separates key and secret.
   */
  function FromAuthorizationData(b: Base64, auth: string): (r: Result<(string, string), Error>)
    ensures r.Success? <==> b.decode(auth).Some? && Count(b.decode(auth).value, ':') == 1
    ensures r.Failure? ==> r.error == MalformedRequest
    ensures r.Success? ==>
      b.decode(auth).value == r.value.0 + ":" + r.value.1 &&
      ':' !in r.value.0 && ':' !in r.value.1
  {
    match b.decode(auth)
    case None => Failure(MalformedRequest)
    case Some(decoded) =>
      var parts := Split(decoded, ':');
      SplitParts(decoded, ':');
      if |parts| != 2 then Failure(MalformedRequest)
      else
        assert Join(parts, [':']) == parts[0] + [':'] + Join(parts[1..], [':']);
        Success((parts[0], parts[1]))
  }

  /**
   * BasicAuthCredentialFromAuthorization: the header must be exactly two
   * white-space separated fields, the first of them "basic" in any case.
   */
  function FromAuthorization(b: Base64, auth: string): (r: Result<(string, string), Error>)
    ensures |Fields(auth)| != 2 ==> r == Failure(MalformedRequest)
    ensures |Fields(auth)| == 2 && ToLower(Fields(auth)[0]) != "basic" ==> r == Failure(UnsupportedMethod)
    ensures |Fields(auth)| == 2 && ToLower(Fields(auth)[0]) == "basic" ==>
      r == FromAuthorizationData(b, Fields(auth)[1])
  {
    var header := Fields(auth);
    if |header| != 2 then Failure(MalformedRequest)
    else if ToLower(header[0]) != "basic" then Failure(UnsupportedMethod)
    else FromAuthorizationData(b, header[1])
  }

  /**
   * BasicAuthCredential: a non-empty Authorization header is used alone;
   * otherwise a non-empty `auth` query value is read as the data; with
   * neither, there is no authorization.
   */
  function Credential(b: Base64, req: Request): (r: Result<(string, string), Error>)
    ensures req.authHeader != "" ==> r == FromAuthorization(b, req.authHeader)
    ensures req.authHeader == "" && req.authQuery != "" ==> r == FromAuthorizationData(b, req.authQuery)
    ensures req.authHeader == "" && req.authQuery == "" ==> r == Failure(NoAuthorization)
    ensures r.Failure? ==> r.error in {MalformedRequest, UnsupportedMethod, NoAuthorization}
  {
    if req.authHeader != "" then FromAuthorization(b, req.authHeader)
    else if req.authQuery != "" then FromAuthorizationData(b, req.authQuery)
    else Failure(NoAuthorization)
  }

  /** With a header present, the query value is never looked at. */
  lemma HeaderPrecedence(b: Base64, req: Request, query: string)
    requires req.authHeader != ""
    ensures Credential(b, req) == Credential(b, req.(authQuery := query))
  {
  }

  /**
   * Encoded `key:secret` data decodes back to the key and the secret when
   * neither contains a `:`.
   */
  lemma DataRoundTrip(b: Base64, key: Octets, secret: Octets)
    requires Lawful(b)
    requires ':' !in key && ':' !in secret
    ensures FromAuthorizationData(b, b.encode(key + ":" + secret)) == Success((key, secret))
  {
    var text: Octets := key + [':'] + secret;
    assert b.decode(b.encode(text)) == Some(text);
    SplitAppend(key, secret, ':');
    SplitNone(key, ':');
    SplitNone(secret, ':');
  }

  /**
   * A header made of a scheme spelling "basic" in any case, white space and
   * the encoded `key:secret` yields the key and the secret.
   */
  lemma HeaderRoundTrip(b: Base64, scheme: string, key: Octets, secret: Octets)
    requires Lawful(b)
    requires ':' !in key && ':' !in secret
    requires ToLower(scheme) == "basic"
    ensures FromAuthorization(b, scheme + " " + b.encode(key + ":" + secret)) == Success((key, secret))
  {
    var text: Octets := key + [':'] + secret;
    var data := b.encode(text);
    assert data != [];
    assert NoSpace(data);
    assert NoSpace(scheme) by {
      forall j | 0 <= j < |scheme|
        ensures !IsSpace(scheme[j])
      {
        assert LowerChar(scheme[j]) == "basic"[j];
      }
    }
    assert scheme + " " + data == scheme + ([' '] + data);
    WordField(scheme, [' '] + data);
    assert ([' '] + data)[1..] == data;
    assert data + [] == data;
    WordField(data, []);
    DataRoundTrip(b, key, secret);
  }
}
