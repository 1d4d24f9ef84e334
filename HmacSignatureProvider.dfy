/**
 * The HMAC request-signing scheme. A signature is the Base64 text
 * (section 4 of RFC 4648) of the HMAC-SHA256 digest (RFC 2104 over
 * FIPS 180-4 SHA-256), keyed with the UTF-8 bytes of the secret key, of
 * the UTF-8 bytes of the canonical string: lower-cased method, lower-cased
 * (optionally scheme-stripped) URI, the request date in the RFC 1123 form
 * of section 5.2.14 of RFC 1123 (the .NET "r" format), and the body.
 */
module HmacSignatureProvider {
  import opened Wrappers
  import opened Strings
  import opened Http

  /** Name of the header carrying the caller's user id. */
  const UserIdHeader: string := "WebAPI-Security-HMAC-UserID"

  /** Authentication scheme written in, and expected of, the Authorization header. */
  const SignatureScheme: string := "WebAPI-Security-HMAC-Scheme"

  newtype byte = x: int | 0 <= x < 256

  /** An HMAC-SHA256 digest: 32 bytes. */
  type Digest = s: seq<byte> | |s| == 32 witness seq(32, _ => 0)

  /** The Base64 text of a 32-byte digest: 44 characters, padding included. */
  type Base64Digest = s: string | |s| == 44 witness seq(44, _ => 'A')

  /**
   * The library routines the signature is built from, taken as given:
   * UTF-8 encoding, HMAC-SHA256, Base64 encoding of a digest, and the "r"
   * (RFC 1123) rendering of a UTC instant counted in whole seconds.
   */
  datatype Primitives = Primitives(
    utf8: string -> seq<byte>,
    hmacSha256: (seq<byte>, seq<byte>) -> Digest,
    base64: Digest -> Base64Digest,
    formatR: int -> string)

  /** The exceptions the signing code throws, and the one its verifier throws as written. */
  datatype SignatureError =
    | MissingDate           // "Header must contain date"
    | MissingSecretKey      // "User has no secret key"
    | UserIdHeaderNotFound  // HttpHeaders.GetValues on an absent header

  /** The whole second an instant falls in: all the "r" format shows of it. */
  function WholeSeconds(t: Instant): int {
    t / TicksPerSecond
  }

  /** The URI with every "http:" and then every "https:" removed from its lower-cased form. */
  function ProtocolStripped(requestUri: string): string {
    RemoveAll(RemoveAll(ToLowerInvariant(requestUri), "http:"), "https:")
  }

  /** The string that is signed. */
  function CanonicalString(p: Primitives, httpMethod: string, requestUri: string, requestDate: Instant,
                           requestContent: string, stripProtocol: bool): string
  {
    var uri := if stripProtocol then ProtocolStripped(requestUri) else requestUri;
    ToLowerInvariant(httpMethod) + ToLowerInvariant(uri) + p.formatR(WholeSeconds(requestDate)) + requestContent
  }

  /** Base64(HMAC-SHA256(UTF8(key), UTF8(message))). */
  function HmacBase64(p: Primitives, secretKey: string, message: string): Base64Digest {
    p.base64(p.hmacSha256(p.utf8(secretKey), p.utf8(message)))
  }

  /**
   * CreateSignature over the request's parts. A null, empty or white-space
   * key is refused before anything is hashed.
   */
  function CreateSignature(p: Primitives, httpMethod: string, requestUri: string, requestDate: Instant,
                           requestContent: string, secretKey: string, stripProtocol: bool): (r: Result<string, SignatureError>)
    ensures r.Failure? <==> IsNullOrWhiteSpace(secretKey)
    ensures r.Failure? ==> r.error == MissingSecretKey
    ensures r.Success? ==> r.value == HmacBase64(p, secretKey, CanonicalString(p, httpMethod, requestUri, requestDate, requestContent, stripProtocol))
  {
    if IsNullOrWhiteSpace(secretKey) then Failure(MissingSecretKey)
    else Success(HmacBase64(p, secretKey, CanonicalString(p, httpMethod, requestUri, requestDate, requestContent, stripProtocol)))
  }

  /**
   * CreateSignature over a request: refused without a Date header; the URI
   * is lower-cased first and a request without a body signs an empty body.
   */
  function CreateRequestSignature(p: Primitives, request: Request, secretKey: string, stripProtocol: bool): (r: Result<string, SignatureError>)
    ensures request.headers.date.None? ==> r == Failure(MissingDate)
    ensures request.headers.date.Some? ==> (r.Failure? <==> IsNullOrWhiteSpace(secretKey))
    ensures request.headers.date.Some? ==>
      r == CreateSignature(p, request.httpMethod, ToLowerInvariant(request.uri), request.headers.date.value,
                           ContentOrEmpty(request.content), secretKey, stripProtocol)
    ensures r.Success? ==> |r.value| == 44
  {
    if request.headers.date.None? then Failure(MissingDate)
    else
      CreateSignature(p, request.httpMethod, ToLowerInvariant(request.uri), request.headers.date.value,
                      ContentOrEmpty(request.content), secretKey, stripProtocol)
  }

  /** The freshness test: the date plus the timeout (in seconds) lies before now. */
  predicate Expired(date: Instant, timeOutPeriod: int, now: Instant) {
    date + timeOutPeriod * TicksPerSecond < now
  }

  /**
   * HasValidSignature, with the user-id check as intended: a request whose
   * user-id header is absent, or whose first value is not `userId`, is
   * rejected; so is one without an Authorization header of this scheme
   * with a non-empty parameter, one without a Date, and one whose Date plus
   * the timeout lies before `now`. Otherwise the parameter must equal the
   * recomputed signature; a white-space key makes that recomputation throw.
   */
  function HasValidSignature(p: Primitives, request: Request, userId: string, secretKey: string,
                             timeOutPeriod: int, stripProtocol: bool, now: Instant): (r: Result<bool, SignatureError>)
    ensures r == Success(true) ==>
      && FirstHeaderValue(request.headers, UserIdHeader) == Some(userId)
      && request.headers.authorization.Some?
      && request.headers.authorization.value.scheme == SignatureScheme
      && request.headers.authorization.value.parameter != ""
      && request.headers.date.Some?
      && !Expired(request.headers.date.value, timeOutPeriod, now)
      && CreateRequestSignature(p, request, secretKey, stripProtocol) == Success(request.headers.authorization.value.parameter)
    ensures r.Failure? ==> r.error == MissingSecretKey && IsNullOrWhiteSpace(secretKey)
  {
    var h := request.headers;
    if || FirstHeaderValue(h, UserIdHeader) != Some(userId)
       || h.authorization.None?
       || h.authorization.value.scheme != SignatureScheme
       || h.authorization.value.parameter == ""
       || h.date.None?
       || Expired(h.date.value, timeOutPeriod, now)
    then Success(false)
    else
      var computed :- CreateRequestSignature(p, request, secretKey, stripProtocol);
      Success(h.authorization.value.parameter == computed)
  }

  /**
   * HasValidSignature as written: reading the user-id header's values
   * throws when the header is absent (and taking the first of no values
   * throws too), where the null test evidently meant to return false.
   */
  function HasValidSignatureAsWritten(p: Primitives, request: Request, userId: string, secretKey: string,
                                      timeOutPeriod: int, stripProtocol: bool, now: Instant): (r: Result<bool, SignatureError>)
    ensures FirstHeaderValue(request.headers, UserIdHeader).None? ==> r == Failure(UserIdHeaderNotFound)
    ensures FirstHeaderValue(request.headers, UserIdHeader).Some? ==>
      r == HasValidSignature(p, request, userId, secretKey, timeOutPeriod, stripProtocol, now)
  {
    if FirstHeaderValue(request.headers, UserIdHeader).None? then Failure(UserIdHeaderNotFound)
    else HasValidSignature(p, request, userId, secretKey, timeOutPeriod, stripProtocol, now)
  }

  /** The Date a signed request carries: the one it had, or `now`. */
  function StampedDate(date: Option<Instant>, now: Instant): Instant {
    if date.Some? then date.value else now
  }

  /**
   * The request AddSignature leaves behind when the key is usable: Date set
   * to `now` only if absent, Authorization set to the scheme and the
   * signature over the final Date, the user-id header added only if absent;
   * method, URI, body and every other header untouched.
   */
  function SignedRequest(p: Primitives, request: Request, userId: string, secretKey: string,
                         stripProtocol: bool, now: Instant): (signed: Request)
    requires !IsNullOrWhiteSpace(secretKey)
    ensures signed.httpMethod == request.httpMethod && signed.uri == request.uri && signed.content == request.content
    ensures signed.headers.date == Some(StampedDate(request.headers.date, now))
    ensures request.headers.date.Some? ==> signed.headers.date == request.headers.date
    ensures signed.headers.authorization.Some?
    ensures signed.headers.authorization.value.scheme == SignatureScheme
    ensures CreateRequestSignature(p, signed, secretKey, stripProtocol) == Success(signed.headers.authorization.value.parameter)
    ensures UserIdHeader in request.headers.values ==> signed.headers.values == request.headers.values
    ensures UserIdHeader !in request.headers.values ==> signed.headers.values == request.headers.values[UserIdHeader := [userId]]
  {
    var dated := request.(headers := request.headers.(date := Some(StampedDate(request.headers.date, now))));
    var signature := CreateRequestSignature(p, dated, secretKey, stripProtocol).value;
    var values := if UserIdHeader in request.headers.values then request.headers.values
                  else request.headers.values[UserIdHeader := [userId]];
    var signed := dated.(headers := dated.headers.(authorization := Some(AuthenticationHeaderValue(SignatureScheme, signature)),
                                                   values := values));
    RequestSignatureIgnoresAuthAndValues(p, dated, signed, secretKey, stripProtocol);
    signed
  }

  /**
   * AddSignature: stamps the request in place and returns it. With a
   * white-space key the Date has already been stamped when the signing
   * throws, and nothing else changes.
   */
  method AddSignature(p: Primitives, request: HttpRequestMessage, userId: string, secretKey: string,
                      stripProtocol: bool, now: Instant) returns (result: Result<HttpRequestMessage, SignatureError>)
    modifies request
    ensures IsNullOrWhiteSpace(secretKey) ==>
      && result == Failure(MissingSecretKey)
      && request.headers == old(request.headers).(date := Some(StampedDate(old(request.headers.date), now)))
    ensures !IsNullOrWhiteSpace(secretKey) ==>
      && result == Success(request)
      && request.Snapshot() == SignedRequest(p, old(request.Snapshot()), userId, secretKey, stripProtocol, now)
  {
    if request.headers.date.None? {
      request.headers := request.headers.(date := Some(now));
    }
    var signature := CreateRequestSignature(p, request.Snapshot(), secretKey, stripProtocol);
    if signature.Failure? {
      return Failure(signature.error);
    }
    request.headers := request.headers.(authorization := Some(AuthenticationHeaderValue(SignatureScheme, signature.value)));
    if UserIdHeader !in request.headers.values {
      request.headers := request.headers.(values := request.headers.values[UserIdHeader := [userId]]);
    }
    result := Success(request);
  }

  // ---------------------------------------------------------------------
  // What the signature depends on

  /** Only the method, the lower-cased URI, the body text and the Date enter a
      request's signature: Authorization and the other headers do not. */
  lemma RequestSignatureIgnoresAuthAndValues(p: Primitives, a: Request, b: Request, secretKey: string, stripProtocol: bool)
    requires a.httpMethod == b.httpMethod
    requires ToLowerInvariant(a.uri) == ToLowerInvariant(b.uri)
    requires ContentOrEmpty(a.content) == ContentOrEmpty(b.content)
    requires a.headers.date == b.headers.date
    ensures CreateRequestSignature(p, a, secretKey, stripProtocol) == CreateRequestSignature(p, b, secretKey, stripProtocol)
  {
  }

  /** A request without a body signs exactly like one with an empty body. */
  lemma NoBodySignsAsEmptyBody(p: Primitives, request: Request, secretKey: string, stripProtocol: bool)
    requires request.content.None?
    ensures CreateRequestSignature(p, request, secretKey, stripProtocol) ==
            CreateRequestSignature(p, request.(content := Some("")), secretKey, stripProtocol)
  {
  }

  /** The URI is lower-cased before signing: URIs differing only in letter case sign alike. */
  lemma RequestSignatureIgnoresUriCase(p: Primitives, request: Request, uri: string, secretKey: string, stripProtocol: bool)
    requires ToLowerInvariant(uri) == ToLowerInvariant(request.uri)
    ensures CreateRequestSignature(p, request.(uri := uri), secretKey, stripProtocol) ==
            CreateRequestSignature(p, request, secretKey, stripProtocol)
  {
  }

  /** The Date enters only through its whole second: instants within the same
      second give the same signature. */
  lemma SameSecondSameSignature(p: Primitives, httpMethod: string, requestUri: string, d1: Instant, d2: Instant,
                                requestContent: string, secretKey: string, stripProtocol: bool)
    requires d1 / TicksPerSecond == d2 / TicksPerSecond
    ensures CreateSignature(p, httpMethod, requestUri, d1, requestContent, secretKey, stripProtocol) ==
            CreateSignature(p, httpMethod, requestUri, d2, requestContent, secretKey, stripProtocol)
  {
  }

  /** Removing "http:" then "https:" maps an "http:" URI and its "https:" twin to the same text. */
  lemma StrippedSchemesAgree(rest: string)
    ensures RemoveAll(RemoveAll("http:" + rest, "http:"), "https:") == RemoveAll(RemoveAll("https:" + rest, "http:"), "https:")
  {
    var x := RemoveAll(rest, "http:");
    RemoveAllLeading("http:", rest);
    var s := "https:" + rest;
    assert s[..5] != "http:" by { assert s[4] == 's'; }
    assert s[1..] == "ttps:" + rest;
    assert RemoveAll(s, "http:") == ['h'] + RemoveAll("ttps:" + rest, "http:");
    RemoveAllKeepsPrefix("ttps:", rest, "http:");
    assert RemoveAll(s, "http:") == "https:" + x;
    RemoveAllLeading("https:", x);
  }

  /**
   * With protocol stripping, a URI starting "http:" and the same URI
   * starting "https:" (in any letter case) give the same signature.
   */
  lemma StripProtocolIgnoresScheme(p: Primitives, httpMethod: string, httpUri: string, httpsUri: string,
                                   rest: string, requestDate: Instant, requestContent: string, secretKey: string)
    requires ToLowerInvariant(httpUri) == "http:" + rest
    requires ToLowerInvariant(httpsUri) == "https:" + rest
    ensures CreateSignature(p, httpMethod, httpUri, requestDate, requestContent, secretKey, true) ==
            CreateSignature(p, httpMethod, httpsUri, requestDate, requestContent, secretKey, true)
  {
    StrippedSchemesAgree(rest);
    assert ProtocolStripped(httpUri) == ProtocolStripped(httpsUri);
  }

  /**
   * Without protocol stripping the scheme is part of what is signed: an
   * "http:" URI and its "https:" twin give different canonical strings.
   */
  lemma SchemeSignedWithoutStripping(p: Primitives, httpMethod: string, rest: string,
                                     requestDate: Instant, requestContent: string)
    ensures CanonicalString(p, httpMethod, "http:" + rest, requestDate, requestContent, false) !=
            CanonicalString(p, httpMethod, "https:" + rest, requestDate, requestContent, false)
  {
    var m := ToLowerInvariant(httpMethod);
    var a := CanonicalString(p, httpMethod, "http:" + rest, requestDate, requestContent, false);
    var b := CanonicalString(p, httpMethod, "https:" + rest, requestDate, requestContent, false);
    var ua := ToLowerInvariant("http:" + rest);
    var ub := ToLowerInvariant("https:" + rest);
    assert ua[4] == ':' && ub[4] == 's';
    assert a == m + (ua + p.formatR(WholeSeconds(requestDate)) + requestContent);
    assert b == m + (ub + p.formatR(WholeSeconds(requestDate)) + requestContent);
    assert a[|m| + 4] == ':';
    assert b[|m| + 4] == 's';
  }

  // ---------------------------------------------------------------------
  // Verification

  /** Each guard alone rejects the request, before any signature is computed. */
  lemma GuardsReject(p: Primitives, request: Request, userId: string, secretKey: string,
                     timeOutPeriod: int, stripProtocol: bool, now: Instant)
    ensures FirstHeaderValue(request.headers, UserIdHeader) != Some(userId) ==>
      HasValidSignature(p, request, userId, secretKey, timeOutPeriod, stripProtocol, now) == Success(false)
    ensures request.headers.authorization.None? ==>
      HasValidSignature(p, request, userId, secretKey, timeOutPeriod, stripProtocol, now) == Success(false)
    ensures request.headers.authorization.Some? && request.headers.authorization.value.scheme != SignatureScheme ==>
      HasValidSignature(p, request, userId, secretKey, timeOutPeriod, stripProtocol, now) == Success(false)
    ensures request.headers.authorization.Some? && request.headers.authorization.value.parameter == "" ==>
      HasValidSignature(p, request, userId, secretKey, timeOutPeriod, stripProtocol, now) == Success(false)
    ensures request.headers.date.None? ==>
      HasValidSignature(p, request, userId, secretKey, timeOutPeriod, stripProtocol, now) == Success(false)
    ensures request.headers.date.Some? && Expired(request.headers.date.value, timeOutPeriod, now) ==>
      HasValidSignature(p, request, userId, secretKey, timeOutPeriod, stripProtocol, now) == Success(false)
  {
  }

  /**
   * When every guard passes and the key is usable, the request is accepted
   * exactly when its Authorization parameter equals the recomputed signature.
   */
  lemma GuardsPassComparesSignature(p: Primitives, request: Request, userId: string, secretKey: string,
                                    timeOutPeriod: int, stripProtocol: bool, now: Instant)
    requires FirstHeaderValue(request.headers, UserIdHeader) == Some(userId)
    requires request.headers.authorization.Some?
    requires request.headers.authorization.value.scheme == SignatureScheme
    requires request.headers.authorization.value.parameter != ""
    requires request.headers.date.Some?
    requires !Expired(request.headers.date.value, timeOutPeriod, now)
    requires !IsNullOrWhiteSpace(secretKey)
    ensures HasValidSignature(p, request, userId, secretKey, timeOutPeriod, stripProtocol, now) ==
      Success(CreateRequestSignature(p, request, secretKey, stripProtocol) == Success(request.headers.authorization.value.parameter))
  {
  }

  /**
   * When every guard passes but the key is white space, the recomputation
   * of the signature throws: verification fails with the missing-key error.
   */
  lemma GuardsPassWhiteSpaceKeyThrows(p: Primitives, request: Request, userId: string, secretKey: string,
                                      timeOutPeriod: int, stripProtocol: bool, now: Instant)
    requires FirstHeaderValue(request.headers, UserIdHeader) == Some(userId)
    requires request.headers.authorization.Some?
    requires request.headers.authorization.value.scheme == SignatureScheme
    requires request.headers.authorization.value.parameter != ""
    requires request.headers.date.Some?
    requires !Expired(request.headers.date.value, timeOutPeriod, now)
    requires IsNullOrWhiteSpace(secretKey)
    ensures HasValidSignature(p, request, userId, secretKey, timeOutPeriod, stripProtocol, now) == Failure(MissingSecretKey)
  {
  }

  /**
   * The freshness window is one-sided: a request dated at or after `now`
   * is never expired for a non-negative timeout.
   */
  lemma FutureDatedIsFresh(date: Instant, timeOutPeriod: int, now: Instant)
    requires now <= date
    requires 0 <= timeOutPeriod
    ensures !Expired(date, timeOutPeriod, now)
  {
  }

  /**
   * Sign then verify: a request signed by `userId` with `secretKey` is
   * accepted for that user and key as long as its Date is still fresh,
   * provided it did not already carry a different user id.
   */
  lemma SignThenVerify(p: Primitives, request: Request, userId: string, secretKey: string,
                       stripProtocol: bool, signedAt: Instant, timeOutPeriod: int, verifiedAt: Instant)
    requires !IsNullOrWhiteSpace(secretKey)
    requires UserIdHeader in request.headers.values ==> FirstHeaderValue(request.headers, UserIdHeader) == Some(userId)
    requires !Expired(StampedDate(request.headers.date, signedAt), timeOutPeriod, verifiedAt)
    ensures HasValidSignature(p, SignedRequest(p, request, userId, secretKey, stripProtocol, signedAt),
                              userId, secretKey, timeOutPeriod, stripProtocol, verifiedAt) == Success(true)
  {
    var signed := SignedRequest(p, request, userId, secretKey, stripProtocol, signedAt);
    assert FirstHeaderValue(signed.headers, UserIdHeader) == Some(userId);
    assert |signed.headers.authorization.value.parameter| == 44;
    GuardsPassComparesSignature(p, signed, userId, secretKey, timeOutPeriod, stripProtocol, verifiedAt);
  }

  /** Signed at `now` with a fresh Date, the request verifies at once for any non-negative timeout. */
  lemma SignThenVerifyAtOnce(p: Primitives, request: Request, userId: string, secretKey: string,
                             stripProtocol: bool, now: Instant, timeOutPeriod: int)
    requires !IsNullOrWhiteSpace(secretKey)
    requires request.headers.date.None?
    requires UserIdHeader !in request.headers.values
    requires 0 <= timeOutPeriod
    ensures HasValidSignature(p, SignedRequest(p, request, userId, secretKey, stripProtocol, now),
                              userId, secretKey, timeOutPeriod, stripProtocol, now) == Success(true)
  {
    SignThenVerify(p, request, userId, secretKey, stripProtocol, now, timeOutPeriod, now);
  }

  /** A signed request whose (kept) Date has gone stale is rejected. */
  lemma StaleSignedRequestRejected(p: Primitives, request: Request, userId: string, secretKey: string,
                                   stripProtocol: bool, signedAt: Instant, timeOutPeriod: int, verifiedAt: Instant)
    requires !IsNullOrWhiteSpace(secretKey)
    requires Expired(StampedDate(request.headers.date, signedAt), timeOutPeriod, verifiedAt)
    ensures HasValidSignature(p, SignedRequest(p, request, userId, secretKey, stripProtocol, signedAt),
                              userId, secretKey, timeOutPeriod, stripProtocol, verifiedAt) == Success(false)
  {
  }

  /** A request dated eleven minutes before signing fails verification with a 600-second timeout. */
  lemma ElevenMinutesOldRejected(p: Primitives, request: Request, userId: string, secretKey: string,
                                 stripProtocol: bool, signedAt: Instant, verifiedAt: Instant)
    requires !IsNullOrWhiteSpace(secretKey)
    requires request.headers.date == Some(signedAt - 11 * 60 * TicksPerSecond)
    requires signedAt <= verifiedAt
    ensures HasValidSignature(p, SignedRequest(p, request, userId, secretKey, stripProtocol, signedAt),
                              userId, secretKey, 600, stripProtocol, verifiedAt) == Success(false)
  {
    StaleSignedRequestRejected(p, request, userId, secretKey, stripProtocol, signedAt, 600, verifiedAt);
  }

  /** A request signed for one user does not verify for another. */
  lemma OtherUserRejected(p: Primitives, request: Request, userId: string, otherUserId: string, secretKey: string,
                          stripProtocol: bool, signedAt: Instant, timeOutPeriod: int, verifiedAt: Instant)
    requires !IsNullOrWhiteSpace(secretKey)
    requires UserIdHeader !in request.headers.values
    requires otherUserId != userId
    ensures HasValidSignature(p, SignedRequest(p, request, userId, secretKey, stripProtocol, signedAt),
                              otherUserId, secretKey, timeOutPeriod, stripProtocol, verifiedAt) == Success(false)
  {
    var signed := SignedRequest(p, request, userId, secretKey, stripProtocol, signedAt);
    assert FirstHeaderValue(signed.headers, UserIdHeader) == Some(userId);
  }

  /**
   * As written, a request without the user-id header makes verification
   * throw, where the intended verifier rejects it.
   */
  lemma MissingUserIdHeaderThrowsAsWritten(p: Primitives, request: Request, userId: string, secretKey: string,
                                           timeOutPeriod: int, stripProtocol: bool, now: Instant)
    requires UserIdHeader !in request.headers.values
    ensures HasValidSignatureAsWritten(p, request, userId, secretKey, timeOutPeriod, stripProtocol, now) == Failure(UserIdHeaderNotFound)
    ensures HasValidSignature(p, request, userId, secretKey, timeOutPeriod, stripProtocol, now) == Success(false)
  {
  }
}
