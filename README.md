# HMAC request signing for ASP.NET Web API — a Dafny model

This project models the request-signing core of WebApi-HMAC:

- `HmacSignatureProvider` (module `HmacSignatureProvider`): the canonical
  string (lower-cased method, lower-cased URI with the `http:`/`https:`
  scheme text optionally removed, the Date in the RFC 1123 `"r"` form, the
  body), the signature Base64(HMAC-SHA256(UTF8(key), UTF8(canonical))),
  `AddSignature`, which stamps Date, `Authorization: <scheme> <signature>`
  (section 4.2 of RFC 7235) and the user-id header onto a request in place,
  and `HasValidSignature`, its guards, its one-sided freshness window and
  its final comparison. The header name `WebAPI-Security-HMAC-UserID` and
  the scheme `WebAPI-Security-HMAC-Scheme` are the constants `UserIdHeader`
  and `SignatureScheme`.
- `HmacWebConfigAuthenticationAttribute` (module `AuthenticationAttributes`):
  the `IsHmacEnabled` and `TimeOutPeriod` getters, which read the
  application settings once and cache the answer in nullable fields.
- `WebConfigSecretProvider` (module `WebConfigSecretProvider`): the secret
  lookup with `""` as default and the comma-separated protocol-strip list.

Supporting modules: `Strings` (invariant lower-casing, white-space test,
`Replace(x, "")`, `Split` and `Join`), `Int32Parsing` (`Int32.TryParse`),
`Http` (the request: method, URI, body, typed Date and Authorization
headers and a map from header name to values; a class whose headers are
changed in place), `WebConfig` (the configuration as maps) and `Wrappers`
(`Option`, and `Result` for thrown exceptions).

HMAC-SHA256, UTF-8 encoding, Base64 and the `"r"` date format are library
routines; the model takes them as a `Primitives` record of functions, with
only their output sizes fixed (a 32-byte digest, 44 characters of Base64).
Every property below holds for every choice of those functions. Clock
readings (`DateTimeOffset.UtcNow`, `DateTime.Now`) are parameters; instants
are UTC times counted in .NET ticks of 100 ns, so the sub-second part that
the `"r"` format drops is visible in the model.

Behaviour of the code worth noting:
- a white-space-only key is refused, not only an empty one;
- `HasValidSignature` can throw: when every guard passes but the key is
  white space (the recomputation refuses it), and, as written, when the
  user-id header is absent (see Findings);
- an unlisted user and a user configured with an empty key both get `""`;
- an unparseable timeout setting gives 0, not the default 600.

## Model

| member | source | states |
|---|---|---|
| `HmacSignatureProvider.CreateSignature` | Security/HmacSignatureProvider.cs:58-76 | Fails with the missing-key error exactly when the key is empty or white space; otherwise the signature is Base64(HMAC(UTF8(key), UTF8(canonical string))) |
| `HmacSignatureProvider.CreateRequestSignature` | Security/HmacSignatureProvider.cs:34-46 | Fails with the missing-date error when there is no Date header; with a Date it is the string-overload signature over the method, the lower-cased URI, the Date and the body (`""` when there is none), failing exactly for an unusable key; a signature is 44 characters |
| `HmacSignatureProvider.RequestSignatureIgnoresAuthAndValues` | Security/HmacSignatureProvider.cs:39-45 | Two requests that agree on method, lower-cased URI, body text and Date sign alike, whatever their Authorization and other headers |
| `HmacSignatureProvider.NoBodySignsAsEmptyBody` | Security/HmacSignatureProvider.cs:42 | A request with no body signs exactly like one with an empty body |
| `HmacSignatureProvider.RequestSignatureIgnoresUriCase` | Security/HmacSignatureProvider.cs:40 | URIs that differ only in letter case give the same request signature |
| `HmacSignatureProvider.SameSecondSameSignature` | Security/HmacSignatureProvider.cs:68 | Dates within the same whole second give the same signature |
| `HmacSignatureProvider.StrippedSchemesAgree` | Security/HmacSignatureProvider.cs:65 | Removing every `http:` then every `https:` maps `http:`+rest and `https:`+rest to the same text |
| `HmacSignatureProvider.StripProtocolIgnoresScheme` | Security/HmacSignatureProvider.cs:63-68 | With stripping on, a URI starting `http:` and its `https:` twin (any letter case) sign identically |
| `HmacSignatureProvider.SchemeSignedWithoutStripping` | Security/HmacSignatureProvider.cs:63-68 | With stripping off, the `http:` and `https:` forms of a URI give different canonical strings |
| `HmacSignatureProvider.HasValidSignature` | Security/HmacSignatureProvider.cs:112-128 | Accepts only if the first user-id value is the user, Authorization has this scheme and a non-empty parameter, Date is present and not expired, and the parameter equals the recomputed signature; throws only for an unusable key |
| `HmacSignatureProvider.GuardsReject` | Security/HmacSignatureProvider.cs:114-122 | Each guard alone (wrong or missing user id, missing or foreign Authorization, empty parameter, no Date, Date + timeout before now) gives false |
| `HmacSignatureProvider.GuardsPassComparesSignature` | Security/HmacSignatureProvider.cs:124-127 | When all guards pass and the key is usable, the answer is exactly whether the parameter equals the recomputed signature |
| `HmacSignatureProvider.GuardsPassWhiteSpaceKeyThrows` | Security/HmacSignatureProvider.cs:124-125 | When every guard passes but the key is white space, verification throws the missing-key error instead of answering |
| `HmacSignatureProvider.FutureDatedIsFresh` | Security/HmacSignatureProvider.cs:121 | The window is one-sided: a Date at or after now is never expired for a non-negative timeout |
| `HmacSignatureProvider.SignedRequest` | Security/HmacSignatureProvider.cs:86-101 | After signing: Date kept if present else now; Authorization is the scheme with the signature of the signed request itself; user-id header added only if absent; method, URI, body and other headers unchanged |
| `HmacSignatureProvider.AddSignature` | Security/HmacSignatureProvider.cs:86-101 | Updates the request in place to the signed request and returns it; with an unusable key only the Date has been stamped when it throws |
| `HmacSignatureProvider.SignThenVerify` | Security.UnitTests/HmacUnitTests.cs:23-33 | A request signed for a user and key verifies for them while its Date is fresh, unless it already carried another user id |
| `HmacSignatureProvider.SignThenVerifyAtOnce` | Security.UnitTests/HmacUnitTests.cs:23-33 | A fresh request signed and verified at the same instant is accepted for any non-negative timeout |
| `HmacSignatureProvider.StaleSignedRequestRejected` | Security/HmacSignatureProvider.cs:88-121 | A signed request whose kept Date plus the timeout lies before the verification time is rejected |
| `HmacSignatureProvider.ElevenMinutesOldRejected` | Security.UnitTests/HmacUnitTests.cs:35-47 | A request dated 11 minutes before signing fails verification with timeout 600 |
| `HmacSignatureProvider.OtherUserRejected` | Security/HmacSignatureProvider.cs:114-116 | A request signed for one user is rejected when verified for another |
| `HmacSignatureProvider.HasValidSignatureAsWritten` | Security/HmacSignatureProvider.cs:114-116 | As written: throws when the user-id header is absent or empty, otherwise agrees with the corrected verifier |
| `HmacSignatureProvider.MissingUserIdHeaderThrowsAsWritten` | Security/HmacSignatureProvider.cs:114-116 | Without the user-id header, the code as written throws while the intended verifier returns false |
| `Http.FirstHeaderValue` | Security/HmacSignatureProvider.cs:116 | The first value of a header, absent exactly when the header is missing or has no values |
| `Http.ContentOrEmpty` | Security/HmacSignatureProvider.cs:42 | The body text, `""` when there is no body |
| `Strings.ToLowerInvariant` | Security/HmacSignatureProvider.cs:68 | Same length as the input, each character lower-cased |
| `Strings.LowerIdempotent` | Security/HmacSignatureProvider.cs:40 | Lower-casing twice (request overload, then string overload) is lower-casing once |
| `Strings.RemoveAllAbsent` | Security/HmacSignatureProvider.cs:65 | `Replace(pattern, "")` returns a string without the pattern unchanged |
| `Strings.RemoveAllLeading` | Security/HmacSignatureProvider.cs:65 | A leading occurrence of the pattern is dropped and the scan resumes right after it |
| `Strings.RemoveAllKeepsPrefix` | Security/HmacSignatureProvider.cs:65 | A prefix none of whose characters is the pattern's first character is kept whole, and the scan continues on the rest |
| `Strings.Split` | Security.Server/SecretKeyProviders/WebConfigSecretProvider.cs:40 | The parts are non-empty in number, contain no separator, and join back to the input |
| `Strings.SplitJoin` | Security.Server/SecretKeyProviders/WebConfigSecretProvider.cs:40 | Splitting the join of separator-free parts gives the parts back |
| `Int32Parsing.ParsedTextHasDigit` | Security.Server/AuthenticationAttributes/HmacWebConfigAuthenticationAttribute.cs:63 | A text that parses contains a decimal digit |
| `Int32Parsing.Int32TryParse` | Security.Server/AuthenticationAttributes/HmacWebConfigAuthenticationAttribute.cs:63 | Succeeds exactly when the text parses, with the parsed value; the out value is 0 on failure |
| `Int32Parsing.NatDigits` | Security.Server/AuthenticationAttributes/HmacWebConfigAuthenticationAttribute.cs:63 | The decimal digits of a number, non-empty, whose value is the number |
| `Int32Parsing.ParseFormatted` | Security.Server/AuthenticationAttributes/HmacWebConfigAuthenticationAttribute.cs:63 | Every int's decimal text, negative ones included, parses back to it |
| `AuthenticationAttributes.LowersToFalse` | Security.Server/AuthenticationAttributes/HmacWebConfigAuthenticationAttribute.cs:28 | A value lower-cases to `"false"` exactly when it is `"false"` in some letter case |
| `AuthenticationAttributes.EnabledUnlessFalse` | Security.Server/AuthenticationAttributes/HmacWebConfigAuthenticationAttribute.cs:27-35 | Authentication is off exactly when `HmacSecurityEnabled` is present and is `"false"` in some letter case |
| `AuthenticationAttributes.EnabledFlagSamples` | Security.Server/AuthenticationAttributes/HmacWebConfigAuthenticationAttribute.cs:27-35 | `"FALSE"` and `"False"` disable; a missing key, `"0"`, `"no"` and `"false "` leave authentication on |
| `AuthenticationAttributes.TimeOutCases` | Security.Server/AuthenticationAttributes/HmacWebConfigAuthenticationAttribute.cs:60-65 | 600 without the setting; the parsed value when it parses; 0 when it does not |
| `AuthenticationAttributes.ConfiguredTimeOut` | Security.Server/AuthenticationAttributes/HmacWebConfigAuthenticationAttribute.cs:63 | Any int written as the setting, zero or negative included, is the timeout |
| `AuthenticationAttributes.DigitlessTimeOutIsZero` | Security.Server/AuthenticationAttributes/HmacWebConfigAuthenticationAttribute.cs:63 | A setting without digits gives 0, not the default 600 |
| `AuthenticationAttributes.HmacWebConfigAuthenticationAttribute.constructor` | Security.Server/AuthenticationAttributes/HmacWebConfigAuthenticationAttribute.cs:18-19 | Both caches start empty |
| `AuthenticationAttributes.HmacWebConfigAuthenticationAttribute.IsHmacEnabled` | Security.Server/AuthenticationAttributes/HmacWebConfigAuthenticationAttribute.cs:21-39 | The first read computes the flag from the settings and caches it; later reads return the cache whatever the settings are |
| `AuthenticationAttributes.HmacWebConfigAuthenticationAttribute.TimeOutPeriod` | Security.Server/AuthenticationAttributes/HmacWebConfigAuthenticationAttribute.cs:54-69 | The first read computes the timeout from the settings and caches it; later reads return the cache whatever the settings are |
| `WebConfigSecretProvider.GetSignatureSecretKeyInSection` | Security.Server/SecretKeyProviders/WebConfigSecretProvider.cs:22-33 | A listed user gets its configured key, an unlisted one `""` |
| `WebConfigSecretProvider.GetSignatureSecretKey` | Security.Server/SecretKeyProviders/WebConfigSecretProvider.cs:15-20 | The same lookup in the `ApiSecretKeys` section |
| `WebConfigSecretProvider.UnlistedLooksLikeEmptyKey` | Security.Server/SecretKeyProviders/WebConfigSecretProvider.cs:24-32 | An unlisted user cannot be told apart from one configured with an empty key |
| `WebConfigSecretProvider.GetProtocolStripList` | Security.Server/SecretKeyProviders/WebConfigSecretProvider.cs:36-43 | Empty exactly when the setting is missing or empty; otherwise comma-free entries that join back to the setting |
| `WebConfigSecretProvider.StripListRoundTrip` | Security.Server/SecretKeyProviders/WebConfigSecretProvider.cs:38-40 | Comma-free entries joined into the setting are read back unchanged |

## Findings

| source | as written | input that shows it | evidently intended | confidence | as-written member | corrected member |
|---|---|---|---|---|---|---|
| Security/HmacSignatureProvider.cs:114-116 | The guard tests `GetValues(UserIDHeader) == null` (twice), but `HttpHeaders.GetValues` throws `InvalidOperationException` for an absent header, so the test never sees null and verification throws | any request without the `WebAPI-Security-HMAC-UserID` header | `HasValidSignature` returns false | not executed; follows from the documented behaviour of `GetValues` | `HmacSignatureProvider.MissingUserIdHeaderThrowsAsWritten` | `HmacSignatureProvider.HasValidSignature` |

## Left out

- HMAC-SHA256, UTF-8, Base64 and the `"r"` format are taken as given functions; nothing is claimed about collisions, so "a wrong key is rejected" and "any change to a field changes the signature" are not stated.
- The clock: `DateTimeOffset.UtcNow` and `DateTime.Now` are parameters; instants are UTC ticks, so `ToUniversalTime` and date offsets are not modelled, nor the out-of-range exception of `AddSeconds`.
- Letter case: lower-casing maps only A-Z; non-ASCII case mappings and culture-dependent `ToLower` are not modelled.
- Header names are matched exactly, not case-insensitively; header-value validation by `Headers.Add` is not modelled; a null Authorization parameter is the empty string.
- The body is an already buffered string; the asynchronous `ReadAsStringAsync().Result` read is not modelled.
- Strings are never null; a null key behaves as an empty one.
- The string comparison of signatures is plain equality; timing behaviour is outside a functional model.
- Configuration sections are maps with exact-match keys; `NameValueCollection`'s case-insensitive lookup and multi-valued keys are not modelled, and a missing secret-key section (a null-reference crash) is excluded by a precondition.
- `Int32.TryParse` is modelled with the invariant culture's signs and white space; culture-specific signs and trailing NUL characters are not modelled.
- The lazy caches are modelled for one thread; concurrent first reads are not.
- The `SecretProvider` and `SignatureProvider` getters (HmacWebConfigAuthenticationAttribute.cs:41-52) only construct objects and are not modelled.
- `HmacBaseAuthenticationAttribute` (the per-request decision and challenge), `AuthenticationFailureResult`, `HmacHelper` (random key generation) and the two interfaces are not part of this model.
