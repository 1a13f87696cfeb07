# Authentication decision layer of my_activities, in Dafny

This project models how the my_activities web service decides who may see what:

- **Path classification.** The authentication middleware classifies each request path as public or secured. `PathMatcher` percent-encodes the path and each configured pattern, and rewrites each encoded `*` into the regex `.*`. It then searches for the compiled patterns anywhere in the encoded path. In exclusion mode a path is secured when no pattern occurs in it. In inclusion mode it is secured when some pattern occurs.
- **Request interception.** On a secured path, the middleware asks an auth provider for the user. It attaches an `AuthToken` and passes the request on, or refuses the request.
- **Session identity.** The session-backed provider reads `"user"` and then an optional expiry `"ttl"` from the session. It purges an expired session. `UserSession` writes those two keys.
- **Token extraction.** The `AuthToken` extractor reads the user from the session. When there is none, it answers `NotAuthenticatedError`.
- **User lookup.** The user directory looks up users by e-mail address after lower-casing and trimming it.
- **TOTP enrolment.** `get_qrcode` keeps a pending secret in the session. `set_totp_secret` checks a code against that secret before it saves the secret with the user's credentials.

Modules, one per file:

- `Wrappers`: Option and Result.
- `UrlEncoding`: the `urlencoding` crate's encoder, sections 2.1 and 2.3 of RFC 3986.
- `RegexSubset`: the regex language the transform produces (literal characters, `.` and `.*`), with an unanchored search and a declarative reference semantics.
- `PathMatching`: auth_lib/src/middleware.rs, the matcher.
- `AuthMiddleware`: auth_lib/src/middleware.rs, `call`.
- `JsonText`: `serde_json` string literals.
- `Sessions`: the actix session handle.
- `SessionAuth`: actix-auth-middleware/src/session/session_auth.rs.
- `AuthLib`: auth_lib/src/lib.rs.
- `Domain`: src/domain/user.rs.
- `UserService`: src/service/user_service.rs.
- `MfaController`: src/controller/mfa_controller.rs.

The files come from different stages of the repository's history. Each is modelled as it is written. For example, the auth provider of lib.rs has no receiver, while the middleware calls it through `self`. The middleware refers to an `UnauthorizedError`, which is not part of this model; a refusal is modelled as the `Unauthorized` outcome.

Two behaviours of the matcher are kept as written, and are stated as lemmas because they are easy to miss:

- The search is unanchored. `PathMatcher::default()` is documented as leaving public the paths *starting* with `/login` or `/register`. In fact it also leaves public `/api/users/login` (`PathMatching.DefaultIsUnanchored`). Given the list that src/app_factory.rs:48 passes, `["/api/login/*", "/api/test", "/web/index.html"]`, auth_lib's `PathMatcher` leaves public every path that contains `/api/test` anywhere, `/api/testing` among them (`PathMatching.AppPrefixIsPublic`).
- A `.` in a pattern survives the encoding and matches any one character. So given the same list, auth_lib's matcher leaves public any path containing `/web/index`, then any one unreserved character, then `html` is public. `/web/index_html` is one such path (`PathMatching.AppDotIsWildcard`).

The matcher compares the *transformed* path (encoded, then `%2A` rewritten) against the patterns, not merely the encoded path. The model follows the code here.

## Model

| member | source | states |
|---|---|---|
| UrlEncoding.Utf8 | auth_lib/src/middleware.rs:65 | The bytes the encoder works on: one byte equal to the code point exactly for ASCII; otherwise 2-4 bytes, all at least 0x80. |
| UrlEncoding.HexDigit | auth_lib/src/middleware.rs:65 | Hex digits of `%XX` are unreserved and never `.`. |
| UrlEncoding.EncodeByteShape | auth_lib/src/middleware.rs:65 | `encode` keeps a byte as its own single character exactly when it is unreserved; any other byte becomes `%` plus two characters. |
| UrlEncoding.EncodedAlphabet | auth_lib/src/middleware.rs:65 | `encode` writes 1 to 3 characters per byte, all unreserved or `%`. |
| UrlEncoding.DecodeEncode | auth_lib/src/middleware.rs:65 | Percent-decoding the encoding gives back exactly the input bytes. |
| UrlEncoding.EncodeRoundTrip | auth_lib/src/middleware.rs:65 | Percent-decoding `encode(s)` gives back the UTF-8 bytes of `s`. |
| UrlEncoding.HexValue | auth_lib/src/middleware.rs:65 | Exactly the hexadecimal digits of either case have a value, and it is below 16. |
| UrlEncoding.EncodeInjective | auth_lib/src/middleware.rs:65 | Distinct byte strings get distinct encodings. |
| UrlEncoding.Utf8Decodes | auth_lib/src/middleware.rs:65 | Reading the payload bits of a character's UTF-8 bytes back gives its code point. |
| UrlEncoding.Utf8LeadLength | auth_lib/src/middleware.rs:65 | The first UTF-8 byte of a character gives the length of its encoding. |
| UrlEncoding.Utf8Determines | auth_lib/src/middleware.rs:65 | A character's UTF-8 encoding determines the character. |
| UrlEncoding.Utf8BytesInjective | auth_lib/src/middleware.rs:65 | Distinct texts have distinct UTF-8 bytes. |
| UrlEncoding.EncodeTextInjective | auth_lib/src/middleware.rs:65 | Distinct texts get distinct encodings. |
| UrlEncoding.DecodeEncodeByte | auth_lib/src/middleware.rs:65 | Decoding one encoded byte, followed by anything, yields that byte first. |
| RegexSubset.ParseRender | auth_lib/src/middleware.rs:40 | `Regex::new` on the modelled sublanguage accepts only the rendering of its result, whose literals are all ordinary characters. |
| RegexSubset.RenderParse | auth_lib/src/middleware.rs:40 | Every pattern of literals, `.` and `.*` with ordinary literals is read back from its text: together with `ParseRender`, parsing and rendering are inverse. |
| RegexSubset.PrefixMatchWitness | auth_lib/src/middleware.rs:53 | A successful anchored match has a prefix the pattern denotes. |
| RegexSubset.PrefixMatchFromWitness | auth_lib/src/middleware.rs:53 | A prefix the pattern denotes makes the anchored match succeed. |
| RegexSubset.MatchesPrefixIff | auth_lib/src/middleware.rs:53 | The anchored match at one position succeeds exactly when the pattern denotes some prefix of the text there. |
| RegexSubset.OccursStep | auth_lib/src/middleware.rs:53-58 | A pattern occurs in a text iff it denotes a prefix, or occurs in the text after its first character: the unanchored search tries every start position. |
| RegexSubset.IsMatch | auth_lib/src/middleware.rs:53-58 | `is_match` holds exactly when the pattern denotes some substring of the haystack (unanchored search). |
| RegexSubset.LitsThen | auth_lib/src/middleware.rs:53-58 | A literal pattern matches its own text, followed by whatever the rest of the pattern matches. |
| RegexSubset.RunMatchesAnything | auth_lib/src/middleware.rs:66 | `.*` alone matches at every position. |
| RegexSubset.AnyCharThen | auth_lib/src/middleware.rs:53-58 | `.` consumes any one character other than a line feed. |
| RegexSubset.IsMatchAfter | auth_lib/src/middleware.rs:53-58 | A match found after any prefix counts for the unanchored search. |
| RegexSubset.LiteralNeeded | auth_lib/src/middleware.rs:53-58 | An anchored match consumes every literal of the pattern, so each appears in the text. |
| RegexSubset.LiteralNeededInSearch | auth_lib/src/middleware.rs:53-58 | A pattern with a literal never matches a text lacking that character. |
| PathMatching.TransformWellFormed | auth_lib/src/middleware.rs:64-68 | The transform's output is well formed: only unreserved characters, `%` and `*`, never a line feed, and every `*` follows a `.`. |
| PathMatching.ReplaceAfterEncode | auth_lib/src/middleware.rs:64-68 | Replacing `%2A` after encoding equals the byte-by-byte translation; no spurious `%2A` straddles two encoded bytes. |
| PathMatching.ReplaceAfterEncodeByte | auth_lib/src/middleware.rs:66 | The replacement acts on one encoded byte at a time. |
| PathMatching.ReplaceKeeps | auth_lib/src/middleware.rs:66 | The replacement passes a character other than `%` through unchanged. |
| PathMatching.ReplaceKeepsEscape | auth_lib/src/middleware.rs:66 | The replacement passes an encoded byte other than `%2A` through unchanged. |
| PathMatching.TransformToEncodedRegex | auth_lib/src/middleware.rs:64-68 | `transform_to_encoded_regex` equals the byte-by-byte translation of the UTF-8 bytes: each `*` becomes `.*`, every other byte its encoding. |
| PathMatching.NoEncodedStarLeft | auth_lib/src/middleware.rs:66 | `replace` rewrites leftmost and without overlap: no `%2A` is left in its result, which is never longer than its input. |
| PathMatching.Utf8BytesAppend | auth_lib/src/middleware.rs:65 | UTF-8 encoding distributes over concatenation. |
| PathMatching.ParseTransformBytes | auth_lib/src/middleware.rs:40 | Every transformed text is a valid regex, which is why the `unwrap` never panics. It compiles to one atom group per byte. |
| PathMatching.ParseTransformByte | auth_lib/src/middleware.rs:40 | A transformed byte compiles to its own atoms. |
| PathMatching.ParseEscaped | auth_lib/src/middleware.rs:40 | A `%XX` escape compiles to three literal atoms. |
| PathMatching.ParseLiteral | auth_lib/src/middleware.rs:40 | A character that is not a regex metacharacter compiles to a literal atom. |
| PathMatching.ParseDot | auth_lib/src/middleware.rs:40 | A `.` not followed by `*` compiles to a one-character wildcard. |
| PathMatching.ParseRun | auth_lib/src/middleware.rs:40 | `.*` compiles to a run wildcard. |
| PathMatching.UnreservedNotMeta | auth_lib/src/middleware.rs:40 | Unreserved characters other than `.` are not regex metacharacters. |
| PathMatching.Compile | auth_lib/src/middleware.rs:40 | Compiling a pattern succeeds, and its atoms are read byte by byte off the pattern. |
| PathMatching.New | auth_lib/src/middleware.rs:35-47 | `new` compiles every pattern of the list, in order, keeping the source text and the mode. |
| PathMatching.Default | auth_lib/src/middleware.rs:31-33 | `default` is `new(["/login*", "/register*"], true)`. |
| PathMatching.AnyMatch | auth_lib/src/middleware.rs:55-59 | `any` holds exactly when some pattern matches. |
| PathMatching.NoneMatch | auth_lib/src/middleware.rs:53 | `all(!is_match)` holds exactly when no pattern matches. |
| PathMatching.Matches | auth_lib/src/middleware.rs:49-61 | Exclusion mode: secured iff no pattern occurs anywhere in the transformed path. Inclusion mode: iff some pattern does. An empty list secures everything in exclusion mode and nothing in inclusion mode. |
| PathMatching.TransformBytesAppend | auth_lib/src/middleware.rs:64-68 | The byte translation distributes over concatenation. |
| PathMatching.AtomsOfAppend | auth_lib/src/middleware.rs:40 | Compiled atoms distribute over concatenation of bytes. |
| PathMatching.TransformAppend | auth_lib/src/middleware.rs:64-68 | The transform distributes over concatenation of texts. |
| PathMatching.TransformAppend3 | auth_lib/src/middleware.rs:64-68 | The same for three texts. |
| PathMatching.PlainByteIsLiteral | auth_lib/src/middleware.rs:40 | A byte other than `*` and `.` compiles to the literals of its encoding. |
| PathMatching.PlainBytesAreLiteral | auth_lib/src/middleware.rs:40 | Bytes without `*` and `.` compile to the literals of their translation. |
| PathMatching.PlainUtf8 | auth_lib/src/middleware.rs:65 | A text without `*` and `.` has no such byte in UTF-8. |
| PathMatching.LitsAppend | auth_lib/src/middleware.rs:64-68 | Literal patterns distribute over concatenation. |
| PathMatching.CompilePlain | auth_lib/src/middleware.rs:40 | A wildcard-free pattern is matched literally, in encoded form. |
| PathMatching.CompilePlainThenStar | auth_lib/src/middleware.rs:40 | `w*` compiles to the literals of encoded `w`, then a run. |
| PathMatching.CompilePlainDotPlain | auth_lib/src/middleware.rs:40 | `w1.w2` compiles to literals, one-character wildcard, literals. |
| PathMatching.TransformLiteralChar | auth_lib/src/middleware.rs:64-68 | An unreserved character other than `*` is transformed into itself. |
| PathMatching.TransformAroundChar | auth_lib/src/middleware.rs:64-68 | Transforming `w1 c w2` keeps such a `c` in place between the transformed parts. |
| PathMatching.TransformAroundCharIn | auth_lib/src/middleware.rs:64-68 | The same inside a longer path. |
| PathMatching.LowercaseSurvivesTransform | auth_lib/src/middleware.rs:64-68 | A lower-case letter occurs in the transform iff it occurs in the text. |
| PathMatching.LowercaseInTransformBytes | auth_lib/src/middleware.rs:64-68 | A lower-case letter occurs in the translation iff its byte occurs. |
| PathMatching.AsciiByteInUtf8 | auth_lib/src/middleware.rs:65 | An ASCII byte occurs in the UTF-8 form iff its character occurs in the text. |
| PathMatching.LowercaseLiteralOfCompiled | auth_lib/src/middleware.rs:40 | A lower-case letter is a literal of a compiled pattern iff the pattern text has it. |
| PathMatching.LowercaseInAtoms | auth_lib/src/middleware.rs:40 | A lower-case letter is a literal of the atoms iff its byte occurs. |
| PathMatching.MissingLetterNoMatch | auth_lib/src/middleware.rs:53-58 | A pattern whose text has a lower-case letter the path lacks never matches that path. |
| PathMatching.CompiledEntries | auth_lib/src/middleware.rs:35-47 | Entry k of a built matcher is pattern k compiled. |
| PathMatching.InclusionHit | auth_lib/src/middleware.rs:55-59 | In inclusion mode one matching pattern secures the path. |
| PathMatching.ExclusionHit | auth_lib/src/middleware.rs:53 | In exclusion mode one matching pattern makes the path public. |
| PathMatching.ExclusionMiss | auth_lib/src/middleware.rs:53 | In exclusion mode a path no pattern matches is secured. |
| PathMatching.PlainPatternExcludes | auth_lib/src/middleware.rs:53 | In exclusion mode a wildcard-free pattern makes public every path that contains it. |
| PathMatching.DotPatternExcludes | auth_lib/src/middleware.rs:53 | In exclusion mode a pattern `w1.w2` makes public every path holding `w1`, any unreserved character, then `w2`. |
| PathMatching.SecuredByMissingLetters | auth_lib/src/middleware.rs:53 | Two exclusion patterns, each with a letter the path lacks, leave the path secured. |
| PathMatching.PlainThenStarOccurs | auth_lib/src/middleware.rs:53-58 | `w*` matches every path that contains `w`, anywhere. |
| PathMatching.PlainOccurs | auth_lib/src/middleware.rs:53-58 | A wildcard-free `w` matches every path that contains `w`, anywhere. |
| PathMatching.LitsDotLits | auth_lib/src/middleware.rs:53-58 | Literals, one-character wildcard, literals match any text of that shape. |
| PathMatching.DotStandsForAnyChar | auth_lib/src/middleware.rs:64-68 | The `.` of a pattern matches any unreserved character of the path. |
| PathMatching.WildcardTest | auth_lib/src/middleware.rs:177-182 | `new(["/api/users/*", "/some-other/route"], false)` secures `/api/users/231/edit`. |
| PathMatching.ExclusionTest | auth_lib/src/middleware.rs:184-189 | `new(["/some-other/route"], true)` secures `/api/users/231/edit`. |
| PathMatching.DefaultSecuresOthers | auth_lib/src/middleware.rs:191-195 | The default matcher secures `/api/users/231/edit`. |
| PathMatching.DefaultLeavesLoginPublic | auth_lib/src/middleware.rs:191-196 | The default matcher leaves `/login` public. |
| PathMatching.DefaultIsUnanchored | auth_lib/src/middleware.rs:29-33 | The default matcher also leaves `/api/users/login` public, unlike its documentation's "starting with". |
| PathMatching.AppPrefixIsPublic | src/app_factory.rs:48 | auth_lib's matcher given the list of app_factory.rs:48 matches no path that contains `/api/test` anywhere, so `/api/testing` is public too: the search is unanchored. |
| PathMatching.AppDotIsWildcard | src/app_factory.rs:48 | auth_lib's matcher given the list of app_factory.rs:48 matches no path that contains `/web/index`, any one unreserved character and `html`, so `/web/index_html` is public too: `.` is a wildcard. |
| AuthMiddleware.AuthMiddlewareInner.Call | auth_lib/src/middleware.rs:119-146 | Public path: no provider call, no token, forwarded. Secured path with a user: exactly that user's token is attached, then forwarded. Secured path without a user: unauthorized, and downstream is never called. |
| AuthMiddleware.SessionProviderResolves | actix-auth-middleware/src/session/session_auth.rs:16-38 | `GetUserFromSession` as an auth provider accepts a request exactly when its session resolves to a user at the handling time, and hands out that user. |
| AuthMiddleware.SessionGuardedCall | auth_lib/src/middleware.rs:119-146 | With `GetUserFromSession` as the provider, a request on a secured path goes on exactly when its session resolves to a user, carrying that user's token; otherwise it is refused with its token untouched. A public path goes on untouched. |
| JsonText.EscapeChar | auth_lib/src/lib.rs:82 | `serde_json` escapes exactly `"`, `\` and control characters. Every other character is written as itself. |
| JsonText.Quote | auth_lib/src/lib.rs:82 | A JSON string body is delimited by double quotes. |
| JsonText.Unquote | auth_lib/src/lib.rs:82 | Reading a JSON string literal fails on anything not delimited by double quotes. |
| JsonText.UnescapeAfterEscapeChar | auth_lib/src/lib.rs:82 | Reading back one escape yields its character. |
| JsonText.UnescapeAfterControl | auth_lib/src/lib.rs:82 | Reading back a `\u00xx` escape yields its control character. |
| JsonText.UnescapeEscape | auth_lib/src/lib.rs:82 | Unescaping the escaped content gives back the string. |
| JsonText.UnquoteQuote | auth_lib/src/lib.rs:82 | Every string survives a trip through its JSON literal. |
| JsonText.QuoteInjective | auth_lib/src/lib.rs:82 | Distinct messages give distinct bodies. |
| Sessions.StringCodec | src/controller/mfa_controller.rs:31-51 | A `String` is always written as its JSON literal. |
| Sessions.StringCodecLossless | src/controller/mfa_controller.rs:31-51 | Every string written to the session reads back as itself. |
| Sessions.Lookup | actix-auth-middleware/src/session/session_auth.rs:19-27 | `get`: `Ok(None)` iff the key is missing; `Err` iff the stored text does not read back; otherwise the value read. |
| Sessions.Session.Get | actix-auth-middleware/src/session/session_auth.rs:19-27 | `get` on the session is `Ok(None)` exactly when the key is missing, an error exactly when the stored text does not read back, and otherwise the value read from the stored text. |
| Sessions.LookupStored | actix-auth-middleware/src/session/session_auth.rs:52-76 | After `insert` with a lossless codec, the key reads back as the inserted value. |
| Sessions.LookupQuoted | src/controller/mfa_controller.rs:31-51 | A string stored under a key reads back as itself. |
| Sessions.LookupOther | actix-auth-middleware/src/session/session_auth.rs:52-61 | Writing or removing one key never changes what another key reads as. |
| Sessions.Session.Insert | actix-auth-middleware/src/session/session_auth.rs:52-76 | `insert` fails with no change when the value cannot be written. Otherwise it stores the written text under the key. |
| Sessions.Session.Remove | actix-auth-middleware/src/session/session_auth.rs:58 | `remove` drops just that key. |
| Sessions.Session.Purge | actix-auth-middleware/src/session/session_auth.rs:32 | `purge` empties the session. |
| SessionAuth.Resolve | actix-auth-middleware/src/session/session_auth.rs:16-38 | A missing or unreadable user fails without purging, even if expired. An unreadable ttl fails without purging. No ttl: the user is returned at any time. `now <= ttl`: the user is returned. `now > ttl`: purge and fail. |
| SessionAuth.GetAuthenticatedUser | actix-auth-middleware/src/session/session_auth.rs:16-38 | Returns the resolved user with the session unchanged. On failure it purges the session exactly when the expiry has passed. |
| SessionAuth.SetUserEffect | actix-auth-middleware/src/session/session_auth.rs:52-61 | On failure nothing changes, including `ttl`. On success `user` is written, `ttl` is removed, and other keys are kept. |
| SessionAuth.SetUserWithTtlEffect | actix-auth-middleware/src/session/session_auth.rs:63-75 | On failure to write the user nothing changes. Otherwise `user` is written and `ttl = now + s` is written. If the ttl write fails, the user stays written and `Err` is returned. Other keys are kept. |
| SessionAuth.UserSession.SetUser | actix-auth-middleware/src/session/session_auth.rs:52-61 | `set_user` performs exactly `SetUserEffect` on the shared session. |
| SessionAuth.UserSession.SetUserWithTtl | actix-auth-middleware/src/session/session_auth.rs:63-75 | `set_user_with_ttl` performs exactly `SetUserWithTtlEffect`. |
| SessionAuth.SetUserThenResolve | actix-auth-middleware/src/session/session_auth.rs:16-61 | After a successful `set_user(u)` the provider returns `u` at every time. |
| SessionAuth.SetUserWithTtlThenResolve | actix-auth-middleware/src/session/session_auth.rs:16-76 | After a successful `set_user_with_ttl(u, s)` at `t0`, the provider returns `u` at every `t <= t0 + s`. Later it purges and fails. |
| SessionAuth.PurgedStaysSignedOut | actix-auth-middleware/src/session/session_auth.rs:32 | A purged session resolves to nobody. |
| AuthLib.AuthToken.New | auth_lib/src/lib.rs:32-40 | `AuthToken::new(u).get_authenticated_user() == u`. |
| AuthLib.AuthToken.GetAuthenticatedUser | auth_lib/src/lib.rs:38-40 | The user returned is the one the token was made for; it determines the token. |
| AuthLib.NotAuthenticatedError.StatusCode | auth_lib/src/lib.rs:77-79 | Always 401. |
| AuthLib.NotAuthenticatedError.ErrorResponse | auth_lib/src/lib.rs:81-83 | A 401 JSON response whose body reads back as the message. |
| AuthLib.NotAuthenticatedError.Display | auth_lib/src/lib.rs:69-73 | Always "Debug unauth error". |
| AuthLib.DisplayIgnoresMessage | auth_lib/src/lib.rs:69-73 | Errors with different messages display alike. |
| AuthLib.FromRequest | auth_lib/src/lib.rs:51-62 | A token exactly when the session's `"user"` reads back as a user, carrying that user. Otherwise the error with message "Error: No authentciated user". |
| AuthLib.FromRequestAcceptsResolved | auth_lib/src/lib.rs:56-58 | Every user the session provider accepts is also handed out by the extractor. |
| AuthLib.FromRequestIgnoresExpiry | auth_lib/src/lib.rs:56-58 | The extractor still hands out a token for an expired session that has not been purged yet. |
| Domain.NewUser | src/domain/user.rs:14-21 | `User::new` stores id, e-mail and name as given. |
| Domain.NewMfa | src/domain/user.rs:53-58 | `Mfa::new(id)` keeps the id and has no secret. |
| Domain.MfaWithSecret | src/domain/user.rs:59-64 | `Mfa::with_secret(id, s)` keeps the id and has secret `s`. |
| Domain.WithMfa | src/domain/user.rs:42-44 | `set_mfa(m)` makes the config `Some(m)` and keeps id, password and user id. |
| Domain.WithMfaOverwrites | src/domain/user.rs:42-44 | A second `set_mfa` overwrites the first. |
| Domain.WithMfaIdempotent | src/domain/user.rs:42-44 | `set_mfa` twice with the same value equals once. |
| Domain.Credentials.constructor | src/domain/user.rs:33-40 | `Credentials::new` stores the fields as given and has no second factor. |
| Domain.Credentials.SetMfa | src/domain/user.rs:42-44 | `set_mfa` updates the record in place as `WithMfa` says. |
| UserService.LowerChar | src/service/user_service.rs:22 | ASCII upper-case letters map to lower case; every other character is kept. |
| UserService.Lowercase | src/service/user_service.rs:22 | Lower-casing works character by character and keeps the length. |
| UserService.TrimStart | src/service/user_service.rs:22 | The result is empty or does not start with white space. |
| UserService.TrimEnd | src/service/user_service.rs:22 | The result is empty or does not end with white space. |
| UserService.TrimShape | src/service/user_service.rs:22 | `trim` leaves no white space at either end, gives the empty string exactly for all-white input, and cuts only white space off either side. |
| UserService.NormaliseShape | src/service/user_service.rs:22 | A lookup key has no white space at either end, and is empty exactly when the address is all white space. |
| UserService.NormaliseIsLowercase | src/service/user_service.rs:22 | A lookup key has no ASCII upper-case letter: lowering it again changes nothing. |
| UserService.LowercaseSameWhiteSpace | src/service/user_service.rs:22 | Lower-casing neither creates nor removes white space. |
| UserService.LowercasedSlice | src/service/user_service.rs:22 | Every piece of a lower-cased text is already lower-case. |
| UserService.TestUserService.constructor | src/service/user_service.rs:10-16 | Exactly one user is seeded: "test@example.org", id 123, name "Hans". |
| UserService.TestUserService.FindByEmail | src/service/user_service.rs:21-28 | Returns the user stored under the trimmed, lower-cased address. When that key is absent it returns `NotFoundError("User not found")`. The directory is only read. |
| UserService.LowercaseIdempotent | src/service/user_service.rs:22 | Lower-casing twice equals once. |
| UserService.LowercaseAppend | src/service/user_service.rs:22 | Lower-casing distributes over concatenation. |
| UserService.LowercaseKeepsWhiteSpace | src/service/user_service.rs:22 | White space is unchanged by lower-casing. |
| UserService.TrimStartCuts | src/service/user_service.rs:22 | The left trim is a suffix of the input, and what was cut off is all white space. |
| UserService.TrimEndCuts | src/service/user_service.rs:22 | The right trim is a prefix of the input, and what was cut off is all white space. |
| UserService.TrimSlice | src/service/user_service.rs:22 | The trim of a text is one contiguous slice of it, starting where the left trim starts. |
| UserService.TrimStartWhiteSpace | src/service/user_service.rs:22 | Leading white space does not change the left trim. |
| UserService.TrimEndWhiteSpace | src/service/user_service.rs:22 | Trailing white space does not change the right trim. |
| UserService.TrimStartAppend | src/service/user_service.rs:22 | Left-trimming a text with content keeps everything after it. |
| UserService.TrimStartAllWhite | src/service/user_service.rs:22 | A text that trims to nothing is all white space. |
| UserService.TrimSurrounding | src/service/user_service.rs:22 | Surrounding white space does not change the trim. |
| UserService.TrimUntouched | src/service/user_service.rs:22 | Text without surrounding white space is its own trim. |
| UserService.FindIgnoresCase | src/service/user_service.rs:22 | Addresses equal up to ASCII case find the same result. |
| UserService.FindAsLowercase | src/service/user_service.rs:22 | An address finds what its lower-case form finds. |
| UserService.FindIgnoresSurroundingSpace | src/service/user_service.rs:22 | Surrounding white space does not change the result. |
| UserService.FoundUnderLowercase | src/service/user_service.rs:21-23 | A padded address in any ASCII case finds the user stored under its lower-case form. |
| UserService.SeededUserFound | src/service/user_service.rs:10-23 | The seeded user is found under " Test@Example.ORG\n". |
| MfaController.CredentialStore.FindByUserId | src/controller/mfa_controller.rs:45-49 | Succeeds iff the user has credentials, returning a fresh copy of them. |
| MfaController.CredentialStore.Save | src/controller/mfa_controller.rs:61-65 | A successful save files the record under its user id. A failed one changes nothing. |
| MfaController.StorePendingSecret | src/controller/mfa_controller.rs:28-31 | After `get_qrcode` the pending secret reads back as the new secret, overwriting any earlier one. Other keys are untouched. |
| MfaController.GetQrcode | src/controller/mfa_controller.rs:24-38 | Stores the secret as pending and answers the QR code as SVG. |
| MfaController.Enrol | src/controller/mfa_controller.rs:40-77 | No credentials: BadRequest, and nothing is read or saved. Session read error: the error, no change. No pending secret: BadRequest, key removed, nothing saved. Wrong code: Unauthorized, secret kept, nothing saved. Failed save: BadRequest, secret kept. Otherwise: `Mfa(factor id, Some(secret))` saved, key removed, 200. The store changes only on 200, and 200 only after the pending secret verified. |
| MfaController.SetTotpSecret | src/controller/mfa_controller.rs:40-77 | The handler leaves exactly the answer, session and store that `Enrol` describes. |
| MfaController.QrcodeThenEnrol | src/controller/mfa_controller.rs:24-77 | After `get_qrcode` with secret `s`, a code that verifies against `s` is accepted. Exactly `s` is saved, and the pending key is cleared. |
| MfaController.RetryAfterWrongCode | src/controller/mfa_controller.rs:53-57 | After a wrong code, a second attempt behaves as if the first had not happened. |

## Left out

- Async futures, `Rc` sharing, the actix `Service`/`Transform` plumbing and all `println!`/`log` output. The middleware's downstream service is represented only by the `DownstreamCalled` step and the `Forwarded` outcome.
- `UnauthorizedError`, returned by the middleware on refusal: its definition is not part of this model.
- `AuthMiddleware.AuthMiddlewareInner.Call`: the auth provider is a function of the request's path, session entries and handling time. Side effects of the provider on the session, such as purging, are modelled in `SessionAuth.GetAuthenticatedUser` and not repeated here.
- src/app_factory.rs wires `AuthMiddleware`, `PathMatcher` and `SessionAuthProvider` from the `authfix` crate, which is not part of this model. The model assumes they behave as auth_lib/src/middleware.rs and `GetUserFromSession` of actix-auth-middleware; only the pattern list of app_factory.rs:48 is reused, as a test instance.
- `SystemTime` is a natural number of seconds. The overflow panic of `SystemTime + Duration` and the `u64` range of the ttl are not modelled.
- serde: a value's codec is a pair of partial functions (`Sessions.Codec`). Only the `String` codec is concrete: JSON string literals. `JsonText.Unquote` rejects white space around the literal, and rejects `\u` escapes of surrogates, which `serde_json` reads as surrogate pairs.
- UserService.Lowercase, UserService.LowerChar: only ASCII letters are lower-cased. `str::to_lowercase` also maps other Unicode letters, some to several characters.
- The regex engine: only the literal, `.` and `.*` subset that `transform_to_encoded_regex` can produce. The regex crate's handling of `.` never matching a line feed is kept.
- The TOTP check (`Authenticator::verify`, RFC 6238), the secret generator, the QR rendering and its `unwrap`, and `AuthenticatorFactor::id()`. These are parameters: `verify`, `secret`, `qrcode`, `factorId`.
- `MfaController.GetQrcode`: the session insert of a `String` cannot fail under the `String` codec, so its error path is unreachable in the model.
- The user API behind `find_credentials_by_user_id`/`save_credentials` is a map from user id to credentials record. Whether the database accepts a write is the parameter `saveAccepted`.
- The debug endpoint `get_user_data` and the `DebuggableSession` formatting.
- HTTP headers other than the content type, and response bodies other than the JSON error message and the SVG.
