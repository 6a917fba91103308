# Promisance core, modelled in Dafny

Promisance is a browser strategy game. This Go port serves the game's pages and
keeps its players signed in. This project models the parts of the server that
decide who a request belongs to and what it may see.

- **JOT tokens** (`app/jot`):
  - A factory holds a pool of HMAC-SHA-256 signers keyed by identifier.
  - It issues a token cookie: three base64url segments, for the JSON header, the
    JSON claims and the MAC, joined by dots.
  - It verifies a token, checking in turn its shape, header, signer, algorithm,
    signature and expiry.
  - It takes the token of a request from an `Authorization: Bearer` header or from
    the factory's cookie.
- **Sessions** (`app/sessions.go`): an in-memory table of sessions. It reuses or
  creates a session at login, looks one up per request, and evicts expired ones
  lazily. It also sets the session cookie.
- **Account data** (`app/orm/dml.go`):
  - the bit-flag encoders and decoders of empires and users;
  - the NULL-defaulting readers;
  - the e-mail validator;
  - the argument checks of `UserCreate`;
  - the race lookup of `EmpireCreate`;
  - `AuthenticatedUserFetch` around its query.
- **Roles** (`app/authn/authn.go`): the role map derived from a user's flags.
- **Page notices** (`app/misc.php.go`, `app/routes.go`):
  - the HTML banner of notices;
  - carrying notices across a redirect as padded base64url `notice=` query
    parameters, and reading them back.
- **Request setup** (`app/routes.go`): the round phase a request falls in, and
  the 64-byte cap on the requested action.
- **Database configuration** (`app/includes.database.php.go`): `db_open`'s checks
  and its choice of driver adapter.

Some things that Go gets from outside the model are passed in as parameters:

- Time is an integer count of nanoseconds since the Unix epoch, passed as `now`.
- Fresh session identifiers are passed as `newId`.
- HMAC-SHA-256 and the JSON text layer are the function fields of a `Primitives`
  value. The ghost predicate `Lawful` states the laws the proofs use: parsing
  undoes marshalling, and a MAC is 32 bytes long.
- A user query is a function parameter of `AuthenticatedUserFetch`.

Go strings are byte strings. Here a `char` stands for one byte. `strings.TrimSpace`
recognises white space by its UTF-8 bytes, and a byte that is not valid UTF-8 is
never white space.

Base64 is modelled concretely, both the unpadded URL form that tokens use and
the padded URL form that notices use. It follows section 5 of RFC 4648 with Go's
decoder conventions: line breaks are skipped, and unused trailing bits are not
checked.

Each module sits in its own file:

| file | module |
|---|---|
| `wrappers.dfy` | `Wrappers` |
| `http.dfy` | `Http` |
| `gostrings.dfy` | `GoStrings` |
| `base64.dfy` | `Base64` |
| `jot_types.dfy` | `JotTypes` |
| `jot_signer.dfy` | `JotSigner` |
| `jot.dfy` | `Jot` |
| `jot_proofs.dfy` | `JotProofs` |
| `sessions.dfy` | `Sessions` |
| `orm_dml.dfy` | `OrmDml` |
| `authn.dfy` | `Authn` |
| `notices.dfy` | `Notices` |
| `routes.dfy` | `Routes` |
| `database.dfy` | `Database` |

Code that changes state in place is modelled as classes with `modifies`
clauses: the signer pool, the session table, the signer and session objects,
and the round flags of a request. Code that builds its result step by step is
modelled as methods with loops, proved against specification functions:
`notices`, `noticesToQueryParameters`, `noticesFromQueryParameter`,
`userFlagsToInt` and `UserRoles`. Everything else is functions and lemmas.

## Model

| member | source | states |
|---|---|---|
| `GoStrings.Count` | app/orm/dml.go:504-513 | The count never exceeds the length, and it is zero exactly when the byte is absent. |
| `GoStrings.IndexOf` | app/orm/dml.go:508-512 | Returns -1 exactly when the byte is absent. Otherwise it is an index holding the byte, with no earlier occurrence. |
| `GoStrings.Split` | app/jot/jot.go:542-543 | k separators give k+1 fields, and no field contains the separator. |
| `GoStrings.SplitThree` | app/jot/jot.go:542-549 | Three separator-free fields joined by the separator split back into exactly those three. |
| `GoStrings.SplitJoin` | app/jot/jot.go:542-543 | Joining the fields of a split with the separator gives back the original text. |
| `GoStrings.JoinSplit` | app/routes.go:810-822 | Splitting a join of separator-free parts gives back the parts. |
| `GoStrings.TrimSpaceFixpoint` | app/orm/dml.go:297-302 | `TrimSpace(s) == s` exactly when `s` neither starts nor ends with the UTF-8 encoding of a white-space character. These are the six ASCII spaces, U+0085, U+00A0, U+1680, U+2000 to U+200A, U+2028, U+2029, U+202F, U+205F and U+3000. |
| `GoStrings.NoBreakSpaceBytes` | app/orm/dml.go:291 | A lone trailing byte 0xA0, which is not valid UTF-8, survives trimming. The two-byte encoding of U+00A0 at the front is removed. |
| `GoStrings.SplitAtFirstSpace` | app/jot/jot.go:355-358 | With no space the result is `[s]`. Otherwise it is two parts, the first without a space, that rebuild `s` around one space. |
| `GoStrings.LessTransitive` | app/jot/jot.go:258-265 | The byte-wise order used by `sort.Strings` is transitive. |
| `GoStrings.LessTotal` | app/jot/jot.go:258-265 | Any two different strings are ordered one way or the other. |
| `Base64.EncodeRaw` | app/jot/jot.go:297-308 | The unpadded encoding has length ceil(4n/3) and uses only the URL-safe alphabet. |
| `Base64.EncodePadded` | app/routes.go:817 | The padded encoding's length is a multiple of four. |
| `Base64.RawRoundTrip` | app/jot/jot.go:282-308 | Decoding the unpadded encoding of any bytes gives those bytes. |
| `Base64.PaddedRoundTrip` | app/routes.go:817-834 | Decoding the padded encoding of any bytes gives those bytes. |
| `Base64.TrailingBitsIgnored` | app/jot/jot.go:292-294 | When the input length is not a multiple of 3, changing the lowest bit of the last character gives a different text that decodes to the same bytes. |
| `Base64.NewlineIgnored` | app/jot/jot.go:292-294 | A line feed anywhere in the text does not change what it decodes to. |
| `Base64.NoDotInEncoding` | app/jot/jot.go:542-549 | An encoded segment never contains `.`. |
| `Base64.EncodedLengthBound` | app/jot/jot.go:545-547 | An encoding is at most `limit` characters exactly when `4n+2 < 3·limit+3`. |
| `JotTypes.Seconds` | app/jot/jot.go:223-227 | `Unix()` seconds floor the instant: `s·1e9 <= ns < (s+1)·1e9`. |
| `JotTypes.Truncated` | app/jot/jot.go:229-236 | A NumericDate comes back as a whole second, at most one second before the instant. |
| `JotTypes.ExpiryComplement` | app/jot/jot.go:209-217 | `IsExpired` is the negation of `IsNotExpired`, which holds exactly when `now` is before the expiry. |
| `JotTypes.MarshalRoles` | app/jot/jot.go:258-265 | The list written is strictly sorted and holds exactly the keys of the map. |
| `JotTypes.UnmarshalRoles` | app/jot/jot.go:268-279 | Exactly the listed names become keys, and every value is true. |
| `JotTypes.RolesRoundTrip` | app/jot/jot.go:258-279 | Parsing the marshalled roles keeps every key and sets every value to true. The map comes back unchanged exactly when all its values were true. |
| `JotTypes.RolesListRoundTrip` | app/jot/jot.go:258-279 | A strictly sorted list of names is written back exactly as it was read. |
| `JotTypes.ClaimsRoundTrip` | app/jot/jot.go:166-198 | After a JSON round trip the claims keep their user id, empire id and role keys. Both dates are truncated to the second and every role becomes true. |
| `JotSigner.HS256Signer.constructor` | app/jot/jot.go:411-417 | The signer keeps its id and a copy of the secret, and expires at `now + ttl`. It is expired at once exactly when `ttl < 0`. |
| `JotSigner.HS256Signer.Expire` | app/jot/jot.go:425-427 | Sets the expiry to the epoch, so the signer is expired at every positive instant. |
| `JotSigner.SignedDependsOnKeyOnly` | app/jot/jot.go:440-452 | Two signers with the same key accept the same signatures, and every signer accepts its own MAC. |
| `Jot.Factory.constructor` | app/jot/jot.go:35-56 | The pool holds just the given signer. An empty cookie name or path takes its default. |
| `Jot.NewFactory` | app/jot/jot.go:35-56 | A nil signer gives `ErrInvalidSigner` and an expired one gives `ErrSignerExpired`. Otherwise it gives a valid new factory holding just that signer. |
| `Jot.Factory.AddSigner` | app/jot/jot.go:465-474 | An expired signer is refused with `ErrSignerExpired` and the pool is unchanged. Otherwise the signer is filed under its id, replacing any signer already there. |
| `Jot.Factory.DeleteSigner` | app/jot/jot.go:477-481 | Removes that id and nothing else. |
| `Jot.Factory.DeleteExpiredSigners` | app/jot/jot.go:484-493 | Afterwards the pool is exactly its live signers, whatever the visiting order. |
| `Jot.Factory.LookupSigner` | app/jot/jot.go:495-509 | Succeeds exactly when the id is present, live and has the given algorithm. An expired signer found under the id is removed, and nothing else changes. |
| `Jot.Factory.GetSigner` | app/jot/jot.go:649-660 | Fails with `NotFound` exactly when no signer is live, and then the pool is empty. Otherwise it returns a live, pooled signer. Only expired signers are ever removed. |
| `Jot.Factory.NewTokenCookie` | app/jot/jot.go:592-644 | Fails with `ErrMissingSigner` exactly when no signer is live. Otherwise it returns an HTTP-only, secure cookie with the factory's name and path, expiring at `now + ttl`. The cookie holds the token issued by a live pooled signer. |
| `Jot.SignToken` | app/jot/jot.go:598-634 | The token built from the signer's header, the claims issued at `now` for `ttl`, and their MAC under the signer's key is the token `IssuedToken` describes, and it holds exactly two dots. |
| `Jot.ThreeSegmentDots` | app/jot/jot.go:620-634 | Three segments without dots, joined by dots, hold exactly two dots. |
| `Jot.Factory.ClaimsFromToken` | app/jot/jot.go:540-590 | Accepted claims have not expired, the token has exactly two dots, and every role in the claims is true. |
| `Jot.Factory.PayloadFromRequest` | app/jot/jot.go:519-535 | Succeeds exactly when the request carries a non-empty token that verifies. It then returns the claims' user with `authenticated` true. On failure it returns the unauthenticated user. |
| `JotProofs.CompactSplits` | app/jot/jot.go:542-549 | A token assembled from three dot-free segments splits back into them. |
| `JotProofs.ShapeChecks` | app/jot/jot.go:542-547 | Without exactly two dots a token fails with `ErrInvalidToken`, and with a header segment over 99 bytes it fails with `ErrInvalidHeader`, before anything else is looked at. |
| `JotProofs.LongHeaderRejected` | app/jot/jot.go:545-547 | A well-shaped token whose header segment is over 99 bytes fails with `ErrInvalidHeader`. |
| `JotProofs.HeaderDecodeChecks` | app/jot/jot.go:553-557 | A header segment that is not base64url fails with the decoder's error. One that is not a header fails with the JSON error. |
| `JotProofs.HeaderAndSignerChecks` | app/jot/jot.go:558-576 | The checks come in order: the header type, the signature encoding, the signer's presence, the algorithm, then the MAC. Each failure gives its own error. |
| `JotProofs.ClaimsChecks` | app/jot/jot.go:578-589 | After a valid MAC the claims are returned if they expire after `now`. Otherwise the result is `ErrClaimsExpired`. |
| `JotProofs.AcceptedTokenIsSigned` | app/jot/jot.go:540-590 | An accepted token is three segments whose last is the MAC of the first two, under the key of a pooled signer. The claims returned are the decoded middle segment, and they have not expired. |
| `JotProofs.HeaderSegmentLength` | app/jot/jot.go:545-547 | The header segment fits the 99-byte limit exactly when the header JSON is at most 74 bytes. |
| `JotProofs.IssueThenVerify` | app/jot/jot.go:540-644 | A token issued with a pooled signer's key verifies at `later` exactly when `later` is before the expiry truncated to the second. It gives back the payload with its roles granted and both dates truncated. The signer's own expiry plays no part. |
| `JotProofs.FreshTokenAccepted` | app/jot/jot.go:540-644 | With a time-to-live of at least one second, a fresh token verifies at once. |
| `JotProofs.SubSecondTtlExpiresAtOnce` | app/jot/jot.go:223-236 | A positive time-to-live under one second, issued at a whole second, gives a token already expired at that instant. |
| `JotProofs.TruncatedWithinSecond` | app/jot/jot.go:223-236 | Truncating a whole second plus less than one second gives that whole second. |
| `JotProofs.LongHeaderTokenRejected` | app/jot/jot.go:545-547 | A header JSON over 74 bytes makes every issued token fail with `ErrInvalidHeader`. |
| `JotProofs.SignatureMalleable` | app/jot/jot.go:562-576 | Flipping the lowest bit of the signature segment's last character gives a different token that verifies to the same claims. |
| `JotProofs.SplitBearerPrefix` | app/jot/jot.go:355-363 | A header starting `Bearer ` splits into `Bearer` and the rest. |
| `JotProofs.SplitBearerOnly` | app/jot/jot.go:355-363 | A split whose first part is `Bearer` means that the header starts with `Bearer `. |
| `JotProofs.BearerTokenForm` | app/jot/jot.go:348-366 | The bearer token is the text after a leading `Bearer `, trimmed of UTF-8 white space as `strings.TrimSpace` does. Any other header gives "". |
| `JotProofs.BearerPrecedence` | app/jot/jot.go:338-344 | A non-empty bearer token wins over the cookie. An empty one falls back to the cookie. |
| `JotProofs.CookieFallback` | app/jot/jot.go:338-344 | Any other `Authorization` header leaves the cookie in charge. |
| `JotProofs.TokenCharNotSpace` | app/jot/jot.go:360 | Base64url characters and the dot are ASCII bytes other than white space, so they cannot begin or end an encoded white-space character. |
| `JotProofs.IssuedTokenTrimmed` | app/jot/jot.go:360 | An issued token is non-empty and is not changed by trimming. |
| `JotProofs.CookieRoundTrip` | app/jot/jot.go:370-379 | A request whose factory cookie holds an issued token, made before the token's expiry, yields the payload with its roles granted plus `authenticated`. |
| `JotProofs.BearerRoundTrip` | app/jot/jot.go:348-366 | The same holds with the token sent as `Authorization: Bearer <token>`, whatever the cookies. |
| `Sessions.Session.constructor` | app/sessions.go:80-86 | A new session has the given id, user and role, no empire, and an expiry of zero until it is set. |
| `Sessions.UserOf` | app/sessions.go:125-134 | No session gives the zero user, who is not authenticated. Otherwise it gives the session's user and empire. |
| `Sessions.AuthorizationAgrees` | app/sessions.go:179-205 | A session is authorized exactly when its `SessionUser_t` is. An authenticated user implies a session, and an authorized session is authenticated. |
| `Sessions.CreateCookie` | app/sessions.go:146-158 | No cookie exactly when the session is expired. Otherwise it is an HTTP-only, secure `session_id` cookie for `/` holding the id and expiring with the session. |
| `Sessions.SessionManager.constructor` | app/sessions.go:41-46 | A table made with `make` starts empty and valid. The nil map of the zero struct is listed under Left out. |
| `Sessions.SessionManager.DeleteSession` | app/sessions.go:97-101 | Removes the id and nothing else. |
| `Sessions.SessionManager.GetSession` | app/sessions.go:108-121 | A missing id gives nil and changes nothing. An expired session is removed and gives nil. A live session is returned and nothing changes. |
| `Sessions.SessionManager.FindUserSession` | app/sessions.go:66-77 | Finds the user's session exactly when the table holds one. Only expired sessions of other users are removed on the way, and every session left is unchanged. When the user has no session, the scan visits every entry, so no expired session is left. Each id still maps to its own session, one per user. |
| `Sessions.SessionManager.NewSession` | app/sessions.go:62-95 | The user's existing session is reused. Otherwise a fresh session with role `user` is filed under the new id. Either way it now belongs to the empire and expires two weeks from `now`. Only expired sessions of other users are removed. When the user had no session, every expired session is culled. The only entry whose session changes is `newId`: when it already names another user's session, the fresh session replaces it, as Go's map assignment does. No other session changes. Each id still maps to its own session, one per user. |
| `Sessions.SessionManager.SessionFromRequestAsWritten` | app/sessions.go:17-39 | The session comes only from the `sid` cookie: without it there is none, and the table is unchanged. |
| `Sessions.SessionManager.SessionFromRequest` | app/sessions.go:17-39 | The corrected middleware reads `session_id`, and a request naming a live session gets that session. |
| `Sessions.SessionCookieNotRead` | app/sessions.go:25 | The cookie `CreateCookie` sets for a live session is not the `sid` cookie the middleware reads. |
| `Sessions.SessionCookieRoundTrip` | app/sessions.go:146-158 | From the cookie set for a live, stored session, the table gives back that session. |
| `Sessions.RefreshedSessionCookie` | app/sessions.go:91-92 | A session created or refreshed at `t` yields its cookie exactly until `t` plus two weeks. |
| `OrmDml.EmpireFlagsToInt` | app/orm/dml.go:515-548 | The stored empire flag word is never NULL. |
| `OrmDml.EmpireFlagsRoundTrip` | app/orm/dml.go:515-567 | Storing and reloading empire flags gives them back, except `Mod`, which always reads false because `EFLAG_MOD` is 0. |
| `OrmDml.EmpireWordRoundTrip` | app/orm/dml.go:515-567 | Reloading any stored word and storing it again keeps exactly the bits that carry a flag. |
| `OrmDml.EmpireWordMasked` | app/orm/dml.go:33-44 | An empire word has no bit outside the ten flags, and setting `Mod` does not change it. |
| `OrmDml.UserFlagsToInt` | app/orm/dml.go:569-590 | The word is never NULL, decodes back to exactly the given flags, and has no bit outside the six user flags. |
| `OrmDml.UserWordUnique` | app/orm/dml.go:592-605 | Two user words without stray bits that decode alike are equal. |
| `OrmDml.UserWordStrayBitsIgnored` | app/orm/dml.go:592-605 | Bits outside the user flags do not affect decoding. |
| `OrmDml.NullFlagsAreClear` | app/orm/dml.go:550-553 | A NULL flag column decodes to no user flags and no empire flags. |
| `OrmDml.Signed` | app/orm/dml.go:614-619 | A 64-bit word is read as an int64 in two's complement range. |
| `OrmDml.NvlInt` | app/orm/dml.go:614-619 | NULL reads as 0. Otherwise the result is the stored value. |
| `OrmDml.NvlString` | app/orm/dml.go:621-626 | NULL reads as "". Otherwise the result is the stored text. |
| `OrmDml.EmailShape` | app/orm/dml.go:504-513 | For an `@`-free local part and domain, the address is valid exactly when the local part is at least 3 bytes, the domain at least 2 and the whole at most 255. |
| `OrmDml.ValidEmailSplits` | app/orm/dml.go:504-513 | A valid address is such a local part, its only `@`, and such a domain. |
| `OrmDml.FieldCheckAccepts` | app/orm/dml.go:285-302 | A field passes exactly when it is 6 to 254 bytes long and neither starts nor ends with a UTF-8 encoded white-space character. A stray byte such as a lone 0xA0 does not count as white space. |
| `OrmDml.UserCreateAccepts` | app/orm/dml.go:284-304 | `UserCreate` gets past its checks exactly when both arguments are 6 to 254 bytes long, neither starts nor ends with a UTF-8 encoded white-space character, and the e-mail is valid. |
| `OrmDml.UserNameCheckedFirst` | app/orm/dml.go:285-293 | A bad user name is reported as a `username` error, whatever the e-mail. |
| `OrmDml.RaceFlag` | app/orm/dml.go:115-122 | Only `HUMAN` is known, and it maps to `RACE_HUMAN`. Any other race is an error. |
| `OrmDml.AuthenticatedUserFetch` | app/orm/dml.go:85-105 | Empty credentials give `ErrNoRows`. A fetched user is the query's row with its flag word decoded and a NULL comment read as "". |
| `OrmDml.EmptyCredentialsSkipQuery` | app/orm/dml.go:86-88 | With empty credentials the result does not depend on the query. |
| `Authn.UserRoles` | app/authn/authn.go:33-57 | No user gives no roles. Otherwise each of the six roles is present exactly when its flag is set, every value is true, and no other key is present. |
| `Authn.NoAuthenticatedRole` | app/authn/authn.go:33-57 | `authenticated` is never among the role names. |
| `Authn.NullFlagsNoRoles` | app/authn/authn.go:38-55 | A user whose flag column is NULL gets no roles: any role map that names exactly the set flags, within the six role names, is empty. |
| `Notices.Render` | app/misc.php.go:7-28 | The output is the style's opening, the notices joined by `<br />`, then the style's closing. |
| `Notices.BannerStyles` | app/misc.php.go:9-26 | Style 1 wraps the notices in `<h4>`, and style 2 in `<h4 class="cwarn">`. Any other style has no opening and ends with `<hr />`. An empty list still gets the wrapper. |
| `Notices.JoinLength` | app/misc.php.go:15-20 | The body is the notices' total length plus one separator between each pair of neighbours. |
| `Notices.JoinSlice` | app/misc.php.go:15-20 | Each notice appears in the body, right after the notices before it and their separators. |
| `Notices.NoticeInBanner` | app/misc.php.go:7-28 | Each notice appears in the output in order, after the opening. |
| `Routes.NoticesToQueryParameters` | app/routes.go:810-822 | `("", false)` exactly when there are no notices. Otherwise it returns one `notice=` parameter per notice, holding its padded base64url encoding, joined by `&` in order. |
| `Routes.UnescapePlain` | app/routes.go:825 | Query text without `%` or `+` unescapes to itself. |
| `Routes.NoticesFromQueryParameter` | app/routes.go:823-841 | A query with no `notice` value gives "". Otherwise it gives the banner of the notices kept from the values, even when none is kept. |
| `Routes.KeptFrom` | app/routes.go:833-837 | A value is kept exactly when it is non-empty and padded base64url that decodes to something non-empty. It is kept as the decoded text. |
| `Routes.EncodingIsQuerySafe` | app/routes.go:817 | An encoded notice contains no `&`, `;`, `%` or `+`. Its unpadded part contains no `=`. |
| `Routes.ParameterPair` | app/routes.go:817 | Each parameter is read back as the key `notice` with the encoding as its value. |
| `Routes.ParameterValues` | app/routes.go:810-822 | The `notice` values of the parameters are the encodings, in order. |
| `Routes.QueryCarriesEncodings` | app/routes.go:810-825 | The query built from a non-empty list of notices yields their encodings as its `notice` values. |
| `Routes.KeptEncodings` | app/routes.go:830-839 | Reading back the encodings keeps exactly the non-empty notices, as text, in order. |
| `Routes.NoticesRoundTrip` | app/routes.go:810-841 | A redirect carrying notices shows the banner of those notices, less the empty ones. |
| `Routes.PhaseAt` | app/routes.go:322-345 | Pre-registration exactly when `now < begin`. Play exactly when `begin <= now < closing`. Closing exactly when `now` is at or past `begin` and `closing` but before `end`. Ended otherwise. |
| `Routes.Round.constructor` | app/routes.go:322-345 | A new round record has all flags false and no notice. |
| `Routes.Round.Update` | app/routes.go:322-345 | Sets the four flags from the phase, with a notice for each phase. The notice is unchanged during normal play. |
| `Routes.PhaseFlags` | app/routes.go:322-345 | For ordered round times: signup until closing, started from begin to end, closing from closing to end, finished from end on. Finished excludes the other three. |
| `Routes.PhaseMonotone` | app/routes.go:322-345 | For ordered round times, the phase only moves forward as time passes. |
| `Routes.TruncateAction` | app/routes.go:375-378 | The action keeps its first `min(len, 64)` bytes. |
| `Routes.TruncateActionIdempotent` | app/routes.go:375-378 | An action within the limit is unchanged, and truncating twice is the same as truncating once. |
| `Database.DbOpen` | app/includes.database.php.go:24-44 | Succeeds exactly when exactly one of socket and host is given and the driver is `sqlite`, `mysql` or `pgsql`. Each failure gives its own message, the endpoint checks first. On success the adapter matches the driver. |

## Left out

- HMAC-SHA-256 and JSON text: not modelled. They are the functions of `Primitives`, with the laws in `Lawful`.
- `JotTypes.Lawful` states the JSON round trip for every header and claims value. Go's `encoding/json` replaces invalid UTF-8 in a string with U+FFFD. So `IssueThenVerify`, `CookieRoundTrip`, `BearerRoundTrip` and `ClaimsRoundTrip` hold in Go only when the signer id and the role names are valid UTF-8. Signer ids are UUIDs and role names are ASCII constants, so every value the program uses qualifies.
- The Go mutexes of the factory and the session manager: not modelled. Every method is one atomic step.
- The clock and UUID generation: taken as the parameters `now` and `newId`.
  - `NewSession` takes one `now`, where Go reads the clock in each `isExpired` and again for the new expiry.
  - `NewTokenCookie` reads it once for both `iat` and `exp`.
- HTTP plumbing:
  - `Authenticator` middleware (jot.go:61-80), `User` (jot.go:82-89), `Destroy` (jot.go:91-114) and `Session_t.DeleteCookie` (sessions.go:169-177) only set cookies or move values through the request context;
  - the `Sessions` middleware is modelled as the lookup it performs.
- The unused `JOT` type (jot.go:120-146), `Version`, and `Authenticate` (authn.go:23-31), which forwards to `AuthenticatedUserFetch`: not modelled.
- `Jot.Factory.NewTokenCookie`: the errors of `Header_t.Encode`, `Claims_t.Encode` and `Sign` are not modelled. For these types they cannot occur.
- Nil and empty Go maps are both the empty map for lookups, deletes and iteration. Go panics on an assignment into a nil map, and the model has no such panic.
- `Sessions.SessionManager.constructor` stands for a session table made with `make`, which the source never shows. On the zero `SessionManager_t`, whose map is nil, `NewSession` panics at sessions.go:86 when it files a new session. The model files it instead.
- `int` and `int64` overflow in `now + ttl` is not modelled: times are unbounded integers.
- `OrmDml.EmpireFlagsToInt` is a function whose let-chain ORs the bits in the same order as the source's sequential `if`s. It is not a method. Its own contract states only that the word is never NULL, and the round-trip lemmas carry the rest.
- `Routes.Round.Update`: the text of the time notice comes from the language files, and is represented by the datatype `TimeNotice`.
- `Routes.Pair`: percent-decoding yields one `char` per decoded byte. There is no UTF-8 decoding.
- `Text`: one `char` per byte, as throughout the model.
- Database calls of `dml.go` other than `AuthenticatedUserFetch`'s query, and the generated `sqlc` code: not part of this model.
- The remaining code of `indexPhpHandler`, the PHP stubs, and logging: not part of this model.

## Findings

| source | as written | input that shows it | evidently intended | confidence | as-written member | corrected member |
|---|---|---|---|---|---|---|
| app/sessions.go:25 | The `Sessions` middleware reads the cookie `sid`. | A request carrying only the cookie that `CreateCookie` (sessions.go:151) sets, `session_id=<id>` for a live session, gets no session (`Sessions.SessionCookieNotRead`). `Destroy` (jot.go:108) also clears `session_id`. | The middleware reads `session_id`, so a live session is found again from its own cookie (`Sessions.SessionCookieRoundTrip`). | not executed | `Sessions.SessionManager.SessionFromRequestAsWritten` | `Sessions.SessionManager.SessionFromRequest` |
