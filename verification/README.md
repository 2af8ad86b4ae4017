# Table-check service: cookie, session and request-field layer

The service is a single HTTP function (`index.js`) that lets staff look up and record
which table a guest's phone number is seated at. This project models the part of it
that is logic rather than plumbing:

- `parseCookies`, the lenient reader of the `Cookie` request header;
- `buildCookie` and the two writers built on it, `setSessionCookie` and
  `clearSessionCookie`, which issue and withdraw the `session` cookie;
- `requireSession`, the gate in front of the table routes, with its three
  outcomes (not signed in, invalid session, admitted), plus the URIError that
  escapes it;
- the request-body checks of the sign-up, sign-in, lookup and upsert handlers:
  alias chains (`a || b || c || ''`), string coercion, trimming, the 400 replies
  and the 403 admin-secret check.

`encodeURIComponent` and `decodeURIComponent` are modelled in full. The encoder
works over UTF-8 octets and `%XY` escapes. The decoder can fail, which stands for
the URIError: on a stray `%`, a bad hex digit, a truncated sequence, an overlong
form, a surrogate or a value past U+10FFFF.

Modules:

- `Wrappers`: `Option`, `Result` and the `Reply(status, message)` a handler sends.
- `JsText`: the ECMAScript string built-ins the code uses (`trim`, `split`,
  `join`, `indexOf`, `String(n)`).
- `UriCodec`: the percent codec.
- `Cookies`: `parseCookies` as a pipeline of functions, and `buildCookie` as a
  method that appends to a local `parts` list, proved against the flat line
  `SetCookieLine`.
- `SessionGate`: the gate as a decision function (`Gate`) and as a class
  `Exchange`. Its methods update the request and response state (`req.user`, the
  reply, the `Set-Cookie` header, the verifier calls, the runs of `next`).
- `RequestFields`: JSON body values, truthiness, `String(v)` and the handler
  checks.

The environment settings `COOKIE_SECURE` and `COOKIE_SAMESITE` become a
`CookieConfig` parameter. Firebase's `verifySessionCookie` and
`createSessionCookie` become function parameters that return `None` when they
throw.

Three behaviours of `index.js` the model keeps as written:

- A segment without `=` keeps its name undecoded.
- An empty `session` cookie counts as not signed in.
- A malformed escape anywhere in the `Cookie` header throws out of
  `requireSession` instead of giving a 401, because the parse runs before the
  `try`.

## Model

| member | source | states |
|---|---|---|
| UriCodec.DecodeEncode | index.js:43 | decoding the encoding of any string gives that string back |
| UriCodec.EncodeInjective | index.js:66 | distinct values have distinct encodings |
| UriCodec.EncodeAvoidsDelimiters | index.js:66 | an encoded value holds no `;`, no `=` and no white space |
| UriCodec.Encode | index.js:66 | the encoder writes only unescaped code points and `%` |
| UriCodec.Decode | index.js:43 | a successful decode is never longer than its input |
| UriCodec.IncompleteEscapesFail | index.js:43 | `%`, `%zz`, `%C3` and `%C3%` make the decoder throw |
| UriCodec.OverlongEscapeFails | index.js:43 | the overlong form `%C0%80` makes the decoder throw |
| UriCodec.SurrogateEscapeFails | index.js:43 | the UTF-8 form of a surrogate makes the decoder throw |
| UriCodec.BeyondUnicodeEscapeFails | index.js:43 | four octets past U+10FFFF make the decoder throw |
| UriCodec.DecodeEscapedSpace | index.js:43 | `hello%20world` decodes to `hello world` |
| UriCodec.DecodePlain | index.js:43 | text without `%` decodes to itself |
| JsText.TrimIdempotent | index.js:38 | trimming twice is trimming once |
| JsText.TrimIsMiddle | index.js:38 | `trim` keeps a middle slice, drops only white space around it, and what it keeps neither starts nor ends with white space |
| JsText.SplitThenJoin | index.js:37 | joining the pieces of `split(';')` with `;` gives the header back |
| JsText.SplitAround | index.js:37 | splitting `a;b` gives the pieces of `a` followed by those of `b` |
| JsText.IndexOf | index.js:41 | `indexOf` finds the first occurrence, and is -1 exactly when there is none |
| JsText.DecimalRoundTrip | index.js:75 | the decimal rendering of a natural number reads back as that number; the `Max-Age` values the code writes, 604800 and 0, are natural numbers |
| Cookies.ParseAround | index.js:34-45 | parsing `a;b` merges the cookies of `a` and `b`, those of `b` winning, and fails when either part fails |
| Cookies.ParsePiece | index.js:36-44 | a part without `;` has no cookie when it trims to empty, else the one entry of its trimmed text |
| Cookies.EmptyHeader | index.js:34 | the empty header, which is what an absent header defaults to, has no cookies |
| Cookies.BlankSegmentIgnored | index.js:38-39 | an empty or blank segment between two parts adds nothing and removes nothing |
| Cookies.BlankParsesEmpty | index.js:38-39 | a part made only of white space has no cookies |
| Cookies.TrailingSeparatorIgnored | index.js:37-39 | a trailing `;` changes nothing |
| Cookies.LaterCookieWins | index.js:35 | when a name repeats, the value of the later occurrence is kept |
| Cookies.RepeatedSolidPair | index.js:35 | `n=x;n=y` with plain values is the single cookie `n = y` |
| Cookies.MalformedSegmentFailsHeader | index.js:43 | a segment that fails to decode fails the whole header, whatever the other segments hold |
| Cookies.EntryAtFirstEquals | index.js:41-43 | a segment is cut at its first `=`; both halves are decoded and the entry fails when either fails |
| Cookies.EntryWithoutEquals | index.js:42 | a segment without `=` is its text, undecoded, with the empty value |
| Cookies.ParsePair | index.js:36-44 | `name=value` after white space is the cookie `name` whose value is the decoded value without trailing white space, or a failure when that does not decode |
| Cookies.ParseBarePair | index.js:36-44 | the same without leading white space |
| Cookies.ParseSolidPair | index.js:36-44 | `name=value` with a value free of white space, `;` and `%` is that one cookie, value unchanged |
| Cookies.ParseFlag | index.js:42 | a bare word after white space is a cookie with the empty value |
| Cookies.ExampleHeader | index.js:34-45 | `a=1; b=hello%20world; novalue` gives a = `1`, b = `hello world` and novalue = `` |
| Cookies.ExampleSecondEquals | index.js:41-43 | `a=b=c` gives a = `b=c` |
| Cookies.ExampleRawName | index.js:42 | `a%zz` gives the cookie `a%zz` with the empty value; nothing is decoded, so nothing fails |
| Cookies.ExampleRepeatedName | index.js:35 | `session=a;session=b` gives session = `b` |
| Cookies.ExampleMalformedValue | index.js:43 | `session=%zz` makes the parse throw |
| Cookies.BrokenEscapeFails | index.js:43 | any plain name with the value `%zz` makes the parse throw |
| Cookies.BuildCookie | index.js:64-78 | the `parts` list, with `Secure` appended when configured and `Max-Age` appended when a number is given, joins to the line `name=enc(value); Path=/; HttpOnly; SameSite=policy[; Secure][; Max-Age=n]` |
| Cookies.EchoedPair | index.js:34-45 | the pair `name=enc(value)` sent back in a `Cookie` header reads as `value`, for every value |
| Cookies.SetCookieRoundTrip | index.js:64-78 | parsing a whole written line gives the cookie with its value, next to `Path`, `HttpOnly`, `SameSite`, and `Secure` and `Max-Age` exactly when they were written |
| Cookies.SessionNameIsPlain | index.js:83 | `session` is a name the parser reads back as written |
| SessionGate.Exchange.RequireSession | index.js:47-60 | the parse fails exactly when the gate throws. On a throw nothing changes. With no credential: 401 `Not signed in`, the verifier is not called and `next` does not run. A rejected credential: one verifier call, 401 `Invalid session`, no `next`. An accepted one: one verifier call, `req.user` is the verified identity, `next` runs exactly once and no reply is sent. The `Set-Cookie` header is untouched |
| SessionGate.Exchange.Respond | index.js:49-59 | the same outcomes for a header that has already been parsed |
| SessionGate.Exchange.SetSessionCookie | index.js:80-84 | minting asks for seven days in milliseconds. When it succeeds, the one `Set-Cookie` line is the session line with `Max-Age=604800`. When it throws, no header is written. The rest of the state is unchanged |
| SessionGate.Exchange.ClearSessionCookie | index.js:86-88 | the one `Set-Cookie` line is the session line with the empty value and `Max-Age=0`; nothing else changes |
| SessionGate.Exchange.constructor | index.js:47 | a fresh request: no user, no reply, no `Set-Cookie`, no verifier call, no handler run |
| SessionGate.MissingHeaderNotSignedIn | index.js:48-51 | a request without a `Cookie` header is not signed in |
| SessionGate.NoSessionNotSignedIn | index.js:49-51 | a header with no non-empty `session` cookie is not signed in, whatever the verifier says |
| SessionGate.MalformedHeaderThrows | index.js:47-53 | a header with an undecodable segment throws out of the gate, whatever session cookie it also carries |
| SessionGate.StrayCookieLocksOut | index.js:43-48 | a valid session cookie followed by `x=%zz` does not get in: the gate throws |
| SessionGate.EchoedSessionDecision | index.js:47-60 | the echoed pair `session=enc(t)` is not signed in when `t` is empty, invalid when the verifier rejects `t`, and admitted as the verifier's identity when it accepts `t` |
| SessionGate.EarlierCookiesIgnored | index.js:48-50 | cookies before the session cookie, as long as they parse, do not change the decision |
| SessionGate.SignedOutNotSignedIn | index.js:86-88 | what the browser sends after sign-out (`session=` or nothing) is not signed in |
| SessionGate.IssuedPairFirst | index.js:64-77 | the first `;`-separated piece of any written line is the encoded pair |
| SessionGate.IssuedCookieAdmits | index.js:47-55 | the pair sign-in writes, sent back, admits the identity the verifier finds for the minted credential |
| SessionGate.ClearedLine | index.js:87 | the sign-out line has the bare pair `session=` and is the line without `Max-Age` followed by `; Max-Age=0` |
| RequestFields.FirstTruthy | index.js:209-214 | the chain's result is one of the alternatives when truthy; it is falsy exactly when every alternative is, and then it is `''` |
| RequestFields.FirstTruthyAt | index.js:209-214 | the chain yields the first truthy alternative, whatever comes after it |
| RequestFields.AliasText | index.js:209-215 | the normalised text is already trimmed |
| RequestFields.AliasChosen | index.js:209-215 | for any alias list, when alias `k` is the first truthy one the text is that field converted and trimmed, whatever later aliases hold |
| RequestFields.AliasNoneEmpty | index.js:209-215 | for any alias list, with no truthy alias the text is empty |
| RequestFields.ThreeAliases | index.js:247-254 | a chain of three aliases, converted and trimmed, gives `a`'s text when `a` is truthy, else `b`'s when `b` is, else `c`'s when `c` is, else `''` |
| RequestFields.LookupRequest | index.js:209-218 | 400 `phoneNumber is required` exactly when the trimmed phone text is empty; otherwise the store is keyed on exactly that text, `PhoneText(body)`, non-empty and trimmed |
| RequestFields.UpsertRequest | index.js:241-259 | 400 `phoneNumber and tableNumber are required` exactly when either trimmed text is empty; otherwise the record is exactly `(PhoneText(body), TableText(body))`, both non-empty and trimmed |
| RequestFields.EmailText | index.js:164 | the e-mail text is the `email` field, or `''`, converted and trimmed, so it is already trimmed (the same expression is line 112) |
| RequestFields.PasswordText | index.js:165 | the password text is the `password` field converted to a string, untrimmed, when that field is truthy, and `''` otherwise (the same expression is line 113) |
| RequestFields.Credentials | index.js:164-170 | 400 `email and password are required` exactly when the trimmed e-mail text or the password text is empty; otherwise exactly those two texts (sign-up repeats the check at lines 112-118) |
| RequestFields.SignupRequest | index.js:109-118 | 403 `Forbidden` exactly when a non-empty admin secret is configured and the header differs from it |
| RequestFields.PhoneNumberPreferred | index.js:210 | a truthy `phoneNumber` is used, trimmed, whatever `phone` and `phone_no` hold |
| RequestFields.PhoneFallback | index.js:211 | with `phoneNumber` falsy, a truthy `phone` is used |
| RequestFields.PhoneLastFallback | index.js:212 | with both falsy, a truthy `phone_no` is used |
| RequestFields.NoPhoneRefused | index.js:209-217 | with no truthy alias the lookup is refused with 400 |
| RequestFields.TableChain | index.js:247-259 | the table text is `tableNumber`'s, else `table`'s, else `table_no`'s, the first truthy one converted and trimmed; with none truthy the upsert is refused with 400 |
| RequestFields.BlankPhoneNumberShadows | index.js:210-217 | a `phoneNumber` of white space is truthy, shadows a usable `phone`, and the lookup is refused |
| RequestFields.NumericPhone | index.js:209-215 | a non-zero numeric phone number of magnitude at most 2^53 is used as its decimal digits |
| RequestFields.UpsertNeedsLookup | index.js:241-259 | the upsert is refused exactly when the lookup would be or the table text is empty, and it keys on the same phone |
| RequestFields.PasswordKeptAsSent | index.js:164-165 | the e-mail address is trimmed but the password is kept as sent, white space included |
| RequestFields.MissingCredentialRefused | index.js:164-170 | a falsy password, or an e-mail address made only of white space, is refused with 400 whatever the other field holds |
| RequestFields.SignupAsSignin | index.js:109-118 | without a secret, or with the matching header, sign-up checks the body exactly as sign-in does |
| RequestFields.ForbiddenWhateverBody | index.js:109-110 | a wrong or missing secret is refused before the body is read |

## Left out

- Firebase Admin, Firestore reads and writes, and the Identity Toolkit `fetch` calls of
  sign-up and sign-in: foreign library calls and network I/O. The session verifier and
  minter are function parameters. Nothing is stored.
- HTTP routing, CORS headers (`allowAnyOrigin`, `pickOrigin`), `res.status().json()`
  framing, `console.error` logging and async sequencing: plumbing with no state of its
  own that the modelled logic reads. A reply is a `(status, message)` pair.
- The startup check that throws when `FIREBASE_WEB_API_KEY` is unset. It also makes the
  500 branch of sign-in unreachable, so that branch is not modelled. The admin secret
  and cookie settings are parameters, not environment reads: any `CookieConfig` is
  allowed, and the defaults `index.js` applies (`Secure` unless `COOKIE_SECURE` is
  `false`, `SameSite=None` when `COOKIE_SAMESITE` is unset or empty) are not modelled.
- Several `Set-Cookie` headers on one response, and a `Cookie` header repeated by the
  client: one header value each.
- Lone surrogates: Dafny strings hold Unicode scalar values, so a string with a lone
  surrogate, which makes `encodeURIComponent` throw, cannot be written down.
- Numbers in request bodies are integers, and `String(n)` is taken to write their
  exact digits. That holds up to 2^53 in magnitude. Past it, a JSON number is rounded
  to a double and `String(n)` writes the shortest digits that round back to it (2^60
  gives `1152921504606847000`); such numbers are not modelled, so `NumericPhone` is
  stated up to 2^53 only. Fractions, `NaN`, `-0` and exponent notation, and how
  `String(n)` renders them, are not modelled either. Neither is `Max-Age` given a
  non-integral number.
- An object in a request body converts to `[object Object]`. A custom `toString` is
  not modelled.
- A request body that is not an object, where `req.body.email` itself throws and
  the handler answers 500, is not modelled.
- The sign-up and sign-in handlers after their checks (user creation, token exchange,
  error replies from the Identity Toolkit), and the lookup and upsert handlers after
  theirs (the 404, the record written): these are store and network steps.
- Ticket counters, now-serving tracking and order placement: `index.js` has no such
  code.
- Cookies.SetCookieRoundTrip: stated only for names that parse back as written and
  for a `SameSite` policy without `;` or `%`. A policy with `;` would add cookies of
  its own, and one with `%` could fail to decode.
