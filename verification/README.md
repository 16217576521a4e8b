# whisper: authentication handlers and WebSocket echo, modelled in Dafny

This project models the parts of the `whisper` messaging backend that contain logic.

- **Bearer-token extraction** (`FirebaseAuth`). The `FirebaseAuth` request extractor reads an
  `Authorization: Bearer <token>` header, the header form of section 2.1 of RFC 6750. A missing
  or unusable header is refused with 401 and a fixed message. The token verifier is a
  function-typed parameter. Its errors become 401 with the text `"Token verification failed: "`
  followed by the error.
- **Authentication handlers** (`AuthHandlers`). This covers three things:
  - the 422/200 status rule of the two OTP endpoints;
  - the username derived from a phone number;
  - the find-or-create of a user record from verified claims, run against a users table.
- **WebSocket echo** (`WebSocket`). A loop answers each text frame with `"Echo: "` and its
  text. It stops on a close frame, a read error, the end of the stream or a failed send.

## Layout

| file | module | contents |
|---|---|---|
| wrappers.dfy | `Wrappers` | `Option`, `Result` |
| strings.dfy | `Strings` | `StartsWith`, `IsSuffix`, `Repeat` |
| http.dfy | `Http` | bytes, status codes, `Rejection` (a `(StatusCode, String)` pair) |
| auth_types.dfy | `AuthTypes` | `Claims`, `FirebaseResponse`, `FirebaseError` (record shapes) |
| firebase_auth.dfy | `FirebaseAuth` | header decoding, `trim_start_matches`, `extract_token`, the extractor |
| handlers.dfy | `AuthHandlers` | OTP status mapping, UTF-8 username slicing, find-or-create, `UsersTable` |
| ws.dfy | `WebSocket` | the `Serve` specification, its lemmas, the `Socket` class, `HandleSocket` |

Modelling choices:

- **Headers.** A header map is a map from the lower-case header name to the bytes of its first
  value. `HeaderValue::to_str` succeeds exactly when every byte is a tab or visible ASCII
  (32 to 126).
- **`trim_start_matches`.** This is a recursive function. Two lemmas characterise it:
  - `TrimStartMatchesSplits`: the input is some number of copies of the pattern followed by
    the result.
  - `TrimStartMatchesUnique`: any such split whose tail does not start with the pattern gives
    that tail.
- **`generate_username`.** It slices by UTF-8 byte offset, as Rust does. A cut that falls inside
  a character is where Rust panics, and there the model returns `None`. For ASCII phones the
  result is `"user_"` plus the last `min(4, |p|)` characters. `ByteLen` (`str::len`),
  `SaturatingSub` (`usize::saturating_sub`) and `IsBoundary` are helpers for this slice.
- **Users table.** `UsersTable` is a class holding `rows: seq<UserRecord>` and the next id the
  store hands out.
  - `VerifyTokenAndUpsertUser` is proved against the function `Upsert`. Properties such as
    idempotence are lemmas about `Upsert`.
  - The two database errors are `Option<string>` inputs. Each becomes a 500 carrying the
    error's text.
  - The clock reading is an input.
  - The table invariant `Valid()` includes one row per phone. The constructor establishes it
    and find-or-create keeps it, so which matching row `.one()` returns never matters.
    `FindByPhone` takes the first matching row.
  - The `username` column is declared unique. `Valid()` also includes one row per username.
    An insert whose derived username is already taken fails with the store's
    unique-violation error, a 500 whose text is the input `uniqueViolation`. So a new phone
    whose last four characters match a registered phone is refused.
- **Socket.** `Socket` is a class with these parts:
  - the frames still to arrive;
  - the text frames written successfully;
  - a count of send calls;
  - an oracle that decides whether the send with a given number succeeds.

  `HandleSocket` is proved against the recursive function `Serve`.

A difference between the entity declarations and the handler: `src/entity/users.rs:6-13`
declares no `phone_number` or `updated_at` column, but `src/auth/handlers.rs:55` filters on the
phone number and lines 62-73 set both columns. The model's `UserRecord` follows the handler,
since the handler is the logic being modelled. It keeps the unique constraint that
`src/entity/users.rs:9-10` declares on `username`.

## Model

| member | source | states |
|---|---|---|
| FirebaseAuth.ToStr | src/auth/firebase_auth.rs:39 | decoding succeeds iff every byte is a tab or visible ASCII; the text has the same length, with each character equal to its byte |
| FirebaseAuth.TrimStartMatches | src/auth/firebase_auth.rs:41 | the result is a suffix of the input and never itself starts with the pattern |
| FirebaseAuth.TrimStartMatchesSplits | src/auth/firebase_auth.rs:41 | the input equals `StrippedCopies` copies of the pattern followed by the result, so whole leading repetitions are removed and nothing else |
| FirebaseAuth.TrimStartMatchesUnique | src/auth/firebase_auth.rs:41 | for any `k` and any `t` not starting with the pattern, trimming `k` copies followed by `t` gives exactly `t` |
| FirebaseAuth.ExtractToken | src/auth/firebase_auth.rs:38-45 | a token is returned iff the header is present, decodes, and starts with `"Bearer "` (case-sensitive, space included); the token is a suffix of the value, at least 7 characters shorter, and does not start with `"Bearer "`; the value is at least one copy of `"Bearer "` followed by the token, so the token is exactly the value with its leading copies removed |
| FirebaseAuth.BearerTokenRoundTrip | src/auth/firebase_auth.rs:40-41 | a header `"Bearer " + t`, where `t` does not begin with `"Bearer "`, yields exactly `t` |
| FirebaseAuth.BareBearerYieldsEmptyToken | src/auth/firebase_auth.rs:40-41 | the bare value `"Bearer "` is accepted and yields the empty token |
| FirebaseAuth.RepeatedBearerStripped | src/auth/firebase_auth.rs:41 | `"Bearer Bearer " + t` yields `t`: every leading repetition is stripped, not just one |
| FirebaseAuth.LowerCaseSchemeRefused | src/auth/firebase_auth.rs:40 | `"bearer " + t` yields no token: the scheme match is case-sensitive |
| FirebaseAuth.Authenticate | src/auth/firebase_auth.rs:20-35 | no token gives (401, "Missing or invalid Authorization header"); a verifier error `e` gives (401, "Token verification failed: " + e); a verifier success returns the claims unchanged; every rejection is 401 |
| FirebaseAuth.NoTokenNeverVerifies | src/auth/firebase_auth.rs:22-25 | without a token the result does not depend on the verifier, which is never consulted |
| FirebaseAuth.VerifierSeesOnlyTheToken | src/auth/firebase_auth.rs:27-32 | the result depends on the verifier only through its answer for the extracted token |
| AuthHandlers.OtpStatus | src/auth/handlers.rs:17-23 | status is 422 iff the service reply carries an error and 200 iff it does not; the body is the reply unchanged |
| AuthHandlers.SendOtpHandler | src/auth/handlers.rs:14-24 | the response body is the service's reply to the phone number; 422 iff that reply has an error, 200 otherwise |
| AuthHandlers.VerifyOtpHandler | src/auth/handlers.rs:26-34 | the response body is the service's reply to (session, code); 422 iff that reply has an error, 200 otherwise |
| AuthHandlers.DropBytes | src/auth/handlers.rs:85 | a successful byte slice is a suffix of the input whose byte length is the input's minus the offset |
| AuthHandlers.ByteLen | src/auth/handlers.rs:85 | `phone.len()`, the UTF-8 byte length, lies between the character count and four times it |
| AuthHandlers.DropBytesOnBoundary | src/auth/handlers.rs:85 | slicing at byte `b` succeeds iff `b` is a character boundary, which is where Rust's slice does not panic |
| AuthHandlers.AsciiByteLen | src/auth/handlers.rs:85 | for ASCII text the byte length `len()` equals the character count |
| AuthHandlers.AsciiDropBytes | src/auth/handlers.rs:85 | for ASCII text every offset up to the length is a boundary, and the slice equals the character slice |
| AuthHandlers.GenerateUsername | src/auth/handlers.rs:84-86 | a username starts with `"user_"`, followed by a suffix of the phone of `min(4, byte length)` bytes |
| AuthHandlers.GenerateUsernameAscii | src/auth/handlers.rs:85 | for an ASCII phone no panic occurs: the username is `"user_"` plus the last min(4, length of p) characters (all of p when shorter, since `saturating_sub` gives 0), and its length is 5 + min(4, length of p) |
| AuthHandlers.UsernameCollision | src/auth/handlers.rs:85 | two ASCII phones of length at least 4 get the same username iff their last four characters agree |
| AuthHandlers.GenerateUsernamePanicsIff | src/auth/handlers.rs:85 | `generate_username` panics iff byte `len().saturating_sub(4)` of the phone is not a character boundary |
| AuthHandlers.GenerateUsernamePanicsOffBoundary | src/auth/handlers.rs:85 | the phone `"1é€"` (6 bytes, cut at byte 2, inside `é`) makes the slice panic |
| AuthHandlers.FindByPhone | src/auth/handlers.rs:54-58 | a row is found iff some row has the phone; the found row is in the table, has that phone, and no earlier row has it (the model's tie-break; see Left out) |
| AuthHandlers.NoPhoneRejected | src/auth/handlers.rs:49-52 | claims without a phone give (400, "No phone number in token"); the table is unchanged, and the answer is the same whatever the table holds |
| AuthHandlers.Upsert | src/auth/handlers.rs:45-82 | the cases in source order: no phone gives (400, "No phone number in token"); a find fault gives (500, its text); a found row is returned; a username slice that panics gives `Panicked`; an insert fault gives (500, its text); a username another row already holds gives (500, the store's unique-violation text); otherwise the row `NewUser(nextId, generate_username(phone), phone, now)` is appended and returned; the table changes only in that last case, and when it does not change, a successful response describes an existing row that holds the caller's phone |
| AuthHandlers.ExistingUserReturned | src/auth/handlers.rs:54-61 | in a table with one row per phone, the row holding the phone is returned with every field copied, and the table is unchanged |
| AuthHandlers.FirstMatchReturned | src/auth/handlers.rs:54-61 | when several rows hold the phone, the model returns the first of them, with every field copied, and the table is unchanged |
| AuthHandlers.NewUserCreated | src/auth/handlers.rs:62-81 | when no row holds an ASCII phone, no row has its derived username, and neither database call fails, exactly one row is appended: the next id, `generate_username(phone)`, that phone, `created_at == updated_at == now`; the response copies that row |
| AuthHandlers.UpsertKeepsPhonesUnique | src/auth/handlers.rs:54-73 | find-or-create never adds a second row for a phone already present |
| AuthHandlers.UpsertKeepsUsernamesUnique | src/entity/users.rs:9-10 | find-or-create never inserts a username some row already has, as the unique column requires |
| AuthHandlers.SharedLastFourRejected | src/auth/handlers.rs:62-73 | a new ASCII phone whose last four characters match those of a phone the handler already registered gets (500, the unique-violation text), and the table is unchanged |
| AuthHandlers.UpsertKeepsIdsFresh | src/auth/handlers.rs:62-73 | a new row gets an id above every existing one, and the next id moves past it |
| AuthHandlers.UpsertOnlyAppends | src/auth/handlers.rs:54-81 | existing rows are kept in place and at most one row is added; a row is added only on success, and the response then describes that row |
| AuthHandlers.UpsertIdempotent | src/auth/handlers.rs:54-73 | after a successful find-or-create, a second one for the same claims returns the same user and changes nothing |
| AuthHandlers.UsersTable.VerifyTokenAndUpsertUser | src/auth/handlers.rs:45-82 | the outcome and the new table are exactly `Upsert` of the old table; it keeps `Valid()` (fresh ids, one row per phone, one row per username) and only appends |
| WebSocket.Serve | src/ws.rs:15-36 | at most all frames are read; the send count is the echoes plus one failed send; a failed send is on a text frame; the loop stops early only after reading a frame |
| WebSocket.FirstStop | src/ws.rs:17-31 | the index of the first close frame or read error: no earlier frame stops the loop |
| WebSocket.EchoAllAppend | src/ws.rs:19-22 | echoing a concatenation is the concatenation of the echoes |
| WebSocket.EchoAllLength | src/ws.rs:19-22 | an unhindered echo server sends exactly one echo per text frame |
| WebSocket.EchoesInOrder | src/ws.rs:19-22 | the echoes written are the echoes of the text frames read, in arrival order; when the last send failed, only its echo is missing |
| WebSocket.StopsAtFirstStop | src/ws.rs:17-31 | no frame after the first close frame or read error is read |
| WebSocket.CloseEndsLoop | src/ws.rs:29-31 | with a close frame at position `i`, at most `i + 1` frames are read, so no later frame is echoed |
| WebSocket.OtherIgnored | src/ws.rs:33 | a frame that is neither text nor close changes nothing except the count of frames read |
| WebSocket.FailedSendEndsLoop | src/ws.rs:21-26 | every send before the last succeeded; the loop ended on a failed send iff more sends were tried than echoes written, and then that send's oracle said no and its frame was text |
| WebSocket.EchoCount | src/ws.rs:17-34 | never more echoes than text frames; when every send succeeds, the echoes are exactly those of the text frames before the first stop event |
| WebSocket.AllSentTextsAreEchoes | src/ws.rs:19-22 | every frame written is `"Echo: "` followed by the text of some inbound text frame |
| WebSocket.Socket.Next | src/ws.rs:17 | returns the next inbound frame and removes it, or `None` at the end of the stream; the sent frames are untouched |
| WebSocket.Socket.Send | src/ws.rs:21-23 | the send succeeds as the oracle says for this attempt number; only a success reaches the peer; the attempt count goes up by one |
| WebSocket.HandleSocket | src/ws.rs:15-36 | the frames sent are the old ones followed by `Serve(...).echoed`; exactly `Serve(...).consumed` frames are read and `Serve(...).attempts` sends are made |

## Left out

- `verify_firebase_token` (src/auth/firebase_auth.rs:47-78) fetches signing keys over HTTPS, reads an environment variable and decodes an RS256 JWT. It is network access plus a cryptographic library, so `Authenticate` takes the verifier as a parameter.
- The OTP service calls (src/auth/service.rs) are HTTP requests with an environment-variable panic. They are function-typed parameters of `SendOtpHandler` and `VerifyOtpHandler`.
- Database errors are inputs to `Upsert`, not behaviour of a modelled database. Each is an optional error text that becomes a 500 with that text (`internal_error`). The text of the store's unique-violation error comes from the database driver, not from this code, so it is the parameter `uniqueViolation`. When an insert meets both a fault of its own and a taken username, the model reports the fault.
- Store-assigned ids are modelled as a counter that advances only on a successful insert. The `i32` range is not modelled. A real sequence may also skip values after a failed insert.
- `Utc::now()` is an input timestamp.
- `FindByPhone`: when several rows share a phone, the database's `.one()` returns an unspecified one, and the model takes the first. `Valid()` rules such tables out for the modelled table. `FirstMatchReturned` states the tie-break explicitly.
- Concurrent requests are out of scope. Two simultaneous find-or-creates for the same phone can both miss the lookup. Both then insert the same derived username, so under the unique `username` column the second insert fails with a 500. When the phone's username slice panics, neither request inserts. The model runs one request at a time.
- Async scheduling and logging (`info!`) are out of scope.
- A header name carrying several values is out of scope. The map keeps only the first value, which is what `HeaderMap::get` returns.
- What happens after a handler panics is not modelled. The outcome is `Panicked`, and the connection handling that follows is out of scope.
- Routing, bootstrap, ORM entity declarations and the `messages` and `blocked_users` tables are wiring or declarations with no logic.
