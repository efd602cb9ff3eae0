# Asset service: sessions, owner-scoped stores and the request boundary

This project models the core of a small Go web service that stores binary
"assets" per user behind bearer-token authentication, and proves properties
of that model in Dafny.

- **Authentication** (`internal/service/auth_service.go`). `Login` checks a
  login/password pair against the stored MD5 hex hash. It then deletes every
  session of the user and inserts one new session whose id is a 32-character
  hex token. `ValidateToken` accepts a token whose session is at most 24 hours
  old.
- **Stores** (`internal/repository/*.go`). The three repositories are classes
  holding their table as a sequence of rows. The SQL statements they issue
  are given meaning by `Sql.Where`, `Sql.DeleteWhere` and `Sql.QueryRow`.
  Each repository has an `online` flag; every statement fails with a
  connection error when it is false. The two uniqueness constraints the
  service relies on are modelled: the session id primary key and the unique
  user login.
- **Request boundary** (`internal/handlers/asset.go`). Bearer-token
  extraction, asset-name extraction with Go's `strings.Split` semantics, and
  the four asset handlers. Each handler is a decision function from a request
  and the two tables to a response and the new asset table.
- **Encoding** (`pkg/utils/hashing.go`). Lowercase hex encoding, the Base16
  alphabet of section 8 of RFC 4648 in lower case, proved invertible. MD5 is
  a digest function passed in as a parameter. The token generator fills a
  byte buffer from a random source given as the bytes it delivers before
  failing.

Time is an explicit `now` argument in nanoseconds, the resolution of Go's
`time.Duration`.

Modules: `Models` (records), `Sql` (WHERE semantics), `Utils` (hashing.go),
`Repository` (the three repositories), `Service` (auth_service.go),
`Handlers` (asset.go), `Scenario` (the end-to-end login / upload / re-login
flow).

## Model

| member | source | states |
|---|---|---|
| Sql.Where | internal/repository/asset_repo.go:48-51 | `SELECT ... WHERE cond` yields exactly the rows meeting `cond` (no more rows than the table); it is empty exactly when no row meets `cond` |
| Sql.DeleteWhere | internal/repository/session_repo.go:50-55 | after `DELETE ... WHERE cond`, exactly the rows not meeting `cond` remain |
| Sql.QueryRow | internal/repository/session_repo.go:32-45 | QueryRow then Scan returns a stored row meeting the condition; it fails exactly when the store is unreachable or no row meets it, with ErrNoRows in the latter case |
| Sql.QueryRowDistinct | internal/repository/user_repo.go:22-33 | when the condition pins a key that is unique in the table, QueryRow returns exactly the row holding it |
| Utils.EncodeToString | pkg/utils/hashing.go:13 | hex encoding yields two characters per byte, all in `[0-9a-f]` |
| Utils.DecodeEncode | pkg/utils/hashing.go:25 | decoding the hex of any byte string gives back those bytes: high nibble first, then low nibble |
| Utils.EncodeDecode | pkg/utils/hashing.go:13 | every even-length lowercase hex string is the encoding of the bytes it decodes to, so the alphabet is exactly lowercase hex |
| Utils.EncodeInjective | pkg/utils/hashing.go:13 | two byte strings have the same encoding if and only if they are equal |
| Utils.Md5Hash | pkg/utils/hashing.go:11-14 | the hash is 32 lowercase hex characters that decode to the 16-byte digest of the input |
| Utils.Md5HashCompare | pkg/utils/hashing.go:11-14 | two hashes are equal exactly when the digests are equal, which is the comparison Login relies on |
| Utils.TokenFrom | pkg/utils/hashing.go:19-26 | a token is produced exactly when the random source delivers `n` bytes; it is 2n lowercase hex characters decoding to those bytes; the error is EOF exactly when nothing was read, UnexpectedEOF otherwise |
| Utils.GenerateToken | pkg/utils/hashing.go:19-26 | the buffer-filling loop returns TokenFrom's token, or `""` together with the read error |
| Repository.Listing | internal/repository/asset_repo.go:47-66 | the listing holds one entry per asset of the owner, each with that owner's uid and the data column not loaded, and every asset of the owner appears in it |
| Repository.ListingSnoc | internal/repository/asset_repo.go:57-65 | scanning one more row appends that row, without its data, exactly when it belongs to the owner |
| Repository.SessionRepository.constructor | internal/repository/session_repo.go:17-19 | the modelled repository starts over an empty session table, whose ids are trivially unique; the Go constructor only wraps a pool over whatever the database holds, and every other contract holds for any valid table |
| Repository.SessionRepository.Create | internal/repository/session_repo.go:22-29 | on success the table gains exactly the given row (id, uid, ip, created_at) and nothing else; a duplicate id (UniqueViolation) or an unreachable store (ConnectionFailure) leaves it unchanged; ids stay unique |
| Repository.SessionRepository.FindByID | internal/repository/session_repo.go:32-46 | returns a session with that id; fails exactly when none exists or the store is unreachable; modifies nothing |
| Repository.SessionRepository.DeleteByUID | internal/repository/session_repo.go:50-56 | the table becomes exactly the rows with another uid; no match is not an error |
| Repository.SessionRepository.DeleteExpired | internal/repository/session_repo.go:60-63 | the table becomes exactly the rows created at or after the cutoff |
| Repository.FindByIdUnique | internal/repository/session_repo.go:32-45 | with unique ids, FindByID of a stored session's id returns that session |
| Repository.DeleteByUidScope | internal/repository/session_repo.go:50-56 | after DeleteByUID(u) no row of u remains, and the rows of every other uid are unchanged, in order |
| Repository.DeleteByUidIdempotent | internal/repository/session_repo.go:50-56 | DeleteByUID is idempotent, and deleting when no row matches leaves the table unchanged |
| Repository.AssetRepository.constructor | internal/repository/asset_repo.go:16-18 | the modelled repository starts over an empty asset table; the Go constructor only wraps a pool over whatever the database holds, and every other contract holds for any table |
| Repository.AssetRepository.CreateAsset | internal/repository/asset_repo.go:21-28 | on success the row is appended and existing rows are unchanged, with no uniqueness check on (name, uid) |
| Repository.AssetRepository.GetAsset | internal/repository/asset_repo.go:31-44 | returns a row matching both name and uid; fails exactly when none matches or the store is unreachable; modifies nothing |
| Repository.AssetRepository.ListAssets | internal/repository/asset_repo.go:47-67 | the scan loop returns exactly `Listing` of the table; modifies nothing |
| Repository.AssetRepository.DeleteAsset | internal/repository/asset_repo.go:70-73 | the table becomes exactly the rows not matching both name and uid; no match is not an error |
| Repository.CreateThenGetAsset | internal/repository/asset_repo.go:21-44 | after inserting an asset with no earlier (name, uid) row, GetAsset(name, uid) returns it, data included |
| Repository.GetAssetSeesOnlyOwner | internal/repository/asset_repo.go:31-44 | GetAsset(name, uid) gives the same answer on the whole table as on uid's rows alone, so it never returns another user's row |
| Repository.ListingSeesOnlyOwner | internal/repository/asset_repo.go:47-51 | the listing for uid depends only on uid's rows |
| Repository.DeleteAssetScope | internal/repository/asset_repo.go:70-73 | after DeleteAsset(name, u) no (name, u) row remains and every other owner's rows are unchanged |
| Repository.UserRepository.constructor | internal/repository/user_repo.go:16-18 | the modelled repository starts over an empty user table with the id sequence at 1; the Go constructor only wraps a pool over whatever the database holds, and every other contract holds for any valid table |
| Repository.UserRepository.FindByLogin | internal/repository/user_repo.go:22-34 | returns a user whose login equals the argument; fails exactly when no row has that login or the store is unreachable; modifies nothing |
| Repository.UserRepository.CreateUser | internal/repository/user_repo.go:38-44 | inserts login, password hash and created_at under the next id from the table's own sequence, ignoring the caller's id; a taken login is a UniqueViolation and changes nothing; ids and logins stay unique |
| Repository.UserRepository.GetUserByID | internal/repository/user_repo.go:47-59 | returns the user with that id; fails exactly when none exists or the store is unreachable; modifies nothing |
| Repository.FindByLoginUnique | internal/repository/user_repo.go:22-33 | with unique logins, FindByLogin of a stored user's login returns that user |
| Repository.CreateUserThenFind | internal/repository/user_repo.go:38-44 | after CreateUser with a new login, FindByLogin returns the created user under the assigned id |
| Service.Authenticate | internal/service/auth_service.go:36-45 | the credential check returns a stored user with that login whose stored hash equals Md5Hash(password); every failure is "invalid login/password" |
| Service.Validate | internal/service/auth_service.go:76-88 | an accepted session is stored under the token and at most `ttl` old; "invalid token" is returned exactly when the token is absent or the store is unreachable; otherwise the error is "session expired" |
| Service.AuthService.constructor | internal/service/auth_service.go:22-28 | the service holds the two repositories, and its session lifetime is 24 hours |
| Service.LoginEffect | internal/service/auth_service.go:34-72 | bad credentials give "invalid login/password" with the table untouched; a failed Login never adds a row and leaves the table either untouched or with exactly the user's sessions deleted; a successful one needs valid credentials, a reachable store for both statements and 16 random bytes, returns a 32-digit lower-case hex token, and its last row is the new session (token, user id, ip, now) |
| Service.AuthService.Login | internal/service/auth_service.go:34-72 | the method changes the session table exactly as `LoginEffect` says: nothing on bad credentials, delete then insert on success, and the delete kept when a later step fails; it returns the token on success, or `""` with the error; session ids stay unique |
| Service.AuthService.ValidateToken | internal/service/auth_service.go:76-88 | the answer is `Validate` of the current table with the 24-hour lifetime; it modifies nothing, so repeated calls at the same `now` agree |
| Service.AuthenticateExact | internal/service/auth_service.go:36-45 | with unique logins and a reachable store, the credential check succeeds if and only if a user with that login stores the hash of that password |
| Service.UnknownLoginLikeWrongPassword | internal/service/auth_service.go:36-45 | an unknown login and a wrong password give the identical outcome: "invalid login/password" with the session table untouched |
| Service.LoginSucceeds | internal/service/auth_service.go:34-72 | right password, reachable stores and a fresh 16-byte token give success; the user's old sessions are replaced by one session holding the token |
| Service.LoginLeavesOneSession | internal/service/auth_service.go:48-71 | after a successful Login the user has exactly one session, holding the returned token, the caller's ip and created_at = now; every other user's sessions are unchanged |
| Service.LoginKeepsInvariants | internal/service/auth_service.go:47-69 | Login, whatever its result, keeps session ids unique and at most one session per user |
| Service.LoginFailureAfterCredentials | internal/service/auth_service.go:48-69 | a failed delete returns the store error with the table untouched; any failure after the delete leaves the user with no session and every other user's sessions exactly as they were, and the error names the step: a token error exactly when fewer than 16 random bytes arrive, a connection failure exactly when the INSERT cannot reach the store, a uniqueness violation exactly when the INSERT reaches it with a taken token |
| Service.LoginTokenAccepted | internal/service/auth_service.go:54-88 | the token Login returns is accepted until 24 hours after login and refused as expired after that |
| Service.SecondLoginRevokesFirst | internal/service/auth_service.go:48-80 | after a second successful Login by the same user, the first token is refused as "invalid token" |
| Service.ValidateExpiry | internal/service/auth_service.go:76-88 | for a stored session with unique ids: "session expired" if and only if now − created_at > ttl; otherwise the session itself is returned |
| Service.ExpiryBoundary | internal/service/auth_service.go:83-85 | a session exactly 24 hours old is accepted; one nanosecond older, it has expired |
| Service.SweepRemovesOnlyExpired | internal/repository/session_repo.go:60-63 | DeleteExpired(now − ttl) turns exactly the tokens ValidateToken calls expired into unknown ones; every other answer is unchanged |
| Handlers.HasPrefix | internal/handlers/asset.go:193 | true exactly when the string is the prefix followed by some rest |
| Handlers.TrimPrefix | internal/handlers/asset.go:196 | with the prefix present the result is what follows one copy of it; otherwise the input is unchanged |
| Handlers.Split | internal/handlers/asset.go:44 | the path splits into one more part than it has `/` characters, and no part contains `/` |
| Handlers.JoinSplit | internal/handlers/asset.go:44 | joining the parts with `/` gives back the path |
| Handlers.SplitJoin | internal/handlers/asset.go:44 | splitting the join of `/`-free parts gives back the parts |
| Handlers.BearerToken | internal/handlers/asset.go:191-196 | a token is extracted exactly when the header starts with `"Bearer "`, and the header is `"Bearer "` followed by the token |
| Handlers.BearerTokenExact | internal/handlers/asset.go:192-196 | the token is `t` if and only if the header is exactly `"Bearer " + t` |
| Handlers.BearerTokenCases | internal/handlers/asset.go:192-196 | `"Bearer "` yields the empty token; `"bearer abc"` and `"Bearer"` are refused, so the check is case-sensitive and needs the space; only one prefix is removed |
| Handlers.CheckAuth | internal/handlers/asset.go:190-198 | without the prefix the result is the no-cookie refusal; with it, the trimmed token goes to ValidateToken and its verdict comes back: refused exactly when ValidateToken refuses, "invalid token" exactly when the token is not stored or the store is unreachable; on success the header is `"Bearer "` + session id, and the session is stored and live |
| Handlers.CheckAuthStoredSession | internal/handlers/asset.go:190-198 | with unique ids and a reachable store, `"Bearer "` + id of a stored session is accepted, giving that session, up to 24 hours after its creation, and refused as "session expired" after |
| Handlers.NoBearerNoLookup | internal/handlers/asset.go:193-195 | without the prefix the answer is the same refusal for every session table and time, so no lookup happens |
| Handlers.AssetName | internal/handlers/asset.go:44-50 | a name is extracted exactly when the path has at least two `/`, i.e. splits into at least 3 parts; the name contains no `/` |
| Handlers.AssetNameLast | internal/handlers/asset.go:44-50 | for `dir + "/" + name` with a `/`-free name, the extracted name is `name` exactly when `dir` contains a `/`; otherwise the path is rejected |
| Handlers.AssetNameSuffix | internal/handlers/asset.go:50 | an extracted name is always the text following some `/` of the path |
| Handlers.AssetNameTrailingSlash | internal/handlers/asset.go:44-50 | `/api/asset/` yields the empty name, which is not rejected |
| Handlers.AssetNameShortPath | internal/handlers/asset.go:45-49 | `/health` splits into two parts and is rejected |
| Handlers.UploadAsset | internal/handlers/asset.go:34-80 | 401 when auth fails; 400 "bad request" without a name; 400 "failed to read body" without a body; 500 "failed to save asset" when the store is unreachable; "ok" exactly when all four succeed, and then exactly one row is appended, with the extracted name, the session's uid, the body and created_at = now; any other answer leaves the table unchanged |
| Handlers.GetAsset | internal/handlers/asset.go:84-114 | 401 when auth fails; 400 without a name; otherwise content exactly when the store is reachable and holds an asset of the caller with that name, the content being that asset's data, and 404 "not found" in every other case |
| Handlers.ListAssets | internal/handlers/asset.go:118-148 | 401 when auth fails; 500 "failed to list assets" when the store is unreachable; otherwise the listing of the caller's assets in table order, each without its data |
| Handlers.DeleteAsset | internal/handlers/asset.go:152-186 | 405 for any method but DELETE; then 401 when auth fails, 400 without a name, 500 "failed to delete asset" when the store is unreachable; "ok" exactly when all succeed, and then the new table is exactly the old one without the session user's assets of that name, every other row kept with its count and order; any other answer leaves the table unchanged |
| Handlers.UnauthorizedWhateverPath | internal/handlers/asset.go:36-50 | a request failing checkAuth gets 401 from every handler whatever its path and body, and changes nothing |
| Handlers.MethodCheckedFirst | internal/handlers/asset.go:154-165 | DeleteAsset answers 405 to any other method, whatever the token, and changes nothing |
| Handlers.GetSeesOnlyOwnRows | internal/handlers/asset.go:84-114 | GetAsset's answer depends only on the rows owned by the session's user |
| Handlers.ListSeesOnlyOwnRows | internal/handlers/asset.go:118-148 | ListAssets' answer depends only on the rows owned by the session's user |
| Handlers.UploadTouchesOnlyOwnRows | internal/handlers/asset.go:61-74 | UploadAsset leaves every other user's rows exactly as they were |
| Handlers.DeleteTouchesOnlyOwnRows | internal/handlers/asset.go:168-181 | DeleteAsset leaves every other user's rows exactly as they were |
| Handlers.UploadThenGet | internal/handlers/asset.go:61-113 | an upload followed by a GET of the same name with a live token returns the uploaded bytes, when the user had no asset of that name |
| Handlers.UploadThenList | internal/handlers/asset.go:61-145 | after a successful upload the caller's listing is the previous listing with the new asset, without its data, at the end |
| Handlers.DeleteThenGet | internal/handlers/asset.go:103-185 | after a successful delete, a GET of the same name by the same user answers 404 |
| Scenario.UploadPathName | internal/handlers/asset.go:44-50 | `/api/upload-asset/report.txt` names `report.txt` |
| Scenario.AssetPathName | internal/handlers/asset.go:94-100 | `/api/asset/report.txt` names `report.txt` |
| Scenario.BearerOfNewSession | internal/handlers/asset.go:190-198 | a freshly inserted session admits `"Bearer " + id` while it is live |
| Scenario.AliceScenario | internal/service/auth_service.go:34-88 | login gives T1; upload with T1 succeeds; GET with T1 returns the bytes; a second login gives T2; GET with T1 is then 401; GET with T2 returns the same bytes |

## Left out

- The MD5 algorithm (RFC 1321) is a parameter `sum`, any function to 16 bytes. Only properties that hold for every digest function are proved.
- `crypto/rand` is the sequence of bytes the reader delivers before it returns `io.EOF`. A reader that fails with another error would have that error passed through by `io.ReadFull` unchanged; the model knows only EOF and UnexpectedEOF.
- Wall-clock time and Go's monotonic clock are left out. Every operation takes `now`.
- `time.Since` saturates on overflow; the model uses unbounded integers instead. So do the `int64` user ids, which are not wrapped either.
- Foreign keys (`uid references users.id`) are not modelled. Session and asset rows may name any uid.
- Statement errors other than an unreachable store and the two uniqueness constraints are not modelled: timeouts, cancelled contexts, a `Scan` failure part-way through the ListAssets loop (asset_repo.go:60-63). Since `rows.Err()` is never checked, a connection lost mid-scan would give 200 with a truncated list; the model lists every owned row.
- Repository.AssetRepository.ListAssets, Repository.AssetRepository.GetAsset, Sql.QueryRow: rows come back in table (insertion) order. PostgreSQL promises no order, so the model fixes one of the orders the source allows.
- Repository.UserRepository.CreateUser: the id sequence advances only on a successful insert. A PostgreSQL sequence also advances on a failed one, so the model pins one of the possible ids.
- The handlers' 500 answer when `json.Marshal` fails (asset.go:136-143) is not modelled; JSON encoding is out of scope. So is the wire form of an empty listing: the source sends a nil slice, encoded as `{"assets":null}`, where the model answers `Listed([])`.
- Request headers are taken after HTTP parsing, as the handler receives them. Go's header reader strips trailing whitespace (section 5.5 of RFC 9110), so the `"Bearer "` case of Handlers.BearerTokenCases arrives on the wire as `"Bearer"` and is refused.
- Log lines, response headers, `Content-Type` and the exact bytes `http.Error` writes are not modelled. A response is its status and error text, or its payload.
- The login handler (internal/handlers/auth.go) is not part of this model: JSON decoding, `net.SplitHostPort`, and the mapping of every Login error to one 401 answer.
- The route table and the GET/DELETE dispatch in internal/handlers/handlers.go are not part of this model. DeleteAsset's own 405 check is modelled.
- cmd/main.go, internal/config/config.go and internal/db/pgx.go are not part of this model (server start, environment, connection pool).
- Service.LoginEffect: the new session's created_at is `now` at nanosecond resolution. PostgreSQL's timestamp keeps microseconds, so a row read back can be up to 999 ns older than `now`; the model does not truncate.
- Service.LoginTokenAccepted: states the 24-hour boundary against the untruncated `now`. With PostgreSQL's microsecond timestamps the real cut-off can fall up to 999 ns earlier. The same holds for Service.ExpiryBoundary, which is exact for the stored created_at.
- Service.AuthService.Login: the session repository's reachability is one flag that the call does not change, so the method covers the case where the DELETE and the INSERT see the same store state. LoginEffect takes the INSERT's reachability as its own argument, and the Login lemmas cover a connection lost between the two statements.
- Concurrent Logins by the same user are not modelled. Every operation runs alone, in sequence.
- Scenario.AliceScenario: takes the two request paths as parameters that must name `report.txt`. UploadPathName and AssetPathName prove this for the literal paths separately, to keep the string unrolling out of the main proof.
