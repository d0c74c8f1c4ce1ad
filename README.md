# jotserver authentication core in Dafny

A model of the authentication core of jotserver, a small Go HTTP service.
The service registers accounts, checks logins and issues JSON Web Tokens
(RFC 7519) signed with HMAC-SHA256 (HS256, section 3.2 of RFC 7518). The
tokens open a restricted resource.

- `wrappers.dfy` (module `Wrappers`): `Option` and `Result`.
- `data.dfy` (module `Data`) models `data/data.go`.
  - The `users` table is the class `Database`, which holds a sequence of
    rows `(id, name, digest)`. `CreateDB` is its constructor and
    `CreateUser` is a method that appends a row in place.
  - `IsRegisteredUser` and `IsValidLogin` are functions over the rows. Both
    go through `SelectId`, which models `select id ... where ...` read
    through `rows.Next()`: the first matching row in table order, or the
    sentinel -1.
  - Ids follow SQLite's rule for an `integer primary key`: one more than
    the largest id present, or 1 in an empty table.
  - `GetHash` is SHA-256 of the salt `"usaltybro?"` followed by the
    password. SHA-256 itself is a parameter `sha` that returns a 32-byte
    digest. No such function is collision-free on all inputs, so a property
    that needs two passwords to hash apart assumes only that `sha` does not
    collide on those two salted messages (`NoCollision`).
- `jwt.dfy` (module `Jwt`) models what the handlers use from the JWT
  library.
  - `SignedString` builds the compact form: the fixed HS256 header segment,
    the claims segment and the signature segment, joined by `.`.
  - `Parse` models `jwt.Parse` with a key function that always returns the
    signing key. A token with a bad structure fails at once. Otherwise the
    expiry check, the not-before check and the signature check all run,
    and their failures add up as a set of flags in one validation error.
  - Base64url, JSON and HMAC are the abstract fields of a `Codec`.
    `Sound(codec)` states what is assumed of them: claims round-trip, HS256
    signing succeeds, and no segment contains `.`.
- `requests.dfy` (module `Requests`) models `requests/requests.go`.
  - `NewAuthToken` issues a token with the claims `id` = user and
    `exp` = now + 1200 seconds.
  - `AllowCrossOrigin` is the OPTIONS pre-check.
  - `AuthHandler` and `RestrictedHandler` are functions. They return a
    `Response`: a status code and a payload, or `NoResponse` when nothing
    is written. `AuthHandler` reads the table and has no way to change it.
    `RestrictedHandler` is not given the table at all.
  - `AccessResponse` is the status choice `RestrictedHandler` makes on the
    outcome of `jwt.Parse`.
  - `RegisterHandler` is a method that changes the `Database` through
    `CreateUser`.
  - The clock is the parameter `now`, in Unix seconds. A failed INSERT is
    the parameter `execErr`.

Where the code and the design description differ, the model follows the
code:
- A token with a bad signature gets 500 "Error parsing token!", not 401.
  So does a malformed token.
- Only an error whose single flag is expiry gets 401. A token that is both
  expired and badly signed gets 500.
- Validation errors add up as flags. They are not three exclusive outcomes
  checked in order.

## Model

| member | source | states |
|---|---|---|
| `Data.GetHash` | data/data.go:104-109 | The stored digest is SHA-256 of the salt "usaltybro?" followed by the password, and is always 32 bytes. |
| `Data.GetHashInjective` | data/data.go:104-109 | The digest is a function of the password alone. When the hash does not collide on the two salted messages, two passwords give the same digest exactly when they are equal; the shared salt cannot hide a difference. |
| `Data.NextId` | data/data.go:12-19 | The id given to an inserted row is at least 1 and larger than every id already in the table. |
| `Data.InsertKeepsInvariant` | data/data.go:49-62 | Appending a row for a name not yet present, under the next id, keeps ids positive and distinct and names unique. |
| `Data.SelectId` | data/data.go:72-82 | The query cursor returns -1 when no row matches the condition. Otherwise it returns the id of a row that matches. |
| `Data.IsRegisteredUser` | data/data.go:65-83 | Returns -1 when no row has the name, and otherwise the id of a row with that name. On a table kept by `CreateUser`, it returns -1 exactly when the name is absent. |
| `Data.IsValidLogin` | data/data.go:84-102 | Returns -1 when no row has both the name and `GetHash(pw)`, and otherwise the id of such a row. On a table kept by `CreateUser`, it returns -1 exactly when no row matches. An unknown name and a wrong password give the same -1. |
| `Data.LoginAfterInsert` | data/data_test.go:44-58 | After the row for `(name, pw)` is appended, `IsValidLogin(name, pw)` returns that row's id, which is not -1. |
| `Data.WrongPasswordRefused` | data/data.go:84-95 | For a registered user, a password whose digest differs from the stored one gets -1. |
| `Data.OtherPasswordRefusedAfterInsert` | data/data_test.go:60-62 | Any other password for a just-created user gets -1, unless the hash collides on the two salted passwords. |
| `Data.Database.CreateDB` | data/data.go:41-47 | Creating the table leaves it empty and valid. |
| `Data.Database.CreateUser` | data/data.go:49-63 | Returns true exactly when the name was absent and the INSERT succeeded. On true, the table gains exactly `(NextId, name, GetHash(pw))` at its end and every earlier row is unchanged. On false, the table is unchanged. Uniqueness of names and ids is preserved. |
| `Data.UserWorkflow` | data/data_test.go:28-62 | On a fresh table: "ersin" is unknown, is then created, "bob" stays unknown, "ersin"/"coffee" logs in with the registered id, and "ahuuehueh" does not log in unless the hash collides on the two salted passwords. |
| `Jwt.SignedString` | requests/requests.go:33-38 | Signing fails only when the HS256 signature cannot be computed. A signed token starts with the HS256 header segment and is longer than it. |
| `Jwt.TimeFlags` | requests/requests.go:158-160 | The expiry flag is raised exactly when `exp` is present and `now > exp`. The not-before flag is raised exactly when `nbf` is present and `now < nbf`. |
| `Jwt.Parse` | requests/requests.go:158-160 | A token parses with no error exactly when it has three segments, its header names an algorithm, its claims decode, the signature segment equals the signature of the first two segments under the key, and neither time check fails; the token then carries the decoded claims and is valid. Otherwise a validation error carries at least one flag. No other kind of error is produced. |
| `Jwt.ParseSignedString` | requests/requests.go:158-160 | A token signed with a key parses back, under that key, to its own claims. Its only possible errors are the time checks. |
| `Jwt.ParseForgedSignature` | requests/requests.go:158-160 | Replacing a token's signature segment with anything but the correct signature gives a validation error at any time: the signature-invalid flag for a single segment, the malformed flag alone when the replacement contains `.`. Expiry is never the only flag. |
| `Requests.IssuedClaims` | requests/requests.go:33-36 | An issued token's claims are `id` = user and `exp` = issue time + 1200 seconds, with no not-before time. |
| `Requests.NewAuthToken` | requests/requests.go:32-39 | With sound encodings, token issuance never fails, and the token is at least 32 characters long. |
| `Requests.IssuedTokenClaims` | requests/requests.go:14-16 | An issued token carries `id` = user and `exp` = issue time + 1200. It parses as valid up to `exp` and fails with expiry as its only flag afterwards. |
| `Requests.AllowCrossOrigin` | requests/requests.go:66-74 | The handler goes on exactly when the method is not OPTIONS. |
| `Requests.BadMethodReasonAsWrittenOnGet` | requests/requests.go:91 | As written, a GET gets "ERROR: expected a POST but recieved %!(EXTRA string=GET)", which is not the intended message. |
| `Requests.BadMethodReasonAsWrittenMisplacesMethod` | requests/requests.go:91 | As written, the 400 message for a non-POST never ends with the method received (for any method not ending in ')'). |
| `Requests.BadMethodReason` | requests/requests.go:91 | Corrected message: it ends with the method received. |
| `Requests.AuthHandler` | requests/requests.go:80-131 | A handler that writes nothing is exactly an OPTIONS request. Any other method but POST gets 400 with the message as written. A POST whose body does not decode gets 400 "Error: request was not parsable " and the decoder's error. A 200 is given only to a POST with a decodable body whose user and password digest are stored in some row. That 200 carries the token issued for that user. The handler cannot change the table. |
| `Requests.AuthenticateOutcome` | requests/requests.go:110-129 | On a table kept by `CreateUser`, a POSTed credential gets 200 with a token exactly when a row holds that name and digest, and otherwise 403 "Username or Password is not valid". An unknown user and a wrong password get the same answer. |
| `Requests.AuthenticateAfterRegister` | requests/requests_test.go:35-65 | After a successful registration of `(user, pw)`, authenticating with the same credentials gets 200 and a token for that user. |
| `Requests.AccessResponse` | requests/requests.go:162-193 | 200 exactly for a parsed, valid token, and then it echoes the presented token. An error with expiry as its only flag gets 401 "Token Expired, get a new one.". Any other validation error gets 500 "Error parsing token!". A non-validation error gets 500. |
| `Requests.RestrictedHandler` | requests/requests.go:133-194 | Writes nothing exactly for OPTIONS. Any other method but POST gets 400 "Expected post". A POST whose body does not decode gets 400 "Error: expected a better request " and the decoder's error. A decoded POST gets the status `AccessResponse` chooses for the outcome of parsing its token under the signing key. Gives 200 only to a POST whose token parses with no error under the signing key, and the 200 echoes the token string. It has no access to the table. |
| `Requests.IssuedTokenGrantsAccess` | requests/requests.go:158-172 | A token from `newAuthToken` opens the restricted area (200, echoing the token) at any time up to its expiry. |
| `Requests.IssuedTokenExpires` | requests/requests.go:174-181 | After its 20 minutes, the same token gets 401 "Token Expired, get a new one.". |
| `Requests.ForgedTokenRefused` | requests/requests.go:183-188 | An issued token with its signature segment replaced by anything else, `.` included, gets 500 "Error parsing token!" at any time: never 200, and never the expiry 401. |
| `Requests.RegisterHandler` | requests/requests.go:196-252 | OPTIONS writes nothing. A non-POST gets 400, and so does an undecodable body. A taken name gets 409 "user already exists". A failed INSERT gets 500. Otherwise the table gains exactly the new user's row and the answer is 201 with the token for that user. The post-create login never fails. The table is unchanged on every path that does not create the user. |
| `Requests.RegisterAuthenticateVisit` | requests/requests_test.go:67-156 | On a fresh table: registering "ersin" gets 201 with a token of at least 32 characters. Authenticating then gets 200. The login token opens the restricted area, which echoes it. A wrong password gets 403 unless the hash collides on the two salted passwords. |

## Findings

| source | as written | input that shows it | evidently intended | confidence | as-written member | corrected member |
|---|---|---|---|---|---|---|
| requests/requests.go:91 | `fmt.Sprintf` is given the method but its format has no verb, so Go appends `%!(EXTRA string=GET)` to the 400 message | a GET to the authenticate handler | "ERROR: expected a POST but recieved GET" | high (documented behaviour of Go's fmt); not executed | `Requests.BadMethodReasonAsWrittenOnGet`, `Requests.BadMethodReasonAsWrittenMisplacesMethod` (on `Requests.BadMethodReasonAsWritten`, which `Requests.AuthHandler` uses) | `Requests.BadMethodReason` |

## Left out

- The SQL engine is replaced by the in-memory table. This leaves out query errors and the nil cursor that follows them, `log.Fatal` on scan errors, and `data.DB`'s connection handling.
- `Data.NextId`: SQLite's random choice of a rowid once the largest rowid reaches 2^63-1 is not modelled. Ids are unbounded integers.
- Concurrency is not modelled: two registrations of the same name racing between the existence check and the INSERT. The model is sequential.
- SHA-256, HMAC-SHA256, base64url and JSON are abstract functions (`sha`, `Jwt.Codec`). The byte encoding of Go strings is folded into `sha`.
- `Jwt.Parse`: jwt-go reports a header naming a registered algorithm that cannot use a byte key (RSA, ECDSA) as an invalid signature. The model reports it as unverifiable. The handler answers 500 to both.
- `Jwt.Parse`: the signature segment is compared as text with the expected segment. Non-canonical base64 spellings of the same bytes are not modelled. `exp` and `nbf` are whole seconds; float64 rounding of JSON numbers is not modelled.
- `Requests.AccessResponse` covers the two branches of the handler that `Jwt.Parse` never produces: a parsed token that is not valid (401 "Token not valid") and an error that is not a validation error (500 "Token parse error").
- HTTP transport is not modelled: CORS and Content-Type headers, JSON encoding of the response, and the empty 200 that Go's server sends when a handler writes nothing.
- Logging is not modelled, including the digest that `AuthHandler` and `IsValidLogin` write to the log.
- main.go (flags, signals, statsd, `ListenAndServe`) is not part of this model.
- The tests' temporary-database helpers are not modelled. Neither is data/data_test.go:64, which does not compile.
