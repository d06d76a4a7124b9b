# Credential service model

A Dafny model of the authentication service of oxy-services (`auth/internal/server/server.go`).
It covers the three RPCs the server exposes: `Register`, `Login` and `VerifyToken`. They run over a
MongoDB collection of user records, the bcrypt password hasher and the jwt-go token library.
The model also covers the claims builder `generateJWT`.

- `wrappers.dfy`: `Option`, `Result` and the gRPC status `Code`s the service returns.
- `bcrypt.dfy` (module `Bcrypt`): `GenerateFromPassword` and `CompareHashAndPassword`.
  A hash is the `$2a$10$` prefix, a 22-character salt and a digest.
  The model lets the password itself stand for the digest. That makes the digest collision-free, which is what the service relies on.
  The salt comes from the random source, which is a parameter; `None` means reading it failed.
- `jwt.dfy` (module `Jwt`): signing methods, claims, signed tokens and `Parse`.
  `Parse` gives the key function only the header's signing method.
  A signature is represented by the key, method and claims it was computed over, which assumes HMAC cannot be forged.
- `store.dfy` (module `Store`): the user collection as a class `Collection` holding an ordered `seq<User>`.
  It has `CountDocuments`, `FindOne` and `InsertOne`, plus the specification functions `Count` and `Lookup`.
  MongoDB enforces no uniqueness here, so "at most one record per username" (`Unique`) is a property Register is proved to keep.
- `server.dfy` (module `AuthServer`): the class `Server` with `collection` and `secretKey`.
  `Register` changes the collection in place (`modifies collection`).
  `Login` only reads it: it has no `modifies` clause, so the verifier checks that it never writes the store.
  `VerifyToken` and `GenerateJwt` are pure functions.

External inputs are parameters of the calls that use them:
- the clock (`now`, in Unix seconds);
- the bcrypt salt (`random`);
- the failure of each database call (`countFails`, `insertFails`, `findFails`);
- whether jwt-go accepts the claims (`claimsValid`, which stands for its internal `exp` check; see "## Left out" for how the model reports a rejection).

Each method in server.go declares an unnamed receiver `(*server)` but uses `s` in its body: server.go:33, 36, 69, 73, 88, 99 and 105.
As written, the file does not compile.
The model gives the methods the evidently intended receiver `s`, the `Server` object.

Four behaviours of the code worth noting, which the model keeps:
- A token that cannot be parsed at all gets `Internal`, not a separate "malformed" kind (server.go:108-113).
- A token with a non-HMAC method gets `Internal`, not `Unauthenticated`. The key function's error is not the signature-invalid sentinel (server.go:102-113).
- Any error from `CompareHashAndPassword` gets `InvalidArgument`, including a malformed stored hash (server.go:83-85).
- No expiry check is added to `VerifyToken`: the code has none beyond the library's (server.go:115-118).

## Model

| member | source | states |
|---|---|---|
| Bcrypt.GenerateFromPassword | auth/internal/server/server.go:45-49 | Hashing fails exactly when the random source fails. A hash it returns carries the drawn salt and verifies against the password it was made from. |
| Bcrypt.HashMatchesOnlyItsPassword | auth/internal/server/server.go:82-85 | A fresh hash verifies a candidate if and only if the candidate is the hashed password. |
| Bcrypt.CompareHashAndPassword | auth/internal/server/server.go:83 | A match requires a well-formed hash (the `$2a$10$` prefix and a full salt) whose digest is the candidate's. A malformed hash matches no candidate. |
| Bcrypt.SaltsSeparateHashes | auth/internal/server/server.go:46 | The same password hashed under two different salts gives two different strings. |
| Jwt.Sign | auth/internal/server/server.go:144-147 | A signed token carries the given method and claims and is signed with the given key. |
| Jwt.SignedWith | auth/internal/server/server.go:100-110 | The signature check inside the parser: a token passes under a key only if its signature was computed with that very key over its own header method and claims. This is the assumption that HMAC cannot be forged. |
| Jwt.Parse | auth/internal/server/server.go:100-113 | Parse yields a token exactly when the key function returns a key and the signature is that key's. It yields the signature error exactly when a key is returned but the signature does not match. Otherwise it yields another error. The returned claims and validity are the token's own. |
| Store.Count | auth/internal/server/server.go:35-36 | The number of documents with a username is at most the collection's size, and zero exactly when no document has that username. |
| Store.Lookup | auth/internal/server/server.go:71-73 | The document found is in the collection and has the requested username. Nothing is found exactly when no document has that username. |
| Store.UniqueCountsAtMostOne | auth/internal/server/server.go:35-43 | In a collection with unique usernames, no username counts more than once. |
| Store.UniqueAfterAppend | auth/internal/server/server.go:52-57 | Appending a record under an unused username keeps usernames unique. |
| Store.LookupAfterAppend | auth/internal/server/server.go:52-60 | After a record under an unused username is appended, finding that username gives the new record. Finding any other username gives what it gave before. |
| Store.Collection.CountDocuments | auth/internal/server/server.go:35-39 | A failing call returns the database error. Otherwise the result is the number of documents with the username. |
| Store.Collection.FindOne | auth/internal/server/server.go:71-80 | A failing call returns the database error. A missing username returns ErrNoDocuments. Otherwise the result is the first document with the username. |
| Store.Collection.InsertOne | auth/internal/server/server.go:57-60 | A failing insert reports an error and leaves the collection unchanged. A successful one appends exactly the record. |
| AuthServer.GenerateJwt | auth/internal/server/server.go:137-153 | The token is HS256, signed with the secret, and its claims are exactly `username` (the given name) and `exp` (now plus 86400 seconds). |
| AuthServer.UsernameClaim | auth/internal/server/server.go:120-127 | The `username` claim is returned only when the claims are a claim map holding a string under `username`. A missing claim, a non-string claim or non-map claims give None. |
| AuthServer.KeyFunc | auth/internal/server/server.go:100-106 | The secret is handed out exactly for HMAC signing methods. Every other method gets an error. |
| AuthServer.SecretWithheldFromNonHmac | auth/internal/server/server.go:100-113 | For a token with a non-HMAC method, the parse fails with a non-signature error, and the outcome is the same whatever the secret is. |
| AuthServer.Server.NewServer | auth/internal/server/server.go:26-31 | The server holds the given collection and secret. |
| AuthServer.Server.Register | auth/internal/server/server.go:33-67 | A failing count gives Internal. A username already present gives AlreadyExists. A failed hash or insert gives Internal. Every failure leaves the store unchanged. Success happens exactly when all steps pass. It appends exactly one record (username, hash of the password, email), keeps all other records, and returns "User registered successfully". Unique usernames stay unique. |
| AuthServer.Server.Login | auth/internal/server/server.go:69-97 | A failing lookup gives Internal. No record gives NotFound. A password that does not verify gives InvalidArgument. Success happens exactly when the record exists and the password verifies. The result is then the username's 24-hour token under the server secret and "Login successful". The store is not written. |
| AuthServer.Server.VerifyToken | auth/internal/server/server.go:99-135 | Unparsable and non-HMAC tokens give Internal. A bad signature gives Unauthenticated. A token the library judges invalid, or with non-map claims, gives Unauthenticated. A missing or non-string `username` gives Internal. Success with Valid=true and the username happens exactly when every check passes. |
| AuthServer.IssuedTokenVerifies | auth/internal/server/server.go:99-153 | A token issued by the claims builder with the server's secret verifies to the username it was issued for. |
| AuthServer.ForeignSecretRejected | auth/internal/server/server.go:100-110 | A token issued with any other secret is rejected with Unauthenticated. |
| AuthServer.TamperedClaimsRejected | auth/internal/server/server.go:100-110 | A signed HMAC token whose claims are altered is rejected with Unauthenticated. |
| AuthServer.RegisterLoginVerify | auth/internal/server/server.go:33-135 | On an unused username, Register then Login with the same password yields a token that verifies to the username. Login with a different password gives InvalidArgument. If usernames were unique before, the username now has exactly one record. |

## Left out

- Error message texts (`fmt.Sprintf` details): only the status code of each failure is modelled. The success messages are modelled.
- Logging (server.go:62) and the Mongo `ObjectID`, which is opaque and used only for that log line.
- `auth/cmd/auth_server/main.go`: flag parsing, the non-empty URI and secret check at startup, the MongoDB connection, the TCP listener and gRPC serving are process plumbing.
- Concurrency: calls are modelled one at a time. The check-then-insert race between two concurrent Registers of one username is therefore not modelled.
- `context.Context` cancellation and deadlines: a database call that fails for any reason is the `fails` parameter.
- Store.Collection.InsertOne: a failing insert is taken to write nothing. An insert that times out after the write landed is not modelled.
- Store.Collection.FindOne: among duplicate usernames the model returns the first in insertion order. MongoDB promises no order. Register preserves uniqueness when calls run one at a time (`Unique` in Register's ensures).
- Bcrypt.CompareHashAndPassword: only hashes with the `$2a$10$` prefix are recognised. Other versions and costs, bcrypt's one-wayness and its constant-time comparison are not modelled.
- Bcrypt.GenerateFromPassword: fails only when the random source fails. Newer versions of the library also refuse a password longer than 72 bytes (ErrPasswordTooLong). With such a version, Register with a longer password gives Internal (server.go:46-49), whereas the model's Register succeeds.
- Bcrypt.HashMatchesOnlyItsPassword: the "only if" half holds because the model's digest is the whole password. Real bcrypt (in versions without the length check) ignores bytes past the 72nd. So a candidate that agrees with the stored password on its first 72 bytes also verifies, and Login then succeeds where the model gives InvalidArgument.
- JWT wire format (base64url, JSON, HMAC-SHA256 itself) and JSON number decoding (jwt-go reads `exp` back as a float64): tokens are modelled as structured values.
- jwt-go's claims validation behind `token.Valid`: it is the `claimsValid` input, and no explicit expiry check is added because the service has none.
- Jwt.Parse: reports claims the library rejects (an expired token, say) as `Parsed(false, _)`, which VerifyToken maps to Unauthenticated (server.go:116-118). jwt-go v3's published parser instead returns a validation error in that case, so such a token would reach server.go:112 and get Internal, and lines 116-118 and the `!token.Valid` half of line 121 would be unreachable. The library's source is not part of this model.
- Whether jwt-go returns `jwt.ErrSignatureInvalid` unwrapped (server.go:109): the model takes a signature mismatch to be reported as that sentinel.
- AuthServer.GenerateJwt: returns no error, so Login's `Internal` branch for a failed signing (server.go:89-91) cannot be reached in the model. HMAC signing with a byte-slice key cannot fail.
- The secret is a string, not the byte slice `[]byte(secretKey)`. The model does no text encoding.
