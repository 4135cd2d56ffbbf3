# OTP account lifecycle of the user router

This project models the account logic of `routes/userRouters.js` in a small
Express/MongoDB user-management service: signup with an emailed one-time
password (OTP), OTP login that issues a bearer token, the `authenticate`
middleware, and reading and updating the profile. The user collection is a
sequence of `User` records in insertion order. Each request is one atomic step
from a collection to a `Reply`: the new collection, the response, and the mail
queued for sending.

Everything outside the router's own logic becomes an input:
- the clock (`now`, in milliseconds);
- the three random OTP bytes;
- the new document's `ObjectId`;
- the bcrypt salt and key-derivation function (`Kdf`);
- the JWT signature primitive (`Mac`).

Modules, one per component:
- `Common`: `Option`, `byte` and `ObjectId`.
- `Hex`: `Buffer.toString('hex')` and a strict decoder, its inverse.
- `Header`: JavaScript's `String.prototype.replace` with a string pattern and a replacement without `$` patterns, and `Bearer ` stripping.
- `Jwt`: `sign`/`verify` over an abstract MAC. A token is `<hex id>.<signature>`.
- `Bcrypt`: the `$2b$10$` modular-crypt output of `bcrypt.hash(password, 10)`.
- `Store`: the `User` record, `findOne` as the first match in natural order, and `findById`.
- `Router`: the handlers `Signup`, `Login`, `Authenticate`, `GetProfile` and `UpdateProfile`.
- `Lifecycle`: request traces and the properties that span several requests.

Login comes in three forms:
- `Router.LoginAsWritten` is the handler as written. Its body fields may be strings, an explicit `null`, query-operator objects, or missing.
- `Router.Login` is the same handler restricted to string fields.
- `Router.LoginChecked` is the corrected handler, which refuses any field that is not a string. See "Findings".

A body field the request does not carry is `undefined` in the handler. The router cannot decide what MongoDB receives for it. With the driver's default (`ignoreUndefined` unset, as in `server.js`), the key is sent as `null`, and `null` matches only a record whose field is missing or null. With `ignoreUndefined: true`, or a Mongoose that strips `undefined` keys from filters, the key is left out and places no condition. `Router.UndefinedValues` names the two cases (`SentAsNull`, `Dropped`). The handler as written takes it as a parameter.

The request traces in `Lifecycle` take a `LoginMode` and serve login through either the handler as written, under either treatment of `undefined`, or the checked one. The trace lemmas hold for all three.

Behaviour of the router that is easy to misread:
- Login accepts an OTP at the very instant it expires, because the query uses `$gte`.
- A request without an `Authorization` header does not get a 401. `undefined.replace` throws outside the `try`, so the model answers `Thrown(MissingHeader)`.
- Signing up again with the same email appends a new document and leaves the earlier one in place. `findOne` then answers from the oldest matching one.
- The profile update always writes both `username` and `email`.
- `replace('Bearer ', '')` removes the first occurrence anywhere in the header, not only a leading prefix. A bare token with no `Bearer ` is accepted too.

## Model

| member | source | states |
|---|---|---|
| Hex.ToHex | routes/userRouters.js:13 | Hex rendering of the random bytes: two characters per byte, all of them in `[0-9a-f]`. Three bytes give a six-character OTP. |
| Hex.DecodeEncode | routes/userRouters.js:13 | Decoding the hex rendering gives back the original bytes. |
| Hex.EncodeDecode | routes/userRouters.js:13 | Every string the decoder accepts is exactly the rendering of the bytes it decodes to. |
| Hex.ToHexInjective | routes/userRouters.js:13 | Different byte strings never render to the same OTP. |
| Header.StripBearer | routes/userRouters.js:51 | `replace('Bearer ', '')` on the header: a header that starts with `Bearer ` yields the rest of it. A header with no `Bearer ` anywhere is returned unchanged. A header with `Bearer ` somewhere is exactly seven characters shorter. |
| Header.ReplaceFirst | routes/userRouters.js:51 | `replace` with a string pattern: an absent pattern leaves the string unchanged. Otherwise only its first occurrence is replaced. |
| Header.StripBearerPrefix | routes/userRouters.js:51 | A `Bearer <token>` header yields exactly `<token>`. |
| Header.StripBearerAbsent | routes/userRouters.js:51 | A header without `Bearer ` passes through unchanged, so a bare token is presented as is. |
| Header.StripBearerInside | routes/userRouters.js:51 | `Bearer ` is removed even when it is not at the start of the header. |
| Jwt.Verify | routes/userRouters.js:53 | Verification accepts only a token whose signature part is the MAC of its payload part under the given secret. |
| Jwt.Sign | routes/userRouters.js:42 | The token for an id is the 24-character hex rendering of the id, a `.`, and the MAC of that hex payload under the secret. The payload decodes back to the id. |
| Jwt.VerifySigned | routes/userRouters.js:42 | A token signed for an id verifies under the same secret and yields that id. |
| Jwt.VerifyOnlySigned | routes/userRouters.js:53 | If a token verifies to an id, the token is exactly the one signed for that id with that secret. |
| Jwt.VerifyOtherSecret | routes/userRouters.js:53 | A token signed with another secret is rejected, provided the MAC distinguishes the two secrets. |
| Bcrypt.Hash | routes/userRouters.js:12 | The stored hash always starts with version `2b` and cost factor 10. |
| Bcrypt.HashIsNotPlaintext | routes/userRouters.js:12 | The stored hash differs from the plaintext password unless that password itself starts with `$2b$10$`. |
| Store.FindFirst | routes/userRouters.js:35 | `findOne` returns the first record in store order that satisfies the query, or nothing when no record does. |
| Store.OtpQuery | routes/userRouters.js:35 | The login filter `{ email, otp, otpExpiry: { $gte: now } }` with string fields: it accepts only a record with exactly that email and OTP. It rejects a record with no expiry or one before `now`. It accepts every record with that email and OTP whose expiry is at or after `now`, including exactly `now`. |
| Store.FindById | routes/userRouters.js:63 | `findById` returns a record with that id, or nothing when no record has it. |
| Store.FindByIdUnique | routes/userRouters.js:63 | With distinct ids, `findById` finds the one record carrying the id. |
| Router.Redeemed | routes/userRouters.js:38-39 | Clearing `otp` and `otpExpiry` on a matched record changes no other field. The result has both cleared together, and no login filter, whatever its body fields and treatment of `undefined`, ever matches it. |
| Router.Signup | routes/userRouters.js:10-30 | Signup appends exactly one record and leaves earlier records unchanged. The new record has the given username and email and the bcrypt hash of the password. Its OTP is the hex of the random bytes, six lowercase hex characters. Its expiry is `now + 600000`. One mail goes to the email, carrying the OTP. A duplicate id throws, changes nothing and sends nothing. |
| Router.Login | routes/userRouters.js:33-47 | Login issues a token iff some record has that email, that OTP and an expiry at or after `now`. On success, the first such record gets its OTP and expiry cleared, and nothing else changes. The token carries that record's id. Any failure is the same 401 `Invalid or expired OTP` and leaves the store unchanged. |
| Router.RawQuery | routes/userRouters.js:34-35 | The login filter built from unchecked body fields. It never matches a record with no expiry. On string fields it is `Store.OtpQuery`. With `otp` an explicit `null`, or missing and sent as `null`, it matches only records with no OTP. An `otp` of `{ "$ne": v }` matches every pending record with that email whose OTP is not `v`. |
| Router.LoginAsWritten | routes/userRouters.js:33-47 | Login exactly as written, with body fields placed in the query unchecked. It issues a token iff some record matches the resulting query. On success, the first matching record gets its OTP and expiry cleared and nothing else changes. The token carries that record's id, and no mail is queued. Otherwise the reply is the uniform 401 with the store unchanged. |
| Router.LoginAsWrittenOnStrings | routes/userRouters.js:34-47 | When both body fields are strings, the as-written handler is exactly `Login`. |
| Router.LoginAsWrittenWithoutOtp | routes/userRouters.js:34-35 | Counterexample: an `otp` of `{ "$ne": "" }` logs in as any user with a pending OTP, while the guess `""` is refused. |
| Router.LoginAsWrittenMissingOtp | routes/userRouters.js:34-35 | Counterexample, conditional on the driver. When `undefined` keys are dropped from the filter (`Dropped`: `ignoreUndefined: true`, or a Mongoose that strips them), a body without `otp` logs in as a user with that email and a pending OTP. A body with neither field logs in as a user with any pending OTP. When `undefined` is sent as `null` (`SentAsNull`, the driver's default), the same body without `otp` gets 401. |
| Router.MissingOtpRefusedWhenSentAsNull | routes/userRouters.js:34-35 | When `undefined` is sent as `null` (the driver's default), a login body without `otp` gets the uniform 401 with the store unchanged. This holds on every collection whose records have OTP and expiry set or cleared together. |
| Router.NullOtpRefused | routes/userRouters.js:34-35 | A login body with `"otp": null` gets the uniform 401 with the store unchanged, whatever the driver does with `undefined`. This holds on every collection whose records have OTP and expiry set or cleared together. |
| Router.LoginChecked | routes/userRouters.js:33-47 | Corrected login: it issues a token only when both fields are strings and some record holds exactly that email and OTP. Otherwise the reply is the uniform 401 with the store unchanged. On string fields it is `Login`. |
| Router.Authenticate | routes/userRouters.js:50-59 | A missing header throws. Otherwise the request is authorized as an id exactly when the header, with its first `Bearer ` removed, is the token signed for that id with the server secret. Every other header gets 401 `Unauthorized`. This includes a correctly signed token whose payload is not an id, which the library accepts (see `Jwt.Verify` under "Left out"). |
| Router.GetProfile | routes/userRouters.js:62-65 | A rejected request gets the middleware's response. An authorized one gets the record with its id, or `null` exactly when no record has that id. The store is never changed. |
| Router.UpdateProfile | routes/userRouters.js:68-72 | On the record with the authorized id, only `username` and `email` are overwritten. Every other field and record stays the same, and the updated record is returned. With no such record the reply is `null` and nothing changes. |
| Lifecycle.SignupPreservesValid | routes/userRouters.js:13-17 | Signup keeps ids distinct, and keeps OTP and expiry set or cleared together. |
| Lifecycle.LoginPreservesValid | routes/userRouters.js:38-40 | Login keeps the same store invariant. |
| Lifecycle.LoginAsWrittenPreservesValid | routes/userRouters.js:35-40 | Login as written keeps the store invariant, whatever the body fields are. |
| Lifecycle.Handle | routes/userRouters.js:10-72 | Each request is answered by exactly its handler: a signup by `Signup`, a profile read by `GetProfile`, a profile update by `UpdateProfile`. A login goes to the handler as written, with the mode's treatment of `undefined`, or to the checked one, as the mode says. A profile read never changes the store. |
| Lifecycle.UpdateProfilePreservesValid | routes/userRouters.js:70 | The profile update keeps the same store invariant. |
| Lifecycle.RunPreservesValid | routes/userRouters.js:10-72 | Every sequence of requests keeps the store invariant, with login as written or checked. |
| Lifecycle.HandleOtpFollows | routes/userRouters.js:16-17 | No request changes an existing record's id. A request either leaves its OTP and expiry alone or clears both, so no OTP is re-issued or extended. |
| Lifecycle.RunOtpFollows | routes/userRouters.js:38-40 | The same holds across any sequence of requests. |
| Lifecycle.RedeemedNeverMatches | routes/userRouters.js:35-40 | A record whose expiry was cleared never matches the login query again, after any sequence of requests. This holds for any body (string, operator or missing fields) and either treatment of `undefined`. |
| Lifecycle.ExpiredNeverMatches | routes/userRouters.js:35 | An OTP past its expiry never matches a login at that time, after any sequence of requests, with any body and either treatment of `undefined`. |
| Lifecycle.LoginSingleUse | routes/userRouters.js:35-40 | After the handler as written redeems a record, no later login, with any body and either treatment of `undefined`, is ever answered from it. |
| Lifecycle.LoginReplayFails | routes/userRouters.js:35-46 | Replaying a redeemed email and OTP pair gets 401 with the store unchanged. The exception is another record issued the same OTP for the same email. |
| Lifecycle.LoginRejectionsUniform | routes/userRouters.js:44-46 | Any two rejected logins get the identical reply and leave the store unchanged. |
| Lifecycle.SignupLoginWindow | routes/userRouters.js:14-43 | Provided the new id is not taken and no older record answers the same email and OTP query at `now`: after signup at time `t`, the mailed OTP logs in iff `now <= t + 600000`. The bound is inclusive. On success only the new record is cleared, and the token carries its id. |
| Lifecycle.AuthenticateSignedToken | routes/userRouters.js:42-55 | A `Bearer` header carrying a token issued at login authenticates as that token's id. |
| Lifecycle.OtherSecretRejected | routes/userRouters.js:50-59 | A token signed with another secret gets 401 on both profile endpoints, and the store stays unchanged. This assumes the MAC of the token's payload differs under the two secrets. |
| Lifecycle.MissingHeaderThrows | routes/userRouters.js:51 | Both profile endpoints throw without an `Authorization` header and touch nothing. |
| Lifecycle.GetProfileOwnRecord | routes/userRouters.js:62-65 | With distinct ids, a token for a record reads back exactly that record. |
| Lifecycle.UpdateThenGet | routes/userRouters.js:68-72 | Reading after an update returns the record with the new username and email, and every other field unchanged. |
| Lifecycle.SignupLoginProfile | routes/userRouters.js:10-65 | Signup, then login with the mailed OTP inside the window, then reading the profile with the issued token, returns the username and email given at signup. |
| Lifecycle.SingleRecordLoginOnce | routes/userRouters.js:35-46 | On a collection of one pending record, its email and OTP log in once with a token for its id, and the replay at any later time gets 401. |
| Lifecycle.AliceScenario | routes/userRouters.js:10-47 | alice's random bytes `a1 b2 c3` give OTP `a1b2c3`, and the mail carries it. Her stored hash is not `pw123`. The login a minute later gets a token for her id, and replaying it gets 401. |

## Left out

- Email delivery through nodemailer (routes/userRouters.js:20-27): only the message handed to the transport is recorded. Whether it is sent is network I/O, and the code ignores the result.
- Bcrypt.HashIsNotPlaintext: weaker than "never the plaintext". The key derivation is opaque, so only the fixed `$2b$10$` prefix tells the hash and the password apart.
- Lifecycle.OtherSecretRejected: holds only for a secret whose MAC of the token's payload differs from the server secret's. The MAC is opaque, so a collision cannot be ruled out.
- Header.ReplaceFirst: does not expand the `$&`, `` $` ``, `$'` and `$$` patterns that JavaScript's `replace` expands in the replacement. The router only ever replaces with `''`, where there is nothing to expand.
- Jwt.VerifyOtherSecret: holds only under the stated hypothesis that the MAC tells the two secrets apart. The cryptographic strength of HMAC is not modelled.
- Jwt.Verify: a correctly signed token whose payload is not a 12-byte id is rejected here. `jwt.verify` (routes/userRouters.js:53) accepts any correctly signed payload, and the secret is a literal in the code, so anyone can sign one. The middleware then calls `next()`. `findById` (routes/userRouters.js:63 and :70) throws on a `userId` that is not an ObjectId, outside any `try`, and answers 200 `null` for a payload without `userId`. The model's payload is the hex id, which cannot carry such a payload.
- Router.Authenticate: answers 401 where the source lets a correctly signed non-id payload through to the handlers, for the reason given under `Jwt.Verify`.
- JWT wire format: the real token is three base64url parts with an `iat` claim. The model uses `<hex id>.<signature>`. No expiry is ever set on the token, so none is modelled.
- `crypto.randomBytes`, the clock, ObjectId generation and the bcrypt salt are inputs, not computations.
- MongoDB query semantics beyond the login predicate: natural order is taken as insertion order, and a duplicate `_id` rejects the insert.
- Login bodies with a missing field are modelled (`Router.BodyField.Absent`) under both treatments of `undefined`, since the router's code does not fix which one applies. With `ignoreUndefined: true`, or a Mongoose that strips `undefined` keys, the missing field places no condition (see "Findings"). Otherwise it is sent as `null`, matches only a null field, and the login is refused (`Router.MissingOtpRefusedWhenSentAsNull`).
- Missing fields elsewhere are not modelled. The signup and profile-update handlers take every body field as a string. On a profile update, Mongoose 5 would write `null` for a missing field. On signup, `bcrypt.hash` rejects a missing password.
- Async interleaving: each request is one atomic step. The race where two concurrent logins redeem the same OTP is therefore not modelled.
- What Express does with a thrown handler is left open: the response is `Thrown`, with no status attached.
- `models/userModel.js` is not part of this model. No schema validation and no unique index other than `_id` is assumed, so emails may repeat.
- `Router.BodyField`: of the operator objects a JSON body can carry, only `$ne` is modelled. `$gt`, `$regex` and the others are left out. One is enough to show the injection. Strings, an explicit `null` and a missing field are modelled. A number, a boolean or an array for `email` or `otp` is not. Mongoose casts such a value by the path's schema type: it may turn a number into a string, and an array into `$in` on a String path. `models/userModel.js` is not part of this model, so the cast is unknown.
- `server.js` (connection and listening) and the React components are outside the model. They are bootstrap and UI code with no logic of their own.

## Findings

| source | as written | input that shows it | evidently intended | confidence | as-written member | corrected member |
|---|---|---|---|---|---|---|
| routes/userRouters.js:34-35 | `email` and `otp` from the parsed JSON body go into the `findOne` filter unchecked. An object value is read as a query operator. | `{"email": "alice@x.com", "otp": {"$ne": ""}}` while alice has a pending OTP | a login succeeds only with the exact OTP string that was mailed | high, not executed | Router.LoginAsWrittenWithoutOtp | Router.LoginChecked |
| routes/userRouters.js:34-35 | A login body without `otp` puts `otp: undefined` into the `findOne` filter. With `ignoreUndefined: true`, or a Mongoose that strips `undefined` keys, the key is left out and only the email and an unexpired expiry are checked. Otherwise it is sent as `null` and the login is refused. | `{"email": "alice@x.com"}` while alice has a pending OTP, with `undefined` keys dropped | a login without an OTP is refused | medium: only with `ignoreUndefined: true` or a Mongoose that strips `undefined` keys; not executed | Router.LoginAsWrittenMissingOtp | Router.LoginChecked |
