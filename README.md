# Auth-Node-JWT: the request decisions of `app.js`, modelled in Dafny

The API has three routes that matter:

- `POST /auth/register` creates a user whose password is stored as a bcrypt hash.
- `POST /auth/login` checks a password and returns a signed JWT.
- `GET /user/:id` returns a user record without its password. A `checkToken` middleware guards it: it reads the token from the `Authorization` header and lets the request through when the token verifies.

This project models those decisions. Module by module:

- `Primitives` (`primitives.dfy`) holds the request-body fields. A field counts as present only when it is there and non-empty, which is what JavaScript's `!x` test rejects. The module also holds the library calls as a `Crypto` value: `bcrypt.hash`, `bcrypt.compare`, `jwt.sign` and `jwt.verify`. What the handlers assume of those calls is the predicate `Crypto.Sound()`:
  - a hash matches its own password and no other;
  - a hash is never the plaintext;
  - a token that signing produced verifies to the signed payload under the same secret;
  - a signed token is non-empty and contains no space.
- `Words` (`words.dfy`) is JavaScript's `split(" ")`. `Join` is its inverse.
- `Users` (`users.dfy`) holds the stored records in insertion order. `findOne({ email })` and `findById(id)` become `Find`/`Lookup`, which return the first match. It also defines the two store invariants: emails are unique, and identifiers are fresh.
- `Http` (`http.dfy`) holds the replies: a status code and JSON body, with the API's own message texts. `NoReply` stands for the path where nothing is sent.
- `Guard` (`guard.dfy`) is `checkToken`: first the token is extracted, then it is verified.
- `Registration` (`registration.dfy`) holds the `UserStore` class. Its `Register` method is the register handler, and it updates the store's `users` field in place. The same module holds the validation order as a reference list of checks.
- `LoginRoute` (`login.dfy`) is the login handler. It is a function of the store's contents, so it cannot change the store.
- `UserRoute` (`userroute.dfy`) is the guarded `GET /user/:id`.
- `Scenario` (`scenario.dfy`) holds client methods that run request sequences against one store. One is register, log in, then fetch. The other is two registrations with the same email.

Inputs the code takes from outside are parameters:

- `nonce` is the randomness of `bcrypt.genSalt(12)`. The cost factor 12 is the constant `SaltRounds`.
- `saveOk` is whether `user.save()` succeeds.
- `secret` is the `SECRET` environment value.
- `nextId` is the ObjectId that mongoose gives a document when `new User(...)` builds it (app.js:85), before `save()` runs. Ids are drawn from a counter, so an id is used up even when the save then fails.

Three behaviours of the code are easy to miss; the model keeps them as written:

- The guard never checks that the first word of the header is `Bearer`. Any first word will do (`FirstWordIgnored`).
- The verified token payload is thrown away. `GET /user/:id` answers for the id in the path, whoever the token belongs to (`AnyValidTokenReadsAnyUser`).
- When `jwt.sign` throws during login, the error is only logged and no response is sent (`NoReply`).

## Model

| member | source | states |
|---|---|---|
| `Words.Split` | app.js:40 | a split always has at least one field, and no field contains a space |
| `Words.JoinSplit` | app.js:40 | joining the fields of a split with single spaces gives back the original header |
| `Words.SplitJoin` | app.js:40 | space-free fields, once joined, split back into exactly those fields, so the split is the unique such decomposition |
| `Words.SplitAfterWord` | app.js:40 | a space-free word followed by a space becomes the first field, and the rest splits independently |
| `Users.Find` | app.js:75 | the result is None exactly when no record matches the filter; otherwise it is the index of the first matching record |
| `Users.Lookup` | app.js:112 | the record found is in the store and matches the filter; None exactly when no record matches |
| `Users.CountEmailZero` | app.js:75-78 | no record is counted for an email exactly when no record has that email |
| `Users.UniqueEmailCount` | app.js:75-78 | with unique emails, at most one record carries any given email |
| `Users.LookupUniqueEmail` | app.js:112 | with unique emails, looking up a record's email returns that very record |
| `Guard.ExtractToken` | app.js:39-42 | an extracted token is non-empty and contains no space |
| `Guard.CheckToken` | app.js:38-52 | the guard either calls next or answers 401 "Acesso negado" or 400 "Token invalido", and nothing else |
| `Guard.ExtractSecondWord` | app.js:40 | when the second field is a non-empty word, the token is that word, whatever the first word is |
| `Guard.ExtractTokenForm` | app.js:40 | every extracted token is the second field: the header is a space-free word, a space, the token, then nothing or a space (with ExtractSecondWord, an if-and-only-if) |
| `Guard.NoSecondWord` | app.js:39-44 | an absent header, a single word, or a word followed by a space and then nothing or another space (such as "Bearer ") yields no token |
| `Guard.FirstWordIgnored` | app.js:40 | replacing the first word of the header never changes the extracted token |
| `Guard.DenyWithoutToken` | app.js:42-44 | with no token, the guard answers 401 "Acesso negado" and the handler is not reached |
| `Guard.GuardOnToken` | app.js:45-51 | with a token present, the handler is reached exactly when jwt.verify accepts it; otherwise the answer is 400 "Token invalido" |
| `Guard.SignedTokenPasses` | app.js:45-48 | a token that jwt.sign produced passes the guard when sent after any space-free first word |
| `Registration.RegisterError` | app.js:59-78 | registration may proceed exactly when name, email and password are present, password equals confirmpassword, and no record has the email |
| `Registration.RegisterErrorIsFirstFailure` | app.js:59-78 | the answer is the message of the first failing check in the order name, email, password, confirmation, duplicate email |
| `Registration.FirstFailureAt` | app.js:59-72 | when a check fails and every check before it passed, its message is the answer |
| `Registration.FirstFailureFound` | app.js:59-72 | every answer is the message of some failing check that all earlier checks passed |
| `Registration.NewUser` | app.js:81-89 | the new record carries the name, the email and the bcrypt hash of the password under a cost-12 salt |
| `Registration.StoredPasswordIsHash` | app.js:81-89 | the stored password field is never the plaintext, and bcrypt.compare accepts exactly the registered password against it |
| `Registration.AcceptedKeepsInvariant` | app.js:75-92 | saving an accepted registration keeps emails unique and ids fresh |
| `Registration.SecondRegistrationRejected` | app.js:75-78 | after a successful registration, another one with the same email is refused with "O email ja existe"; exactly one record has that email |
| `Registration.UserStore.Register` | app.js:55-98 | a failed check gives 422 with its own message and changes nothing; a failed save gives 500 and leaves the records unchanged; success gives 201, appends exactly the one hashed record and issues no token; the store invariant is kept |
| `LoginRoute.Login` | app.js:101-135 | the status is 200 or 422, or there is no reply; 200 only with a token signed for a stored user whose email matches and whose hash accepts the password; no reply only when signing for such a user failed |
| `LoginRoute.LoginValidationOrder` | app.js:104-109 | email presence is checked before password presence, each with its own 422 message |
| `LoginRoute.LoginHidesAccounts` | app.js:112-120 | an unknown email and a known email with a wrong password get the identical reply 422 "Email ou senha inválida" |
| `LoginRoute.WrongPasswordRefused` | app.js:116-120 | any password other than the registered one is refused with 422 "Email ou senha inválida" |
| `LoginRoute.LoginSucceeds` | app.js:112-131 | the registered email with its password gets 200 and a token whose jwt.verify gives that user's id |
| `LoginRoute.RegisterThenLogin` | app.js:85-131 | right after a successful registration, logging in with the same email and password gets a token for the new record's id |
| `UserRoute.FindUser` | app.js:25-35 | the answer is 200 exactly when a record has the path id, with that record minus its password; otherwise 422 "Usário não encontrado" |
| `UserRoute.GetUser` | app.js:24-36 | the status is one of 200, 400, 401 or 422; a 200 body is the password-free view of a stored record with the path id |
| `UserRoute.LookupUniqueId` | app.js:28 | with distinct ids, looking up a record's id returns that record |
| `UserRoute.AnyValidTokenReadsAnyUser` | app.js:24-48 | any token that jwt.sign produced, whatever its subject, reads the record of any path id |
| `UserRoute.UnknownIdNotFound` | app.js:28-33 | a request that passes the guard but names an id with no record gets 422 "Usário não encontrado" |
| `UserRoute.GuardRefusals` | app.js:38-51 | the route answers 401 for a missing header, a single word or a word with an empty second field; it answers 400 for a token that does not verify |
| `Scenario.RegisterLoginFetch` | app.js:24-135 | registering Ana gives 201; logging in gives 200 with a token that verifies to her id; fetching her id with that token gives 200 with name and email and no password |
| `Scenario.RegisterTwice` | app.js:75-97 | of two registrations with one email, only one can be saved: exactly one record with that email if either save succeeds, none otherwise; afterwards no email is carried by more than one record |

## Left out

- The MongoDB connection and server start (app.js:138-146) are left out. The `User` model from `./models/User` is not part of this model either. The store is an in-memory sequence of records.
- dotenv and the environment reads (app.js:1, 8-9, 46, 124) are left out. The secret is a parameter.
- Express wiring, JSON body parsing and the `/` route (app.js:11-21) are left out, because they are framework plumbing.
- bcrypt and jsonwebtoken are left out. They are foreign libraries: the model takes their calls as the parameter `Crypto`, and `Crypto.Sound()` states what the handlers rely on. JWT encoding (RFC 7519) and signing (RFC 7515) are not modelled.
- `Crypto.Sound` assumes a hash rejects every password other than its own. This assumption ignores bcrypt's truncation of passwords to 72 bytes.
- Request-body fields are absent or strings. Non-string JSON values (numbers, booleans, objects) and their truthiness are not modelled.
- The path id of `GET /user/:id` is taken as an identifier directly. Mongoose's cast of a malformed id string, which throws and leaves the request unanswered, is not modelled.
- The model treats several awaited calls as never failing: `User.findOne` (app.js:75, app.js:112), `User.findById` with a well-formed id (app.js:28), `bcrypt.genSalt` and `bcrypt.hash` (app.js:81-82), and `bcrypt.compare` (app.js:117). In the code none of them is inside a try/catch, so if one rejects, the request gets no answer. The model gives `NoReply` only to a `jwt.sign` failure.
- `jwt.sign` also adds an `iat` claim read from the clock (app.js:125-130). The model's `sign` depends only on the payload and the secret, so two logins by one user always get the same token. In the code they get the same token only within the same second.
- Console logging is left out. The sign-failure catch of login (app.js:132-134) is modelled only as `NoReply`.
- Concurrent requests are left out. Each handler runs to completion before the next starts. So the race between two registrations of one email, both passing the lookup before either saves, is not modelled.
- A failed save leaves the store unchanged in the model. Whether MongoDB can be left with a partial write is not modelled.
