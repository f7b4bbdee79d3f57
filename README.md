# Profile management backend: user records, sign-up, login and profile routes

This project models the user-record state machine of a small HTTP service
for sign-up, login and self-service profiles. The `users` table is a map
from id to `User` record. Four kinds of request drive it, one at a time
and in order:

- **Sign-up** rejects an email that is already on file with 400
  "Email already registered". Otherwise it stores a new record under the
  generated id. The record holds the hash of the password, no bio, and the
  active flag at its default of true. The reply is a bearer token for the
  new id, not the profile fields.
- **Login** looks the user up by email and checks the password against
  the stored hash. An unknown email and a wrong password give the same
  401 "Invalid email or password". Login never changes the table and does
  not look at the active flag.
- **Profile update** is a partial update. A supplied name or bio replaces
  the stored one; an omitted one is kept.
- **Soft delete** first copies a supplied `id` and `name` from the request
  body onto the record, then clears the active flag. A supplied id moves
  the record to that key, so the caller's old id stops resolving. Moving
  it onto a key another record holds breaks the primary key. The commit
  then fails with a 500 and the table is left as it was.

Each state-changing route is written twice. A pure function
(`SignUpOutcome`, `UpdateOutcome`, `DeleteOutcome`) states what the route
does to the table and what it replies. An imperative method (`SignUp`,
`UpdateMyProfile`, `DeleteMyProfile`) updates a `UserStore` object the way
the route does, and is proved equal to that function. The lemmas prove
three invariants, each for one request and then by induction over any
sequence of requests served by `Service.ServeAll`. Every request keeps
the table's constraints (records keyed by their own id, emails unique).
No stored password ever comes from anywhere but the hash function. A
soft-deleted user, identified by email, stays inactive. The last one is
stated by email rather than by id, because a delete can move a record off
its key and a later sign-up can reuse that key for a new, active record.

Modules follow the source: `Users` (the record and the table, with the
store class), `AuthSchemas` and `ProfileSchemas` (request and response
bodies), `Auth` and `Profile` (the two routers), `Service` (the
application serving both routers in turn). `Http` holds the error replies,
`AuthUtils` the helpers the routers call, `Wrappers` an `Option` type.

The password hash, the password check and the token issuer are not part
of this model. They are fields of `AuthUtils.Utils`, arbitrary total
functions, and nothing is assumed about them beyond being functions (see
"Left out" on salting). The resolution of a bearer
token to a user (`get_current_user`) is not part of this model either: a
profile route takes the caller's key as a parameter and requires it to be
in the table. The uuid an insert generates is a parameter too. It must not
be a key already in use and it has 36 characters.

## Model

| member | source | states |
|---|---|---|
| `Users.FindByEmail` | app/routers/auth.py:15 | the lookup by email finds a key exactly when some record has that email, and the record under it has that email |
| `Users.UserStore.constructor` | app/models/users.py:6-7 | a new table is empty and meets all of its constraints |
| `Auth.SignUpOutcome` | app/routers/auth.py:13-36 | a sign-up fails iff the email is registered, then with 400 and the table unchanged; otherwise exactly one record is added under the new id, with that email and name, `password = hash(password)`, no bio, active, every other record unchanged, and the reply is a bearer token made from the new id |
| `Auth.SignUp` | app/routers/auth.py:14-36 | the imperative sign-up (lookup, hash, insert, token) leaves the table and reply that `SignUpOutcome` gives, and keeps the table's constraints |
| `Auth.Login` | app/routers/auth.py:38-50 | login succeeds iff a record with the email exists and `verifyPassword(password, stored hash)` holds; the token then comes from that record's id with type "bearer"; every failure is `InvalidCredentials`, status 401, detail "Invalid email or password" |
| `Auth.SignUpKeepsWellformed` | app/routers/auth.py:15-32 | whether it succeeds or fails, a sign-up keeps ids as keys and emails unique |
| `Auth.SignUpKeepsHashedAtRest` | app/routers/auth.py:22-27 | a sign-up stores only passwords that come out of the hash |
| `Auth.SecondSignUpRejected` | app/routers/auth.py:15-20 | a second sign-up with the same email is rejected with 400 and changes nothing, whatever the first one did |
| `Auth.LoginFailuresIndistinguishable` | app/routers/auth.py:42-46 | an unknown email and a wrong password give the identical error |
| `Auth.LoginIgnoresActivity` | app/routers/auth.py:40-42 | changing a record's active flag does not change any login result |
| `Auth.LoginAfterSignUp` | app/routers/auth.py:22-48 | right after a successful sign-up, login with that email succeeds iff `verifyPassword` accepts the password against the hash just stored, and then gives the new id's token |
| `ProfileSchemas.FromUserOmitsPasswordAndActivity` | app/schemas/profile.py:4-8 | the profile response does not depend on the password hash or the active flag |
| `Profile.ReadMyProfile` | app/routers/profile.py:13-20 | reading the profile returns exactly the caller's id, email, name and bio, and the table is only read |
| `Profile.UpdateOutcome` | app/routers/profile.py:23-42 | an update keeps the keys, every other record, and the caller's id, email, password and active flag; a supplied name or bio is stored, an omitted one kept; the reply is the updated profile |
| `Profile.UpdateMyProfile` | app/routers/profile.py:33-42 | the imperative update leaves the table and reply that `UpdateOutcome` gives, and keeps the table's constraints |
| `Profile.UpdateKeepsWellformed` | app/routers/profile.py:33-40 | an update keeps ids as keys and emails unique |
| `Profile.UpdateKeepsHashedAtRest` | app/routers/profile.py:33-36 | an update never touches a stored password |
| `Profile.EmptyUpdateChangesNothing` | app/routers/profile.py:33-36 | an update with neither name nor bio leaves the table identical |
| `Profile.ReadAfterUpdate` | app/routers/profile.py:40-42 | the reply of an update is what a read right after it returns |
| `Profile.DeleteOutcome` | app/routers/profile.py:44-64 | a delete fails with 500 and no change iff the body's id is another existing key; otherwise the record moves to the body's id (or stays when none is given), takes the body's name if given, becomes inactive, keeps email, password and bio, and no other record changes |
| `Profile.DeleteMyProfile` | app/routers/profile.py:54-64 | the imperative delete leaves the table and reply that `DeleteOutcome` gives, and keeps the table's constraints |
| `Profile.DeleteKeepsWellformed` | app/routers/profile.py:54-62 | a delete keeps ids as keys and emails unique, also when it moves the record |
| `Profile.DeleteKeepsHashedAtRest` | app/routers/profile.py:54-59 | a delete never touches a stored password |
| `Profile.EmptyDeleteOnlyDeactivates` | app/routers/profile.py:54-62 | a delete with an empty body only clears the caller's active flag; the record stays under the caller's key, and reading that key returns the delete's reply |
| `Profile.DeleteRekeyOrphansCaller` | app/routers/profile.py:54-55 | a delete naming a fresh id moves the record there: the caller's old id is gone and the inactive record sits under the new id |
| `Service.Serve` | app/main.py:41-42 | serving any admissible request keeps the table's constraints |
| `Service.ServeAll` | app/main.py:41-42 | serving requests in order keeps the table's constraints, and an empty run changes nothing |
| `Service.ServeKeepsHashedAtRest` | app/routers/auth.py:22-27 | no request stores a password that is not a hash |
| `Service.ServeNeverReactivates` | app/routers/profile.py:59 | for one request, keyed by id: an inactive key still present after the request is still inactive |
| `Service.ServeKeepsInactiveEmail` | app/routers/profile.py:54-62 | if the record with an email is inactive before any request, a record with that email is inactive after it, also when a delete moves it to another key |
| `Service.ServeAllKeepsInactiveEmail` | app/routers/profile.py:59 | over any run of requests, a user inactive at the start (by email) is inactive at the end |
| `Service.ServeAllKeepsInvariants` | app/models/users.py:9-11 | every run of requests from a well-formed, hashed table ends in one |
| `Service.RunFromEmptyTable` | app/models/users.py:6-14 | every run from the empty table ends in a well-formed table holding only hashed passwords |
| `Service.QueriesChangeNothing` | app/routers/auth.py:38-50 | login and profile reads leave the table unchanged |

## Left out

- Logging (`app/logger.py`), the request-timing middleware (`app/middleware.py`), CORS, the lifespan hook and the root endpoint (`app/main.py`, `app/app.py`): I/O and framework wiring with no behaviour on the table.
- The internals of `hash_password`, `verify_password` and `create_access_token` (`app/utils`), and of `get_current_user` (`app/dependencies`): that code is not part of this model. The first three are arbitrary functions; the last is the caller-key parameter.
- Salting and token expiry: the hash and the token issuer are total functions, so they are deterministic. In the model two users with the same password store the same digest, and a sign-up token equals a later login token for the same id. The salted hash and the token's clock are not captured.
- Whether an inactive user's token still resolves: `get_current_user` is not part of this model, so every stored key, active or not, can be the caller of a profile route. The profile lemmas about reading after a delete say only what reading that key returns.
- Token resolution failures and uuid collisions: a request whose caller key is not stored, or a sign-up whose generated id is taken, is outside the model. `Service.ServeAll` gives `None` for a run that contains one.
- SQLAlchemy session behaviour: `add`/`commit`/`refresh` become one map update.
- Concurrency: the check-then-insert race between simultaneous sign-ups, and the database unique constraint as its arbiter, because requests run one at a time here.
- Column widths and types: `CHAR(36)` and `String(255)` limits, blank padding of a short id and the errors for over-long values are not modelled. Strings are unbounded, so a delete can store an id of any length.
- E-mail format validation by `EmailStr`: its rules are not visible, so any string is accepted as an email.
- Logout and change-password: the code implements neither. `ChangePasswordRequest` is declared but unused.
- Success status codes (201 for sign-up, 200 otherwise): the model has the reply bodies and the error statuses only.
- `ProfileResponse.name` is declared optional, but the model always fills it, because it is read from a non-null column.
