# Credential lifecycle of MapMyCustomers' `AuthController`

A Dafny model of the four request handlers in `controllers/auth.js`:

- `addUser` registers a user whose e-mail domain belongs to a known institution;
- `login` checks a password and issues a new session token;
- `sendToken` issues a five-digit password-recovery code;
- `resetPass` checks that code and replaces the password.

Each handler is a pure function. It takes the user collection (a `map` from
e-mail to `User`) and, for registration, the read-only institution collection
(a `map` from domain to `Institution`). It returns a `Step`: the reply plus
the collection after the request.

Replies follow the controller's envelopes:
- `Ok(data)` is `handleSuccess(OK, data)`;
- `ParamsMissing` is `handleFail(PRECONDITION_FAILED, …)`;
- `Refused(status, message)` is `handleError` with `BadRequest`, `NotFound` or
  `Unauthorized` and the controller's exact message text.

Collaborators are abstract. The user model's `encrypt` and
`validatePassword`/`validateToken`, and the helper `createToken`, are the
function-valued fields of a `Crypto` value. The lemmas about them assume
`Sound(c)`: a hash verifies exactly the plaintext it was made from. Lemmas
that need it say so. The operations themselves hold for every `Crypto`.
Beyond `Sound(c)`, two assumptions about models/user are listed under
"## Left out": when the password is hashed, and what `validateToken` does when
no recovery hash is stored. The id given to the new document (`newId`) and
the random draws behind the recovery code (`rand`) are parameters.

Files:
- `wrappers.dfy`: `Option`.
- `strings.dfy`: JavaScript's `split` on one character, its inverse `Join`, and `DomainOf`.
- `random_code.dfy`: `randomstring.generate` with the numeric charset.
- `model.dfy`: records, collaborators, and the store invariants.
- `auth.dfy`: the four handlers.
- `lifecycle.dfy`: invariant preservation, round trips, a concrete domain example, and the corrected variants listed under Findings.

Notes on the code as modelled:
- The domain is `email.split('@')[1]`: the segment between the first `@` and any second `@` (`Lifecycle.DomainStopsAtSecondAt`).
- An address with no `@` has an `undefined` domain. What the institution query returns then is assumed (see "## Left out").
- `addUser` replies with the copy of the new user taken before it is saved. With `deepCopy` modelled as an exact copy (see "## Left out"), that reply carries the password as given while the stored record carries its hash.
- Registration checks e-mail, name, e-mail again and password, not the role (see Findings).
- The reset token is signed with the user's `type` attribute (`User.kind`), which this core never sets. Registration and login sign with no third argument.

## Model

| member | source | states |
|---|---|---|
| Strings.Split | controllers/auth.js:30 | `split('@')` always yields at least one segment, and no segment contains the separator |
| Strings.JoinSplit | controllers/auth.js:30 | joining the segments with the separator gives back the original string |
| Strings.SplitJoin | controllers/auth.js:30 | splitting the join of any non-empty sequence of separator-free segments gives back that sequence |
| Strings.SplitCount | controllers/auth.js:30 | there is a segment at index 1 exactly when the string contains the separator |
| Strings.DomainOf | controllers/auth.js:30-31 | `domain[1]` is undefined exactly when the e-mail has no '@'; otherwise it contains no '@' |
| Strings.DomainOfAddress | controllers/auth.js:30-31 | the domain of `local@domain`, optionally followed by `@more`, is exactly `domain` |
| RandomCode.Generate | controllers/auth.js:106-109 | the generated string has the requested length and only charset characters |
| RandomCode.RecoveryCode | controllers/auth.js:106-109 | the recovery code is exactly five decimal digits |
| RandomCode.RecoveryCodeCovers | controllers/auth.js:106-109 | every five-digit code can be drawn |
| Auth.FindInstitution | controllers/auth.js:30-33 | an institution is found iff the e-mail has a domain segment that names a known institution; in a directory keyed by domain, the found institution's `domain` is the e-mail's domain segment |
| Auth.AddUser | controllers/auth.js:21-55 | PRECONDITION_FAILED iff e-mail, name or password is missing (role is not checked); duplicate e-mail gives BAD_REQUEST "email already exists" before any institution lookup; unknown domain gives BAD_REQUEST; success iff all checks pass, adding exactly one record under the e-mail with the new id, the id of the institution whose domain is the e-mail's domain segment, the hashed password, no recovery hash and token `createToken(email, id)`; the reply is that record before saving, with the password as given; every failure leaves the store unchanged and no existing user ever changes |
| Auth.Login | controllers/auth.js:64-89 | PRECONDITION_FAILED iff e-mail or password is missing; unknown e-mail gives NOT_FOUND; wrong password gives UNAUTHORIZED; success iff the password validates; on success only that user's token changes, to `createToken(email, id)`, and the reply is the updated user; failures leave the store unchanged |
| Auth.SendToken | controllers/auth.js:97-118 | PRECONDITION_FAILED iff the e-mail is missing; unknown e-mail gives NOT_FOUND with the store unchanged; on success the reply is a five-digit code, only that user's recovery hash changes, and it becomes `encrypt(code)`; with a sound hash the stored hash validates that code and no other |
| Auth.ResetPass | controllers/auth.js:128-152 | PRECONDITION_FAILED iff e-mail, password or code is missing; unknown e-mail gives NOT_FOUND; a code that does not validate gives UNAUTHORIZED with the store unchanged; on success the reply carries no data, the password hash becomes `encrypt(new password)`, the token becomes `createToken(email, id, type)`, the recovery hash is kept and nothing else changes |
| Lifecycle.AddUserKeepsStore | controllers/auth.js:27-46 | with an unused id given to the new document, registration keeps every user keyed by its own e-mail with distinct ids, and changes no existing identity |
| Lifecycle.LoginKeepsStore | controllers/auth.js:79-83 | login keeps the store invariant and every user's identity and institution |
| Lifecycle.SendTokenKeepsStore | controllers/auth.js:110-112 | issuing a code keeps the store invariant and every user's identity and institution |
| Lifecycle.ResetPassKeepsStore | controllers/auth.js:141-146 | a reset keeps the store invariant and every user's identity and institution |
| Lifecycle.RegisterThenLogin | controllers/auth.js:72-77 | right after registering, login succeeds with the registered password and is UNAUTHORIZED with any other |
| Lifecycle.RegisterThenConflict | controllers/auth.js:27-28 | repeating a successful registration is refused with "email already exists" and changes nothing |
| Lifecycle.RegisterAtKnownDomain | controllers/auth.js:30-38 | `local@domain` with a known domain registers, linked to that domain's institution, and a second registration conflicts |
| Lifecycle.RecoverResetLogin | controllers/auth.js:137-143 | sendToken then resetPass with the returned code succeeds; afterwards the new password logs in and the old one is UNAUTHORIZED |
| Lifecycle.WrongCodeRefused | controllers/auth.js:137-139 | after sendToken, any other code is UNAUTHORIZED "Wrong Token" and the store is untouched |
| Lifecycle.RecoveryCodeReusable | controllers/auth.js:141-146 | as written, the same recovery code resets the password a second time |
| Lifecycle.ResetPassSingleUse | controllers/auth.js:137-148 | corrected reset: same reply as `resetPass`, same record except that the recovery hash is cleared on success |
| Lifecycle.SingleUseCodeRejectedAgain | controllers/auth.js:139-146 | with the corrected reset, the issued code works once and then every code is UNAUTHORIZED |
| Lifecycle.SingleUseRecoverResetLogin | controllers/auth.js:137-148 | with the corrected reset, sendToken then reset with the returned code succeeds; afterwards the new password logs in and the old one is UNAUTHORIZED |
| Lifecycle.MissingRoleAccepted | controllers/auth.js:23-24 | as written, a registration without a role succeeds and stores no role |
| Lifecycle.AddUserRequiringRole | controllers/auth.js:23-24 | corrected registration: PRECONDITION_FAILED iff any of the four documented fields is missing, otherwise exactly `addUser`; a registered user always has a role |
| Lifecycle.DomainStopsAtSecondAt | controllers/auth.js:30-31 | `a@known.edu@x` looks up `known.edu` |

## Left out

- The Express `req`/`res` plumbing and the `handleSuccess`/`handleFail`/`handleError` envelopes: replies are the `Reply` datatype.
- `paramsNotValid` / `paramsNotValidChecker` (helpers/utils is not part of this model): a field counts as missing when it is absent or empty. The PRECONDITION_FAILED payload is not modelled.
- The real hashing (`encrypt`, `validatePassword`, `validateToken` in models/user, not part of this model), JWT signing (`createToken`), and `randomstring`'s randomness: opaque functions and parameters.
- models/user is assumed to hash the plain password given to `new UserModel` when a new record is first saved, and not on later saves. `resetPass` hashes explicitly at line 142; a hook on every save would hash that value twice, and `Lifecycle.RecoverResetLogin` would not hold.
- `validateToken` is assumed to reject any code when no recovery hash is stored.
- FindInstitution: an e-mail without '@' is assumed to find no institution. Line 31 then queries `{ domain: undefined }`, and the result depends on Mongoose and the MongoDB driver. If they drop the undefined key, the query is `findOne({})`, some institution is returned, and the address registers. Request fields are also modelled as strings only: a JSON object sent as `email` would reach `findOne` as a query operator, which is not modelled.
- Schema defaults and validators of models/user are not modelled: a new user has no `type`, and a missing `role` is stored as missing rather than defaulted or rejected.
- `deepCopy` (controllers/user, not part of this model) is modelled as an exact copy of the document. So the modelled `addUser` reply is the record before saving, with the plaintext password. The modelled `login` reply is the updated stored record, with the password hash and the recovery hash.
- Auth.AddUser, Auth.Login: the reply clauses (`r.reply.data == …`) rest on the exact-copy assumption. If `deepCopy` drops `password` or `recover_token`, these clauses claim more than the program does about those fields; the clauses about id, name, e-mail, role, institution and token are unaffected. The field selection of `select(...)` is not modelled either: the real login reply would not carry `recover_token`.
- Auth.Login: no claim that a new token differs from earlier ones. `createToken` here is a function of (e-mail, id[, type]) only. The issue time a real JWT embeds is a clock reading and is not modelled.
- The commented-out `publisher.queue` notifications (lines 48, 84, 113, 147).
- The generic `catch` → BAD_REQUEST paths for database exceptions. Concurrency and check-then-save races are also out: each handler is one atomic step.
- controllers/store.js: the store locator uses an external geocoder, MongoDB `$near` search and floating-point distances, and shares nothing with the credential core.

## Findings

| source | as written | input that shows it | evidently intended | confidence | as-written member | corrected member |
|---|---|---|---|---|---|---|
| controllers/auth.js:141-146 | a successful reset keeps `recover_token`, so the recovery code never expires | sendToken, then resetPass twice with the same code and two different passwords: both succeed | the code is single-use; a successful reset clears the recovery hash | medium, not executed | Lifecycle.RecoveryCodeReusable | Lifecycle.SingleUseCodeRejectedAgain |
| controllers/auth.js:23-24 | the required-field check passes `email` twice and never `role` | `{name, email: "local@known-domain", password}` with no role registers a user with no role, assuming the schema in models/user neither requires nor defaults `role` | the four documented parameters name, email, password and role are all required | medium, not executed | Lifecycle.MissingRoleAccepted | Lifecycle.AddUserRequiringRole |
