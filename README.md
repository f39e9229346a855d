# UserService session core in Dafny

A model of the credential and session logic of a small identity service
(`UserService`): **signup** stores a user with a hashed password, **login**
checks credentials and either reuses a live session token of the user or mints
a new one that expires thirty days out, **logout** revokes a token by its
value, and **validateToken** returns the owner of a token that is neither
revoked nor expired.

The model has six modules, one file each:

- `Clock` (clock.dfy): instants in milliseconds since the epoch (`java.util.Date`),
  the calendar day of an instant (`Day(t) = t / DAY`, the `LocalDate` truncation in
  UTC) and the start of a day.
- `Models` (models.dfy): the `User` and `Token` records, the injected password
  `Encoder` (BCrypt's `encode`/`matches`) with the one property the service relies
  on (`Sound`: a password matches its own digest), the shape of a random token value
  (128 alphanumerics), and the two expiry checks: `IsLive` (validation, full instant)
  and `ReusableOn` (login's reuse scan, calendar date).
- `Repositories` (repositories.dfy): the semantics of the store queries the service
  calls, as functions over the stores' contents in insertion order.
- `Sessions` (sessions.dfy): the service's decisions as functions of the stores'
  contents (the first reusable token, token generation, the login transition, the
  store after logout) and the lemmas about them.
- `Services` (services.dfy): the class `UserService`, holding the user store and the
  token store as fields that its methods update in place; the reuse scan is a loop
  proved against `Sessions`, and `ValidateToken` is a read-only function.
- `Scenarios` (scenarios.dfy): client methods that drive the class through signup,
  login, failed logins and logout and check the outcomes from the contracts alone.

The central property is the link between the two expiry checks. Login reuses a
token whose expiry *date* is after today's date, while validation accepts a
token whose expiry *instant* is after now. A later date means a later instant
(`Clock.LaterDayIsLaterInstant`), and a new token expires at the start of the
day thirty days ahead, which is after now (`Clock.StartOfLaterDayIsAfter`). So
every token login returns is accepted by validation at the same instant
(`Sessions.LoginIssuesValidatingToken`, and `Services.UserService.Login`'s last
postcondition). The converse does not hold: a token that expires later today is
live but is not reused (`Models.LiveTokenNotReusableLaterToday`). When such
tokens are all the user holds, so that none of the user's tokens passes the date
check, login mints a second live token (`Sessions.LoginMintsOnlyWithoutReusable`).
The model keeps this behaviour as the code has it.

A wrong password makes login return `null` (the exception at
src/main/java/com/example/userservice/services/UserService.java:57 is commented
out), modelled as `NoToken`. A new token expires at the start of the day thirty
days after today (UserService.java:87-89). Signup does not check for duplicate
emails.

The method contracts of the class are stated through three functions of
`Sessions` that give the whole value-level behaviour of the operations:
`ReuseOrMint` is `checkAndReturnTokenIfExist` (UserService.java:66-84): the first
reusable token of the user with the store unchanged, or a generated token
appended under the next id. `LoginTransition` is `login` (UserService.java:43-64):
its result and the token store afterwards. `AfterLogout` is `logout`
(UserService.java:99-106): every token carrying the value that is not revoked
becomes revoked, whether or not it has expired; every other token is unchanged. `Services.UserService.CheckAndReturnTokenIfExist`,
`Services.UserService.Login` and `Services.UserService.Logout` are proved equal
to them, and the `Sessions` lemmas in the table state what they promise.

## Model

| member | source | states |
|---|---|---|
| Clock.DayBounds | src/main/java/com/example/userservice/services/UserService.java:75 | an instant lies at or after the start of its calendar day and before the start of the next |
| Clock.DayOfStartOfDay | src/main/java/com/example/userservice/services/UserService.java:89 | the start of a day falls on that day |
| Clock.LaterDayIsLaterInstant | src/main/java/com/example/userservice/services/UserService.java:75-76 | an expiry dated after today's date is an instant strictly after now |
| Clock.StartOfLaterDayIsAfter | src/main/java/com/example/userservice/services/UserService.java:87-89 | the start of the day k >= 1 days ahead is on that day and strictly after now |
| Clock.LaterInstantSameDay | src/main/java/com/example/userservice/services/UserService.java:75-76 | the instant after now, unless now is the last millisecond of its day, falls on today's date, so the converse of the date check fails |
| Models.ReusableIsLive | src/main/java/com/example/userservice/services/UserService.java:76 | a token login's scan would reuse is not revoked and expires after now, so validation accepts it |
| Models.LiveTokenNotReusableLaterToday | src/main/java/com/example/userservice/services/UserService.java:76 | a token expiring later today is live but fails login's reuse check |
| Repositories.FindUserByEmail | src/main/java/com/example/userservice/services/UserService.java:47-50 | the result is a stored user with that email; it is absent exactly when no stored user has that email |
| Repositories.FindTokensByUser | src/main/java/com/example/userservice/repositories/TokenRepository.java:18 | the list holds only stored tokens of the user, holds every one of them, and every entry is present |
| Repositories.FindByValueAndDeleted | src/main/java/com/example/userservice/repositories/TokenRepository.java:20 | the result carries the value and deleted flag asked for; it is absent exactly when no stored token does |
| Repositories.FindByValueAndDeletedAndExpiryAtGreaterThan | src/main/java/com/example/userservice/repositories/TokenRepository.java:22 | the result carries the value and flag and expires after the date; it is absent exactly when no stored token matches |
| Repositories.ResavingIsNoOp | src/main/java/com/example/userservice/services/UserService.java:63 | saving a stored token again updates it under its own id and leaves the store unchanged |
| Repositories.LiveTokenIsFound | src/main/java/com/example/userservice/services/UserService.java:108-119 | with unique values, the validation query for a live stored token's value finds that token |
| Sessions.FirstReusableFrom | src/main/java/com/example/userservice/services/UserService.java:70-79 | the scan stops at the first present, not revoked entry dated after today, skipping empty entries; every earlier entry fails the check |
| Sessions.MintOnlyWhenNoneReusable | src/main/java/com/example/userservice/services/UserService.java:66-84 | the scan finds nothing exactly when none of the user's stored tokens is reusable today |
| Sessions.GenerateToken | src/main/java/com/example/userservice/services/UserService.java:86-98 | a new token is unsaved, owned by the user, not revoked, carries the random value, expires at the start of the day 30 days ahead, and is both reusable and live now |
| Sessions.Revoke | src/main/java/com/example/userservice/services/UserService.java:102-103 | logout changes only a token's deleted flag |
| Sessions.RevokingTheMatchIsLogout | src/main/java/com/example/userservice/services/UserService.java:99-106 | with unique values, revoking the one token with the value that is not revoked is the whole effect of logout |
| Sessions.NoMatchIsNoOp | src/main/java/com/example/userservice/services/UserService.java:99-106 | when no token that is not revoked carries the value, logout changes nothing |
| Sessions.LogoutRevokesExpiredToken | src/main/java/com/example/userservice/services/UserService.java:100-103 | logout looks only at the revoked flag, so it also revokes a token that has already expired |
| Sessions.LogoutIdempotent | src/main/java/com/example/userservice/services/UserService.java:99-106 | logging out a value twice gives the same store as once |
| Sessions.LogoutRejectsValue | src/main/java/com/example/userservice/services/UserService.java:99-119 | after logout of a value, validation finds no token for it at any instant |
| Sessions.LogoutKeepsOtherValues | src/main/java/com/example/userservice/services/UserService.java:99-119 | logout of one value leaves validation of every other value unchanged |
| Sessions.LoginAddsAtMostOneToken | src/main/java/com/example/userservice/services/UserService.java:43-64 | a login that issues nothing stores nothing; otherwise the store is unchanged or gains exactly the issued token, despite the two saves |
| Sessions.LoginMintsOnlyWithoutReusable | src/main/java/com/example/userservice/services/UserService.java:62-97 | with matching credentials login issues a token of the user; it adds one exactly when the user has no reusable token, and that token is the generated one with the next id |
| Sessions.LoginIssuesValidatingToken | src/main/java/com/example/userservice/services/UserService.java:43-119 | every issued token is stored, live at the same instant and found by validation's query; token values stay unique |
| Sessions.SecondLoginStoresNothing | src/main/java/com/example/userservice/services/UserService.java:66-84 | a repeated successful login at the same instant reuses a token and stores nothing |
| Sessions.SignupThenLoginValidates | src/main/java/com/example/userservice/services/UserService.java:31-64 | a signed-up user who owns no token, in a store where other users may hold tokens, logging in with the password gets a new token that validation accepts |
| Services.UserService.constructor | src/main/java/com/example/userservice/services/UserService.java:25-30 | the service starts with empty stores and the given encoder |
| Services.UserService.Signup | src/main/java/com/example/userservice/services/UserService.java:31-41 | stores and returns a user with the given email and name, digest encode(password), verified, not deleted, the next id; the password matches the digest; tokens unchanged |
| Services.UserService.SaveToken | src/main/java/com/example/userservice/repositories/TokenRepository.java:16 | a token without an id is appended under the next id; one with an id replaces the stored token with that id; the store invariant holds |
| Services.UserService.CheckAndReturnTokenIfExist | src/main/java/com/example/userservice/services/UserService.java:66-84 | the loop returns the first reusable token of the user and stores nothing, or stores and returns a generated token |
| Services.UserService.Login | src/main/java/com/example/userservice/services/UserService.java:43-64 | null email gives no token, unknown email UserNotFound, wrong password no token, each storing nothing; otherwise reuse or one mint; an issued token is live and validates to its owner |
| Services.UserService.Logout | src/main/java/com/example/userservice/services/UserService.java:99-106 | the store becomes the store after logout, and validation of the value fails at every instant |
| Services.UserService.ValidateToken | src/main/java/com/example/userservice/services/UserService.java:108-120 | returns a user exactly when a stored token with the value is not revoked and expires after now, and the user is that token's owner |

## Left out

- The HTTP controller, the OAuth consent repository and the granted-authority wrapper are not part of this model. Their only service-related logic is the controller turning a `null` token into a 403.
- `UserRepository` is not part of this model. Its `save` and `findByEmail` are modelled by their evident meaning: an append under the next id, and a scan for a matching email.
- `Repositories.FindUserByEmail`: when two stored users share an email, Spring's single-result query raises an error; the model returns the first one. Signup does not stop duplicates.
- Store order: `findByUser` has no defined order; the model uses insertion order, so "first reusable token" means first in that order.
- `Repositories.FindTokensByUser` never yields an empty `Optional`; the reuse scan still skips such entries, as the code does.
- BCrypt: the encoder is a parameter of the service, required to be `Sound`. Its random salt is not modelled: `encode` is a function, so encoding the same password twice gives the same digest in the model.
- Random token values: `RandomStringUtils.randomAlphanumeric(128)` becomes the `freshValue` parameter of `Services.UserService.Login`. It is required to be 128 alphanumerics and not to be the value of any stored token. The code relies on randomness for that second requirement, and the model does not capture collisions.
- Time: instants are integers in milliseconds and the zone is fixed to UTC; `ZoneId.systemDefault` and calendar rules are not modelled. Each operation reads the clock once (`now`). The code reads `LocalDate.now()` twice during one login and `new Date()` in validation, so a call that spans midnight is not modelled.
- `null` arguments other than login's email are not modelled. For example, a `null` password makes BCrypt throw.
- Persistence failures and exceptions raised by the stores are not modelled.
- `SaveToken` requires a token with an id to be already stored. Saving a detached token with an unknown id is not modelled.
- Concurrent logins that race and both mint a token are not modelled; each operation runs alone.
- The user's `deleted` flag is stored but no operation reads it, as in the code.
