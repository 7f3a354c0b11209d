# userspub accounts, in Dafny

A model of the account core of the userspub service, with proofs. That core is:

- the `users` table;
- the data-access objects that read and change it;
- the HTTP handlers of the `/auth` router;
- the access guard that turns a cookie into a user;
- token issuance, password checking and verification codes.

One Dafny module stands for each Python file:

| module | file | form |
|---|---|---|
| `Models` | app/users/models.py | datatypes and functions |
| `BaseDao` | app/base_dao.py | the class `UserTable` over `map<nat, Account>` and a next-id counter, plus the functions that specify its lookups and updates |
| `UserDao` | app/users/dao.py | methods on the table |
| `Auth` | app/users/auth.py | functions |
| `Dependencies` | app/users/dependencies.py | functions returning a `Result` |
| `Tasks` | app/tasks/tasks.py | the code generator as a nondeterministic method, and the mail queue |
| `Router` | app/users/router.py | methods over the table and the mail queue |

Three helper modules support them:

- `Wrappers` defines `Option` and `Result`.
- `Numerals` models Python's `str(int)` and `int(str)`.
- `Utf8` models `str.encode('utf-8')`.

Outside influences become parameters:

- **bcrypt** is a `Hasher`, a pair of functions `hashpw` and `checkpw`. Its one law is `HasherSound`: a password checks against any hash made from it.
- **The salt** that `bcrypt.gensalt()` returns is a parameter of each handler that hashes.
- **The JWT library's signing layer** is a `JwtCodec`. Its law is `CodecSound`: every payload it signs is a non-empty token whose signature verifies, giving that payload back. What `decode` gives for a string the codec did not sign is left open. python-jose's checks of the registered claims, which run inside `jwt.decode`, are not part of that law. They are modelled explicitly as `Auth.ClaimsAccepted` and `Auth.JwtDecode`, because they depend on the clock. Among them, a token is refused once the whole second of its `exp` has passed.
- **The clock** is `now`, an `Auth.Instant` in microseconds since the epoch, the resolution of `datetime.now(UTC)`. jose compares in whole seconds (`Auth.WholeSeconds`). The guard compares `exp` with the fractional timestamp.
- **`secrets.choice`** is a nondeterministic choice (`:|`) from the 62-symbol alphabet.
- **`send_verify_message.delay`** appends a message `(email, code)` to `MailQueue.sent`.
- **The log level** matters in one place, `Router.VerifyNewEmail`, whose parameter `errorsLogged` says whether the configured level lets ERROR records through.

Each handler covered by `Depends(get_current_user)` receives the row that the guard resolved as `currentUser`. `Router.SignupVerifyLogin` chains the whole lifecycle through the handlers as written:

- signup;
- confirmation with the code that was sent;
- login;
- the guard resolving the login token to the new, now verified, row.

Every BaseDAO operation catches all exceptions and returns None. The model represents a statement the database would refuse as that failure, with the table unchanged:

- a value of the wrong type;
- an integer outside the 32-bit INTEGER range of `id` and `portfolio_id`, in a SET list or a filter;
- an insert missing a NOT NULL column;
- an insert once the id sequence has passed the largest INTEGER;
- an empty SET list.

The model also refuses an insert or a SET list that names the primary key `id`. That is a modelling choice, not a database rule; see "## Left out".

Design choices that fix what the source leaves open:

- There is no unique constraint on `email`, so two rows may share an email.
- `find_obj` and `find_all` return rows in ascending id order. The SQL has no ORDER BY, so the database gives no order.
- Primary keys are `nat`. The id sequence only issues positive ids, so `find_by_id` and `delete` with a negative id find nothing. With an id beyond the INTEGER range, the database refuses the statement and the DAO returns None; every stored id lies below the sequence bound, so the model's "nothing found" is the same outcome.
- `update` changes every matching row. It returns the updated row only when exactly one row matched. With several matches the changes are committed before `one_or_none` raises, and the result is None.

## Model

| member | source | states |
|---|---|---|
| `Models.ColumnNamed` | app/users/models.py:7-19 | an attribute name maps to a column only when the User class declares it, and the column found carries that name |
| `Models.Get` | app/users/models.py:10-19 | a row's value in a column fits that column's declared type; an absent portfolio id reads as NULL |
| `Models.GetAttr` | app/users/models.py:7-19 | reading an attribute succeeds exactly for the declared columns and yields that column's value |
| `Models.Assign` | app/base_dao.py:72-76 | after a SET, the named columns hold the given values and every other column, and the id, keeps its value |
| `Models.NewAccount` | app/users/models.py:10-19 | an inserted row has the given id and every supplied value. Unless given: is_verified, is_sub, is_admin and is_moder are false, portfolio_id is NULL, and created is the date fixed when the class was defined |
| `Models.ColumnNamesRoundTrip` | app/users/models.py:10-19 | every column is found under its own attribute name, and distinct columns have distinct names |
| `Models.Bindable` | app/users/models.py:10-15 | an integer parameter is accepted only within the 32-bit INTEGER range of `id` and `portfolio_id` |
| `Models.Writable` | app/base_dao.py:72-76 | a SET list is at least one column, not `id`, each with a value of the column's type that the database accepts |
| `Models.Blank` | app/users/models.py:14-19 | the column defaults: every flag false, no portfolio, created the fixed date |
| `Models.Insertable` | app/base_dao.py:55-58 | an insert is writable and supplies the NOT NULL columns without a default: email, password_hashed and verification_code |
| `Models.Filterable` | app/base_dao.py:127 | a `filter_by` clause the database accepts: each value of its column's type, or None, and every integer in the INTEGER range |
| `Models.Matches` | app/base_dao.py:127 | a row satisfies a `filter_by` clause when it equals every given value, with None read as NULL |
| `Models.ColumnsDetermineRow` | app/users/models.py:10-19 | two rows that agree on every column are the same row |
| `Models.EmailFilter` | app/users/dao.py:14 | the filter `email == e` is one the database accepts, and it matches exactly the rows whose email is e |
| `Numerals.Digits` | app/users/router.py:111 | the decimal digits of a natural number: non-empty, and no leading zero |
| `Numerals.IntToString` | app/users/router.py:111 | `str(n)` is non-empty and starts with a minus sign exactly when n is negative |
| `Numerals.ParseInt` | app/users/dependencies.py:36 | `int(text)` yields a value only for non-empty text |
| `Numerals.DigitsRoundTrip` | app/users/dependencies.py:36 | reading back the digits of n gives n |
| `Numerals.ParseIntRoundTrip` | app/users/dependencies.py:36 | `int(str(n)) == n` for every integer n |
| `Utf8.EncodeChar` | app/users/auth.py:17-18 | a character encodes to 1 to 4 bytes, and to exactly one byte when it is ASCII |
| `Utf8.Encode` | app/users/auth.py:17-18 | text of n characters encodes to between n and 4n bytes |
| `Utf8.DecodeChar` | app/users/auth.py:17-18 | decoding one character consumes between 1 and all of the available bytes |
| `Utf8.DecodeEncode` | app/users/auth.py:17-18 | decoding the UTF-8 encoding of any text gives that text back, so distinct passwords encode to distinct bytes |
| `Utf8.EncodeAscii` | app/users/auth.py:18 | ASCII text encodes byte for byte |
| `Tasks.CharRange` | app/tasks/tasks.py:12 | a run of consecutive code points of the given length |
| `Tasks.AlphabetAt` | app/tasks/tasks.py:12 | the alphabet has 62 symbols, and the code point at each position |
| `Tasks.AlphabetShape` | app/tasks/tasks.py:12 | the alphabet's 62 symbols are distinct: lower case, then upper case, then digits. A character is in it exactly when it is an ASCII letter or digit |
| `Tasks.CreateVerificationCode` | app/tasks/tasks.py:11-13 | the code has exactly `length` symbols (none when length is zero or less), each from the alphabet; the default length is 6 |
| `Tasks.MailQueue.constructor` | app/tasks/tasks.py:16-24 | no message has been queued |
| `Tasks.MailQueue.SendVerifyMessage` | app/tasks/tasks.py:16-24 | exactly one message, carrying that email and that code, is appended to the queue |
| `BaseDao.MaxKey` | app/base_dao.py:159-161 | the largest key of a non-empty key set |
| `BaseDao.SortedIds` | app/base_dao.py:159-161 | the keys in strictly ascending order, each exactly once |
| `BaseDao.Pick` | app/base_dao.py:159-161 | exactly the listed keys whose rows match, in the listed order |
| `BaseDao.IncreasingCard` | app/base_dao.py:159-161 | a strictly increasing sequence has as many distinct elements as entries |
| `BaseDao.SelectIds` | app/base_dao.py:159-161 | the keys of exactly the matching rows, ascending, each once |
| `BaseDao.Select` | app/base_dao.py:156-161 | `find_all` returns one entry per matching row; every entry is a matching row, every matching row appears, and ids ascend |
| `BaseDao.FindFirst` | app/base_dao.py:140-145 | `find_obj` returns nothing exactly when no row matches; otherwise it returns the matching row with the lowest id |
| `BaseDao.FindUnique` | app/base_dao.py:124-129 | `find_one_or_none` returns a row exactly when one row matches, and it is that row |
| `BaseDao.UpdateWhere` | app/base_dao.py:69-79 | the keys and ids do not change. On matching rows the named columns take the new values, and nothing else changes |
| `BaseDao.InsertMatchIds` | app/base_dao.py:52-58 | after an insert under a fresh key, a filter's matches gain that key exactly when the new row matches |
| `BaseDao.FindUniqueIsFirst` | app/base_dao.py:124-145 | when exactly one row matches, `find_one_or_none` and `find_obj` return the same row |
| `BaseDao.FindFirstIsHead` | app/base_dao.py:140-161 | `find_obj` returns the first entry of `find_all`, and nothing when that is empty |
| `BaseDao.FindUniqueKey` | app/base_dao.py:124-129 | the unique match is stored under its own id, and no other key matches |
| `BaseDao.UpdateWhereNoMatch` | app/base_dao.py:69-79 | an update that matches no row changes nothing |
| `BaseDao.UpdateReturnsStoredRow` | app/base_dao.py:76-80 | the row `update` returns is the row now stored under that id: the old row with the new values |
| `BaseDao.UserTable.constructor` | app/users/models.py:7-10 | the table starts empty and the id sequence at 1 |
| `BaseDao.UserTable.Add` | app/base_dao.py:36-48 | a valid insert, while the sequence has not passed the largest INTEGER, adds one row under the next id and advances the sequence. A refused insert changes nothing. Ids stay unique and below the counter |
| `BaseDao.UserTable.AddReturnObj` | app/base_dao.py:52-65 | as `Add`, and returns the new row, or None when the insert is refused |
| `BaseDao.UserTable.Update` | app/base_dao.py:69-87 | the table becomes `UpdateWhere` of the old table. It returns the updated row when exactly one row matched, else None. A refused statement changes nothing and returns None |
| `BaseDao.UserTable.Delete` | app/base_dao.py:91-104 | removes the row with that id and no other; an absent id changes nothing |
| `BaseDao.UserTable.FindById` | app/base_dao.py:108-121 | returns the row stored under that id, or None when there is none; nothing changes |
| `BaseDao.UserTable.FindOneOrNone` | app/base_dao.py:124-136 | returns `FindUnique` for an accepted filter, else None |
| `BaseDao.UserTable.FindObj` | app/base_dao.py:140-152 | returns `FindFirst` for an accepted filter, else None |
| `BaseDao.UserTable.FindAll` | app/base_dao.py:156-168 | returns `Select` for an accepted filter, else None |
| `UserDao.WithVerification` | app/users/dao.py:14 | is_verified takes the flag on exactly the rows with that email. Every other column, and every other row, is unchanged |
| `UserDao.VerificationRow` | app/users/dao.py:14 | on one row, setting the flag by email is the generic SET of `is_verified` under the email filter |
| `UserDao.WithVerificationIsUpdate` | app/users/dao.py:14-21 | the status update equals the generic filtered update on `email` that sets the one column `is_verified` |
| `UserDao.WithVerificationIdempotent` | app/users/dao.py:14-21 | applying the status update twice is the same as applying it once |
| `UserDao.WithVerificationNoMatch` | app/users/dao.py:14-21 | with no row holding the email, the status update changes nothing |
| `UserDao.WithVerificationKeepsEmailMatches` | app/users/dao.py:14-21 | a status update moves no row into or out of any email filter |
| `UserDao.UpdateVerificationStatus` | app/users/dao.py:12-16 | every row with that email becomes verified, and nothing else changes |
| `UserDao.DowngradeVerificationStatus` | app/users/dao.py:19-23 | every row with that email becomes unverified, and nothing else changes |
| `Auth.GetPasswordHash` | app/users/auth.py:10-13 | under the hasher's law, the password checks against the hash made from it, whatever the salt |
| `Auth.PasswordBytes` | app/users/auth.py:16-20 | bytes pass through unchanged, and text becomes bytes that decode back to it as UTF-8 |
| `Auth.HasherSound` | app/users/auth.py:10-21 | bcrypt's law: a password checks against any hash made from it, whatever the salt |
| `Auth.VerifyPassword` | app/users/auth.py:16-21 | text is checked as its UTF-8 bytes, and bytes are checked as they are |
| `Auth.VerifyOwnHash` | app/users/auth.py:10-21 | a password verifies against its own hash, given either as bytes or as text |
| `Auth.VerifyTextAsBytes` | app/users/auth.py:16-21 | checking text is the same as checking its UTF-8 bytes |
| `Auth.WholeSeconds` | app/users/auth.py:26-30 | the whole second an instant falls in: the seconds that jose writes into `exp` and compares against |
| `Auth.CodecSound` | app/users/auth.py:28-31 | the signing layer's law: every signed payload is a non-empty token whose signature verifies, giving that payload back |
| `Auth.ClaimsAccepted` | app/users/dependencies.py:25-27 | jose's checks of the registered claims, with leeway 0. `iat`, `nbf` and `exp` are integers. `nbf` is not in the future, and `exp` is not in the past unless its check is off. Any `aud` or `at_hash` is refused. `sub` and `jti` are strings |
| `Auth.JwtDecode` | app/users/dependencies.py:25-29 | `jwt.decode` gives the payload exactly when the signature verifies and the claims are accepted at the current whole second |
| `Auth.AccessTokenClaims` | app/users/auth.py:24-27 | the signed payload is the caller's claims plus `exp` = the issue second + 24h. Any caller `exp` is overwritten and every other claim is kept |
| `Auth.CreateAccessToken` | app/users/auth.py:24-32 | under the codec's law, the token is non-empty and its signature verifies, giving exactly that payload |
| `Auth.AuthenticateUser` | app/users/auth.py:35-38 | returns a user exactly when one row has the email, its hash accepts the password, and it is verified. The user returned is such a row. So a wrong password, or an unverified row, gives none |
| `Auth.CheckCredentials` | app/users/auth.py:36-37 | returns a user exactly when one row has the email and its hash accepts the password |
| `Auth.AuthenticateIsCredentialsAndVerified` | app/users/auth.py:37 | `authenticate_user` is the credential check followed by the verified flag |
| `Dependencies.GetToken` | app/users/dependencies.py:16-20 | returns the cookie exactly when `access_token` is present and non-empty; otherwise fails with TokenAbsent |
| `Auth.ClaimToInt` | app/users/dependencies.py:31-36 | `int()` of a number is that number, and errs on empty text |
| `Dependencies.Subject` | app/users/dependencies.py:33-36 | yields an id exactly when `sub` is present, truthy and a numeral, and the id is its value. An absent or falsy `sub` gives UserIsNotPresent. A truthy `sub` that is not a numeral gives the uncaught ValueError of `int()` |
| `Dependencies.GuardPayload` | app/users/dependencies.py:30-39 | the checks on a decoded payload, in order. An absent or falsy `exp` gives TokenExpired, a non-numeral one ValueError, and one before `now` TokenExpired. An `exp` at `now` passes. Then `sub` fails as `Subject` says. A numeral `sub` with no row gives UserIsNotPresent. Success returns exactly the row stored under `int(sub)`, whose id is that number |
| `Dependencies.GetCurrentUser` | app/users/dependencies.py:23-39 | a token that `jwt.decode` refuses gives IncorrectTokenFormat. That covers a bad signature, and also an expired or ill-formed registered claim. Otherwise the payload goes through `GuardPayload`. Success happens exactly when the payload passes the expiry test and names a stored row |
| `Dependencies.GetCurrentUserCorrected` | app/users/dependencies.py:25-32 | with jose's expiry check off, the guard's own `exp` test decides; other refusals by `jwt.decode` still give IncorrectTokenFormat |
| `Dependencies.CurrentUser` | app/users/dependencies.py:16-39 | a missing cookie fails with TokenAbsent before any token check; otherwise the result is that of `get_current_user` |
| `Dependencies.GetCurrentAdminUserAsWritten` | app/users/dependencies.py:42-45 | the guard as written always fails, with the AttributeError of reading `role` |
| `Dependencies.GetCurrentAdminUser` | app/users/dependencies.py:42-45 | the intended guard passes the row exactly when it is an admin; otherwise it raises UserIsNotPresent |
| `Dependencies.SubjectClaims` | app/users/router.py:111 | the login payload carries `sub = str(id)` and no `exp` of its own |
| `Dependencies.IssuedExpiry` | app/users/auth.py:26-30 | a token issued at an instant carries `exp` = its whole second plus 24 hours |
| `Dependencies.IssuedPayload` | app/users/dependencies.py:25-35 | a login payload names its id through `sub`. It passes every jose check except the expiry. It passes jose's expiry check exactly up to its `exp` second, and the guard's own check exactly up to the first microsecond of that second |
| `Dependencies.IssuedTokenResolves` | app/users/dependencies.py:23-39 | a token issued for a stored id resolves to that row up to its `exp`. In the rest of the `exp` second it gives TokenExpired. After that second it gives IncorrectTokenFormat, because jose refuses it |
| `Dependencies.IssuedTokenResolvesCorrected` | app/users/dependencies.py:30-32 | with the corrected guard, the same token resolves up to its `exp` and gives TokenExpired after it |
| `Dependencies.TokenExpiredNearlyDead` | app/users/dependencies.py:31-32 | as written, TokenExpired is given only for a payload with no `exp`, or within the `exp` second past its first microsecond |
| `Dependencies.ExpiryBeforeSubject` | app/users/dependencies.py:30-35 | a payload that jose accepts, with no `sub`, that fails the guard's expiry test gives TokenExpired, never UserIsNotPresent |
| `Dependencies.Unexpired` | app/users/dependencies.py:30-31 | the guard's expiry test: `exp` is present, truthy and a numeral, and not before the fractional `now` |
| `Dependencies.Truthy` | app/users/dependencies.py:31-34 | Python truthiness of a claim: zero and the empty string are false |
| `Router.SignupData` | app/users/router.py:38 | the signup insert is one the database accepts, with exactly email, password_hashed and verification_code |
| `Router.SignupRow` | app/users/router.py:36-38 | a signed-up row holds the email, the hash and the code. Every flag is false, there is no portfolio, and created has its default |
| `Router.SignupRejects` | app/users/router.py:29-31 | the check as written refuses exactly when one row holds the email |
| `Router.SignupRejectsCorrected` | app/users/router.py:29-31 | the intended check refuses exactly when some row holds the email |
| `Router.SignupRejectsCorrectedIff` | app/users/router.py:29-34 | the corrected check refuses exactly those emails that some row holds |
| `Router.DuplicateEmailsPassSignupCheck` | app/users/router.py:29-31 | with two rows holding an email, the check as written lets another signup with it through; the corrected check refuses it |
| `Router.SignupUser` | app/users/router.py:25-52 | when the check refuses, or the exhausted sequence refuses the insert, the handler returns null and nothing changes. Otherwise, with status 201, it adds one unverified row under the next id, holding the email, the hash and a fresh 6-symbol code, and queues one message with that email and that same code |
| `Router.SignupUserCorrected` | app/users/router.py:29-34 | as `SignupUser`, refusing any email a row already holds, so signup never creates a duplicate email |
| `Router.VerifyEmail` | app/users/router.py:55-86 | an unknown email gives 500 and a wrong code gives 417, both with no change. The exact stored code gives 202, and every row with the email becomes verified |
| `Router.LoginToken` | app/users/router.py:111 | under the codec's law, the login token is non-empty and carries exactly `sub = str(id)` and `exp` = the login second plus 24 hours |
| `Router.LoginUser` | app/users/router.py:90-122 | 200 with a token, also set as the cookie, exactly when `authenticate_user` returns a user; the token is signed for `sub = str(id)`. Every other case is the catch-all 500. 401 never occurs |
| `Router.LoginUserCorrected` | app/users/router.py:107-109 | with the verified flag checked separately, correct credentials for an unverified row give 401 and no token |
| `Router.LogoutUser` | app/users/router.py:125-134 | 200, and the cookie stays: the deletion is made on a response object that the returned JSONResponse replaces |
| `Router.LogoutUserCorrected` | app/users/router.py:129-134 | 200, and the reply deletes the cookie |
| `Router.DeleteUser` | app/users/router.py:146-157 | removes exactly the caller's row and replies 200. The cookie stays, as in `LogoutUser` |
| `Router.DeleteUserCorrected` | app/users/router.py:155-157 | the same removal, and the reply deletes the cookie |
| `Router.ReadUsersMe` | app/users/router.py:169-173 | replies 200 with the caller's own row |
| `Router.SelectAll` | app/users/router.py:189 | `find_all()` with no filter returns every row |
| `Router.ReadUsersAll` | app/users/router.py:184-195 | every row, in id order, for an admin; 401 for anyone else |
| `Router.ReadUsersAllBehindGuard` | app/users/dependencies.py:42-45 | `/auth/all` behind the admin guard as written always fails with the AttributeError, and the handler never runs |
| `Router.ReadUsersAllBehindCorrectedGuard` | app/users/router.py:184-195 | behind the intended guard, an admin gets every row in id order. Anyone else gets the guard's UserIsNotPresent, so the reply is never 401 |
| `Router.VerifyPassword` | app/users/router.py:207-235 | a wrong code gives 500 with no change. The right code stores the new hash on the rows with the caller's email, changes no other column, and keeps the code |
| `Router.ResetPassword` | app/users/router.py:238-254 | sets a fresh 6-symbol code on the caller's email, changing no other column, and queues exactly one message to that email with that code |
| `Router.RenameThenDowngradeRow` | app/users/router.py:272-273 | one row through the rename and then the downgrade by the old email. It ends with the new email. It is unverified only if it was already unverified, or if the new email equals the old one. Every other column is kept, and a row with another email is untouched |
| `Router.NewEmailRows` | app/users/router.py:272-273 | the rows holding the old email now hold the new one. Such a row stays verified when it was verified and the email changed. Every other column of every row is kept, and rows with another email are unchanged |
| `Router.RenameFields` | app/users/router.py:272-273 | the intended SET list: the new email and is_verified false, a list the database accepts |
| `Router.NewEmailRowsCorrected` | app/users/router.py:272-273 | the renamed rows hold the new email and are unverified, and keep their hash, code, other flags, portfolio and creation date; every other row is unchanged |
| `Router.RenameKeepsVerified` | app/users/router.py:272-273 | as written, a verified row renamed to a different email is still verified |
| `Router.RenameCanDuplicateEmail` | app/users/router.py:272 | as written, a rename can give two rows the same email |
| `Router.VerifyNewEmail` | app/users/router.py:262-280 | a wrong code changes nothing. It raises InvalidVerificationCode, or, when ERROR records are logged, the TypeError that logging the row as `extra` raises. The right code renames the caller's rows, then downgrades by the old email, and replies 200 |
| `Router.VerifyNewEmailCorrected` | app/users/router.py:266-273 | as `VerifyNewEmail`, but the renamed rows become unverified, and a wrong code raises InvalidVerificationCode whatever the log level |
| `Router.ResetEmail` | app/users/router.py:283-298 | a fresh code on the caller's email, its rows downgraded, exactly one message with that code, and 200 |
| `Router.PortfolioField` | app/users/router.py:310 | the SET list of `update_portfolio_id` names only portfolio_id, and the database accepts it exactly when the id is in the INTEGER range |
| `Router.UpdatePortfolioId` | app/users/router.py:301-316 | with no authentication. An unknown email gets the exception returned as a value, and nothing changes. Otherwise the reply is 200, and only portfolio_id changes, on the rows with the email; an id outside the INTEGER range is refused by the database, and nothing changes |
| `Router.UpdatePortfolioIdCorrected` | app/users/router.py:304-308 | as `UpdatePortfolioId`, but an unknown email raises UserIsNotPresent |
| `Router.SignupVerifyLogin` | app/users/router.py:25-122 | for a new email, the handlers as written (signup, then confirmation with the queued code, then login) yield a token. At the moment of login the guard resolves that token to the new row, which is now verified |

## Left out

- Logging output is not modelled. A `logger.error` call is a no-op unless it raises. One does: `extra=current_user` passes a row, which is not a mapping, so building the record raises TypeError when ERROR records are logged. At app/users/router.py:268 that escapes the handler (`Router.VerifyNewEmail`). At lines 161, 176, 199 and 215 it lies on paths the model already answers with the catch-all 500, or on except branches that no modelled exception reaches. So does `extra=response` at line 138.
- SMTP delivery, the message text and the Celery broker are not modelled. Dispatch is the append to `MailQueue.sent`.
- Response message text and timestamps are omitted. A body keeps only the email it names, the token or the rows.
- What FastAPI does with a returned exception class is not modelled, and neither are the status codes of the HTTP exceptions. app/exceptions.py is not part of this model. A `None` return is modelled as FastAPI serialises it: 200 with a null body (`Reply(200, NullBody, Untouched)`).
- Pydantic validation and `EmailStr` normalisation are omitted. Request fields are plain strings and byte sequences.
- Concurrency is not modelled: no async interleaving and no check-then-insert race between two signups. Each DAO call is one atomic step.
- bcrypt internals are abstract: the 72-byte limit and the ValueError on a malformed stored hash are not modelled. `checkpw` is a total function.
- JWT internals are abstract: the signing layer's serialisation, signatures and algorithms. `decode` is unconstrained on strings the codec did not sign, so nothing is proved about forged or tampered tokens. jose's claim checks are modelled (`Auth.ClaimsAccepted`). Leeway, audience, issuer and subject options are not, since the source passes none.
- Auth.ClaimsAccepted: `int()` of a JSON float or boolean claim, and JSON null, lists or objects as claim values, are not modelled. Claims are integers or strings.
- Dependencies.GetCurrentUser: jose reads the clock inside `jwt.decode`, and the guard reads it again at app/users/dependencies.py:31. The model uses one `now` for both, and this fixes the exact TokenExpired window of `Dependencies.TokenExpiredNearlyDead`.
- Floating-point rounding of `datetime.now(UTC).timestamp()` is not modelled. The guard's comparison of `exp` with it is taken as exact in microseconds.
- Numerals.ParseInt: accepts an optional sign followed by ASCII digits only. Python's `int()` also accepts surrounding whitespace, underscores between digits and non-ASCII digits.
- Dependencies.Truthy: covers only number and string claims. Other JSON values in a payload (lists, booleans, null, objects) are not modelled.
- BaseDao.UserTable.Add: a refused insert leaves the id counter unchanged. A PostgreSQL sequence would have consumed a value.
- Filters and SET lists name typed `Column`s, so an unknown attribute name cannot be written. In the source, one would raise and be caught as a failed statement.
- SQLAlchemy result objects are not distinguished: a `RowMapping` from `find_one_or_none` and a `User` from `find_obj` are both an `Account`.
- UserDao.UpdateVerificationStatus: UserDAO does not catch exceptions, but on the in-memory table an update by email cannot fail, so no failure path is modelled.
- Utf8.EncodeChar: a Dafny `char` cannot hold a lone surrogate (U+D800 to U+DFFF). So the UnicodeEncodeError that `str.encode('utf-8')` raises for one, in verify_password's text branch, is not modelled.
- Models.Writable: an insert or a SET list that names `id` is refused, with no change. PostgreSQL would accept either: the row would be re-keyed, or inserted without advancing the sequence. No handler passes `id`.
- Tasks.CreateVerificationCode: the choice of each symbol is nondeterministic. Its uniform distribution and independence are not modelled.
- Router.VerifyNewEmail: its reply says a code was sent to the new email, but the handler queues no message, and the model does not either.
- app/main.py, app/database.py, app/logger.py, the Celery app, the email templates and the admin views are framework plumbing, and are not part of this model.

## Findings

| source | as written | input that shows it | evidently intended | confidence | as-written member | corrected member |
|---|---|---|---|---|---|---|
| app/users/dependencies.py:43 | the admin guard reads `current_usern.role`, but User (app/users/models.py:7-19) has no `role` column or attribute | any authenticated row: `/auth/all` always fails with AttributeError | admit exactly the rows whose `is_admin` is true | high, not executed | `Dependencies.GetCurrentAdminUserAsWritten` | `Dependencies.GetCurrentAdminUser` |
| app/users/router.py:272-273 | rename by the old email, then `downgrade_verification_status(old email)`, which no longer matches the renamed row | a verified row with email a, the right code, and email_new b ≠ a: the row ends with email b and still verified | the new address is unverified until confirmed | high, not executed | `Router.RenameKeepsVerified` | `Router.NewEmailRowsCorrected` |
| app/users/router.py:29-31 | the duplicate check uses `find_one_or_none`, which returns None when two rows share the email | two rows with email a@x (a rename can produce them, `Router.RenameCanDuplicateEmail`): a signup with a@x creates a third | refuse any email some row holds | medium, not executed | `Router.DuplicateEmailsPassSignupCheck` | `Router.SignupUserCorrected` |
| app/users/router.py:107-109 | the "Email not verified" 401 branch follows `authenticate_user`, which already refuses unverified rows (app/users/auth.py:37) | an unverified row with the correct password: 500, never 401 | answer 401 for correct credentials on an unverified row | high, not executed | `Router.LoginUser` | `Router.LoginUserCorrected` |
| app/users/dependencies.py:25-32 | `jwt.decode` with default options already refuses a token whose `exp` second has passed, raising a JWTError that becomes IncorrectTokenFormat. The guard's own expiry test can then fire only for a payload without `exp`, or within the `exp` second itself | a login token presented 24 hours and one second after issue: IncorrectTokenFormat, not TokenExpired | answer TokenExpired for an expired token, by leaving the expiry to the guard (`verify_exp` off) | medium, not executed | `Dependencies.TokenExpiredNearlyDead` | `Dependencies.IssuedTokenResolvesCorrected` |
| app/users/router.py:129-134 | `response.delete_cookie` is called on the temporary response the framework injects, but the handler then returns a new JSONResponse, which FastAPI sends as it is, without the temporary response's headers | a logout with the cookie set: the reply carries no Set-Cookie, and the client keeps the token | the reply deletes the cookie | medium, not executed | `Router.LogoutUser` | `Router.LogoutUserCorrected` |
| app/users/router.py:156-157 | the same in `delete_user`: the cookie is deleted on the temporary response, and a new JSONResponse is returned | a deletion with the cookie set: the row is gone, but the reply carries no Set-Cookie | the reply deletes the cookie | medium, not executed | `Router.DeleteUser` | `Router.DeleteUserCorrected` |
| app/users/router.py:268 | `logger.error(msg, extra=current_user)` runs outside any try; `extra` must be a mapping, and a User row is not one | a wrong code while ERROR records are logged: a TypeError escapes, and the client gets a bare 500 instead of InvalidVerificationCode | log a mapping, such as the email, and raise InvalidVerificationCode | medium, not executed | `Router.VerifyNewEmail` | `Router.VerifyNewEmailCorrected` |
| app/users/router.py:308 | `return UserIsNotPresentException` returns the exception class as the handler's value instead of raising it | an email no row holds | raise UserIsNotPresent | medium, not executed | `Router.UpdatePortfolioId` | `Router.UpdatePortfolioIdCorrected` |
