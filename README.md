# Exam portal accounts and access, in Dafny

This project models the account and access core of the exam portal's
FastAPI backend and proves properties of it:

- the password policy: the ordered strength check, default passwords built
  from the id and date of birth, password expiry and input sanitisation;
- the `User` row, with its column defaults and derived properties;
- the authentication routes as a state machine on user rows:
  - login, with its check order and the five-failure, one-hour lockout;
  - forced password change, password change and password reset;
  - the MFA setup, verify and disable lifecycle;
- the request dependencies that authorise requests: bearer token to user,
  role checks, the optional user and exam access by role;
- the exam time windows (`is_joinable`, `is_active_now`);
- the WebSocket manager's exam-room registry;
- the request-body constraints of the authentication schemas.

Modules follow the source files:

- `Security` (`security.dfy`) models `app/core/security.py`.
- `Users` (`users.dfy`) models `app/models/user.py`.
- `Auth` (`auth.dfy`) models `app/api/routes/auth.py`.
- `Dependencies` (`dependencies.dfy`) models `app/core/dependencies.py`.
- `Exams` (`exams.dfy`) models `app/models/exam.py`.
- `WebSocket` (`websocket.dfy`) models `app/core/websocket.py`.
- `Schemas` (`schemas.dfy`) models `app/schemas/auth.py`.

Helper modules:

- `Wrappers`: `Option` and `Result`.
- `Http`: status codes and the error record.
- `Chars`: ASCII character classes, `lower`, `replace`, `strip`.
- `Query`: the `.first()` of a filtered query.

How things are represented:

- Timestamps are integer seconds, and the current time is a parameter.
- Library calls are passed in as functions: hashing, JWT decoding and issuing, and TOTP checks.
- Generated secrets and reset tokens are passed in as strings.

How the model is shaped:

- `security.py`, `dependencies.py`, `exam.py`, `user.py` and the schemas are pure, so they are modelled as functions and lemmas.
- The validator `ValidatePasswordStrength` builds its error list by appends, so it is a method proved equal to the function `StrengthErrors`.
- The route handlers change user rows in place and commit. They are the methods of the class `Auth.UserTable`.
  - The class holds the table as a sequence of rows.
  - Each method follows its handler statement by statement.
  - Each method is specified by a pure route function over the rows, built from a step function on the one row the handler touches.
  - The lemmas are about those functions.
  - Every method also keeps the table invariant: unique ids, and no enabled MFA without a secret.
- `WebSocketManager` is a class with two map fields.
  - `disconnect` is a loop over the rooms.
  - Each method's contract states the new maps.

Two behaviours of the source follow from the frameworks rather than from its own lines. The model keeps both:

- **`updated_at` changes on every commit.** The `updated_at` column has an update default (`backend/app/models/user.py:55`). So every commit that changes a row stamps the commit time (`Auth.Flush`). This includes a failed and a successful login. Password expiry is measured from `updated_at`, so every login restarts the ninety days.
- **A missing header gives 403.** `HTTPBearer()` refuses a request without a bearer header with 403 "Not authenticated". It does so before any dependency built on it runs (`Dependencies.HttpBearer`). Some later FastAPI releases answer 401 there instead.

## Model

| member | source | states |
|---|---|---|
| Security.ValidatePasswordStrength | backend/app/core/security.py:91-117 | the returned list is exactly the ordered error list of the six checks, and the password is valid iff no check fails |
| Security.StrengthErrors | backend/app/core/security.py:96-115 | at most six errors; each error is present iff its check fails; errors appear in the order length, upper, lower, digit, special, common |
| Security.StrongMeansAllChecks | backend/app/core/security.py:96-117 | valid iff at least 8 characters, an upper-case letter, a lower-case letter, a digit, a special character, and not a common password |
| Security.LowerKeepsSpecial | backend/app/core/security.py:110-114 | lower-casing a password does not change whether it holds a special character |
| Security.SpecialIsNotAlphanumeric | backend/app/core/security.py:110 | no character of the special set is a letter or a digit |
| Security.CommonIsAlphanumeric | backend/app/core/security.py:114 | every common password consists of lower-case letters and digits |
| Security.CommonImpliesNoSpecial | backend/app/core/security.py:110-115 | a password whose lower-case form is common always fails the special-character check too, so it is invalid on two counts |
| Security.GenerateDefaultPassword | backend/app/core/security.py:120-126 | the result starts with the user id; with a non-empty date of birth the rest is the date without '-' and '/', otherwise it is "123456" |
| Security.CleanDobKeepsRest | backend/app/core/security.py:124 | removing '-' then '/' keeps exactly the other characters, in order |
| Security.CleanDobEitherOrder | backend/app/core/security.py:124 | removing '/' first and then '-' gives the same result |
| Security.CleanDobIdempotent | backend/app/core/security.py:124 | cleaning a cleaned date of birth changes nothing |
| Security.IsPasswordExpired | backend/app/core/security.py:129-135 | with no last-changed time the password is expired; otherwise it is expired iff more than the maximum age in seconds has passed since the change |
| Security.ExpiryIsPermanent | backend/app/core/security.py:129-135 | once expired, a password stays expired at every later time |
| Security.ExpiryBoundary | backend/app/core/security.py:134-135 | at exactly last-changed plus the maximum age the password is not expired, one second later it is |
| Security.RemoveControls | backend/app/core/security.py:159 | the result holds no character in 0x00-0x1F or 0x7F-0x9F and keeps every other character |
| Security.RemoveControlsAppend | backend/app/core/security.py:159 | removal works piece by piece: the result for a concatenation is the concatenation of the results, so what remains keeps its order |
| Security.SanitizeUserInput | backend/app/core/security.py:153-164 | empty input gives ""; otherwise the result is the window of the control-free input that is bordered only by whitespace and neither starts nor ends with whitespace, and it holds no control character |
| Security.SanitizeKeepsClean | backend/app/core/security.py:153-164 | input with no control character and no whitespace at either end is returned unchanged |
| Security.StripOfStripped | backend/app/core/security.py:162 | stripping a string without surrounding whitespace changes nothing |
| Security.SanitizeIdempotent | backend/app/core/security.py:153-164 | sanitising twice equals sanitising once |
| Security.JoinMessages | backend/app/api/routes/auth.py:241 | `", ".join` over the messages: every error's message appears, in order, with ", " between neighbours and nothing else; empty iff there are no errors, otherwise it starts with the first message and ends with the last |
| Chars.Join | backend/app/api/routes/auth.py:241 | `str.join`: part k sits at the sum of the earlier parts' lengths plus one separator per earlier part, each separator follows its part, and the length leaves room for nothing else |
| Chars.Lower | backend/app/core/security.py:114 | ASCII `lower`: same length, each upper-case letter mapped to its lower-case letter, everything else kept |
| Chars.RemoveAll | backend/app/core/security.py:124 | `replace(c, "")`: the result is the input with every `c` filtered out, the other characters kept in order |
| Chars.FilterAppend | backend/app/core/security.py:124 | filtering a concatenation is the concatenation of the filtered parts, so filtering keeps the order of what it keeps |
| Chars.StripLeft | backend/app/core/security.py:162 | the result is a suffix of the input that does not start with whitespace |
| Chars.StripRight | backend/app/core/security.py:162 | the result is a prefix of the input that does not end with whitespace |
| Chars.Strip | backend/app/core/security.py:162 | the result is a window of the input with only whitespace outside it, and neither starts nor ends with whitespace |
| Users.NewAccount | backend/app/models/user.py:15-65 | a new row has no failed attempts, no lock, MFA off with no secret, no forced-change flag, is active and unverified, and has no timestamps or reset token |
| Users.FullName | backend/app/models/user.py:74-76 | first name, one space, last name |
| Users.DefaultPassword | backend/app/models/user.py:78-85 | the row's default password equals `generate_default_password(id, date_of_birth)` for every row |
| Users.DefaultPasswordShape | backend/app/models/user.py:78-85 | the default password starts with the id; after it comes a text without '-' or '/' when there is a date of birth, and "123456" when there is none |
| Query.FindFirst | backend/app/api/routes/auth.py:37-41 | `.first()`: the found row satisfies the filter and no earlier row does; nothing is found iff no row satisfies it |
| Query.FindFirstAt | backend/app/core/dependencies.py:39 | a row that satisfies the filter with no earlier row satisfying it is the one found |
| Schemas.ValidUserLogin | backend/app/schemas/auth.py:17-20 | in a valid login body an MFA token is present exactly when it is non-empty, so the handler's truthiness test is a presence test |
| Schemas.ValidMfaVerify | backend/app/schemas/auth.py:102-103 | a valid MFA body's token is never empty |
| Schemas.ValidNewPassword | backend/app/schemas/auth.py:61 | a valid new password never fails the strength check's length test |
| Schemas.ValidPasswordChange | backend/app/schemas/auth.py:59-61 | for a valid body the strength check never reports a too-short new password |
| Schemas.ValidResetPassword | backend/app/schemas/auth.py:83-85 | for a valid body the strength check never reports a too-short new password |
| Schemas.MfaTokenShapesAgree | backend/app/schemas/auth.py:17-20 | every token `MFAVerify` accepts also fits `UserLogin`'s optional six-character MFA token |
| Schemas.StrongPasswordFitsSchema | backend/app/schemas/auth.py:59-61 | every password the strength check accepts, up to 128 characters, satisfies the schema's length bounds |
| Schemas.SchemaLeavesCharacterChecks | backend/app/schemas/auth.py:83-85 | for every schema-valid password, strength comes down to an upper-case letter, a lower-case letter, a digit, a special character and not being common |
| Exams.NewExam | backend/app/models/exam.py:25-49 | a new exam is a draft, inactive, with a 300-second join window |
| Exams.IsJoinable | backend/app/models/exam.py:88-99 | joinable only for a started exam with a start time, up to start plus the join window |
| Exams.IsActiveNow | backend/app/models/exam.py:101-112 | active only for a started exam with both times set, from start to end inclusive |
| Exams.JoinableIff | backend/app/models/exam.py:88-99 | joinable iff started, with a start time, and now is at most start plus the join window |
| Exams.JoinDeadlineIsFinal | backend/app/models/exam.py:96-99 | once not joinable, an exam stays not joinable at every later time |
| Exams.ActiveNowIff | backend/app/models/exam.py:101-112 | active iff started with both times set and start <= now <= end, so never when start is after end |
| Exams.OnlyStartedExamsOpen | backend/app/models/exam.py:88-112 | an exam that is not started is neither joinable nor active, at any time |
| Exams.ActiveWithinWindowIsJoinable | backend/app/models/exam.py:88-112 | an active exam is joinable until its join window closes |
| Exams.IsJoinableAsWritten | backend/app/models/exam.py:88-99 | when the property as written returns a value, it agrees with the intended one |
| Exams.JoinableAsWrittenNeverTrue | backend/app/models/exam.py:94-97 | as written, the property never returns true, and raises for every started exam with a start time |
| Exams.JoinableCounterexample | backend/app/models/exam.py:94-97 | an exam started at 1000 and checked at 1001 is joinable as intended, but the code as written raises |
| Dependencies.HttpBearer | backend/app/core/dependencies.py:12-16 | credentials come out iff the header is present with a non-empty scheme and credentials and the scheme is "bearer" in any case; the auto-erroring scheme never returns none: a missing header or an empty scheme or credentials gives 403 "Not authenticated", and any other non-bearer scheme gives 403 "Invalid authentication credentials" |
| Dependencies.GetCurrentUser | backend/app/core/dependencies.py:15-49 | a returned user is active, is a row of the table and is named by the token's subject; every refusal is one of 403 missing, 403 scheme, 401 credentials or 401 disabled; a bearer refusal is passed on unchanged |
| Dependencies.CurrentUserResolvesSubject | backend/app/core/dependencies.py:39-49 | with unique ids, a token naming an active row yields that row, and one naming an inactive row gives 401 "User account is disabled" |
| Dependencies.UnknownSubjectRefused | backend/app/core/dependencies.py:26-41 | a bearer token without a subject, or naming no row, gives 401 "Could not validate credentials" |
| Dependencies.GetCurrentActiveUser | backend/app/core/dependencies.py:52-61 | admits iff the user is active, passing it through unchanged |
| Dependencies.ActiveCheckIsRedundant | backend/app/core/dependencies.py:43-61 | behind `get_current_user` the inactive-user 400 is unreachable: the active-user dependency returns what it receives |
| Dependencies.RequireRole | backend/app/core/dependencies.py:64-73 | admits iff the active user's role is the required one; otherwise 403 |
| Dependencies.RequireRoles | backend/app/core/dependencies.py:76-85 | admits iff the active user's role is in the list; otherwise 403 |
| Dependencies.GetCurrentHod | backend/app/core/dependencies.py:89 | admits exactly active HODs, passing the user through |
| Dependencies.GetCurrentTeacher | backend/app/core/dependencies.py:90 | admits exactly active teachers and HODs, passing the user through |
| Dependencies.GetCurrentStudent | backend/app/core/dependencies.py:91 | admits exactly active students, passing the user through |
| Dependencies.GetAdminUser | backend/app/core/dependencies.py:92 | admits exactly active HODs and coordinators, passing the user through |
| Dependencies.GetOptionalCurrentUserAsWritten | backend/app/core/dependencies.py:95-119 | as written, the optional user raises exactly when the bearer header is missing or malformed, and then with the bearer scheme's 403 |
| Dependencies.OptionalAsWrittenRefusesAnonymous | backend/app/core/dependencies.py:95-101 | as written, a request without a header is refused with 403 instead of being anonymous |
| Dependencies.GetOptionalCurrentUser | backend/app/core/dependencies.py:95-119 | never raises; a returned user is active, in the table and named by the token; no header gives none |
| Dependencies.OptionalAgreesWithCurrent | backend/app/core/dependencies.py:95-119 | the optional user is the user `get_current_user` returns, and none whenever that dependency refuses |
| Dependencies.OptionalVersionsAgreeWithBearer | backend/app/core/dependencies.py:103-119 | with a well-formed bearer header, the code as written and the corrected version give the same answer |
| Dependencies.ValidateExamAccess | backend/app/core/dependencies.py:122-161 | admits iff the user is active, the exam exists, and the user is an HOD, its creator, a teacher, or a student while the exam is active; a missing exam gives 404 |
| Dependencies.ExamAccessByRole | backend/app/core/dependencies.py:137-159 | an HOD or the creator is admitted whatever the active flag; a student only while active, else 403 "Exam is not active"; any other coordinator gets 403 "Access denied to this exam" |
| Auth.Flush | backend/app/models/user.py:55 | a commit leaves the row as the handler set it, and stamps `updated_at` with the commit time exactly when a column changed |
| Auth.LoginStep | backend/app/api/routes/auth.py:55-153 | login never changes the id, the password hash, the active flag, the MFA state or the password-changed flag |
| Auth.LoginStepSpec | backend/app/api/routes/auth.py:55-153 | login succeeds iff unlocked, the password verifies, the account is active, and the MFA token verifies whenever MFA is demanded; success clears the lockout and sets the last login; only a wrong password or a success writes the row |
| Auth.LoginRoute | backend/app/api/routes/auth.py:28-53 | an invalid body gives 422, an unknown identifier gives 401, and neither changes the table; otherwise the answer and the new row are the login checks on the row found |
| Auth.LoginTouchesOnlyFoundRow | backend/app/api/routes/auth.py:37-41 | a login changes no row but the first one its identifier names |
| Auth.LockBlocksBeforePassword | backend/app/api/routes/auth.py:56-66 | a locked account gets 423 before the password is checked, with the row unchanged |
| Auth.WrongPasswordCounts | backend/app/api/routes/auth.py:69-89 | a wrong password adds exactly one failed attempt, sets a one-hour lock once the count reaches 5, and gives 401 |
| Auth.RelockAfterExpiry | backend/app/api/routes/auth.py:71-75 | after a lock expires, the next wrong password locks the account again at once |
| Auth.LockLastsAnHour | backend/app/api/routes/auth.py:56-75 | a lock set at t refuses every login before t + 3600 and none from then on |
| Auth.FailuresAccumulate | backend/app/api/routes/auth.py:69-77 | wrong passwords on an unlocked account below the threshold accumulate one by one and never lock it |
| Auth.FifthFailureLocks | backend/app/api/routes/auth.py:71-75 | from a clean account, four wrong passwords leave it unlocked and the fifth locks it for one hour from that attempt |
| Auth.InactiveRefusedUnchanged | backend/app/api/routes/auth.py:92-102 | an inactive account with the right password gets 401 "Account is disabled" with its counters untouched |
| Auth.MfaRefusals | backend/app/api/routes/auth.py:109-126 | when MFA is demanded, a missing token gives 428 and a wrong one 401, neither changing the row |
| Auth.ForcedChangeSkipsMfa | backend/app/api/routes/auth.py:105-109 | when a password change is forced, the right password logs in without any MFA token, and the response says the change is forced |
| Auth.NewAccountMustChangePassword | backend/app/api/routes/auth.py:104-106 | a newly created account logs in with its password and is told to change it |
| Auth.LoginGrantAuthenticates | backend/app/api/routes/auth.py:135-138 | with unique ids, the access token a login issues authenticates its bearer as the same row through `get_current_user` |
| Auth.CurrentRow | backend/app/api/routes/auth.py:214-219 | the row a request resolves to is the user `get_current_user` returns, and its refusals are that dependency's |
| Auth.ChangePasswordStep | backend/app/api/routes/auth.py:223-249 | succeeds iff the current password verifies and the new one is strong; a wrong current password gives 400, a weak new one 400 listing every failed check; failures change nothing; success stores the new hash, marks the password changed and stamps `updated_at` |
| Auth.ChangePasswordRoute | backend/app/api/routes/auth.py:214-257 | authentication refusals come first and change nothing; only the caller's own row can change; once authenticated, an invalid body gives 422 with no change, and a valid one gets the change step's answer and new row |
| Auth.ChangeThenLogin | backend/app/api/routes/auth.py:244-249 | after a change, the new password verifies, and a login is not forced to change it again iff it is within ninety days |
| Auth.ForgotPasswordRoute | backend/app/api/routes/auth.py:260-293 | the response is the same whether or not the email exists; no matching row leaves the table unchanged; otherwise the first row with that email gets the token and an expiry one hour ahead, and no other row changes |
| Auth.ResetPasswordStep | backend/app/api/routes/auth.py:314-333 | succeeds iff the new password is strong; a weak one gives 400 with no change; success stores the new hash, marks the password changed, clears the token and its expiry, and zeroes the lockout |
| Auth.ResetPasswordRoute | backend/app/api/routes/auth.py:296-312 | an invalid body gives 422 with no change; an unknown or expired token gives 400 "Invalid or expired reset token" with no change; only the row holding the token can change; otherwise the answer and the new row are the reset step on that row |
| Auth.ResetTokenIsSingleUse | backend/app/api/routes/auth.py:303-326 | with unique reset tokens, a token that reset a password is refused when used again |
| Auth.ForgotThenReset | backend/app/api/routes/auth.py:269-333 | requesting a reset and then using the token within the hour sets the new password on the row the email names |
| Auth.SetupMfaStep | backend/app/api/routes/auth.py:350-368 | refused with 400 while MFA is on; otherwise stores the new secret, leaves MFA off and returns the secret and the account name for the QR code |
| Auth.VerifyMfaStep | backend/app/api/routes/auth.py:379-400 | enables MFA iff a secret is stored and the token verifies against it; no stored secret gives 400 "MFA setup not initiated" |
| Auth.DisableMfaStep | backend/app/api/routes/auth.py:411-433 | disables MFA and forgets the secret iff MFA is on and the token verifies; MFA off gives 400 "MFA is not enabled" |
| Auth.SetupMfaRoute | backend/app/api/routes/auth.py:343-348 | an unauthenticated caller gets the dependency's refusal with no change; only the caller's own row can change, and once authenticated the answer and that row are the setup step's |
| Auth.VerifyMfaRoute | backend/app/api/routes/auth.py:371-377 | an unauthenticated caller gets the dependency's refusal with no change; only the caller's own row can change; an invalid token body gives 422 once authenticated, and a valid one gets the verify step on that row |
| Auth.DisableMfaRoute | backend/app/api/routes/auth.py:403-409 | an unauthenticated caller gets the dependency's refusal with no change; only the caller's own row can change; an invalid token body gives 422 once authenticated, and a valid one gets the disable step on that row |
| Auth.MfaLifecycle | backend/app/api/routes/auth.py:350-426 | setup, verify and disable with matching tokens succeed in turn, and the row ends with MFA off and no secret, everything else as before |
| Auth.NoServerErrorWhenConsistent | backend/app/api/routes/auth.py:109-126 | on a row whose enabled MFA has a secret, neither login nor MFA disabling reaches the library with a missing secret |
| Auth.LoginNeverServerError | backend/app/api/routes/auth.py:109-126 | on a table that keeps the invariant, login never answers 500 |
| Auth.DisableMfaNeverServerError | backend/app/api/routes/auth.py:411-421 | on a table that keeps the invariant, disabling MFA never answers 500 |
| Auth.InconsistentRowFails | backend/app/api/routes/auth.py:411-421 | a row with MFA on and no secret makes disabling fail with a server error |
| Auth.LoginKeepsInvariant | backend/app/api/routes/auth.py:129-132 | login keeps the ids unique and every enabled MFA backed by a secret |
| Auth.ChangePasswordKeepsInvariant | backend/app/api/routes/auth.py:245-249 | a password change keeps the table invariant |
| Auth.ForgotPasswordKeepsInvariant | backend/app/api/routes/auth.py:273-277 | a reset request keeps the table invariant |
| Auth.ResetPasswordKeepsInvariant | backend/app/api/routes/auth.py:323-333 | a password reset keeps the table invariant |
| Auth.SetupMfaKeepsInvariant | backend/app/api/routes/auth.py:350-362 | MFA setup keeps the table invariant |
| Auth.MfaTokenRoutesKeepInvariant | backend/app/api/routes/auth.py:379-426 | MFA verification and disabling keep the table invariant |
| Auth.UserTable.constructor | backend/app/models/user.py:18-32 | a table is opened on rows with unique ids and no enabled MFA without a secret, and starts in that invariant |
| Auth.UserTable.Commit | backend/app/api/routes/auth.py:77 | the committed row replaces the old one, with `updated_at` stamped when something changed |
| Auth.UserTable.Login | backend/app/api/routes/auth.py:28-153 | the response and the new table are those of the login route, the table invariant is kept, and on a table that keeps it the answer is never 500 |
| Auth.UserTable.ChangePassword | backend/app/api/routes/auth.py:214-257 | the response and the new table are those of the change-password route, and the table invariant is kept |
| Auth.UserTable.ForgotPassword | backend/app/api/routes/auth.py:260-293 | the response and the new table are those of the forgot-password route, and the table invariant is kept |
| Auth.UserTable.ResetPassword | backend/app/api/routes/auth.py:296-340 | the response and the new table are those of the reset route, and the table invariant is kept |
| Auth.UserTable.SetupMfa | backend/app/api/routes/auth.py:343-368 | the response and the new table are those of the MFA setup route, and the table invariant is kept |
| Auth.UserTable.VerifyMfa | backend/app/api/routes/auth.py:371-400 | the response and the new table are those of the MFA verify route, and the table invariant is kept |
| Auth.UserTable.DisableMfa | backend/app/api/routes/auth.py:403-433 | the response and the new table are those of the MFA disable route, the table invariant is kept, and on a table that keeps it the answer is never 500 |
| WebSocket.Join | backend/app/core/websocket.py:76-77 | the user is in the room afterwards, no one else is added, earlier members keep their places, and a room without duplicates stays so |
| WebSocket.RemoveFirst | backend/app/core/websocket.py:82-83 | a room without the user is left as it is; otherwise exactly the user's first occurrence is cut out, everything before and after it kept in order |
| WebSocket.RemoveFirstCount | backend/app/core/websocket.py:82-83 | removing takes away exactly one occurrence of the user and keeps every other member |
| WebSocket.RemoveFirstNoDup | backend/app/core/websocket.py:81-83 | in a room without duplicates, leaving removes the user entirely and keeps the room free of duplicates |
| WebSocket.RemoveFirstKeepsOthers | backend/app/core/websocket.py:22-24 | removing one user keeps every other user's membership |
| WebSocket.JoinIdempotent | backend/app/core/websocket.py:76-77 | joining twice is joining once |
| WebSocket.JoinThenLeave | backend/app/core/websocket.py:72-83 | a user not in the room who joins and then leaves leaves the room as it was |
| WebSocket.JoinKeepsOrder | backend/app/core/websocket.py:76-77 | a join keeps a room in the order in which its members first joined |
| WebSocket.JoinAllOrder | backend/app/core/websocket.py:72-77 | users joining an empty room in turn leave each of them in it exactly once, in order of first join |
| WebSocket.LeaveAll | backend/app/core/websocket.py:21-24 | every room is kept, and a room without the user is unchanged |
| WebSocket.LeaveAllEffect | backend/app/core/websocket.py:17-24 | after leaving every room, the user is in none, the rooms stay free of duplicates, and every other user keeps exactly their rooms |
| WebSocket.WebSocketManager.constructor | backend/app/core/websocket.py:8-10 | no connections and no rooms |
| WebSocket.WebSocketManager.JoinExamRoom | backend/app/core/websocket.py:72-79 | the exam's room, created empty if absent, becomes the room after the join; connections and other rooms are unchanged; no room gains a duplicate |
| WebSocket.WebSocketManager.LeaveExamRoom | backend/app/core/websocket.py:81-85 | the user is removed from that room only; an absent room or user changes nothing; the room is kept even when it becomes empty |
| WebSocket.WebSocketManager.Disconnect | backend/app/core/websocket.py:17-26 | the user's connection entry is gone and the user is removed from every room, with every room kept |
| WebSocket.WebSocketManager.GetExamParticipants | backend/app/core/websocket.py:87-88 | the room's members, or no one for an exam without a room; never a duplicate |

## Left out

- Password hashing, JWT encoding and decoding, and TOTP verification are foreign library calls. They are function parameters: `Auth.Oracles` and the `verify` parameter of `Dependencies`. The QR URL is represented by the account name it is built for.
- Random reset tokens and MFA secrets are string parameters.
- The wall clock is the `now` parameter.
- The database session is the row sequence of `Auth.UserTable`.
  - Query filters are `Query.FindFirst`.
  - `db.commit()` is `UserTable.Commit`.
  - A handler that raises before committing leaves its rows unchanged.
  - Concurrent requests are not modelled.
- The audit log (`log_activity`) and email sending are I/O and are not modelled.
- The `logout`, `refresh` and `me` routes are not modelled.
- The `user` field of the login response is not modelled, and neither is `UserResponse`.
- Auth.ForgotPasswordRoute: the `EmailStr` field (backend/app/schemas/auth.py:73) is not modelled. Its format check is left out, so any string is looked up. Its normalisation is left out too: pydantic lower-cases the domain before the lookup at backend/app/api/routes/auth.py:269, but the model compares the string as sent. An address that differs from the stored one only in the case of its domain finds a row in the source and none in the model.
- Exams.IsJoinable / Exams.IsActiveNow: timestamps are plain integers, taken to be true UTC instants. The source does not convert stored times; `.replace(tzinfo=timezone.utc)` (backend/app/models/exam.py:96, 109-110) only relabels them. A naive `start_at`/`end_at` read from PostgreSQL in a session whose time zone is not UTC is therefore shifted by that zone's offset in the source, and the model does not capture that shift.
- `WebSocketManager.connect`, the send and broadcast paths, and the endpoint loop are asynchronous network code and are not modelled. Connections are opaque handles.
- WebSocket.WebSocketManager.GetExamParticipants: returns the room's contents. The source returns the stored list itself, so a caller that changes it changes the room. That aliasing is not modelled.
- Dependencies.RequireRole: the refusal's detail uses the role's value ("hod"). Python 3.11 and later format a string-valued enum member differently, so the exact text depends on the interpreter.
- Unicode case and digit classes are not modelled.
  - `[A-Z]`, `[a-z]`, `\d` and `lower()` cover ASCII only. Python's `\d` and `lower()` also act on other scripts.
  - The MFA token pattern's `\d` is taken as ASCII digits too.
  - The control-character class and `strip`'s whitespace set are modelled over code points, as the source defines them.
  - The schemas' lengths are counted in code points.
- Malformed JSON bodies are not modelled. Body validation is modelled only as the field constraints, which give 422 once authentication has succeeded.
- Only the columns that the modelled code reads or writes are kept. `phone`, `display_name`, the profile columns, `created_at`, `created_by` and the relationships of a row are not modelled, and neither are the exam's other columns.
- The uniqueness of `username` and `email` is enforced by the database, not by the handlers. The model does not assume it, so a lookup takes the first matching row.

## Findings

| source | as written | input that shows it | evidently intended | confidence | as-written member | corrected member |
|---|---|---|---|---|---|---|
| backend/app/models/exam.py:94-97 | `is_joinable` computes the deadline with `timedelta`, which the module never imports, so every started exam with a start time raises `NameError` | an exam started at 1000 with the default window, checked at 1001 | joinable while now is at most start plus `join_window_seconds` | high; not executed | Exams.IsJoinableAsWritten | Exams.IsJoinable |
| backend/app/core/dependencies.py:95-101 | `get_optional_current_user` depends on the auto-erroring `HTTPBearer()`, so a request without an `Authorization` header is refused with 403 and its `return None` branch never runs | a request with no `Authorization` header | anonymous requests get `None` (a bearer scheme with `auto_error=False`) | high; not executed | Dependencies.GetOptionalCurrentUserAsWritten | Dependencies.GetOptionalCurrentUser |
