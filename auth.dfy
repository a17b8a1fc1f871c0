/** The authentication routes: login with failed-attempt lockout, password
    change and reset, and the MFA lifecycle.

    Each handler finds one row of the users table, changes some of its columns
    and commits. The table is a `UserTable` object whose methods follow the
    handlers step by step; each method is specified by a pure route function
    over the rows, built from a step function on the one row it touches.
    Hashing, token issuing and TOTP checks are library calls, given as the
    `Oracles` parameter; generated secrets and the current time are
    parameters. */
module Auth {
  import opened Wrappers
  import opened Http
  import opened Users
  import opened Schemas
  import Security
  import Query
  import Dependencies

  /** Failed logins that lock the account. */
  const MaxFailedAttempts := 5
  /** How long a lock lasts: one hour. */
  const LockSeconds := 3600
  /** `expires_in` of an access token: thirty minutes. */
  const AccessTokenSeconds := 30 * 60
  /** How long a reset token stays valid: one hour. */
  const ResetTokenSeconds := 3600

  const IncorrectCredentials := HttpError(Unauthorized, "Incorrect username or password")
  const AccountLocked := HttpError(Locked, "Account is temporarily locked due to failed login attempts")
  const LoginDisabled := HttpError(Unauthorized, "Account is disabled")
  const MfaTokenRequired := HttpError(PreconditionRequired, "MFA token required")
  const InvalidMfaLogin := HttpError(Unauthorized, "Invalid MFA token")
  const IncorrectCurrentPassword := HttpError(BadRequest, "Incorrect current password")
  const InvalidResetToken := HttpError(BadRequest, "Invalid or expired reset token")
  const MfaAlreadyEnabled := HttpError(BadRequest, "MFA is already enabled")
  const MfaNotInitiated := HttpError(BadRequest, "MFA setup not initiated")
  const InvalidMfaToken := HttpError(BadRequest, "Invalid MFA token")
  const MfaNotEnabled := HttpError(BadRequest, "MFA is not enabled")
  /** An exception raised inside a handler. */
  const ServerError := HttpError(InternalServerError, "Internal Server Error")

  const ResetRequested := "If the email exists, a reset link has been sent"
  const PasswordChanged := "Password changed successfully"
  const PasswordReset := "Password reset successfully"
  const ScanQrCode := "Scan the QR code with your authenticator app and verify with a token"
  const MfaEnabled := "MFA enabled successfully"
  const MfaDisabled := "MFA disabled successfully"

  /** The refusal of a weak new password, listing every failed check. */
  function WeakPassword(errs: seq<Security.StrengthError>): HttpError {
    HttpError(BadRequest, "Password validation failed: " + Security.JoinMessages(errs))
  }

  /** The library calls the handlers make: checking a password against a
      hash, checking a TOTP token against a secret, hashing, and issuing the
      access and refresh tokens for a user id. */
  datatype Oracles = Oracles(
    verifyPassword: (string, string) -> bool,
    verifyMfa: (string, string) -> bool,
    hash: string -> string,
    accessToken: (string, Role) -> string,
    refreshToken: string -> string)

  /** The response of `setup_mfa`; the QR URL is represented by the account
      name it is built for. */
  datatype MfaSetup = MfaSetup(secret: string, accountName: string, message: string)

  /** What a handler does to the one row it works on: its response or error,
      and the row as committed. */
  datatype Step<T> = Step(result: Result<T, HttpError>, row: Account)

  /** What a route does to the table. */
  datatype Transition<T> = Transition(result: Result<T, HttpError>, rows: seq<Account>)

  /** A commit of a row the handler changed from `before` to `after`: when a
      column changed, `updated_at` takes the commit time. */
  function Flush(before: Account, after: Account, now: int): (r: Account)
    ensures r.(updatedAt := after.updatedAt) == after
    ensures after == before ==> r == before
    ensures after != before ==> r.updatedAt == Some(now)
  {
    if after == before then after else after.(updatedAt := Some(now))
  }

  // ---------------------------------------------------------------------
  // Invariants of a row and of the table

  /** An enabled MFA always has a secret to check tokens against. */
  predicate MfaConsistent(a: Account) {
    a.mfaEnabled ==> Security.Truthy(a.mfaSecret)
  }

  /** Unique primary keys, and every row MFA-consistent. */
  predicate TableInvariant(db: seq<Account>) {
    UniqueIds(db) && forall i | 0 <= i < |db| :: MfaConsistent(db[i])
  }

  /** Replacing a row by one with the same id that is MFA-consistent keeps
      the table invariant. */
  lemma {:induction false} ReplaceKeepsInvariant(db: seq<Account>, i: nat, row: Account)
    requires TableInvariant(db) && i < |db|
    requires row.id == db[i].id && MfaConsistent(row)
    ensures TableInvariant(db[i := row])
  {
    var db' := db[i := row];
    forall j, k | 0 <= j < k < |db'| ensures db'[j].id != db'[k].id {
      assert db'[j].id == db[j].id && db'[k].id == db[k].id;
    }
  }

  // ---------------------------------------------------------------------
  // Login

  /** The login filter: the identifier is the username, the email or the id. */
  predicate Identifies(ident: string, u: Account) {
    u.username == ident || u.email == Some(ident) || u.id == ident
  }

  function LoginLookup(db: seq<Account>, ident: string): Option<nat> {
    Query.FindFirst(db, (u: Account) => Identifies(ident, u))
  }

  predicate IsLocked(a: Account, now: int) {
    a.lockedUntil.Some? && a.lockedUntil.value > now
  }

  /** The password must be changed: it never was, or it is expired. A row
      without `updated_at` counts as expired. */
  predicate ForcePasswordChange(a: Account, now: int) {
    var expired := if a.updatedAt.Some? then Security.IsPasswordExpired(a.updatedAt, now) else true;
    !a.passwordChanged || expired
  }

  /** A login asks for an MFA token only when MFA is on and no password
      change is forced. */
  predicate MfaDemanded(a: Account, now: int) {
    a.mfaEnabled && !ForcePasswordChange(a, now)
  }

  /** The checks of `login` on the row it found, in the handler's order: the
      lock, the password, the active flag, then the MFA token. */
  function LoginStep(a: Account, body: UserLogin, o: Oracles, now: int): (r: Step<Token>)
    ensures r.row.id == a.id && r.row.hashedPassword == a.hashedPassword && r.row.isActive == a.isActive
    ensures r.row.mfaEnabled == a.mfaEnabled && r.row.mfaSecret == a.mfaSecret && r.row.passwordChanged == a.passwordChanged
  {
    if IsLocked(a, now) then Step(Err(AccountLocked), a)
    else if !o.verifyPassword(body.password, a.hashedPassword) then
      var attempts := a.failedLoginAttempts + 1;
      var failed := a.(failedLoginAttempts := attempts,
                       lockedUntil := if attempts >= MaxFailedAttempts then Some(now + LockSeconds) else a.lockedUntil);
      Step(Err(IncorrectCredentials), Flush(a, failed, now))
    else if !a.isActive then Step(Err(LoginDisabled), a)
    else
      var force := ForcePasswordChange(a, now);
      if a.mfaEnabled && !force && !Security.Truthy(body.mfaToken) then Step(Err(MfaTokenRequired), a)
      else if a.mfaEnabled && !force && a.mfaSecret.None? then Step(Err(ServerError), a)
      else if a.mfaEnabled && !force && !o.verifyMfa(a.mfaSecret.value, body.mfaToken.value) then
        Step(Err(InvalidMfaLogin), a)
      else
        var signedIn := a.(failedLoginAttempts := 0, lockedUntil := None, lastLogin := Some(now));
        var token := Token(o.accessToken(a.id, a.role), AccessTokenSeconds, Some(o.refreshToken(a.id)), "bearer", force);
        Step(Ok(token), Flush(a, signedIn, now))
  }

  /** A login succeeds exactly when the account is unlocked, the password
      verifies, the account is active and, when MFA is demanded, the token
      verifies; a success clears the lockout and records the login. Only a
      wrong password and a success write the row. */
  lemma LoginStepSpec(a: Account, body: UserLogin, o: Oracles, now: int)
    ensures var r := LoginStep(a, body, o, now);
      r.result.Ok? <==>
        !IsLocked(a, now) && o.verifyPassword(body.password, a.hashedPassword) && a.isActive &&
        (MfaDemanded(a, now) ==>
           Security.Truthy(body.mfaToken) && a.mfaSecret.Some? && o.verifyMfa(a.mfaSecret.value, body.mfaToken.value))
    ensures var r := LoginStep(a, body, o, now);
      r.result.Ok? ==>
        r.result.value.forcePasswordChange == ForcePasswordChange(a, now) &&
        r.result.value.accessToken == o.accessToken(a.id, a.role) &&
        r.result.value.expiresIn == AccessTokenSeconds &&
        r.row.(updatedAt := a.updatedAt) == a.(failedLoginAttempts := 0, lockedUntil := None, lastLogin := Some(now))
    ensures var r := LoginStep(a, body, o, now);
      r.result.Err? && r.result.error != IncorrectCredentials ==> r.row == a
  {
  }

  /** `login`: body validation, the lookup by username, email or id, then the
      checks on the row found. Only that row can change. */
  function LoginRoute(db: seq<Account>, body: UserLogin, o: Oracles, now: int): (t: Transition<Token>)
    ensures |t.rows| == |db|
    ensures !ValidUserLogin(body) ==> t == Transition(Err(ValidationFailed), db)
    ensures ValidUserLogin(body) && LoginLookup(db, body.username).None? ==> t == Transition(Err(IncorrectCredentials), db)
    ensures ValidUserLogin(body) && LoginLookup(db, body.username).Some? ==>
      var i := LoginLookup(db, body.username).value;
      i < |db| && t == Transition(LoginStep(db[i], body, o, now).result, db[i := LoginStep(db[i], body, o, now).row])
  {
    if !ValidUserLogin(body) then Transition(Err(ValidationFailed), db)
    else
      var found := LoginLookup(db, body.username);
      if found.None? then Transition(Err(IncorrectCredentials), db)
      else
        var s := LoginStep(db[found.value], body, o, now);
        Transition(s.result, db[found.value := s.row])
  }

  /** A login writes at most one row: the one its identifier finds. */
  lemma LoginTouchesOnlyFoundRow(db: seq<Account>, body: UserLogin, o: Oracles, now: int)
    ensures var t := LoginRoute(db, body, o, now);
      forall j | 0 <= j < |db| && t.rows[j] != db[j] :: LoginLookup(db, body.username) == Some(j)
  {
  }

  /** A locked account is refused with 423 before its password is checked:
      even the right password changes nothing. */
  lemma LockBlocksBeforePassword(a: Account, body: UserLogin, o: Oracles, now: int)
    requires IsLocked(a, now)
    ensures LoginStep(a, body, o, now) == Step(Err(AccountLocked), a)
  {
  }

  /** A wrong password on an unlocked account adds exactly one failed attempt,
      and from the fifth failure on locks the account for an hour. */
  lemma WrongPasswordCounts(a: Account, body: UserLogin, o: Oracles, now: int)
    requires !IsLocked(a, now) && !o.verifyPassword(body.password, a.hashedPassword)
    ensures var s := LoginStep(a, body, o, now);
      s.result == Err(IncorrectCredentials) &&
      s.row.failedLoginAttempts == a.failedLoginAttempts + 1 &&
      s.row.lockedUntil == (if a.failedLoginAttempts + 1 >= MaxFailedAttempts then Some(now + LockSeconds) else a.lockedUntil) &&
      s.row.updatedAt == Some(now)
  {
  }

  /** The counter is only cleared by a success or a reset, so once a lock has
      expired the next wrong password locks the account again at once. */
  lemma RelockAfterExpiry(a: Account, body: UserLogin, o: Oracles, now: int)
    requires a.failedLoginAttempts >= MaxFailedAttempts && a.lockedUntil.Some? && a.lockedUntil.value <= now
    requires !o.verifyPassword(body.password, a.hashedPassword)
    ensures IsLocked(LoginStep(a, body, o, now).row, now)
    ensures LoginStep(a, body, o, now).row.lockedUntil == Some(now + LockSeconds)
  {
  }

  /** A lock set at `t` refuses every login before `t` plus one hour and none
      from that instant on. */
  lemma LockLastsAnHour(a: Account, body: UserLogin, o: Oracles, t: int, later: int)
    requires a.lockedUntil == Some(t + LockSeconds) && t <= later
    ensures later < t + LockSeconds ==> LoginStep(a, body, o, later) == Step(Err(AccountLocked), a)
    ensures later >= t + LockSeconds ==> !IsLocked(a, later)
  {
  }

  /** The row after the same login attempted at each of `times` in turn. */
  function AfterAttempts(a: Account, body: UserLogin, o: Oracles, times: seq<int>): Account
    decreases |times|
  {
    if times == [] then a
    else LoginStep(AfterAttempts(a, body, o, times[..|times| - 1]), body, o, times[|times| - 1]).row
  }

  /** Wrong passwords on an unlocked account accumulate one by one while they
      stay under the threshold, and never lock it. */
  lemma {:induction false} FailuresAccumulate(a: Account, body: UserLogin, o: Oracles, times: seq<int>)
    requires a.lockedUntil.None? && !o.verifyPassword(body.password, a.hashedPassword)
    requires a.failedLoginAttempts + |times| < MaxFailedAttempts
    ensures AfterAttempts(a, body, o, times).failedLoginAttempts == a.failedLoginAttempts + |times|
    ensures AfterAttempts(a, body, o, times).lockedUntil.None?
    ensures AfterAttempts(a, body, o, times).hashedPassword == a.hashedPassword
    decreases |times|
  {
    if times != [] {
      FailuresAccumulate(a, body, o, times[..|times| - 1]);
    }
  }

  /** From a clean account, four wrong passwords leave it open and the fifth
      locks it for an hour from that attempt. */
  lemma {:induction false} FifthFailureLocks(a: Account, body: UserLogin, o: Oracles, times: seq<int>)
    requires a.failedLoginAttempts == 0 && a.lockedUntil.None?
    requires !o.verifyPassword(body.password, a.hashedPassword)
    requires |times| == MaxFailedAttempts
    ensures AfterAttempts(a, body, o, times[..4]).lockedUntil.None?
    ensures AfterAttempts(a, body, o, times).failedLoginAttempts == MaxFailedAttempts
    ensures AfterAttempts(a, body, o, times).lockedUntil == Some(times[4] + LockSeconds)
  {
    FailuresAccumulate(a, body, o, times[..4]);
    assert times[..|times| - 1] == times[..4];
  }

  /** An inactive account with the right password is refused with 401 and
      its counters are left alone. */
  lemma InactiveRefusedUnchanged(a: Account, body: UserLogin, o: Oracles, now: int)
    requires !IsLocked(a, now) && o.verifyPassword(body.password, a.hashedPassword) && !a.isActive
    ensures LoginStep(a, body, o, now) == Step(Err(LoginDisabled), a)
  {
  }

  /** When MFA is demanded, a missing token gives 428 and a wrong one 401,
      and neither touches the row. */
  lemma MfaRefusals(a: Account, body: UserLogin, o: Oracles, now: int)
    requires !IsLocked(a, now) && o.verifyPassword(body.password, a.hashedPassword) && a.isActive
    requires MfaDemanded(a, now) && MfaConsistent(a)
    ensures !Security.Truthy(body.mfaToken) ==> LoginStep(a, body, o, now) == Step(Err(MfaTokenRequired), a)
    ensures Security.Truthy(body.mfaToken) && !o.verifyMfa(a.mfaSecret.value, body.mfaToken.value) ==>
      LoginStep(a, body, o, now) == Step(Err(InvalidMfaLogin), a)
  {
  }

  /** A forced password change skips the MFA check: with the right password
      an active, unlocked account is let in, told to change its password,
      whatever MFA token came with the request. */
  lemma ForcedChangeSkipsMfa(a: Account, body: UserLogin, o: Oracles, now: int)
    requires !IsLocked(a, now) && o.verifyPassword(body.password, a.hashedPassword) && a.isActive
    requires ForcePasswordChange(a, now)
    ensures LoginStep(a, body, o, now).result.Ok?
    ensures LoginStep(a, body, o, now).result.value.forcePasswordChange
  {
  }

  /** A freshly created account logs in with its password and is told to
      change it. */
  lemma NewAccountMustChangePassword(id: string, username: string, email: Option<string>, firstName: string,
                                     lastName: string, hashed: string, role: Role, dob: Option<string>,
                                     body: UserLogin, o: Oracles, now: int)
    requires o.verifyPassword(body.password, hashed)
    ensures var s := LoginStep(NewAccount(id, username, email, firstName, lastName, hashed, role, dob), body, o, now);
      s.result.Ok? && s.result.value.forcePasswordChange && s.row.lastLogin == Some(now)
  {
  }

  /** With unique ids, the access token a login returns authenticates its
      bearer as the same row, provided the token decodes to its subject. */
  lemma LoginGrantAuthenticates(db: seq<Account>, body: UserLogin, o: Oracles, now: int,
                                verify: string -> Option<Dependencies.Payload>)
    requires UniqueIds(db)
    requires LoginRoute(db, body, o, now).result.Ok?
    requires forall id, role :: o.accessToken(id, role) != "" && verify(o.accessToken(id, role)) == Some(Dependencies.Payload(Some(id)))
    ensures var t := LoginRoute(db, body, o, now);
      var i := LoginLookup(db, body.username).value;
      Dependencies.GetCurrentUser(Some(Dependencies.Credentials("bearer", t.result.value.accessToken)), verify, t.rows) == Ok(t.rows[i])
  {
    var t := LoginRoute(db, body, o, now);
    var i := LoginLookup(db, body.username).value;
    var header := Some(Dependencies.Credentials("bearer", t.result.value.accessToken));
    assert t.rows[i].id == db[i].id;
    assert UniqueIds(t.rows) by {
      forall j, k | 0 <= j < k < |t.rows| ensures t.rows[j].id != t.rows[k].id {
        assert t.rows[j].id == db[j].id && t.rows[k].id == db[k].id;
      }
    }
    assert Chars.Lower("bearer") == "bearer";
    Dependencies.CurrentUserResolvesSubject(header, verify, t.rows, i);
  }

  // ---------------------------------------------------------------------
  // Current user

  /** The row `get_current_user` resolves a request to. */
  function CurrentRow(db: seq<Account>, header: Option<Dependencies.Credentials>,
                      verify: string -> Option<Dependencies.Payload>): (r: Result<nat, HttpError>)
    ensures r.Ok? ==> r.value < |db| && Dependencies.GetCurrentUser(header, verify, db) == Ok(db[r.value])
    ensures r.Err? ==> Dependencies.GetCurrentUser(header, verify, db) == Err(r.error)
  {
    var cu := Dependencies.GetCurrentUser(header, verify, db);
    if cu.Err? then Err(cu.error)
    else
      var found := Dependencies.UserById(db, cu.value.id);
      if found.None? then assert false; Err(Dependencies.CouldNotValidate)
      else Ok(found.value)
  }

  // ---------------------------------------------------------------------
  // Password change

  /** `change_password` on the current user's row: the current password must
      match and the new one pass the strength check. */
  function ChangePasswordStep(a: Account, body: PasswordChange, o: Oracles, now: int): (r: Step<string>)
    ensures r.result.Ok? <==>
      o.verifyPassword(body.currentPassword, a.hashedPassword) && Security.IsStrong(body.newPassword)
    ensures !o.verifyPassword(body.currentPassword, a.hashedPassword) ==> r.result == Err(IncorrectCurrentPassword)
    ensures o.verifyPassword(body.currentPassword, a.hashedPassword) && !Security.IsStrong(body.newPassword) ==>
      r.result == Err(WeakPassword(Security.StrengthErrors(body.newPassword)))
    ensures r.result.Err? ==> r.row == a
    ensures r.result.Ok? ==>
      r.row == a.(hashedPassword := o.hash(body.newPassword), passwordChanged := true, updatedAt := Some(now))
  {
    if !o.verifyPassword(body.currentPassword, a.hashedPassword) then Step(Err(IncorrectCurrentPassword), a)
    else if !Security.IsStrong(body.newPassword) then
      Step(Err(WeakPassword(Security.StrengthErrors(body.newPassword))), a)
    else
      var changed := a.(hashedPassword := o.hash(body.newPassword), passwordChanged := true, updatedAt := Some(now));
      Step(Ok(PasswordChanged), Flush(a, changed, now))
  }

  /** `change_password`: authentication, body validation, then the step on
      the caller's own row. */
  function ChangePasswordRoute(db: seq<Account>, header: Option<Dependencies.Credentials>,
                               verify: string -> Option<Dependencies.Payload>,
                               body: PasswordChange, o: Oracles, now: int): (t: Transition<string>)
    ensures |t.rows| == |db|
    ensures forall j | 0 <= j < |db| && t.rows[j] != db[j] :: CurrentRow(db, header, verify) == Ok(j)
    ensures Dependencies.GetCurrentUser(header, verify, db).Err? ==>
      t == Transition(Err(Dependencies.GetCurrentUser(header, verify, db).error), db)
    ensures CurrentRow(db, header, verify).Ok? && ValidPasswordChange(body) ==>
      var i := CurrentRow(db, header, verify).value;
      t == Transition(ChangePasswordStep(db[i], body, o, now).result, db[i := ChangePasswordStep(db[i], body, o, now).row])
    ensures CurrentRow(db, header, verify).Ok? && !ValidPasswordChange(body) ==> t == Transition(Err(ValidationFailed), db)
  {
    var me := CurrentRow(db, header, verify);
    if me.Err? then Transition(Err(me.error), db)
    else if !ValidPasswordChange(body) then Transition(Err(ValidationFailed), db)
    else
      var s := ChangePasswordStep(db[me.value], body, o, now);
      Transition(s.result, db[me.value := s.row])
  }

  /** After a password change, logging in with the new password is not
      forced to change it again for ninety days, and is forced after that if
      nothing else has touched the row. */
  lemma ChangeThenLogin(a: Account, body: PasswordChange, o: Oracles, now: int, later: int)
    requires ChangePasswordStep(a, body, o, now).result.Ok?
    requires o.verifyPassword(body.newPassword, o.hash(body.newPassword))
    requires now <= later
    ensures var b := ChangePasswordStep(a, body, o, now).row;
      o.verifyPassword(body.newPassword, b.hashedPassword) &&
      (later <= now + Security.DefaultMaxPasswordAgeDays * Security.SecondsPerDay <==> !ForcePasswordChange(b, later))
  {
  }

  // ---------------------------------------------------------------------
  // Password reset

  /** `forgot_password`: the first row with that email gets a fresh reset
      token valid for an hour. The response is the same whether or not the
      email exists. */
  function ForgotPasswordRoute(db: seq<Account>, email: string, resetToken: string, now: int): (t: Transition<string>)
    ensures t.result == Ok(ResetRequested)
    ensures |t.rows| == |db|
    ensures forall j | 0 <= j < |db| && t.rows[j] != db[j] ::
      Query.FindFirst(db, (u: Account) => u.email == Some(email)) == Some(j) &&
      t.rows[j].resetToken == Some(resetToken) && t.rows[j].resetTokenExpires == Some(now + ResetTokenSeconds)
    ensures Query.FindFirst(db, (u: Account) => u.email == Some(email)).None? ==> t.rows == db
    ensures Query.FindFirst(db, (u: Account) => u.email == Some(email)).Some? ==>
      var i := Query.FindFirst(db, (u: Account) => u.email == Some(email)).value;
      i < |db| && t.rows[i].resetToken == Some(resetToken) && t.rows[i].resetTokenExpires == Some(now + ResetTokenSeconds)
  {
    var found := Query.FindFirst(db, (u: Account) => u.email == Some(email));
    if found.None? then Transition(Ok(ResetRequested), db)
    else
      var a := db[found.value];
      var requested := a.(resetToken := Some(resetToken), resetTokenExpires := Some(now + ResetTokenSeconds));
      Transition(Ok(ResetRequested), db[found.value := Flush(a, requested, now)])
  }

  /** The reset filter: the row holds this token and it has not expired. */
  predicate HoldsResetToken(u: Account, token: string, now: int) {
    u.resetToken == Some(token) && u.resetTokenExpires.Some? && u.resetTokenExpires.value > now
  }

  function ResetLookup(db: seq<Account>, token: string, now: int): Option<nat> {
    Query.FindFirst(db, (u: Account) => HoldsResetToken(u, token, now))
  }

  /** `reset_password` on the row holding the token: a strong new password
      replaces the old one, consumes the token and clears the lockout. */
  function ResetPasswordStep(a: Account, body: ResetPassword, o: Oracles, now: int): (r: Step<string>)
    ensures r.result.Ok? <==> Security.IsStrong(body.newPassword)
    ensures r.result.Err? ==> r == Step(Err(WeakPassword(Security.StrengthErrors(body.newPassword))), a)
    ensures r.result.Ok? ==>
      r.row == a.(hashedPassword := o.hash(body.newPassword), passwordChanged := true,
                  resetToken := None, resetTokenExpires := None, updatedAt := Some(now),
                  failedLoginAttempts := 0, lockedUntil := None)
  {
    if !Security.IsStrong(body.newPassword) then
      Step(Err(WeakPassword(Security.StrengthErrors(body.newPassword))), a)
    else
      var reset := a.(hashedPassword := o.hash(body.newPassword), passwordChanged := true,
                      resetToken := None, resetTokenExpires := None, updatedAt := Some(now),
                      failedLoginAttempts := 0, lockedUntil := None);
      Step(Ok(PasswordReset), Flush(a, reset, now))
  }

  /** `reset_password`: body validation, the lookup of an unexpired token,
      then the step on that row. */
  function ResetPasswordRoute(db: seq<Account>, body: ResetPassword, o: Oracles, now: int): (t: Transition<string>)
    ensures |t.rows| == |db|
    ensures forall j | 0 <= j < |db| && t.rows[j] != db[j] :: ResetLookup(db, body.token, now) == Some(j)
    ensures ValidResetPassword(body) && ResetLookup(db, body.token, now).None? ==>
      t == Transition(Err(InvalidResetToken), db)
    ensures ValidResetPassword(body) && ResetLookup(db, body.token, now).Some? ==>
      var i := ResetLookup(db, body.token, now).value;
      i < |db| && t == Transition(ResetPasswordStep(db[i], body, o, now).result, db[i := ResetPasswordStep(db[i], body, o, now).row])
    ensures !ValidResetPassword(body) ==> t == Transition(Err(ValidationFailed), db)
  {
    if !ValidResetPassword(body) then Transition(Err(ValidationFailed), db)
    else
      var found := ResetLookup(db, body.token, now);
      if found.None? then Transition(Err(InvalidResetToken), db)
      else
        var s := ResetPasswordStep(db[found.value], body, o, now);
        Transition(s.result, db[found.value := s.row])
  }

  /** No two rows hold the same reset token. */
  predicate UniqueResetTokens(db: seq<Account>) {
    forall j, k | 0 <= j < k < |db| :: db[j].resetToken.None? || db[j].resetToken != db[k].resetToken
  }

  /** A reset token works once: after a successful reset the same token is
      refused, at any later time and with any new password. */
  lemma {:induction false} ResetTokenIsSingleUse(db: seq<Account>, body: ResetPassword, o: Oracles, now: int,
                                                 again: ResetPassword, later: int)
    requires UniqueResetTokens(db)
    requires ResetPasswordRoute(db, body, o, now).result.Ok?
    requires again.token == body.token && ValidResetPassword(again)
    ensures ResetPasswordRoute(ResetPasswordRoute(db, body, o, now).rows, again, o, later).result == Err(InvalidResetToken)
  {
    var i := ResetLookup(db, body.token, now).value;
    var rows := ResetPasswordRoute(db, body, o, now).rows;
    forall j | 0 <= j < |rows| ensures !HoldsResetToken(rows[j], body.token, later) {
      if j != i {
        assert db[i].resetToken == Some(body.token);
        if j < i {
          assert db[j].resetToken.None? || db[j].resetToken != db[i].resetToken;
        } else {
          assert db[i].resetToken.None? || db[i].resetToken != db[j].resetToken;
        }
      }
    }
  }

  /** Asking for a reset and then using the token within the hour sets the
      new password on the row the email names. */
  lemma {:induction false} ForgotThenReset(db: seq<Account>, email: string, token: string, now: int,
                                           body: ResetPassword, o: Oracles, later: int, i: nat)
    requires Query.FindFirst(db, (u: Account) => u.email == Some(email)) == Some(i)
    requires forall j | 0 <= j < |db| :: db[j].resetToken != Some(token)
    requires body.token == token && ValidResetPassword(body) && Security.IsStrong(body.newPassword)
    requires now <= later < now + ResetTokenSeconds
    ensures var t := ResetPasswordRoute(ForgotPasswordRoute(db, email, token, now).rows, body, o, later);
      t.result == Ok(PasswordReset) &&
      t.rows[i].hashedPassword == o.hash(body.newPassword) && t.rows[i].passwordChanged &&
      t.rows[i].resetToken.None? && t.rows[i].failedLoginAttempts == 0
  {
    var rows := ForgotPasswordRoute(db, email, token, now).rows;
    assert HoldsResetToken(rows[i], token, later);
    forall j | 0 <= j < i ensures !HoldsResetToken(rows[j], token, later) {
      assert rows[j] == db[j];
    }
    Query.FindFirstAt(rows, (u: Account) => HoldsResetToken(u, token, later), i);
  }

  // ---------------------------------------------------------------------
  // MFA

  /** `setup_mfa`: refused while MFA is on; otherwise the new secret is
      stored and MFA stays off until a token is verified. */
  function SetupMfaStep(a: Account, secret: string, now: int): (r: Step<MfaSetup>)
    ensures r.result.Ok? <==> !a.mfaEnabled
    ensures a.mfaEnabled ==> r == Step(Err(MfaAlreadyEnabled), a)
    ensures r.result.Ok? ==>
      r.row.(updatedAt := a.updatedAt) == a.(mfaSecret := Some(secret)) && !r.row.mfaEnabled &&
      r.result.value.secret == secret &&
      r.result.value.accountName == (if Security.Truthy(a.email) then a.email.value else a.username)
  {
    if a.mfaEnabled then Step(Err(MfaAlreadyEnabled), a)
    else
      var accountName := if Security.Truthy(a.email) then a.email.value else a.username;
      Step(Ok(MfaSetup(secret, accountName, ScanQrCode)), Flush(a, a.(mfaSecret := Some(secret)), now))
  }

  /** `verify_mfa`: with a stored secret and a token that matches it, MFA is
      switched on. */
  function VerifyMfaStep(a: Account, body: MfaVerify, o: Oracles, now: int): (r: Step<string>)
    ensures r.result.Ok? <==> Security.Truthy(a.mfaSecret) && o.verifyMfa(a.mfaSecret.value, body.token)
    ensures !Security.Truthy(a.mfaSecret) ==> r == Step(Err(MfaNotInitiated), a)
    ensures r.result.Err? ==> r.row == a
    ensures r.result.Ok? ==> r.row.(updatedAt := a.updatedAt) == a.(mfaEnabled := true)
  {
    if !Security.Truthy(a.mfaSecret) then Step(Err(MfaNotInitiated), a)
    else if !o.verifyMfa(a.mfaSecret.value, body.token) then Step(Err(InvalidMfaToken), a)
    else Step(Ok(MfaEnabled), Flush(a, a.(mfaEnabled := true), now))
  }

  /** `disable_mfa`: with MFA on and a token that matches the secret, MFA is
      switched off and the secret forgotten. The TOTP library raises on a
      missing secret. */
  function DisableMfaStep(a: Account, body: MfaVerify, o: Oracles, now: int): (r: Step<string>)
    ensures r.result.Ok? <==> a.mfaEnabled && a.mfaSecret.Some? && o.verifyMfa(a.mfaSecret.value, body.token)
    ensures !a.mfaEnabled ==> r == Step(Err(MfaNotEnabled), a)
    ensures r.result.Err? ==> r.row == a
    ensures r.result.Ok? ==> r.row.(updatedAt := a.updatedAt) == a.(mfaEnabled := false, mfaSecret := None)
  {
    if !a.mfaEnabled then Step(Err(MfaNotEnabled), a)
    else if a.mfaSecret.None? then Step(Err(ServerError), a)
    else if !o.verifyMfa(a.mfaSecret.value, body.token) then Step(Err(InvalidMfaToken), a)
    else Step(Ok(MfaDisabled), Flush(a, a.(mfaEnabled := false, mfaSecret := None), now))
  }

  /** `setup_mfa` on the caller's own row. */
  function SetupMfaRoute(db: seq<Account>, header: Option<Dependencies.Credentials>,
                         verify: string -> Option<Dependencies.Payload>, secret: string, now: int): (t: Transition<MfaSetup>)
    ensures |t.rows| == |db|
    ensures forall j | 0 <= j < |db| && t.rows[j] != db[j] :: CurrentRow(db, header, verify) == Ok(j)
    ensures CurrentRow(db, header, verify).Ok? ==>
      var i := CurrentRow(db, header, verify).value;
      t == Transition(SetupMfaStep(db[i], secret, now).result, db[i := SetupMfaStep(db[i], secret, now).row])
    ensures CurrentRow(db, header, verify).Err? ==> t == Transition(Err(CurrentRow(db, header, verify).error), db)
  {
    var me := CurrentRow(db, header, verify);
    if me.Err? then Transition(Err(me.error), db)
    else
      var s := SetupMfaStep(db[me.value], secret, now);
      Transition(s.result, db[me.value := s.row])
  }

  /** `verify_mfa` on the caller's own row, after body validation. */
  function VerifyMfaRoute(db: seq<Account>, header: Option<Dependencies.Credentials>,
                          verify: string -> Option<Dependencies.Payload>, body: MfaVerify, o: Oracles, now: int): (t: Transition<string>)
    ensures |t.rows| == |db|
    ensures forall j | 0 <= j < |db| && t.rows[j] != db[j] :: CurrentRow(db, header, verify) == Ok(j)
    ensures CurrentRow(db, header, verify).Ok? && !ValidMfaVerify(body) ==> t == Transition(Err(ValidationFailed), db)
    ensures CurrentRow(db, header, verify).Ok? && ValidMfaVerify(body) ==>
      var i := CurrentRow(db, header, verify).value;
      t == Transition(VerifyMfaStep(db[i], body, o, now).result, db[i := VerifyMfaStep(db[i], body, o, now).row])
    ensures CurrentRow(db, header, verify).Err? ==> t == Transition(Err(CurrentRow(db, header, verify).error), db)
  {
    var me := CurrentRow(db, header, verify);
    if me.Err? then Transition(Err(me.error), db)
    else if !ValidMfaVerify(body) then Transition(Err(ValidationFailed), db)
    else
      var s := VerifyMfaStep(db[me.value], body, o, now);
      Transition(s.result, db[me.value := s.row])
  }

  /** `disable_mfa` on the caller's own row, after body validation. */
  function DisableMfaRoute(db: seq<Account>, header: Option<Dependencies.Credentials>,
                           verify: string -> Option<Dependencies.Payload>, body: MfaVerify, o: Oracles, now: int): (t: Transition<string>)
    ensures |t.rows| == |db|
    ensures forall j | 0 <= j < |db| && t.rows[j] != db[j] :: CurrentRow(db, header, verify) == Ok(j)
    ensures CurrentRow(db, header, verify).Ok? && !ValidMfaVerify(body) ==> t == Transition(Err(ValidationFailed), db)
    ensures CurrentRow(db, header, verify).Ok? && ValidMfaVerify(body) ==>
      var i := CurrentRow(db, header, verify).value;
      t == Transition(DisableMfaStep(db[i], body, o, now).result, db[i := DisableMfaStep(db[i], body, o, now).row])
    ensures CurrentRow(db, header, verify).Err? ==> t == Transition(Err(CurrentRow(db, header, verify).error), db)
  {
    var me := CurrentRow(db, header, verify);
    if me.Err? then Transition(Err(me.error), db)
    else if !ValidMfaVerify(body) then Transition(Err(ValidationFailed), db)
    else
      var s := DisableMfaStep(db[me.value], body, o, now);
      Transition(s.result, db[me.value := s.row])
  }

  /** Setting up MFA, verifying a token and disabling it with another token
      brings the row back to MFA off with no secret, password and lockout
      state untouched. */
  lemma MfaLifecycle(a: Account, secret: string, first: MfaVerify, second: MfaVerify, o: Oracles, t1: int, t2: int, t3: int)
    requires !a.mfaEnabled && secret != ""
    requires o.verifyMfa(secret, first.token) && o.verifyMfa(secret, second.token)
    ensures var s1 := SetupMfaStep(a, secret, t1);
      var s2 := VerifyMfaStep(s1.row, first, o, t2);
      var s3 := DisableMfaStep(s2.row, second, o, t3);
      s1.result.Ok? && s2.result.Ok? && s2.row.mfaEnabled && s3.result.Ok? &&
      s3.row.(updatedAt := a.updatedAt) == a.(mfaSecret := None)
  {
  }

  /** Under MFA-consistency the MFA checks of `login` and `disable_mfa` never
      reach the library with a missing secret. */
  lemma NoServerErrorWhenConsistent(a: Account, login: UserLogin, mfa: MfaVerify, o: Oracles, now: int)
    requires MfaConsistent(a)
    ensures LoginStep(a, login, o, now).result != Err(ServerError)
    ensures DisableMfaStep(a, mfa, o, now).result != Err(ServerError)
  {
  }

  /** On a table that keeps the invariant, `login` never answers 500. */
  lemma LoginNeverServerError(db: seq<Account>, body: UserLogin, o: Oracles, now: int)
    requires TableInvariant(db)
    ensures LoginRoute(db, body, o, now).result != Err(ServerError)
  {
    var found := LoginLookup(db, body.username);
    if ValidUserLogin(body) && found.Some? {
      NoServerErrorWhenConsistent(db[found.value], body, MfaVerify(""), o, now);
    }
  }

  /** On a table that keeps the invariant, `disable_mfa` never answers 500. */
  lemma DisableMfaNeverServerError(db: seq<Account>, header: Option<Dependencies.Credentials>,
                                   verify: string -> Option<Dependencies.Payload>, body: MfaVerify, o: Oracles, now: int)
    requires TableInvariant(db)
    ensures DisableMfaRoute(db, header, verify, body, o, now).result != Err(ServerError)
  {
    var me := CurrentRow(db, header, verify);
    if me.Ok? && ValidMfaVerify(body) {
      NoServerErrorWhenConsistent(db[me.value], UserLogin("", "", None), body, o, now);
    }
  }

  /** A row with MFA on and no secret, as the table invariant rules out,
      makes `disable_mfa` fail with a server error. */
  lemma InconsistentRowFails(a: Account, mfa: MfaVerify, o: Oracles, now: int)
    requires a.mfaEnabled && a.mfaSecret.None?
    ensures DisableMfaStep(a, mfa, o, now).result == Err(ServerError)
  {
  }

  /** `login` keeps the table invariant. */
  lemma {:induction false} LoginKeepsInvariant(db: seq<Account>, body: UserLogin, o: Oracles, now: int)
    ensures TableInvariant(db) ==> TableInvariant(LoginRoute(db, body, o, now).rows)
  {
    if TableInvariant(db) {
      var found := LoginLookup(db, body.username);
      if ValidUserLogin(body) && found.Some? {
        ReplaceKeepsInvariant(db, found.value, LoginStep(db[found.value], body, o, now).row);
      }
    }
  }

  /** `change_password` keeps the table invariant. */
  lemma {:induction false} ChangePasswordKeepsInvariant(db: seq<Account>, header: Option<Dependencies.Credentials>,
                                                        verify: string -> Option<Dependencies.Payload>,
                                                        body: PasswordChange, o: Oracles, now: int)
    ensures TableInvariant(db) ==> TableInvariant(ChangePasswordRoute(db, header, verify, body, o, now).rows)
  {
    if TableInvariant(db) {
      var me := CurrentRow(db, header, verify);
      if me.Ok? && ValidPasswordChange(body) {
        ReplaceKeepsInvariant(db, me.value, ChangePasswordStep(db[me.value], body, o, now).row);
      }
    }
  }

  /** `forgot_password` keeps the table invariant. */
  lemma {:induction false} ForgotPasswordKeepsInvariant(db: seq<Account>, email: string, resetToken: string, now: int)
    ensures TableInvariant(db) ==> TableInvariant(ForgotPasswordRoute(db, email, resetToken, now).rows)
  {
    if TableInvariant(db) {
      var found := Query.FindFirst(db, (u: Account) => u.email == Some(email));
      if found.Some? {
        ReplaceKeepsInvariant(db, found.value, ForgotPasswordRoute(db, email, resetToken, now).rows[found.value]);
      }
    }
  }

  /** `reset_password` keeps the table invariant. */
  lemma {:induction false} ResetPasswordKeepsInvariant(db: seq<Account>, body: ResetPassword, o: Oracles, now: int)
    ensures TableInvariant(db) ==> TableInvariant(ResetPasswordRoute(db, body, o, now).rows)
  {
    if TableInvariant(db) {
      var found := ResetLookup(db, body.token, now);
      if ValidResetPassword(body) && found.Some? {
        ReplaceKeepsInvariant(db, found.value, ResetPasswordStep(db[found.value], body, o, now).row);
      }
    }
  }

  /** `setup_mfa` keeps the table invariant: it stores a secret only while
      MFA is off. */
  lemma {:induction false} SetupMfaKeepsInvariant(db: seq<Account>, header: Option<Dependencies.Credentials>,
                                                  verify: string -> Option<Dependencies.Payload>, secret: string, now: int)
    ensures TableInvariant(db) ==> TableInvariant(SetupMfaRoute(db, header, verify, secret, now).rows)
  {
    if TableInvariant(db) {
      var me := CurrentRow(db, header, verify);
      if me.Ok? {
        ReplaceKeepsInvariant(db, me.value, SetupMfaStep(db[me.value], secret, now).row);
      }
    }
  }

  /** `verify_mfa` and `disable_mfa` keep the table invariant: MFA is switched
      on only over a stored secret, and switched off together with it. */
  lemma {:induction false} MfaTokenRoutesKeepInvariant(db: seq<Account>, header: Option<Dependencies.Credentials>,
                                                       verify: string -> Option<Dependencies.Payload>,
                                                       body: MfaVerify, o: Oracles, now: int)
    ensures TableInvariant(db) ==> TableInvariant(VerifyMfaRoute(db, header, verify, body, o, now).rows)
    ensures TableInvariant(db) ==> TableInvariant(DisableMfaRoute(db, header, verify, body, o, now).rows)
  {
    if TableInvariant(db) {
      var me := CurrentRow(db, header, verify);
      if me.Ok? && ValidMfaVerify(body) {
        ReplaceKeepsInvariant(db, me.value, VerifyMfaStep(db[me.value], body, o, now).row);
        ReplaceKeepsInvariant(db, me.value, DisableMfaStep(db[me.value], body, o, now).row);
      }
    }
  }

  // ---------------------------------------------------------------------
  // The table the handlers work on

  /** The users table as the handlers see it through the session: each
      handler reads one row, changes its columns and commits. */
  class UserTable {
    var users: seq<Account>

    ghost predicate Valid()
      reads this
    {
      TableInvariant(users)
    }

    constructor (rows: seq<Account>)
      requires TableInvariant(rows)
      ensures users == rows && Valid()
    {
      users := rows;
    }

    /** `db.commit()` of row `i`, which the handler changed to `row`. */
    method Commit(i: nat, row: Account, now: int)
      requires i < |users|
      modifies this
      ensures users == old(users)[i := Flush(old(users)[i], row, now)]
    {
      users := users[i := Flush(users[i], row, now)];
    }

    method Login(body: UserLogin, o: Oracles, now: int) returns (result: Result<Token, HttpError>)
      modifies this
      ensures Transition(result, users) == LoginRoute(old(users), body, o, now)
      ensures old(Valid()) ==> Valid()
      ensures old(Valid()) ==> result != Err(ServerError)
    {
      LoginKeepsInvariant(users, body, o, now);
      if Valid() {
        LoginNeverServerError(users, body, o, now);
      }
      if !ValidUserLogin(body) {
        return Err(ValidationFailed);
      }
      var found := LoginLookup(users, body.username);
      if found.None? {
        return Err(IncorrectCredentials);
      }
      var i := found.value;
      var user := users[i];
      if IsLocked(user, now) {
        return Err(AccountLocked);
      }
      if !o.verifyPassword(body.password, user.hashedPassword) {
        var attempts := user.failedLoginAttempts + 1;
        var lockedUntil := user.lockedUntil;
        if attempts >= MaxFailedAttempts {
          lockedUntil := Some(now + LockSeconds);
        }
        Commit(i, user.(failedLoginAttempts := attempts, lockedUntil := lockedUntil), now);
        return Err(IncorrectCredentials);
      }
      if !user.isActive {
        return Err(LoginDisabled);
      }
      var force := ForcePasswordChange(user, now);
      if user.mfaEnabled && !force {
        if !Security.Truthy(body.mfaToken) {
          return Err(MfaTokenRequired);
        }
        if user.mfaSecret.None? {
          return Err(ServerError);
        }
        if !o.verifyMfa(user.mfaSecret.value, body.mfaToken.value) {
          return Err(InvalidMfaLogin);
        }
      }
      Commit(i, user.(failedLoginAttempts := 0, lockedUntil := None, lastLogin := Some(now)), now);
      result := Ok(Token(o.accessToken(user.id, user.role), AccessTokenSeconds, Some(o.refreshToken(user.id)), "bearer", force));
    }

    method ChangePassword(header: Option<Dependencies.Credentials>, verify: string -> Option<Dependencies.Payload>,
                          body: PasswordChange, o: Oracles, now: int) returns (result: Result<string, HttpError>)
      modifies this
      ensures Transition(result, users) == ChangePasswordRoute(old(users), header, verify, body, o, now)
      ensures old(Valid()) ==> Valid()
    {
      ChangePasswordKeepsInvariant(users, header, verify, body, o, now);
      var me := CurrentRow(users, header, verify);
      if me.Err? {
        return Err(me.error);
      }
      if !ValidPasswordChange(body) {
        return Err(ValidationFailed);
      }
      var user := users[me.value];
      if !o.verifyPassword(body.currentPassword, user.hashedPassword) {
        return Err(IncorrectCurrentPassword);
      }
      var isValid, errors := Security.ValidatePasswordStrength(body.newPassword);
      if !isValid {
        return Err(WeakPassword(errors));
      }
      Commit(me.value, user.(hashedPassword := o.hash(body.newPassword), passwordChanged := true, updatedAt := Some(now)), now);
      result := Ok(PasswordChanged);
    }

    method ForgotPassword(email: string, resetToken: string, now: int) returns (result: Result<string, HttpError>)
      modifies this
      ensures Transition(result, users) == ForgotPasswordRoute(old(users), email, resetToken, now)
      ensures old(Valid()) ==> Valid()
    {
      ForgotPasswordKeepsInvariant(users, email, resetToken, now);
      var found := Query.FindFirst(users, (u: Account) => u.email == Some(email));
      if found.Some? {
        var user := users[found.value];
        Commit(found.value, user.(resetToken := Some(resetToken), resetTokenExpires := Some(now + ResetTokenSeconds)), now);
      }
      result := Ok(ResetRequested);
    }

    method ResetPassword(body: Schemas.ResetPassword, o: Oracles, now: int) returns (result: Result<string, HttpError>)
      modifies this
      ensures Transition(result, users) == ResetPasswordRoute(old(users), body, o, now)
      ensures old(Valid()) ==> Valid()
    {
      ResetPasswordKeepsInvariant(users, body, o, now);
      if !ValidResetPassword(body) {
        return Err(ValidationFailed);
      }
      var found := ResetLookup(users, body.token, now);
      if found.None? {
        return Err(InvalidResetToken);
      }
      var user := users[found.value];
      var isValid, errors := Security.ValidatePasswordStrength(body.newPassword);
      if !isValid {
        return Err(WeakPassword(errors));
      }
      Commit(found.value, user.(hashedPassword := o.hash(body.newPassword), passwordChanged := true,
                                resetToken := None, resetTokenExpires := None, updatedAt := Some(now),
                                failedLoginAttempts := 0, lockedUntil := None), now);
      result := Ok(PasswordReset);
    }

    method SetupMfa(header: Option<Dependencies.Credentials>, verify: string -> Option<Dependencies.Payload>,
                    secret: string, now: int) returns (result: Result<MfaSetup, HttpError>)
      modifies this
      ensures Transition(result, users) == SetupMfaRoute(old(users), header, verify, secret, now)
      ensures old(Valid()) ==> Valid()
    {
      SetupMfaKeepsInvariant(users, header, verify, secret, now);
      var me := CurrentRow(users, header, verify);
      if me.Err? {
        return Err(me.error);
      }
      var user := users[me.value];
      if user.mfaEnabled {
        return Err(MfaAlreadyEnabled);
      }
      var accountName := if Security.Truthy(user.email) then user.email.value else user.username;
      Commit(me.value, user.(mfaSecret := Some(secret)), now);
      result := Ok(MfaSetup(secret, accountName, ScanQrCode));
    }

    method VerifyMfa(header: Option<Dependencies.Credentials>, verify: string -> Option<Dependencies.Payload>,
                     body: MfaVerify, o: Oracles, now: int) returns (result: Result<string, HttpError>)
      modifies this
      ensures Transition(result, users) == VerifyMfaRoute(old(users), header, verify, body, o, now)
      ensures old(Valid()) ==> Valid()
    {
      MfaTokenRoutesKeepInvariant(users, header, verify, body, o, now);
      var me := CurrentRow(users, header, verify);
      if me.Err? {
        return Err(me.error);
      }
      if !ValidMfaVerify(body) {
        return Err(ValidationFailed);
      }
      var user := users[me.value];
      if !Security.Truthy(user.mfaSecret) {
        return Err(MfaNotInitiated);
      }
      if !o.verifyMfa(user.mfaSecret.value, body.token) {
        return Err(InvalidMfaToken);
      }
      Commit(me.value, user.(mfaEnabled := true), now);
      result := Ok(MfaEnabled);
    }

    method DisableMfa(header: Option<Dependencies.Credentials>, verify: string -> Option<Dependencies.Payload>,
                      body: MfaVerify, o: Oracles, now: int) returns (result: Result<string, HttpError>)
      modifies this
      ensures Transition(result, users) == DisableMfaRoute(old(users), header, verify, body, o, now)
      ensures old(Valid()) ==> Valid()
      ensures old(Valid()) ==> result != Err(ServerError)
    {
      MfaTokenRoutesKeepInvariant(users, header, verify, body, o, now);
      if Valid() {
        DisableMfaNeverServerError(users, header, verify, body, o, now);
      }
      var me := CurrentRow(users, header, verify);
      if me.Err? {
        return Err(me.error);
      }
      if !ValidMfaVerify(body) {
        return Err(ValidationFailed);
      }
      var user := users[me.value];
      if !user.mfaEnabled {
        return Err(MfaNotEnabled);
      }
      if user.mfaSecret.None? {
        return Err(ServerError);
      }
      if !o.verifyMfa(user.mfaSecret.value, body.token) {
        return Err(InvalidMfaToken);
      }
      Commit(me.value, user.(mfaEnabled := false, mfaSecret := None), now);
      result := Ok(MfaDisabled);
    }
  }
}
