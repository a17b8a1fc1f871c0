/** The request and response bodies of the authentication endpoints, with
    the field constraints the schema library enforces before a handler runs. */
module Schemas {
  import opened Wrappers
  import opened Chars
  import Security

  datatype UserLogin = UserLogin(username: string, password: string, mfaToken: Option<string> := None)

  datatype MfaVerify = MfaVerify(token: string)

  datatype PasswordChange = PasswordChange(currentPassword: string, newPassword: string)

  datatype ResetPassword = ResetPassword(token: string, newPassword: string)

  /** Bounds of the `new_password` fields. */
  const NewPasswordMinLength := 8
  const NewPasswordMaxLength := 128

  /** The response of a login. The access and refresh tokens are the opaque
      strings the token encoder returns for the user's id (and role). */
  datatype Token = Token(
    accessToken: string,
    expiresIn: int,
    refreshToken: Option<string> := None,
    tokenType: string := "bearer",
    forcePasswordChange: bool := false)

  /** `UserLogin`: a username of 1 to 50 characters, a non-empty password,
      and an optional MFA token of exactly 6 characters. */
  predicate ValidUserLogin(b: UserLogin)
    ensures ValidUserLogin(b) ==> (Security.Truthy(b.mfaToken) <==> b.mfaToken.Some?)
  {
    1 <= |b.username| <= 50 && |b.password| >= 1 && (b.mfaToken.None? || |b.mfaToken.value| == 6)
  }

  /** `MFAVerify`: exactly six digits. A valid token is never empty, so the
      handlers always hand a code to the TOTP check. */
  predicate ValidMfaVerify(b: MfaVerify)
    ensures ValidMfaVerify(b) ==> Security.Truthy(Some(b.token))
  {
    |b.token| == 6 && forall i | 0 <= i < |b.token| :: IsDigit(b.token[i])
  }

  /** A `new_password` field of 8 to 128 characters; such a password never
      fails the strength check's length test. */
  predicate ValidNewPassword(p: string)
    ensures ValidNewPassword(p) ==> !Security.Fails(p, Security.TooShort)
  {
    NewPasswordMinLength <= |p| <= NewPasswordMaxLength
  }

  /** `PasswordChange`: a non-empty current password and a new one of 8 to 128 characters. */
  predicate ValidPasswordChange(b: PasswordChange)
    ensures ValidPasswordChange(b) ==> Security.TooShort !in Security.StrengthErrors(b.newPassword)
  {
    |b.currentPassword| >= 1 && ValidNewPassword(b.newPassword)
  }

  /** `ResetPassword`: a non-empty token and a new password of 8 to 128 characters. */
  predicate ValidResetPassword(b: ResetPassword)
    ensures ValidResetPassword(b) ==> Security.TooShort !in Security.StrengthErrors(b.newPassword)
  {
    |b.token| >= 1 && ValidNewPassword(b.newPassword)
  }

  /** A token accepted by `MFAVerify` also has the shape `UserLogin` asks of
      its optional MFA token. */
  lemma MfaTokenShapesAgree(token: string, username: string, password: string)
    requires ValidMfaVerify(MfaVerify(token))
    requires 1 <= |username| <= 50 && |password| >= 1
    ensures ValidUserLogin(UserLogin(username, password, Some(token)))
  {
  }

  /** The schema's lower bound never turns away a password the strength check
      accepts: every strong password of at most 128 characters is a valid new
      password. */
  lemma StrongPasswordFitsSchema(p: string)
    requires Security.IsStrong(p) && |p| <= NewPasswordMaxLength
    ensures ValidNewPassword(p)
  {
    Security.StrongMeansAllChecks(p);
  }

  /** Within the schema, strength comes down to the character-class checks
      and the common-password list: a schema-valid password is strong
      exactly when it has an upper-case letter, a lower-case letter, a digit
      and a special character and is not a common password. */
  lemma SchemaLeavesCharacterChecks(p: string)
    requires ValidNewPassword(p)
    ensures Security.IsStrong(p) <==>
      Any(p, IsUpper) && Any(p, IsLower) && Any(p, IsDigit) && Any(p, IsSpecial) && !Security.IsCommon(p)
  {
    Security.StrongMeansAllChecks(p);
  }
}
