/** The `User` row: its columns, the defaults a new row starts with and its
    two derived properties. */
module Users {
  import opened Wrappers
  import Security

  datatype Role = Student | Teacher | Hod | Coordinator

  /** One row of the users table. Timestamps are seconds; `None` is NULL.
      The parameters with a default value are the columns declared with one. */
  datatype Account = Account(
    id: string,
    username: string,
    email: Option<string>,
    firstName: string,
    lastName: string,
    hashedPassword: string,
    role: Role,
    dateOfBirth: Option<string>,
    passwordChanged: bool := false,
    mfaEnabled: bool := false,
    mfaSecret: Option<string> := None,
    isActive: bool := true,
    isVerified: bool := false,
    updatedAt: Option<int> := None,
    lastLogin: Option<int> := None,
    resetToken: Option<string> := None,
    resetTokenExpires: Option<int> := None,
    failedLoginAttempts: nat := 0,
    lockedUntil: Option<int> := None)

  /** A freshly created row: every column with a default holds that default. */
  function NewAccount(id: string, username: string, email: Option<string>, firstName: string,
                      lastName: string, hashedPassword: string, role: Role,
                      dateOfBirth: Option<string>): (a: Account)
    ensures a.id == id && a.username == username && a.email == email && a.role == role
    ensures a.failedLoginAttempts == 0 && a.lockedUntil.None?
    ensures !a.mfaEnabled && a.mfaSecret.None? && !a.passwordChanged
    ensures a.isActive && !a.isVerified
    ensures a.updatedAt.None? && a.lastLogin.None? && a.resetToken.None? && a.resetTokenExpires.None?
  {
    Account(id, username, email, firstName, lastName, hashedPassword, role, dateOfBirth)
  }

  /** `full_name`: first name, one space, last name. */
  function FullName(a: Account): (r: string)
    ensures |r| == |a.firstName| + 1 + |a.lastName|
    ensures r[..|a.firstName|] == a.firstName && r[|a.firstName|] == ' '
    ensures r[|a.firstName| + 1..] == a.lastName
  {
    a.firstName + " " + a.lastName
  }

  /** `default_password`: the id followed by the date of birth without '-'
      and '/', or by "123456" when the row has no date of birth. It is the
      password the security helper generates from the same id and date of
      birth. */
  function DefaultPassword(a: Account): (r: string)
    ensures r == Security.GenerateDefaultPassword(a.id, a.dateOfBirth)
  {
    if a.dateOfBirth.Some? && a.dateOfBirth.value != "" then
      var dobClean := Security.CleanDob(a.dateOfBirth.value);
      a.id + dobClean
    else
      a.id + "123456"
  }

  /** A default password starts with the id and ends with the separator-free
      date of birth, or with "123456" when there is none. */
  lemma DefaultPasswordShape(a: Account)
    ensures |DefaultPassword(a)| >= |a.id| && DefaultPassword(a)[..|a.id|] == a.id
    ensures var rest := DefaultPassword(a)[|a.id|..];
      if Security.Truthy(a.dateOfBirth) then '-' !in rest && '/' !in rest else rest == "123456"
  {
  }

  /** The id column is the primary key: no two rows share an id. */
  predicate UniqueIds(rows: seq<Account>) {
    forall i, j | 0 <= i < j < |rows| :: rows[i].id != rows[j].id
  }
}
