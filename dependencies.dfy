/** The request dependencies that resolve the caller and decide access:
    bearer-token extraction, current user, role checks and exam access.
    Decoding a JWT is a library call, given here as the `verify` parameter. */
module Dependencies {
  import opened Wrappers
  import opened Http
  import opened Users
  import opened Exams
  import Query
  import Chars

  /** The `Authorization` header split into its scheme and its credentials. */
  datatype Credentials = Credentials(scheme: string, credentials: string)

  /** The claims of a decoded token that the dependencies read. */
  datatype Payload = Payload(sub: Option<string>)

  const NotAuthenticated := HttpError(Forbidden, "Not authenticated")
  const InvalidScheme := HttpError(Forbidden, "Invalid authentication credentials")
  const CouldNotValidate := HttpError(Unauthorized, "Could not validate credentials")
  const AccountDisabled := HttpError(Unauthorized, "User account is disabled")
  const InactiveUser := HttpError(BadRequest, "Inactive user")
  const ExamNotFound := HttpError(NotFound, "Exam not found")
  const ExamNotActive := HttpError(Forbidden, "Exam is not active")
  const ExamAccessDenied := HttpError(Forbidden, "Access denied to this exam")

  /** The value of each role. */
  function RoleValue(r: Role): string {
    match r
    case Student => "student"
    case Teacher => "teacher"
    case Hod => "hod"
    case Coordinator => "coordinator"
  }

  function JoinRoles(rs: seq<Role>): string {
    if rs == [] then ""
    else if |rs| == 1 then RoleValue(rs[0])
    else RoleValue(rs[0]) + ", " + JoinRoles(rs[1..])
  }

  /** The bearer scheme of the `security` dependency. With `autoError` (the
      default, and the one the module uses) a missing or non-bearer header is
      refused; without it, it yields no credentials. */
  function HttpBearer(header: Option<Credentials>, autoError: bool): (r: Result<Option<string>, HttpError>)
    ensures r.Ok? && r.value.Some? <==>
      header.Some? && header.value.scheme != "" && header.value.credentials != "" &&
      Chars.Lower(header.value.scheme) == "bearer"
    ensures r.Ok? && r.value.Some? ==> r.value.value == header.value.credentials
    ensures autoError ==> r.Err? || r.value.Some?
    ensures !autoError ==> r.Ok?
    ensures autoError && (header.None? || header.value.scheme == "" || header.value.credentials == "") ==>
      r == Err(NotAuthenticated)
    ensures (autoError && header.Some? && header.value.scheme != "" && header.value.credentials != "" &&
             Chars.Lower(header.value.scheme) != "bearer") ==> r == Err(InvalidScheme)
  {
    if header.None? || header.value.scheme == "" || header.value.credentials == "" then
      if autoError then Err(NotAuthenticated) else Ok(None)
    else if Chars.Lower(header.value.scheme) != "bearer" then
      if autoError then Err(InvalidScheme) else Ok(None)
    else Ok(Some(header.value.credentials))
  }

  /** The subject a header names: its bearer token decodes to a payload with
      a `sub` claim. */
  function TokenSubject(header: Option<Credentials>, verify: string -> Option<Payload>): Option<string> {
    var b := HttpBearer(header, false);
    if b.value.None? then None
    else
      var payload := verify(b.value.value);
      if payload.None? then None else payload.value.sub
  }

  /** The first row with the given id. */
  function UserById(db: seq<Account>, id: string): Option<nat> {
    Query.FindFirst(db, (u: Account) => u.id == id)
  }

  /** `get_current_user`: the active user named by the bearer token's subject. */
  function GetCurrentUser(header: Option<Credentials>, verify: string -> Option<Payload>, db: seq<Account>): (r: Result<Account, HttpError>)
    ensures r.Ok? ==> r.value.isActive && r.value in db && TokenSubject(header, verify) == Some(r.value.id)
    ensures r.Err? ==> r.error in {NotAuthenticated, InvalidScheme, CouldNotValidate, AccountDisabled}
    ensures r.Err? && r.error == AccountDisabled ==>
      TokenSubject(header, verify).Some? && UserById(db, TokenSubject(header, verify).value).Some?
    ensures HttpBearer(header, true).Err? ==> r == Err(HttpBearer(header, true).error)
  {
    var bearer := HttpBearer(header, true);
    if bearer.Err? then Err(bearer.error)
    else
      // An absent credentials object fails inside the `try` and is reported
      // as the credentials error.
      if bearer.value.None? then Err(CouldNotValidate)
      else
        var payload := verify(bearer.value.value);
        if payload.None? || payload.value.sub.None? then Err(CouldNotValidate)
        else
          var found := UserById(db, payload.value.sub.value);
          if found.None? then Err(CouldNotValidate)
          else if !db[found.value].isActive then Err(AccountDisabled)
          else Ok(db[found.value])
  }

  /** With unique ids, a token whose subject is an active user resolves to
      that user, and one whose subject is an inactive user is refused. */
  lemma CurrentUserResolvesSubject(header: Option<Credentials>, verify: string -> Option<Payload>, db: seq<Account>, i: nat)
    requires UniqueIds(db) && i < |db|
    requires TokenSubject(header, verify) == Some(db[i].id)
    ensures db[i].isActive ==> GetCurrentUser(header, verify, db) == Ok(db[i])
    ensures !db[i].isActive ==> GetCurrentUser(header, verify, db) == Err(AccountDisabled)
  {
    Query.FindFirstAt(db, (u: Account) => u.id == db[i].id, i);
  }

  /** A token without a subject, or naming no row, is refused with 401. */
  lemma UnknownSubjectRefused(header: Option<Credentials>, verify: string -> Option<Payload>, db: seq<Account>)
    requires HttpBearer(header, true).Ok?
    requires TokenSubject(header, verify).None? || UserById(db, TokenSubject(header, verify).value).None?
    ensures GetCurrentUser(header, verify, db) == Err(CouldNotValidate)
  {
  }

  /** `get_current_active_user`. */
  function GetCurrentActiveUser(cu: Result<Account, HttpError>): (r: Result<Account, HttpError>)
    ensures r.Ok? <==> cu.Ok? && cu.value.isActive
    ensures r.Ok? ==> r == cu
  {
    if cu.Err? then cu
    else if !cu.value.isActive then Err(InactiveUser)
    else cu
  }

  /** The inactive-user refusal of `get_current_active_user` is unreachable:
      the user it receives has already been checked active. */
  lemma ActiveCheckIsRedundant(header: Option<Credentials>, verify: string -> Option<Payload>, db: seq<Account>)
    ensures GetCurrentActiveUser(GetCurrentUser(header, verify, db)) == GetCurrentUser(header, verify, db)
    ensures GetCurrentActiveUser(GetCurrentUser(header, verify, db)) != Err(InactiveUser)
  {
  }

  /** `require_role(required)`. */
  function RequireRole(required: Role, cu: Result<Account, HttpError>): (r: Result<Account, HttpError>)
    ensures r.Ok? <==> cu.Ok? && cu.value.isActive && cu.value.role == required
    ensures r.Ok? ==> r == cu
    ensures cu.Ok? && cu.value.isActive && cu.value.role != required ==> r.Err? && r.error.status == Forbidden
  {
    var user := GetCurrentActiveUser(cu);
    if user.Err? then user
    else if user.value.role != required then
      Err(HttpError(Forbidden, "Access denied. Required role: " + RoleValue(required)))
    else user
  }

  /** `require_roles(*required)`. */
  function RequireRoles(required: seq<Role>, cu: Result<Account, HttpError>): (r: Result<Account, HttpError>)
    ensures r.Ok? <==> cu.Ok? && cu.value.isActive && cu.value.role in required
    ensures r.Ok? ==> r == cu
    ensures cu.Ok? && cu.value.isActive && cu.value.role !in required ==> r.Err? && r.error.status == Forbidden
  {
    var user := GetCurrentActiveUser(cu);
    if user.Err? then user
    else if user.value.role !in required then
      Err(HttpError(Forbidden, "Access denied. Required roles: " + JoinRoles(required)))
    else user
  }

  /** `get_current_hod`: admits exactly active HODs. */
  function GetCurrentHod(cu: Result<Account, HttpError>): (r: Result<Account, HttpError>)
    ensures r.Ok? <==> cu.Ok? && cu.value.isActive && cu.value.role == Hod
    ensures r.Ok? ==> r == cu
  {
    RequireRole(Hod, cu)
  }

  /** `get_current_teacher`: admits active teachers and HODs. */
  function GetCurrentTeacher(cu: Result<Account, HttpError>): (r: Result<Account, HttpError>)
    ensures r.Ok? <==> cu.Ok? && cu.value.isActive && (cu.value.role == Teacher || cu.value.role == Hod)
    ensures r.Ok? ==> r == cu
  {
    RequireRoles([Teacher, Hod], cu)
  }

  /** `get_current_student`: admits exactly active students. */
  function GetCurrentStudent(cu: Result<Account, HttpError>): (r: Result<Account, HttpError>)
    ensures r.Ok? <==> cu.Ok? && cu.value.isActive && cu.value.role == Student
    ensures r.Ok? ==> r == cu
  {
    RequireRole(Student, cu)
  }

  /** `get_admin_user`: admits active HODs and coordinators. */
  function GetAdminUser(cu: Result<Account, HttpError>): (r: Result<Account, HttpError>)
    ensures r.Ok? <==> cu.Ok? && cu.value.isActive && (cu.value.role == Hod || cu.value.role == Coordinator)
    ensures r.Ok? ==> r == cu
  {
    RequireRoles([Hod, Coordinator], cu)
  }

  // ---------------------------------------------------------------------
  // The optional current user

  /** `get_optional_current_user` as written: it depends on the same
      auto-erroring bearer scheme as `get_current_user`, so the scheme raises
      before the function can return `None` for a missing header. */
  function GetOptionalCurrentUserAsWritten(header: Option<Credentials>, verify: string -> Option<Payload>, db: seq<Account>): (r: Result<Option<Account>, HttpError>)
    ensures r.Err? ==> header.None? || header.value.scheme == "" || header.value.credentials == "" ||
                       Chars.Lower(header.value.scheme) != "bearer"
    ensures (header.None? || header.value.scheme == "" || header.value.credentials == "" ||
             Chars.Lower(header.value.scheme) != "bearer") ==> r == Err(HttpBearer(header, true).error)
  {
    var bearer := HttpBearer(header, true);
    if bearer.Err? then Err(bearer.error)
    else if bearer.value.None? then Ok(None)
    else
      var payload := verify(bearer.value.value);
      if payload.None? || payload.value.sub.None? then Ok(None)
      else
        var found := UserById(db, payload.value.sub.value);
        if found.None? || !db[found.value].isActive then Ok(None)
        else Ok(Some(db[found.value]))
  }

  /** As written, a request without an `Authorization` header is refused with
      403 instead of being treated as anonymous. */
  lemma OptionalAsWrittenRefusesAnonymous(verify: string -> Option<Payload>, db: seq<Account>)
    ensures GetOptionalCurrentUserAsWritten(None, verify, db) == Err(NotAuthenticated)
  {
  }

  /** `get_optional_current_user` with a bearer scheme that does not raise:
      the user when the request authenticates, `None` otherwise. */
  function GetOptionalCurrentUser(header: Option<Credentials>, verify: string -> Option<Payload>, db: seq<Account>): (r: Option<Account>)
    ensures r.Some? ==> r.value.isActive && r.value in db && TokenSubject(header, verify) == Some(r.value.id)
    ensures header.None? ==> r.None?
  {
    var bearer := HttpBearer(header, false);
    if bearer.Err? || bearer.value.None? then None
    else
      var payload := verify(bearer.value.value);
      if payload.None? || payload.value.sub.None? then None
      else
        var found := UserById(db, payload.value.sub.value);
        if found.None? || !db[found.value].isActive then None
        else Some(db[found.value])
  }

  /** The optional user is exactly the user `get_current_user` resolves, and
      `None` whenever that dependency would refuse the request. */
  lemma OptionalAgreesWithCurrent(header: Option<Credentials>, verify: string -> Option<Payload>, db: seq<Account>)
    ensures GetCurrentUser(header, verify, db).Ok? ==>
      GetOptionalCurrentUser(header, verify, db) == Some(GetCurrentUser(header, verify, db).value)
    ensures GetCurrentUser(header, verify, db).Err? ==> GetOptionalCurrentUser(header, verify, db).None?
  {
  }

  /** Once a well-formed bearer header is present the two versions agree. */
  lemma OptionalVersionsAgreeWithBearer(header: Option<Credentials>, verify: string -> Option<Payload>, db: seq<Account>)
    requires HttpBearer(header, true).Ok?
    ensures GetOptionalCurrentUserAsWritten(header, verify, db) == Ok(GetOptionalCurrentUser(header, verify, db))
  {
  }

  // ---------------------------------------------------------------------
  // Exam access

  /** The first exam with the given id. */
  function ExamById(exams: seq<Exam>, examId: string): Option<nat> {
    Query.FindFirst(exams, (e: Exam) => e.id == examId)
  }

  /** Who may open an exam: the HOD and its creator always, any teacher, and a
      student while the exam is active. */
  predicate MayAccess(u: Account, e: Exam) {
    u.role == Hod || e.createdBy == u.id || u.role == Teacher || (u.role == Student && e.isActive)
  }

  /** `validate_exam_access(exam_id)`. */
  function ValidateExamAccess(examId: string, cu: Result<Account, HttpError>, exams: seq<Exam>): (r: Result<Account, HttpError>)
    ensures r.Ok? <==>
      cu.Ok? && cu.value.isActive && ExamById(exams, examId).Some? &&
      MayAccess(cu.value, exams[ExamById(exams, examId).value])
    ensures r.Ok? ==> r == cu
    ensures cu.Ok? && cu.value.isActive && ExamById(exams, examId).None? ==> r == Err(ExamNotFound)
  {
    var user := GetCurrentActiveUser(cu);
    if user.Err? then user
    else
      var found := ExamById(exams, examId);
      if found.None? then Err(ExamNotFound)
      else
        var exam := exams[found.value];
        var u := user.value;
        if u.role == Hod || exam.createdBy == u.id then user
        else if u.role == Teacher then user
        else if u.role == Student then
          if !exam.isActive then Err(ExamNotActive) else user
        else Err(ExamAccessDenied)
  }

  /** The creator of an exam and every HOD are admitted whether or not the
      exam is active; a coordinator who did not create it is refused. */
  lemma ExamAccessByRole(examId: string, u: Account, exams: seq<Exam>, i: nat)
    requires u.isActive && ExamById(exams, examId) == Some(i)
    ensures u.role == Hod || exams[i].createdBy == u.id ==> ValidateExamAccess(examId, Ok(u), exams) == Ok(u)
    ensures u.role == Student && exams[i].createdBy != u.id ==>
      ValidateExamAccess(examId, Ok(u), exams) == (if exams[i].isActive then Ok(u) else Err(ExamNotActive))
    ensures u.role == Coordinator && exams[i].createdBy != u.id ==>
      ValidateExamAccess(examId, Ok(u), exams) == Err(ExamAccessDenied)
  {
  }
}
