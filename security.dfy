/** The credential helpers of the security core: password strength,
    default passwords, password expiry and input sanitisation. Hashing,
    JWT and TOTP are library calls and stay outside this module. */
module Security {
  import opened Wrappers
  import opened Chars

  const SecondsPerDay := 86400

  /** Default of `max_age_days`. */
  const DefaultMaxPasswordAgeDays := 90

  /** Minimum length the strength check asks for. */
  const MinPasswordLength := 8

  // ---------------------------------------------------------------------
  // Password strength

  /** One failed requirement, in the order the checks are made. */
  datatype StrengthError = TooShort | NoUppercase | NoLowercase | NoDigit | NoSpecial | TooCommon

  /** The message appended for each failed requirement. */
  function Message(e: StrengthError): (r: string)
    ensures r != []
  {
    match e
    case TooShort => "Password must be at least 8 characters long"
    case NoUppercase => "Password must contain at least one uppercase letter"
    case NoLowercase => "Password must contain at least one lowercase letter"
    case NoDigit => "Password must contain at least one number"
    case NoSpecial => "Password must contain at least one special character"
    case TooCommon => "Password is too common"
  }

  /** Position of each check in the validator. */
  function Rank(e: StrengthError): nat {
    match e
    case TooShort => 0
    case NoUppercase => 1
    case NoLowercase => 2
    case NoDigit => 3
    case NoSpecial => 4
    case TooCommon => 5
  }

  const CommonPasswords: seq<string> := ["password", "123456", "qwerty", "admin"]

  predicate IsCommon(password: string) {
    Lower(password) in CommonPasswords
  }

  /** Whether `e` names a requirement that `password` fails. */
  predicate Fails(password: string, e: StrengthError) {
    match e
    case TooShort => |password| < MinPasswordLength
    case NoUppercase => !Any(password, IsUpper)
    case NoLowercase => !Any(password, IsLower)
    case NoDigit => !Any(password, IsDigit)
    case NoSpecial => !Any(password, IsSpecial)
    case TooCommon => IsCommon(password)
  }

  /** Whether every element of `errs` comes after the one before it in the
      order of the checks. */
  predicate InCheckOrder(errs: seq<StrengthError>) {
    forall i, j | 0 <= i < j < |errs| :: Rank(errs[i]) < Rank(errs[j])
  }

  /** Every element of `errs` comes from a check made before the `n`-th. */
  predicate RanksBelow(errs: seq<StrengthError>, n: nat) {
    forall x | x in errs :: Rank(x) < n
  }

  /** One step of the validator: append `e` when its check failed. */
  function AppendIf(errs: seq<StrengthError>, failed: bool, e: StrengthError): (r: seq<StrengthError>)
    ensures forall x :: x in r <==> x in errs || (failed && x == e)
    ensures |r| <= |errs| + 1
    ensures InCheckOrder(errs) && RanksBelow(errs, Rank(e)) ==> InCheckOrder(r) && RanksBelow(r, Rank(e) + 1)
  {
    if failed then errs + [e] else errs
  }

  /** Membership in the error list, one check at a time. */
  lemma ErrorsMembership(password: string, e0: seq<StrengthError>, e1: seq<StrengthError>, e2: seq<StrengthError>,
                         e3: seq<StrengthError>, e4: seq<StrengthError>, e5: seq<StrengthError>)
    requires forall x :: x in e0 <==> Fails(password, TooShort) && x == TooShort
    requires forall x :: x in e1 <==> x in e0 || (Fails(password, NoUppercase) && x == NoUppercase)
    requires forall x :: x in e2 <==> x in e1 || (Fails(password, NoLowercase) && x == NoLowercase)
    requires forall x :: x in e3 <==> x in e2 || (Fails(password, NoDigit) && x == NoDigit)
    requires forall x :: x in e4 <==> x in e3 || (Fails(password, NoSpecial) && x == NoSpecial)
    requires forall x :: x in e5 <==> x in e4 || (Fails(password, TooCommon) && x == TooCommon)
    ensures forall e :: e in e5 <==> Fails(password, e)
  {
    forall e ensures e in e5 <==> Fails(password, e) {
      assert e == TooShort || e == NoUppercase || e == NoLowercase || e == NoDigit || e == NoSpecial || e == TooCommon;
      assert e in e5 <==> e in e4 || (Fails(password, TooCommon) && e == TooCommon);
      assert e in e4 <==> e in e3 || (Fails(password, NoSpecial) && e == NoSpecial);
      assert e in e3 <==> e in e2 || (Fails(password, NoDigit) && e == NoDigit);
      assert e in e2 <==> e in e1 || (Fails(password, NoLowercase) && e == NoLowercase);
      assert e in e1 <==> e in e0 || (Fails(password, NoUppercase) && e == NoUppercase);
      assert e in e0 <==> Fails(password, TooShort) && e == TooShort;
    }
  }

  /** The error list the validator builds: exactly the failed requirements,
      each once, in the order of the checks. */
  function StrengthErrors(password: string): (errs: seq<StrengthError>)
    ensures |errs| <= 6
    ensures forall e :: e in errs <==> Fails(password, e)
    ensures InCheckOrder(errs)
  {
    var e0 := AppendIf([], Fails(password, TooShort), TooShort);
    var e1 := AppendIf(e0, Fails(password, NoUppercase), NoUppercase);
    var e2 := AppendIf(e1, Fails(password, NoLowercase), NoLowercase);
    var e3 := AppendIf(e2, Fails(password, NoDigit), NoDigit);
    var e4 := AppendIf(e3, Fails(password, NoSpecial), NoSpecial);
    var e5 := AppendIf(e4, Fails(password, TooCommon), TooCommon);
    ErrorsMembership(password, e0, e1, e2, e3, e4, e5);
    e5
  }

  /** `validate_password_strength`: appends one error per failed check and
      reports the password valid exactly when none was appended. */
  method ValidatePasswordStrength(password: string) returns (isValid: bool, errors: seq<StrengthError>)
    ensures errors == StrengthErrors(password)
    ensures isValid <==> forall e :: !Fails(password, e)
  {
    errors := [];
    if Fails(password, TooShort) {
      errors := errors + [TooShort];
    }
    if Fails(password, NoUppercase) {
      errors := errors + [NoUppercase];
    }
    if Fails(password, NoLowercase) {
      errors := errors + [NoLowercase];
    }
    if Fails(password, NoDigit) {
      errors := errors + [NoDigit];
    }
    if Fails(password, NoSpecial) {
      errors := errors + [NoSpecial];
    }
    if Fails(password, TooCommon) {
      errors := errors + [TooCommon];
    }
    isValid := |errors| == 0;
  }

  /** A password is strong when the validator returns no error. */
  predicate IsStrong(password: string) {
    StrengthErrors(password) == []
  }

  /** The message of each error, in order. */
  function Messages(errs: seq<StrengthError>): (ms: seq<string>)
    ensures |ms| == |errs| && forall k | 0 <= k < |errs| :: ms[k] == Message(errs[k])
  {
    seq(|errs|, k requires 0 <= k < |errs| => Message(errs[k]))
  }

  /** `", ".join(errors)` over the messages: every message, in order, with
      ", " between neighbours and nothing else. */
  function JoinMessages(errs: seq<StrengthError>): (r: string)
    ensures LaidOut(r, Messages(errs), ", ")
    ensures r == [] <==> errs == []
    ensures errs != [] ==> var first := Messages(errs)[0]; |first| <= |r| && r[..|first|] == first
    ensures errs != [] ==> var last := Messages(errs)[|errs| - 1]; |last| <= |r| && r[|r| - |last|..] == last
  {
    var ms := Messages(errs);
    var r := Join(ms, ", ");
    if errs == [] then r
    else
      LaidOutEnds(r, ms, ", ");
      assert ms[0] != [];
      r
  }

  /** A strong password has at least 8 characters and one character of each
      of the four classes, and is not a common password. */
  lemma StrongMeansAllChecks(password: string)
    ensures IsStrong(password) <==>
      |password| >= MinPasswordLength && Any(password, IsUpper) && Any(password, IsLower) &&
      Any(password, IsDigit) && Any(password, IsSpecial) && !IsCommon(password)
  {
    if !IsStrong(password) {
      assert StrengthErrors(password)[0] in StrengthErrors(password);
    }
  }

  /** No special character is a letter or a digit. */
  lemma SpecialIsNotAlphanumeric(c: char)
    ensures IsSpecial(c) ==> !IsUpper(c) && !IsLower(c) && !IsDigit(c)
  {
    if IsSpecial(c) {
      var i :| 0 <= i < |SpecialChars| && SpecialChars[i] == c;
    }
  }

  /** Lower-casing does not change whether a character is special. */
  lemma LowerKeepsSpecial(password: string)
    ensures Any(Lower(password), IsSpecial) <==> Any(password, IsSpecial)
  {
    var l := Lower(password);
    forall i | 0 <= i < |password| ensures IsSpecial(l[i]) <==> IsSpecial(password[i]) {
      SpecialIsNotAlphanumeric(password[i]);
      SpecialIsNotAlphanumeric(l[i]);
    }
  }

  /** Every common password is made of lower-case letters and digits only. */
  lemma CommonIsAlphanumeric(w: string)
    requires w in CommonPasswords
    ensures forall i | 0 <= i < |w| :: IsLower(w[i]) || IsDigit(w[i])
  {
    if w == "password" {
    } else if w == "123456" {
    } else if w == "qwerty" {
    } else {
      assert w == "admin";
    }
  }

  /** None of the common passwords holds a special character, so the
      common-password check never rejects a password that the
      special-character check has not rejected already. */
  lemma CommonImpliesNoSpecial(password: string)
    requires IsCommon(password)
    ensures NoSpecial in StrengthErrors(password)
  {
    LowerKeepsSpecial(password);
    var l := Lower(password);
    CommonIsAlphanumeric(l);
    if Any(l, IsSpecial) {
      var i :| 0 <= i < |l| && IsSpecial(l[i]);
      SpecialIsNotAlphanumeric(l[i]);
    }
  }

  // ---------------------------------------------------------------------
  // Default password

  /** The date of birth with every '-' and then every '/' removed. */
  function CleanDob(dob: string): string {
    RemoveAll(RemoveAll(dob, '-'), '/')
  }

  predicate IsDobSeparator(c: char) { c == '-' || c == '/' }

  /** The cleaned date keeps exactly the non-separator characters, in order. */
  lemma {:induction false} CleanDobKeepsRest(dob: string)
    ensures CleanDob(dob) == Filter(dob, c => !IsDobSeparator(c))
  {
    if dob != [] {
      CleanDobKeepsRest(dob[1..]);
    }
  }

  /** The order of the two removals does not matter. */
  lemma {:induction false} CleanDobEitherOrder(dob: string)
    ensures CleanDob(dob) == RemoveAll(RemoveAll(dob, '/'), '-')
  {
    if dob != [] {
      CleanDobEitherOrder(dob[1..]);
    }
  }

  /** Cleaning an already cleaned date changes nothing. */
  lemma CleanDobIdempotent(dob: string)
    ensures CleanDob(CleanDob(dob)) == CleanDob(dob)
  {
    var d := CleanDob(dob);
    CleanDobKeepsRest(dob);
    CleanDobKeepsRest(d);
    FilterKeepsAll(d, c => !IsDobSeparator(c));
  }

  /** Python truthiness of an optional string: present and non-empty. */
  predicate Truthy(s: Option<string>) {
    s.Some? && s.value != ""
  }

  /** `generate_default_password`: the id followed by the cleaned date of
      birth, or by "123456" when there is no date of birth. */
  function GenerateDefaultPassword(userId: string, dateOfBirth: Option<string>): (r: string)
    ensures |r| >= |userId| && r[..|userId|] == userId
    ensures Truthy(dateOfBirth) ==> r[|userId|..] == Filter(dateOfBirth.value, c => !IsDobSeparator(c))
    ensures !Truthy(dateOfBirth) ==> r[|userId|..] == "123456"
  {
    if Truthy(dateOfBirth) then
      CleanDobKeepsRest(dateOfBirth.value);
      userId + CleanDob(dateOfBirth.value)
    else
      userId + "123456"
  }

  // ---------------------------------------------------------------------
  // Password expiry

  /** `is_password_expired`: expired when there is no last-changed time, and
      otherwise once `now` is strictly past last-changed plus the maximum age. */
  function IsPasswordExpired(lastChanged: Option<int>, now: int, maxAgeDays: int := DefaultMaxPasswordAgeDays): (r: bool)
    ensures lastChanged.None? ==> r
    ensures lastChanged.Some? ==> (r <==> now - lastChanged.value > maxAgeDays * SecondsPerDay)
  {
    lastChanged.None? || now > lastChanged.value + maxAgeDays * SecondsPerDay
  }

  /** Once expired, a password stays expired as time goes on. */
  lemma ExpiryIsPermanent(lastChanged: Option<int>, now: int, later: int, maxAgeDays: int)
    requires now <= later
    requires IsPasswordExpired(lastChanged, now, maxAgeDays)
    ensures IsPasswordExpired(lastChanged, later, maxAgeDays)
  {
  }

  /** The deadline itself is still inside the allowed age; one second later is not. */
  lemma ExpiryBoundary(changed: int, maxAgeDays: int)
    ensures !IsPasswordExpired(Some(changed), changed + maxAgeDays * SecondsPerDay, maxAgeDays)
    ensures IsPasswordExpired(Some(changed), changed + maxAgeDays * SecondsPerDay + 1, maxAgeDays)
  {
  }

  // ---------------------------------------------------------------------
  // Input sanitisation

  /** `re.sub(r'[\x00-\x1f\x7f-\x9f]', '', s)` */
  function RemoveControls(s: string): (r: string)
    ensures forall i | 0 <= i < |r| :: !IsControl(r[i])
    ensures forall x :: x in r <==> x in s && !IsControl(x)
  {
    Filter(s, c => !IsControl(c))
  }

  /** Removing control characters works piece by piece and keeps the order
      of what remains. */
  lemma RemoveControlsAppend(a: string, b: string)
    ensures RemoveControls(a + b) == RemoveControls(a) + RemoveControls(b)
  {
    FilterAppend(a, b, c => !IsControl(c));
  }

  /** Stripping keeps only characters of the input. */
  lemma StripKeepsNoControl(s: string)
    requires forall i | 0 <= i < |s| :: !IsControl(s[i])
    ensures forall i | 0 <= i < |Strip(s)| :: !IsControl(Strip(s)[i])
  {
    var left := StripLeft(s);
    forall i | 0 <= i < |left| ensures !IsControl(left[i]) {
      assert left[i] == s[|s| - |left| + i];
    }
    var r := StripRight(left);
    forall i | 0 <= i < |r| ensures !IsControl(r[i]) {
      assert r[i] == left[i];
    }
  }

  /** `sanitize_user_input`: "" for empty input, otherwise the input without
      control characters and without surrounding whitespace. The window
      clause and the ends clause together fix the result: it is the one
      window of the control-free input that is bordered only by whitespace
      and neither starts nor ends with whitespace. */
  function SanitizeUserInput(s: string): (r: string)
    ensures s == [] ==> r == []
    ensures s != [] ==> exists i: nat, j: nat :: TrimmedFrom(RemoveControls(s), r, i, j)
    ensures forall i | 0 <= i < |r| :: !IsControl(r[i])
    ensures r == [] || (!IsSpace(r[0]) && !IsSpace(r[|r| - 1]))
  {
    if s == [] then []
    else
      var cleaned := RemoveControls(s);
      StripKeepsNoControl(cleaned);
      Strip(cleaned)
  }

  /** Input that holds no control character and has no whitespace at either
      end comes back unchanged. */
  lemma SanitizeKeepsClean(s: string)
    requires forall i | 0 <= i < |s| :: !IsControl(s[i])
    requires s == [] || (!IsSpace(s[0]) && !IsSpace(s[|s| - 1]))
    ensures SanitizeUserInput(s) == s
  {
    if s != [] {
      FilterKeepsAll(s, c => !IsControl(c));
      StripOfStripped(s);
    }
  }

  /** Stripping a string that starts and ends with non-whitespace changes nothing. */
  lemma StripOfStripped(s: string)
    requires s == [] || (!IsSpace(s[0]) && !IsSpace(s[|s| - 1]))
    ensures Strip(s) == s
  {
  }

  /** Sanitising is idempotent. */
  lemma SanitizeIdempotent(s: string)
    ensures SanitizeUserInput(SanitizeUserInput(s)) == SanitizeUserInput(s)
  {
    SanitizeKeepsClean(SanitizeUserInput(s));
  }
}
