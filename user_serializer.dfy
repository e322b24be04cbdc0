/**
 * `UserCreate`, the registration input: three declared fields, each with the
 * constraints pydantic checks when the model is built from keyword arguments.
 */
module UserSerializer {
  import opened Wrappers

  const UsernameMinLength: nat := 3
  const UsernameMaxLength: nat := 50
  const PasswordMinLength: nat := 8
  const PasswordMaxLength: nat := 128

  /** A validated registration request. */
  datatype UserCreate = UserCreate(username: string, email: string, password: string)

  /**
   * The keyword arguments the registration mutation passes to `UserCreate`.
   * `passwordConfirm` is not a declared field, so validation ignores it.
   */
  datatype RegistrationForm = RegistrationForm(
    username: string, email: string, password: string, passwordConfirm: string)

  datatype Field = UsernameField | EmailField | PasswordField

  datatype Violation = TooShort(minLength: nat) | TooLong(maxLength: nat) | PatternMismatch | InvalidEmail

  /** The position of a field in the model's declaration. */
  function FieldRank(f: Field): nat
  {
    match f
    case UsernameField => 0
    case EmailField => 1
    case PasswordField => 2
  }

  /** One entry of the validation error list: which field failed and how. */
  datatype FieldError = FieldError(field: Field, violation: Violation)

  /** The character class `[a-zA-Z0-9_]`. */
  predicate IsWordChar(c: char)
  {
    ('a' <= c <= 'z') || ('A' <= c <= 'Z') || ('0' <= c <= '9') || c == '_'
  }

  /**
   * A match of the anchored pattern `^[a-zA-Z0-9_]+$`, consumed one character
   * at a time: one class character, then either the end or another match.
   */
  predicate MatchesUsernamePattern(s: string)
  {
    |s| >= 1 && IsWordChar(s[0]) && (|s| == 1 || MatchesUsernamePattern(s[1..]))
  }

  /** The pattern accepts exactly the non-empty strings made of class characters only. */
  lemma {:induction false} PatternMatchesIff(s: string)
    ensures MatchesUsernamePattern(s) <==> |s| >= 1 && forall i :: 0 <= i < |s| ==> IsWordChar(s[i])
  {
    if |s| > 1 {
      PatternMatchesIff(s[1..]);
      assert forall i :: 1 <= i < |s| ==> s[i] == s[1..][i - 1];
    }
  }

  /** Because the pattern is anchored at both ends, one character outside the class rejects the string. */
  lemma OneBadCharacterRejects(s: string, i: nat)
    requires i < |s| && !IsWordChar(s[i])
    ensures !MatchesUsernamePattern(s)
  {
    PatternMatchesIff(s);
  }

  /** The declared username constraint: 3 to 50 characters, all from `[a-zA-Z0-9_]`. */
  predicate ValidUsername(s: string)
  {
    UsernameMinLength <= |s| <= UsernameMaxLength && forall i :: 0 <= i < |s| ==> IsWordChar(s[i])
  }

  /** The declared password constraint: 8 to 128 characters of any kind. */
  predicate ValidPassword(s: string)
  {
    PasswordMinLength <= |s| <= PasswordMaxLength
  }

  /**
   * The first violated constraint of a constrained string field, checked in
   * the order minimum length, maximum length, pattern.
   */
  function CheckString(s: string, minLength: nat, maxLength: nat, pattern: bool): (v: Option<Violation>)
    ensures v == None <==> minLength <= |s| <= maxLength && (pattern ==> MatchesUsernamePattern(s))
    ensures v == Some(TooShort(minLength)) <==> |s| < minLength
    ensures v == Some(TooLong(maxLength)) <==> minLength <= |s| && maxLength < |s|
    ensures v == Some(PatternMismatch) <==>
      minLength <= |s| <= maxLength && pattern && !MatchesUsernamePattern(s)
  {
    if |s| < minLength then Some(TooShort(minLength))
    else if |s| > maxLength then Some(TooLong(maxLength))
    else if pattern && !MatchesUsernamePattern(s) then Some(PatternMismatch)
    else None
  }

  /** The username field's check. */
  function CheckUsername(s: string): (v: Option<Violation>)
    ensures v == None <==> ValidUsername(s)
  {
    PatternMatchesIff(s);
    CheckString(s, UsernameMinLength, UsernameMaxLength, true)
  }

  /** The password field's check: lengths only, no character class. */
  function CheckPassword(s: string): (v: Option<Violation>)
    ensures v == None <==> ValidPassword(s)
    ensures v != Some(PatternMismatch)
  {
    CheckString(s, PasswordMinLength, PasswordMaxLength, false)
  }

  /** Errors of one field, as a list of zero or one entry. */
  function ErrorsOf(f: Field, v: Option<Violation>): seq<FieldError>
  {
    if v.Some? then [FieldError(f, v.value)] else []
  }

  /**
   * The error list of the three fields: non-empty when some field fails,
   * ordered by field, and holding each failing field's violation once.
   */
  lemma ErrorListShape(u: Option<Violation>, e: Option<Violation>, p: Option<Violation>)
    requires u.Some? || e.Some? || p.Some?
    ensures var l := ErrorsOf(UsernameField, u) + ErrorsOf(EmailField, e) + ErrorsOf(PasswordField, p);
      |l| > 0 &&
      (forall i, j :: 0 <= i < j < |l| ==> FieldRank(l[i].field) < FieldRank(l[j].field)) &&
      ((exists x :: x in l && x.field == UsernameField) <==> u.Some?) &&
      ((exists x :: x in l && x.field == EmailField) <==> e.Some?) &&
      ((exists x :: x in l && x.field == PasswordField) <==> p.Some?) &&
      (forall x :: x in l && x.field == UsernameField ==> u == Some(x.violation)) &&
      (forall x :: x in l && x.field == EmailField ==> e == Some(x.violation)) &&
      (forall x :: x in l && x.field == PasswordField ==> p == Some(x.violation))
  {
    var a, b, c := ErrorsOf(UsernameField, u), ErrorsOf(EmailField, e), ErrorsOf(PasswordField, p);
    var l := a + b + c;
    assert forall k :: 0 <= k < |l| ==>
      (k < |a| ==> l[k] == a[0]) &&
      (|a| <= k < |a| + |b| ==> l[k] == b[0]) &&
      (|a| + |b| <= k ==> l[k] == c[0]);
  }

  /**
   * Builds `UserCreate` from the form. `emailCheck` is the e-mail validator:
   * it yields the normalised address, or nothing when the format is invalid.
   * Every field is checked and the errors are listed in field order.
   */
  function Validate(form: RegistrationForm, emailCheck: string -> Option<string>): (r: Result<UserCreate, seq<FieldError>>)
    ensures r.Success? <==>
      ValidUsername(form.username) && emailCheck(form.email).Some? && ValidPassword(form.password)
    ensures r.Success? ==>
      r.value == UserCreate(form.username, emailCheck(form.email).value, form.password)
    ensures r.Failure? ==>
      |r.error| > 0 &&
      (forall i, j :: 0 <= i < j < |r.error| ==> FieldRank(r.error[i].field) < FieldRank(r.error[j].field)) &&
      ((exists e :: e in r.error && e.field == UsernameField) <==> !ValidUsername(form.username)) &&
      ((exists e :: e in r.error && e.field == EmailField) <==> emailCheck(form.email).None?) &&
      ((exists e :: e in r.error && e.field == PasswordField) <==> !ValidPassword(form.password)) &&
      (forall e :: e in r.error && e.field == UsernameField ==> CheckUsername(form.username) == Some(e.violation)) &&
      (forall e :: e in r.error && e.field == EmailField ==> e.violation == InvalidEmail) &&
      (forall e :: e in r.error && e.field == PasswordField ==> CheckPassword(form.password) == Some(e.violation))
  {
    var u := CheckUsername(form.username);
    var e := if emailCheck(form.email).Some? then None else Some(InvalidEmail);
    var p := CheckPassword(form.password);
    if u == None && e == None && p == None then
      Success(UserCreate(form.username, emailCheck(form.email).value, form.password))
    else
      ErrorListShape(u, e, p);
      Failure(ErrorsOf(UsernameField, u) + ErrorsOf(EmailField, e) + ErrorsOf(PasswordField, p))
  }

  /** The extra `password_confirm` argument has no influence on the outcome. */
  lemma ValidateIgnoresPasswordConfirm(form: RegistrationForm, confirm: string, emailCheck: string -> Option<string>)
    ensures Validate(form, emailCheck) == Validate(form.(passwordConfirm := confirm), emailCheck)
  {
  }
}
