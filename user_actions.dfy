/** The server actions of `lib/actions/user.ts`: `signup` (schema validation,
    email-only duplicate check, insert) and `login` (empty guard, then the
    mapping of sign-in errors to messages). */
module UserActions {
  import opened Common
  import opened Schema
  import Auth

  /** The three form entries the signup schema reads; a missing entry is
      `None`. Other entries of the form are stripped by the schema. */
  datatype SignupForm = SignupForm(name: Option<string>, email: Option<string>, password: Option<string>)

  /** `{ success }`, `{ error: { fields } }` (field name to its message) and
      `{ error: { form } }`. */
  datatype SignupResult =
    | Success(message: string)
    | FieldErrors(fields: map<string, string>)
    | FormError(form: string)

  const NameMin: nat := 2
  const PasswordMin: nat := 6

  const RequiredMessage := "Required"
  const NameTooShort := "Name must be at least 2 characters long."
  const InvalidEmail := "Please enter a valid email address."
  const PasswordTooShort := "Password must be at least 6 characters long."
  const EmailInUse := "This email is already in use."
  const UnknownFormError := "An unknown error occurred. Please try again."
  const SignupSuccess := "Registration completed successfully. You can now sign in."

  /** One field's issue under a `z.string()` rule: a missing value is
      "Required"; a present one that breaks the rule gets the rule's message. */
  function FieldIssue(x: Option<string>, ok: string -> bool, message: string): Option<string> {
    if x.None? then Some(RequiredMessage)
    else if ok(x.value) then None
    else Some(message)
  }

  function WithIssue(errors: map<string, string>, field: string, issue: Option<string>): map<string, string> {
    if issue.Some? then errors[field := issue.value] else errors
  }

  /** `signupSchema.safeParse(...)`, flattened to field errors. `isEmail` is
      the `.email()` format check. */
  function SchemaErrors(form: SignupForm, isEmail: string -> bool): (errors: map<string, string>)
    ensures errors.Keys <= {"name", "email", "password"}
    ensures "name" in errors <==> form.name.None? || |form.name.value| < NameMin
    ensures "email" in errors <==> form.email.None? || !isEmail(form.email.value)
    ensures "password" in errors <==> form.password.None? || |form.password.value| < PasswordMin
    ensures "name" in errors ==>
              errors["name"] == (if form.name.None? then RequiredMessage else NameTooShort)
    ensures "email" in errors ==>
              errors["email"] == (if form.email.None? then RequiredMessage else InvalidEmail)
    ensures "password" in errors ==>
              errors["password"] == (if form.password.None? then RequiredMessage else PasswordTooShort)
  {
    var e1 := WithIssue(map[], "name", FieldIssue(form.name, (s: string) => |s| >= NameMin, NameTooShort));
    var e2 := WithIssue(e1, "email", FieldIssue(form.email, isEmail, InvalidEmail));
    WithIssue(e2, "password", FieldIssue(form.password, (s: string) => |s| >= PasswordMin, PasswordTooShort))
  }

  predicate ParsesOk(form: SignupForm, isEmail: string -> bool) {
    SchemaErrors(form, isEmail) == map[]
  }

  /** A form that parses has all three values, long enough, and a well-formed
      email. */
  lemma ParsedFormIsComplete(form: SignupForm, isEmail: string -> bool)
    requires ParsesOk(form, isEmail)
    ensures form.name.Some? && |form.name.value| >= NameMin
    ensures form.email.Some? && isEmail(form.email.value)
    ensures form.password.Some? && |form.password.value| >= PasswordMin
  {
    var errors := SchemaErrors(form, isEmail);
    assert "name" !in errors && "email" !in errors && "password" !in errors;
  }

  /** The record `signup` inserts: no address or postal code. */
  function NewRow(form: SignupForm, hash: string -> string, newId: string, now: int): (r: MemberRow)
    requires form.name.Some? && form.email.Some? && form.password.Some?
    ensures r.id == newId && r.name == form.name && r.email == form.email.value
    ensures r.password == Some(hash(form.password.value))
    ensures r.image.None? && r.address.None? && r.postalCode.None?
    ensures r.createdAt == r.updatedAt == now
    ensures r.createdBy == r.updatedBy == form.name
  {
    MemberRow(
      newId, form.name, form.email.value, Some(hash(form.password.value)), None,
      None, None, now, now, form.name, form.name)
  }

  /** `signup(formData)`. `hash` is this call's `bcrypt.hash`, `newId` the
      `uuidv4()` value, `now` the `new Date()` value, `fault` whether the
      database cannot be reached. Only the email is checked for duplicates. */
  method Signup(table: MemberTable, form: SignupForm, isEmail: string -> bool,
                hash: string -> string, newId: string, now: int, fault: bool)
    returns (res: SignupResult)
    requires table.Valid()
    modifies table
    ensures table.Valid()
    ensures !ParsesOk(form, isEmail) ==> res == FieldErrors(SchemaErrors(form, isEmail))
    ensures ParsesOk(form, isEmail) && fault ==> res == FormError(UnknownFormError)
    ensures ParsesOk(form, isEmail) && !fault && HasEmail(old(table.rows), form.email.value) ==>
              res == FormError(EmailInUse)
    ensures res.Success? <==>
              && ParsesOk(form, isEmail) && !fault
              && !HasEmail(old(table.rows), form.email.value)
              && Admissible(old(table.rows), NewRow(form, hash, newId, now))
    ensures (&& ParsesOk(form, isEmail) && !fault && !HasEmail(old(table.rows), form.email.value)
             && !Admissible(old(table.rows), NewRow(form, hash, newId, now)))
            ==> res == FormError(UnknownFormError)
    ensures res.FormError? ==> res.form == EmailInUse || res.form == UnknownFormError
    ensures res.Success? ==> res.message == SignupSuccess
    ensures res.Success? ==> table.rows == old(table.rows) + [NewRow(form, hash, newId, now)]
    ensures !res.Success? ==> table.rows == old(table.rows)
  {
    var errors := SchemaErrors(form, isEmail);
    if errors != map[] {
      return FieldErrors(errors);
    }
    ParsedFormIsComplete(form, isEmail);
    if fault {
      return FormError(UnknownFormError);
    }
    var existing := FindFirst(table.rows, (row: MemberRow) => row.email == form.email.value);
    if existing.Some? {
      return FormError(EmailInUse);
    }
    var ok := table.Insert(NewRow(form, hash, newId, now));
    if !ok {
      return FormError(UnknownFormError);
    }
    return Success(SignupSuccess);
  }

  /** How the awaited `signIn("credentials", ...)` call ended: it returned,
      or it threw an `AuthError` of the given `type`, or it threw something
      else (the redirect signal a successful sign-in throws is one). */
  datatype SignInOutcome =
    | Returned
    | ThrewAuthError(kind: string)
    | ThrewOther(error: string)

  /** `{ error }`, `{ success: true }`, or the error rethrown to Next.js. */
  datatype LoginResult =
    | LoginError(message: string)
    | LoginSuccess
    | Rethrown(error: string)

  const MissingCredentials := "Please enter both email and password."
  const InvalidCredentials := "Invalid email or password."
  const UnknownSignInError := "An unknown error occurred during sign in."
  const CredentialsSignin := "CredentialsSignin"
  const RedirectSignal := "NEXT_REDIRECT"

  /** `login(_, formData)`: `signIn` is consulted only when both values are
      non-empty. */
  function Login(email: Option<string>, password: Option<string>, signIn: SignInOutcome): (r: LoginResult)
    ensures !Truthy(email) || !Truthy(password) ==> r == LoginError(MissingCredentials)
    ensures Truthy(email) && Truthy(password) ==>
              (r == LoginError(InvalidCredentials) <==> signIn == ThrewAuthError(CredentialsSignin))
    ensures Truthy(email) && Truthy(password) ==>
              (r == LoginError(UnknownSignInError) <==> signIn.ThrewAuthError? && signIn.kind != CredentialsSignin)
    ensures Truthy(email) && Truthy(password) ==> (r == LoginSuccess <==> signIn.Returned?)
    ensures Truthy(email) && Truthy(password) ==> (r.Rethrown? <==> signIn.ThrewOther?)
    ensures r.Rethrown? ==> signIn == ThrewOther(r.error)
  {
    if !Truthy(email) || !Truthy(password) then LoginError(MissingCredentials)
    else
      match signIn
      case Returned => LoginSuccess
      case ThrewAuthError(kind) =>
        if kind == CredentialsSignin then LoginError(InvalidCredentials) else LoginError(UnknownSignInError)
      case ThrewOther(e) => Rethrown(e)
  }

  /** How the credentials sign-in with `redirectTo` ends, given what
      `authorize` returned: `null` becomes a `CredentialsSignin` error, a user
      becomes the redirect signal. */
  function CredentialsSignIn(user: Option<Auth.AuthUser>): (outcome: SignInOutcome)
    ensures outcome == ThrewAuthError(CredentialsSignin) <==> user.None?
    ensures outcome == ThrewOther(RedirectSignal) <==> user.Some?
  {
    if user.None? then ThrewAuthError(CredentialsSignin) else ThrewOther(RedirectSignal)
  }

  /** With both values present, `login` shows "Invalid email or password."
      exactly when `authorize` rejects the credentials, and otherwise hands
      the redirect on: the reason for a rejection never reaches the form. */
  lemma LoginReflectsAuthorize(rows: seq<MemberRow>, email: string, password: string,
                               compare: (string, string) -> bool, fault: bool)
    requires email != "" && password != ""
    ensures var user := Auth.Authorize(rows, Some(email), Some(password), compare, fault);
            var r := Login(Some(email), Some(password), CredentialsSignIn(user));
            && (r == LoginError(InvalidCredentials) <==> user.None?)
            && (r == Rethrown(RedirectSignal) <==> user.Some?)
  {
    var user := Auth.Authorize(rows, Some(email), Some(password), compare, fault);
    assert Truthy(Some(email)) && Truthy(Some(password));
    if user.Some? {
      assert CredentialsSignIn(user) == ThrewOther(RedirectSignal);
    }
  }
}
