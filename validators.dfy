/**
 * The request-validation chains of backend/src/utils/validators.ts. Each
 * chain is a function from the request's raw fields to the list of error
 * messages it reports, in the order the chains are declared; a request
 * reaches its controller exactly when that list is empty.
 *
 * Body fields are JSON values. A check other than `isString` looks at the
 * value's text form: an absent field and `null` read as "", a number or a
 * boolean as its printed form. `optional()` skips a chain only when the
 * field is absent (not when it is `null`).
 */
module Validators {
  import opened Types

  /** A raw JSON body field. `Scalar` is a number or boolean, kept as its printed text. */
  datatype Field = Absent | Null | Text(s: string) | Scalar(shown: string)

  /** The text form a validator sees. */
  function AsText(f: Field): string {
    match f
    case Absent => ""
    case Null => ""
    case Text(s) => s
    case Scalar(shown) => shown
  }

  const InvalidEmail := "Invalid email format"
  const PasswordTooShort := "Password must be at least 6 characters"
  const NameRequired := "Name is required"
  const PasswordRequired := "Password is required"
  const TitleRequired := "Title is required"
  const TitleEmpty := "Title cannot be empty"
  const InvalidValue := "Invalid value"
  const InvalidStatus := "Invalid status"
  const PageNotPositive := "Page must be a positive integer"
  const LimitOutOfRange := "Limit must be between 1 and 100"

  /** The message list of one check: empty when it passes. */
  function Check(passes: bool, message: string): (errs: seq<string>)
    ensures passes <==> errs == []
    ensures errs == [] || errs == [message]
  {
    if passes then [] else [message]
  }

  /** `optional()`: the check applies only when the field is present. */
  function Optionally(f: Field, passes: bool, message: string): (errs: seq<string>)
    ensures errs == [] <==> f.Absent? || passes
    ensures errs == [] || errs == [message]
  {
    if f.Absent? then [] else Check(passes, message)
  }

  /** The body of a registration request. */
  datatype RegisterBody = RegisterBody(email: Field, password: Field, name: Field)

  /**
   * The registration chains: a well-formed email (the email-syntax check is
   * the parameter `isEmail`), a password of at least 6 characters and a
   * non-empty name.
   */
  function RegisterErrors(b: RegisterBody, isEmail: string -> bool): (errs: seq<string>)
    ensures errs == [] <==>
      isEmail(AsText(b.email)) && |AsText(b.password)| >= 6 && AsText(b.name) != ""
    ensures PasswordTooShort in errs <==> |AsText(b.password)| < 6
    ensures NameRequired in errs <==> AsText(b.name) == ""
    ensures InvalidEmail in errs <==> !isEmail(AsText(b.email))
  {
    Check(isEmail(AsText(b.email)), InvalidEmail)
    + Check(|AsText(b.password)| >= 6, PasswordTooShort)
    + Check(AsText(b.name) != "", NameRequired)
  }

  /** The body of a login request. */
  datatype LoginBody = LoginBody(email: Field, password: Field)

  /** The login chains: a well-formed email and a non-empty password (no length bound). */
  function LoginErrors(b: LoginBody, isEmail: string -> bool): (errs: seq<string>)
    ensures errs == [] <==> isEmail(AsText(b.email)) && AsText(b.password) != ""
    ensures PasswordRequired in errs <==> AsText(b.password) == ""
    ensures InvalidEmail in errs <==> !isEmail(AsText(b.email))
  {
    Check(isEmail(AsText(b.email)), InvalidEmail)
    + Check(AsText(b.password) != "", PasswordRequired)
  }

  /** The body of a task-creation request. */
  datatype CreateTaskBody = CreateTaskBody(title: Field, description: Field)

  /** The creation chains: a non-empty title; a description, if present, must be a JSON string. */
  function CreateTaskErrors(b: CreateTaskBody): (errs: seq<string>)
    ensures errs == [] <==> AsText(b.title) != "" && (b.description.Absent? || b.description.Text?)
    ensures TitleRequired in errs <==> AsText(b.title) == ""
    ensures InvalidValue in errs <==> !(b.description.Absent? || b.description.Text?)
  {
    Check(AsText(b.title) != "", TitleRequired)
    + Optionally(b.description, b.description.Text?, InvalidValue)
  }

  /** The body of a task-update request. */
  datatype UpdateTaskBody = UpdateTaskBody(title: Field, description: Field, status: Field)

  /**
   * The update chains: every field is optional; a present title must be
   * non-empty, a present description a string, a present status one of the
   * two status names.
   */
  function UpdateTaskErrors(b: UpdateTaskBody): (errs: seq<string>)
    ensures errs == [] <==>
      && (b.title.Absent? || AsText(b.title) != "")
      && (b.description.Absent? || b.description.Text?)
      && (b.status.Absent? || ParseStatus(AsText(b.status)).Some?)
    ensures InvalidStatus in errs <==> !b.status.Absent? && ParseStatus(AsText(b.status)).None?
    ensures TitleEmpty in errs <==> !b.title.Absent? && AsText(b.title) == ""
    ensures InvalidValue in errs <==> !(b.description.Absent? || b.description.Text?)
  {
    Optionally(b.title, AsText(b.title) != "", TitleEmpty)
    + Optionally(b.description, b.description.Text?, InvalidValue)
    + Optionally(b.status, ParseStatus(AsText(b.status)).Some?, InvalidStatus)
  }

  /**
   * The query string of a task listing. Page and limit are taken as already
   * parsed integers; status and search are the raw query strings.
   */
  datatype RawTaskQuery = RawTaskQuery(page: Option<int>, limit: Option<int>, status: Option<string>, search: Option<string>)

  /** Whether an optional query value is absent or passes its check. */
  predicate AbsentOr<T>(v: Option<T>, p: T -> bool) {
    v.None? || p(v.value)
  }

  /**
   * The listing chains: a present page is an integer of at least 1, a
   * present limit an integer from 1 to 100, a present status one of the two
   * status names.
   */
  function TaskQueryErrors(q: RawTaskQuery): (errs: seq<string>)
    ensures errs == [] <==>
      && (q.page.None? || q.page.value >= 1)
      && (q.limit.None? || 1 <= q.limit.value <= 100)
      && (q.status.None? || ParseStatus(q.status.value).Some?)
    ensures LimitOutOfRange in errs <==> q.limit.Some? && !(1 <= q.limit.value <= 100)
    ensures PageNotPositive in errs <==> q.page.Some? && q.page.value < 1
    ensures InvalidStatus in errs <==> q.status.Some? && ParseStatus(q.status.value).None?
  {
    Check(AbsentOr(q.page, (p: int) => p >= 1), PageNotPositive)
    + Check(AbsentOr(q.limit, (l: int) => 1 <= l <= 100), LimitOutOfRange)
    + Check(AbsentOr(q.status, (s: string) => ParseStatus(s).Some?), InvalidStatus)
  }
}
