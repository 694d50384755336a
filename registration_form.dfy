/** The registration request body (UserRegistrationDTO): five nullable strings, their accessors, and the
    Bean Validation constraints declared on them, which `@Valid` enforces before the service is called. */
module RegistrationForm {
  import opened Wrappers

  datatype Field = Username | Password | FirstName | LastName | Email

  /** None stands for a field that is null (absent from the request body). */
  datatype Form = Form(
    username: Option<string>,
    password: Option<string>,
    firstName: Option<string>,
    lastName: Option<string>,
    email: Option<string>)

  /** The object `new UserRegistrationDTO()` creates: every field null. */
  const NewForm := Form(None, None, None, None, None)

  /** The getter of `field`. */
  function Get(f: Form, field: Field): Option<string> {
    match field
    case Username => f.username
    case Password => f.password
    case FirstName => f.firstName
    case LastName => f.lastName
    case Email => f.email
  }

  /** The setter of `field`: the matching getter now returns `value`, every other getter is unaffected. */
  function Set(f: Form, field: Field, value: Option<string>): (r: Form)
    ensures Get(r, field) == value
    ensures forall other :: other != field ==> Get(r, other) == Get(f, other)
  {
    match field
    case Username => f.(username := value)
    case Password => f.(password := value)
    case FirstName => f.(firstName := value)
    case LastName => f.(lastName := value)
    case Email => f.(email := value)
  }

  datatype SetterCall = SetterCall(field: Field, value: Option<string>)

  /** The form after the setter calls `calls`, made in order. */
  function Apply(f: Form, calls: seq<SetterCall>): Form {
    if calls == [] then f
    else
      var last := calls[|calls| - 1];
      Set(Apply(f, calls[..|calls| - 1]), last.field, last.value)
  }

  /** The value passed to the last setter call on `field`, if there is one. */
  function LastSet(calls: seq<SetterCall>, field: Field): Option<Option<string>> {
    if calls == [] then None
    else if calls[|calls| - 1].field == field then Some(calls[|calls| - 1].value)
    else LastSet(calls[..|calls| - 1], field)
  }

  /** Each getter returns the value last passed to the matching setter, or the initial value if that
      setter was never called. */
  lemma {:induction false} GetReturnsLastSet(f: Form, calls: seq<SetterCall>, field: Field)
    ensures Get(Apply(f, calls), field) == (match LastSet(calls, field) case Some(v) => v case None => Get(f, field))
  {
    if calls != [] {
      GetReturnsLastSet(f, calls[..|calls| - 1], field);
    }
  }

  // ---------------------------------------------------------------------------------------------
  // Constraints

  datatype Constraint = NotBlank | Size(min: nat, max: nat)

  /** The annotations on each field (`@Email` is not modelled). */
  function Constraints(field: Field): set<Constraint> {
    match field
    case Username => {NotBlank, Size(3, 20)}
    case Password => {NotBlank, Size(6, 100)}
    case FirstName => {NotBlank}
    case LastName => {NotBlank}
    case Email => {NotBlank}
  }

  /** A character that trimming removes (code points up to U+0020); `@NotBlank` ignores them. */
  predicate Blank(c: char) {
    c <= ' '
  }

  /** Not null, and at least one character is not blank. */
  predicate HasText(s: Option<string>) {
    s.Some? && exists i :: 0 <= i < |s.value| && !Blank(s.value[i])
  }

  /** `@NotBlank` rejects null; `@Size` accepts null and otherwise bounds the length. */
  predicate Satisfies(value: Option<string>, c: Constraint) {
    match c
    case NotBlank => HasText(value)
    case Size(min, max) => value.None? || min <= |value.value| <= max
  }

  /** A request body the controller accepts, stated field by field. */
  predicate Valid(f: Form) {
    && HasText(f.username) && 3 <= |f.username.value| <= 20
    && HasText(f.password) && 6 <= |f.password.value| <= 100
    && HasText(f.firstName)
    && HasText(f.lastName)
    && HasText(f.email)
  }

  /** One constraint that one field breaks. */
  datatype Violation = Violation(field: Field, constraint: Constraint)

  function FieldViolations(f: Form, field: Field): set<Violation> {
    set c | c in Constraints(field) && !Satisfies(Get(f, field), c) :: Violation(field, c)
  }

  /** What the validator reports for `f`: every declared constraint that its field breaks, and nothing else. */
  function Violations(f: Form): (vs: set<Violation>)
    ensures forall v :: v in vs <==> v.constraint in Constraints(v.field) && !Satisfies(Get(f, v.field), v.constraint)
  {
    FieldViolations(f, Username) + FieldViolations(f, Password) + FieldViolations(f, FirstName)
    + FieldViolations(f, LastName) + FieldViolations(f, Email)
  }

  /** The validator reports nothing exactly for the valid forms. */
  lemma ValidIffNoViolations(f: Form)
    ensures Valid(f) <==> Violations(f) == {}
  {
    if Violations(f) == {} {
      NoViolation(f, Username, NotBlank);
      NoViolation(f, Username, Size(3, 20));
      NoViolation(f, Password, NotBlank);
      NoViolation(f, Password, Size(6, 100));
      NoViolation(f, FirstName, NotBlank);
      NoViolation(f, LastName, NotBlank);
      NoViolation(f, Email, NotBlank);
    }
  }

  lemma NoViolation(f: Form, field: Field, c: Constraint)
    requires Violations(f) == {} && c in Constraints(field)
    ensures Satisfies(Get(f, field), c)
  {
    assert Violation(field, c) !in Violations(f);
  }

  /** A freshly constructed form breaks every `@NotBlank`, so it is never accepted. */
  lemma NewFormRejected()
    ensures Violations(NewForm) == {
      Violation(Username, NotBlank), Violation(Password, NotBlank), Violation(FirstName, NotBlank),
      Violation(LastName, NotBlank), Violation(Email, NotBlank)}
  {
  }
}
