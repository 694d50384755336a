/** Registration (UserService.registerUser): a duplicate check on the user table, then one insert whose
    password column holds the encoder's output. The encoder is a parameter: any function of the raw
    password. */
module Users {
  import opened Wrappers
  import opened Entities
  import opened Http
  import RegistrationForm
  import Repositories

  /** What `registerUser` returns (the id of the saved user, or the exception it throws) and the user
      table afterwards. */
  datatype Registration = Registration(result: Result<int, Cause>, users: Table<User>)

  /** The user row that a registration of `form` saves. */
  function NewUser(form: RegistrationForm.Form, encode: string -> string): User
    requires form.username.Some? && form.password.Some?
  {
    User(form.username.value, encode(form.password.value), form.firstName, form.lastName, form.email)
  }

  /** The name `form` asks for is held by a user already. A null name matches no row. */
  ghost predicate Taken(users: map<int, User>, form: RegistrationForm.Form) {
    form.username.Some? && UserIdOf(users, form.username.value).Some?
  }

  ghost function Register(users: Table<User>, encode: string -> string, form: RegistrationForm.Form): (r: Registration)
    requires WellFormed(users)
    ensures WellFormed(r.users)
    ensures r.result.Failure? ==> r.users == users
    ensures Taken(users.rows, form) ==> r.result == Failure(UsernameTaken)
    ensures r.result.Success? <==> !Taken(users.rows, form) && form.username.Some? && form.password.Some?
    ensures r.result.Success? ==>
      && r.result.value !in users.rows
      && r.users.rows == users.rows[r.result.value := NewUser(form, encode)]
      && r.users.rows[r.result.value].password == encode(form.password.value)
  {
    if Taken(users.rows, form) then
      Registration(Failure(UsernameTaken), users)
    else if form.password.None? then
      Registration(Failure(NullPassword), users)
    else if form.username.None? then
      Registration(Failure(NullUsername), users)
    else
      Registration(Success(users.nextId), Insert(users, NewUser(form, encode)))
  }

  /** A registration never alters or removes a row that was there before, whether it succeeds or fails. */
  lemma RegisterKeepsRows(users: Table<User>, encode: string -> string, form: RegistrationForm.Form)
    requires WellFormed(users)
    ensures var r := Register(users, encode, form);
      forall id :: id in users.rows ==> id in r.users.rows && r.users.rows[id] == users.rows[id]
  {
  }

  /** Unique names stay unique. */
  lemma RegisterKeepsUsernamesUnique(users: Table<User>, encode: string -> string, form: RegistrationForm.Form)
    requires WellFormed(users) && UniqueUsernames(users.rows)
    ensures UniqueUsernames(Register(users, encode, form).users.rows)
  {
  }

  /** After a successful registration, looking up the new name finds the saved user with the copied
      profile and the encoded password. */
  lemma RegisterThenFind(users: Table<User>, encode: string -> string, form: RegistrationForm.Form)
    requires WellFormed(users) && UniqueUsernames(users.rows)
    requires Register(users, encode, form).result.Success?
    ensures var r := Register(users, encode, form);
      && UserIdOf(r.users.rows, form.username.value) == Some(r.result.value)
      && r.users.rows[r.result.value] == User(form.username.value, encode(form.password.value), form.firstName, form.lastName, form.email)
  {
  }

  /** Registering the same name a second time fails and writes nothing. */
  lemma RegisterTwiceFails(users: Table<User>, encode: string -> string, first: RegistrationForm.Form, second: RegistrationForm.Form)
    requires WellFormed(users) && UniqueUsernames(users.rows)
    requires Register(users, encode, first).result.Success?
    requires second.username == first.username
    ensures var after := Register(users, encode, first).users;
      Register(after, encode, second) == Registration(Failure(UsernameTaken), after)
  {
  }

  class UserService {
    const users: Repositories.UserRepository
    /** The password encoder the service was configured with. */
    const encode: string -> string

    constructor (users: Repositories.UserRepository, encode: string -> string)
      ensures this.users == users && this.encode == encode
    {
      this.users := users;
      this.encode := encode;
    }

    /** `registerUser`: look the name up, then encode the password, then save. */
    method RegisterUser(form: RegistrationForm.Form) returns (result: Result<int, Cause>)
      requires users.Valid()
      modifies users
      ensures users.Valid()
      ensures var r := Register(old(users.Snapshot()), encode, form);
        result == r.result && users.Snapshot() == r.users
    {
      if form.username.Some? {
        var existing := users.FindByUsername(form.username.value);
        if existing.Some? {
          return Failure(UsernameTaken);
        }
      }
      if form.password.None? {
        return Failure(NullPassword);
      }
      var password := encode(form.password.value);
      if form.username.None? {
        return Failure(NullUsername);
      }
      var user := User(form.username.value, password, form.firstName, form.lastName, form.email);
      var saved := users.Save(user);
      result := if saved.Some? then Success(saved.value) else Failure(UsernameTaken);
    }
  }
}
