/** The User entity: login and password hash, with an id assigned once. */
module UserModel {
  import opened Outcomes
  import opened Identity

  datatype User = User(id: Ident, login: string, passwordHash: string)

  /** The constructor stores both strings verbatim; the caller passes an already hashed password. */
  function NewUser(login: string, password: string): (u: User)
    ensures GetLogin(u) == login && GetPassword(u) == password
    ensures u.id.Unassigned?
  {
    User(Unassigned, login, password)
  }

  function GetLogin(u: User): string { u.login }

  function GetPassword(u: User): string { u.passwordHash }

  /** `getId` is only defined after `setId`. */
  function GetId(u: User): int
    requires u.id.Assigned?
  {
    u.id.id
  }

  /** `setId`: the first call sets the id, a second raises BadMethodCall; login and password stay. */
  function SetId(u: User, n: int): (r: Result<User>)
    ensures r.Ok? <==> u.id.Unassigned?
    ensures r.Ok? ==> r.value.id.Assigned? && GetId(r.value) == n && r.value.(id := u.id) == u
    ensures r.Err? ==> r.error == BadMethodCall(ALREADY_SET)
  {
    var i :- AssignOnce(u.id, n);
    Ok(u.(id := i))
  }

  lemma IdLifecycle(login: string, password: string, n: int, m: int)
    ensures SetId(NewUser(login, password), n).Ok?
    ensures GetId(SetId(NewUser(login, password), n).value) == n
    ensures SetId(SetId(NewUser(login, password), n).value, m) == Err(BadMethodCall(ALREADY_SET))
  {
  }
}
