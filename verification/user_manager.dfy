/**
 * Registration and lookup of users on top of the users table. The password
 * hash is a parameter: an opaque one-way function supplied by the caller.
 */
module UserManager {
  import opened Outcomes
  import opened Identity
  import opened Store
  import UserModel
  import Users = UserSqliteRepository

  function LoginTaken(login: string): Error {
    AlreadyExists("User with login " + login + " already exists.")
  }

  /**
   * `register`: refuse a login that is not free without touching the
   * connection; otherwise create a user holding the login and the hashed
   * password. The new user has no id, so a failing create never leaves a
   * row behind, but it does leave the repository's transaction open.
   */
  function Register(c: Users.Conn, login: string, plainPassword: string, hash: string -> string,
                    insertFault: Option<string>): (s: Step<Users.Conn, UserModel.User>)
    requires Users.ValidConn(c)
    ensures s.result.Ok? <==> Users.IsLoginFree(c.db, login) && c.openedAt.None? && insertFault.None?
    ensures !Users.IsLoginFree(c.db, login) ==> s == Step(c, Err(LoginTaken(login)))
    ensures Users.IsLoginFree(c.db, login) && c.openedAt.Some? ==>
      s == Step(c, Err(DriverError(Users.ACTIVE_TRANSACTION)))
    ensures Users.IsLoginFree(c.db, login) && c.openedAt.None? && insertFault.Some? ==>
      s == Step(Users.Conn(c.db, Some(c.db)), Err(DriverError(insertFault.value)))
    ensures s.result.Err? ==> s.state.db == c.db
    ensures s.result.Ok? ==> s.result.value == UserModel.User(Assigned(c.db.nextId), login, hash(plainPassword))
    ensures s.result.Ok? ==> s.state.db.entries == c.db.entries + [Entry(c.db.nextId, Users.UserRow(login, hash(plainPassword)))]
    ensures s.result.Ok? ==> s.state.openedAt.None?
    ensures Users.ValidConn(s.state)
  {
    var password := hash(plainPassword);
    if !Users.IsLoginFree(c.db, login) then Step(c, Err(LoginTaken(login)))
    else Users.Create(c, UserModel.NewUser(login, password), insertFault)
  }

  /** `find`: the repository's user, with its NotFound translated into the model's NotFound. */
  function Find(db: Users.Db, login: string): (r: Result<UserModel.User>)
    ensures r.Err? <==> Users.IsLoginFree(db, login)
    ensures r.Err? ==> r.error == ModelNotFound("Can't find user with login - '" + login + "'.")
    ensures r.Ok? ==> r == Users.Find(db, login)
  {
    match Users.Find(db, login)
    case Ok(u) => Ok(u)
    case Err(e) =>
      if e.NotFound? then Err(ModelNotFound("Can't find user with login - '" + login + "'.")) else Err(e)
  }

  /** A registered user can be found by login, and registering the same login again fails. */
  lemma RegisterTwice(c: Users.Conn, login: string, p1: string, p2: string, hash: string -> string)
    requires Users.ValidConn(c) && c.openedAt.None? && Users.IsLoginFree(c.db, login)
    ensures
      var s1 := Register(c, login, p1, hash, None);
      && s1.result.Ok?
      && Find(s1.state.db, login) == s1.result
      && Register(s1.state, login, p2, hash, None) == Step(s1.state, Err(LoginTaken(login)))
  {
    var s1 := Register(c, login, p1, hash, None);
    Users.CreateThenFind(c, UserModel.NewUser(login, hash(p1)));
  }

  /**
   * A driver failure during one registration blocks every later registration
   * through the same repository, even of a free login: the transaction the
   * failed create began is still open.
   */
  lemma FaultBlocksLaterRegistrations(c: Users.Conn, login: string, plain: string, fault: string,
                                      other: string, otherPlain: string, hash: string -> string)
    requires Users.ValidConn(c) && c.openedAt.None? && Users.IsLoginFree(c.db, login)
    requires Users.IsLoginFree(c.db, other)
    ensures
      var s1 := Register(c, login, plain, hash, Some(fault));
      && s1.result == Err(DriverError(fault))
      && s1.state.db == c.db
      && Register(s1.state, other, otherPlain, hash, None).result == Err(DriverError(Users.ACTIVE_TRANSACTION))
  {
  }

  /**
   * Under the assumption that the hash never returns its input unchanged,
   * the stored password of a registered user differs from the plaintext.
   */
  lemma StoredPasswordIsNotPlain(c: Users.Conn, login: string, plain: string, hash: string -> string)
    requires Users.ValidConn(c) && c.openedAt.None? && Users.IsLoginFree(c.db, login)
    requires hash(plain) != plain
    ensures Register(c, login, plain, hash, None).result.Ok?
    ensures Find(Register(c, login, plain, hash, None).state.db, login).Ok?
    ensures UserModel.GetPassword(Find(Register(c, login, plain, hash, None).state.db, login).value) != plain
  {
    RegisterTwice(c, login, plain, plain, hash);
  }
}
