/**
 * The SQL backend for users: table `users(id, login, password_hash)` with an
 * autoincrement id and no uniqueness constraint on the login.
 */
module UserSqliteRepository {
  import opened Outcomes
  import opened Identity
  import opened Store
  import UserModel

  /** The non-id columns of one row of `users`. */
  datatype UserRow = UserRow(login: string, passwordHash: string)

  type Db = Table<UserRow>

  /** What the driver raises for `beginTransaction` while a transaction is open. */
  const ACTIVE_TRANSACTION := "There is already an active transaction"

  /**
   * One connection: the rows it sees and, while a transaction it began has
   * been neither committed nor rolled back, the table as it stood when that
   * transaction began. Closing the connection rolls such a transaction back.
   */
  datatype Conn = Conn(db: Db, openedAt: Option<Db>)

  predicate ValidConn(c: Conn) {
    Valid(c.db) && (c.openedAt.Some? ==> Valid(c.openedAt.value))
  }

  /** The constructor: a connection with no transaction open. */
  function Connect(db: Db): (c: Conn)
    requires Valid(db)
    ensures ValidConn(c) && c.db == db && c.openedAt.None?
  {
    Conn(db, None)
  }

  /** `close`: what survives the connection is the committed table. */
  function Close(c: Conn): (committed: Db)
    ensures c.openedAt.None? ==> committed == c.db
    ensures c.openedAt.Some? ==> committed == c.openedAt.value
  {
    match c.openedAt
    case None => c.db
    case Some(before) => before
  }

  /**
   * `create` as written: begin a transaction, INSERT login and password
   * verbatim, then give the user the new id, then commit. The `catch` of
   * `inTransaction` names `Exception` in a namespace that has no such class,
   * so it never matches: an error in the block leaves the transaction open
   * with whatever the block did, and is raised to the caller. A failed INSERT
   * changes no row; a user that already has an id fails in `setId` after its
   * row went in. `beginTransaction` on a connection whose transaction is
   * still open fails before anything happens.
   */
  function Create(c: Conn, user: UserModel.User, insertFault: Option<string>): (s: Step<Conn, UserModel.User>)
    requires ValidConn(c)
    ensures s.result.Ok? <==> c.openedAt.None? && insertFault.None? && user.id.Unassigned?
    ensures c.openedAt.Some? ==> s == Step(c, Err(DriverError(ACTIVE_TRANSACTION)))
    ensures c.openedAt.None? && insertFault.Some? ==>
      s == Step(Conn(c.db, Some(c.db)), Err(DriverError(insertFault.value)))
    ensures c.openedAt.None? && insertFault.None? && user.id.Assigned? ==>
      && s.result == Err(BadMethodCall(ALREADY_SET))
      && s.state.db.entries == c.db.entries + [Entry(c.db.nextId, UserRow(user.login, user.passwordHash))]
      && s.state.db.nextId == c.db.nextId + 1
      && s.state.openedAt == Some(c.db)
    ensures s.result.Err? ==> s.state.openedAt.Some?
    ensures s.result.Ok? ==> s.result.value == user.(id := Assigned(c.db.nextId))
    ensures s.result.Ok? ==> s.state.db.entries == c.db.entries + [Entry(c.db.nextId, UserRow(user.login, user.passwordHash))]
    ensures s.result.Ok? ==> s.state.db.nextId == c.db.nextId + 1 && s.state.openedAt.None?
    ensures ValidConn(s.state)
  {
    if c.openedAt.Some? then Step(c, Err(DriverError(ACTIVE_TRANSACTION)))
    else
      var run := CreateBlock(c.db, user, insertFault);
      if run.result.Err? then Step(Conn(run.state, Some(c.db)), run.result)
      else Step(Conn(run.state, None), run.result)
  }

  /**
   * `create` as evidently intended, with the rollback that the same helper
   * performs in the single-table backend: an error in the block restores the
   * table, ends the transaction and is re-raised.
   */
  function CreateWithRollback(c: Conn, user: UserModel.User, insertFault: Option<string>): (s: Step<Conn, UserModel.User>)
    requires ValidConn(c)
    ensures s.result.Ok? <==> c.openedAt.None? && insertFault.None? && user.id.Unassigned?
    ensures s.result.Err? ==> s.state == c
    ensures c.openedAt.None? && insertFault.Some? ==> s.result == Err(DriverError(insertFault.value))
    ensures c.openedAt.None? && insertFault.None? && user.id.Assigned? ==> s.result == Err(BadMethodCall(ALREADY_SET))
    ensures s.result.Ok? ==> s.result.value == user.(id := Assigned(c.db.nextId))
    ensures s.result.Ok? ==> s.state.db.entries == c.db.entries + [Entry(c.db.nextId, UserRow(user.login, user.passwordHash))]
    ensures s.result.Ok? ==> s.state.db.nextId == c.db.nextId + 1
    ensures s.state.openedAt == c.openedAt && ValidConn(s.state)
  {
    if c.openedAt.Some? then Step(c, Err(DriverError(ACTIVE_TRANSACTION)))
    else
      var s := InTransaction(c.db, CreateBlock(c.db, user, insertFault));
      Step(Conn(s.state, None), s.result)
  }

  /** The body of the create transaction: INSERT, then `setId` with the new id. */
  function CreateBlock(db: Db, user: UserModel.User, insertFault: Option<string>): Step<Db, UserModel.User> {
    if insertFault.Some? then Step(db, Err(DriverError(insertFault.value)))
    else
      var (db', id) := Insert(db, UserRow(UserModel.GetLogin(user), UserModel.GetPassword(user)));
      Step(db', UserModel.SetId(user, id))
  }

  /**
   * As written, a create that fails on a clean connection leaves its
   * transaction open: every later create on that connection fails at
   * `beginTransaction`, and closing the connection discards whatever the
   * failed create had inserted.
   */
  lemma FailedCreateBlocksLaterCreates(c: Conn, user: UserModel.User, fault: Option<string>,
                                       next: UserModel.User, nextFault: Option<string>)
    requires ValidConn(c) && c.openedAt.None?
    requires Create(c, user, fault).result.Err?
    ensures Create(Create(c, user, fault).state, next, nextFault).result == Err(DriverError(ACTIVE_TRANSACTION))
    ensures Close(Create(c, user, fault).state) == c.db
  {
  }

  /**
   * As written, creating a user that already has an id raises, yet its row
   * stays visible on the connection: its login is no longer free.
   */
  lemma FailedCreateRowVisible(c: Conn, user: UserModel.User)
    requires ValidConn(c) && c.openedAt.None? && user.id.Assigned?
    ensures Create(c, user, None).result == Err(BadMethodCall(ALREADY_SET))
    ensures !IsLoginFree(Create(c, user, None).state.db, user.login)
  {
    var s := Create(c, user, None);
    assert s.state.db.entries[|c.db.entries|].value.login == user.login;
  }

  /**
   * With the rollback, a failed create leaves the connection as it was, so the
   * next create of a user without an id succeeds.
   */
  lemma RollbackKeepsConnectionUsable(c: Conn, user: UserModel.User, fault: Option<string>, next: UserModel.User)
    requires ValidConn(c) && c.openedAt.None? && next.id.Unassigned?
    requires CreateWithRollback(c, user, fault).result.Err?
    ensures CreateWithRollback(c, user, fault).state == c
    ensures CreateWithRollback(CreateWithRollback(c, user, fault).state, next, None).result
         == Ok(next.(id := Assigned(c.db.nextId)))
  {
  }

  /** The row filter "has this login". */
  function LoginIs(login: string): Entry<UserRow> -> bool {
    (e: Entry<UserRow>) => e.value.login == login
  }

  /** `isLoginFree`, as documented: no row has that login. */
  function IsLoginFree(db: Db, login: string): (b: bool)
    ensures b <==> forall i :: 0 <= i < |db.entries| ==> db.entries[i].value.login != login
  {
    FirstWhere(db.entries, LoginIs(login)).None?
  }

  function UserNotFound(login: string): Error {
    NotFound("Can't find user with login - " + login + ".")
  }

  /** `find(login)`: the user built from the first row with that login. */
  function Find(db: Db, login: string): (r: Result<UserModel.User>)
    ensures r.Err? <==> IsLoginFree(db, login)
    ensures r.Err? ==> r.error == UserNotFound(login)
    ensures r.Ok? ==>
      exists k ::
        && 0 <= k < |db.entries|
        && db.entries[k].value.login == login
        && (forall j :: 0 <= j < k ==> db.entries[j].value.login != login)
        && r.value == UserModel.User(Assigned(db.entries[k].id), login, db.entries[k].value.passwordHash)
  {
    match FirstWhere(db.entries, LoginIs(login))
    case None => Err(UserNotFound(login))
    case Some(k) =>
      var row := db.entries[k];
      Ok(UserModel.SetId(UserModel.NewUser(row.value.login, row.value.passwordHash), row.id).value)
  }

  /** A created user is found again by its login when the login was free before. */
  lemma CreateThenFind(c: Conn, user: UserModel.User)
    requires ValidConn(c) && c.openedAt.None? && user.id.Unassigned? && IsLoginFree(c.db, user.login)
    ensures Create(c, user, None).result.Ok?
    ensures Find(Create(c, user, None).state.db, user.login) == Ok(Create(c, user, None).result.value)
  {
    var s := Create(c, user, None);
    var k := |c.db.entries|;
    assert s.state.db.entries[k].value.login == user.login;
  }

  /**
   * The repository does not enforce unique logins: creating a second user
   * with a taken login succeeds, and `find` keeps returning the first one.
   */
  lemma DuplicateLoginAccepted(c: Conn, first: UserModel.User, second: UserModel.User)
    requires ValidConn(c) && c.openedAt.None? && first.id.Unassigned? && second.id.Unassigned?
    requires IsLoginFree(c.db, first.login) && second.login == first.login
    ensures
      var s1 := Create(c, first, None);
      var s2 := Create(s1.state, second, None);
      && s2.result.Ok?
      && |s2.state.db.entries| == |c.db.entries| + 2
      && Find(s2.state.db, first.login) == s1.result
  {
    var s1 := Create(c, first, None);
    CreateThenFind(c, first);
    var s2 := Create(s1.state, second, None);
    assert !IsLoginFree(s1.state.db, first.login);
    FirstWhereAppend(s1.state.db.entries, [Entry(s1.state.db.nextId, UserRow(second.login, second.passwordHash))], LoginIs(first.login));
  }
}
