# TodoList repositories in Dafny

A model of the persistence core of the PHP TodoList application, written in Dafny. The core has these parts:

- The `Task` and `User` entities. Each has a once-only id. Task priority and status are validated.
- The CSV-file backend, `CsvRepository`.
- The single-table SQL backend, `SqliteRepository`.
- The multi-user SQL backends, `TaskSqliteRepository` and `UserSqliteRepository`.
- The `UserManager` that registers and finds users.
- The `RepositoryFactory` that chooses a backend from a connection URL.

Everything is modelled as pure functions:

- A repository is a value: an ordered `Table` of `(id, row)` entries plus the next autoincrement id. For the CSV backend, the table also comes with the file's rows.
- Every operation returns a `Step(state, result)`. A raised exception is an `Err` of the matching `Error` kind, so "an error leaves the store unchanged" is a postcondition wherever the code promises it. The user backend does not promise it (see below).
- An id is `Unassigned | Assigned(id)`. Assigning it twice is the BadMethodCall error, "Id had been already set."
- External inputs become parameters:
  - A failing INSERT reported by the SQL driver is `insertFault: Option<string>`.
  - The password hash is a function `hash: string -> string`.

Modules follow the source's classes:

| module | models |
|---|---|
| `Outcomes` | exception kinds, `Result`, `Option`, `Step` |
| `Decimal` | how PHP writes an int as text, and the parse used for CSV ids |
| `Priority`, `Status` | the enumerations and their membership checks |
| `Identity` | the once-only `setId` |
| `TaskModel`, `UserModel` | the entities |
| `SimpleTask` | the `{id, subject, completed}` task that `CsvRepository` and `SqliteRepository` are written against; `src/Model/Task.php` has no such class (see "## Left out") |
| `Store` | behaviour shared by every backend: keyed put and remove, the existence check, autoincrement insert, transaction rollback |
| `CsvRepository`, `SqliteRepository`, `TaskSqliteRepository`, `UserSqliteRepository` | the backends |
| `UserManager`, `RepositoryFactory` | the service layer and the factory |

Some behaviours of the code are easy to miss. The task backends are written against task classes that `src/Model/Task.php` does not provide, as described under "## Left out". The model substitutes those classes: the `{id, subject, completed}` task, and a task paired with its owner. With that substitution, the model follows the code in each of these behaviours:

- **Update and delete are not owner-scoped.** In the multi-user task backend, the existence check before `update` and `delete` looks at the id only. A task naming another user's row therefore updates or deletes it, and the update reassigns the row to the task's owner (`UpdateIgnoresOwner`, `DeleteIgnoresOwner`). Only the reads (`find`, `getUserTasks`) are scoped by owner.
- **No tasks is an error.** `getUserTasks` raises NotFound for a user without tasks; it does not return an empty list.
- **Factory exception.** The factory raises a RuntimeException with the message "Unknown protocol " followed by the protocol. With no ':' in the URL the protocol is `false`, which interpolates as the empty string. The test file expects an InvalidArgumentException with other messages.
- **CSV row layout.** A CSV row is `id, subject, completed-flag`: three fields, with the flag written as "1" or "". This is the layout the code reads and writes, not the five-field layout of later versions.
- **A task with an id breaks the SQL create.** `toStmtParams` adds an `id` parameter that the INSERT statement has no placeholder for. The driver rejects it, and the transaction is rolled back, because both SQL task backends import `Exception`. It is modelled as `DriverError(UNBOUND_ID_PARAM)`, a stand-in for the driver's message. The rollback holds only for the substituted task classes. With the real `Task`, and with the class loading at all (see `findTaskById` under "## Left out"), the Error raised in `toStmtParams` would escape the `catch` and leave the transaction open.
- **A failed user create leaves its transaction open.** `UserSqliteRepository.php` imports no `Exception`. The `catch (Exception $e)` in its `inTransaction` therefore names a class that does not exist in its namespace, and it never matches. There are two ways a create can fail:
  - The driver rejects the INSERT.
  - The user already has an id. The INSERT succeeds, then `setId` raises BadMethodCall.

  Either way the error reaches the caller with the transaction still open and nothing rolled back. The row of a user that already had an id stays visible on that connection. Every later `create` on it fails at `beginTransaction`. Closing the connection discards the uncommitted work. The connection is modelled as `Conn(db, openedAt)`; see "## Findings".

## Model

| member | source | states |
|---|---|---|
| Priority.IsPriority | src/Model/Priority.php:28-30 | a priority is accepted exactly when it lies between LOWEST (1) and HIGHEST (5) |
| Priority.ConstantsOrdered | src/Model/Priority.php:14-26 | the five constants are strictly decreasing from HIGHEST to LOWEST, and the list holds them in that order |
| Priority.AcceptedAreTheConstants | src/Model/Priority.php:20-30 | accepted iff equal to one of the five constants; 0, 6 and negatives are refused |
| Priority.DefaultIsPriority | src/Model/Task.php:27 | the constructor's default priority 3 is NORMAL and is accepted |
| Status.IsStatus | src/Model/Status.php:26-28 | a status is accepted iff it is exactly "New", "In progress", "Delayed" or "Completed" |
| Status.ExactMatchOnly | src/Model/Status.php:19-28 | matching is case-sensitive ("new", "NEW", "completed" refused) and the empty string is refused |
| Status.DefaultIsStatus | src/Model/Task.php:27 | the constructor's default status "New" is accepted |
| Identity.AssignOnce | src/Model/Task.php:76-81 | setting an id succeeds iff none is set, records it, and otherwise fails with BadMethodCall "Id had been already set." |
| Identity.AssignTwiceFails | src/Model/Task.php:76-81 | after one assignment every further assignment fails, whatever the ids |
| TaskModel.SetPriority | src/Model/Task.php:62-67 | succeeds iff the priority is valid, changing only the priority; otherwise InvalidArgument "Invalid priority N given." |
| TaskModel.SetStatus | src/Model/Task.php:69-74 | succeeds iff the status is valid, changing only the status; otherwise InvalidArgument "Invalid status S given." |
| TaskModel.NewTask | src/Model/Task.php:27-32 | the constructor succeeds iff priority and status are valid, giving an id-less valid task; a bad priority is reported before a bad status |
| TaskModel.DefaultTask | src/Model/Task.php:27-32 | with only a subject the task has description "", priority NORMAL, status "New", no id, and is valid |
| TaskModel.SetSubject | src/Model/Task.php:54-56 | changes the subject and no other field |
| TaskModel.SetDescription | src/Model/Task.php:58-60 | changes the description and no other field |
| TaskModel.SetId | src/Model/Task.php:76-85 | succeeds iff the task has no id; afterwards hasId holds and getId returns it; nothing else changes |
| TaskModel.SettersKeepValid | src/Model/Task.php:54-81 | every setter that succeeds keeps priority and status valid |
| TaskModel.IdLifecycle | src/Model/Task.php:76-85 | a fresh task has no id, the first setId gives it one, the second is refused |
| UserModel.NewUser | src/Model/User.php:20-23 | the constructor stores login and password verbatim and sets no id |
| UserModel.SetId | src/Model/User.php:33-38 | succeeds iff the user has no id; login and password are kept; a second call is BadMethodCall |
| UserModel.IdLifecycle | src/Model/User.php:33-42 | a fresh user takes one id and refuses a second |
| SimpleTask.NewTask | src/Repository/CsvRepository.php:169 | a new task has the subject, no id, and is not completed |
| SimpleTask.Complete | src/Repository/CsvRepository.php:171-173 | completing sets the flag and changes nothing else |
| SimpleTask.SetId | src/Repository/CsvRepository.php:170 | succeeds iff no id is set, giving the same data under the new id; otherwise BadMethodCall |
| Decimal.ParseIntToString | src/Repository/CsvRepository.php:167-184 | the text written for any int id, negative ones included, parses back to the same int |
| Decimal.IntToStringInjective | src/Repository/CsvRepository.php:182-184 | different ids are written as different texts |
| Store.Find | src/Repository/CsvRepository.php:132 | a key is found iff some entry carries it; with unique keys the value found is that entry's |
| Store.Put | src/Repository/CsvRepository.php:105 | array assignment keeps keys unique, replaces an existing key's value in place and otherwise appends |
| Store.FindPut | src/Repository/CsvRepository.php:105 | after a put the key reads back the new value and every other key its old value |
| Store.Remove | src/Repository/CsvRepository.php:79 | unset removes every entry with the key, keeps every other entry, and changes nothing when the key is absent |
| Store.RemoveCutsOne | src/Repository/CsvRepository.php:79 | with unique keys, removal cuts out exactly the one entry and keeps the others in order |
| Store.RemoveKeepsUnique | src/Repository/CsvRepository.php:79 | removal never creates a duplicate key |
| Store.AssertExists | src/Repository/CsvRepository.php:128-135 | passes iff the id is set and present; a missing id is InvalidArgument, an absent one NotFound |
| Store.EmptyTable | src/Repository/SqliteRepository.php:32-37 | a new autoincrement table has no rows and hands out 1 first |
| Store.Insert | src/Repository/SqliteRepository.php:43-49 | insert uses the counter as a fresh id, appends the row and advances the counter by one |
| Store.InTransaction | src/Repository/SqliteRepository.php:93-105 | the block's error is re-raised unchanged with the table rolled back; on success its changes are committed |
| CsvRepository.ToArray | src/Repository/CsvRepository.php:182-184 | a task is written as three fields: an id that parses back, the subject, and a flag that is "1" iff completed and "" otherwise |
| CsvRepository.ToTask | src/Repository/CsvRepository.php:167-175 | a row decodes iff it has an id field that parses and a subject; the flag is PHP truthiness, and a missing flag is false |
| CsvRepository.RowRoundTrip | src/Repository/CsvRepository.php:167-184 | decoding a written row gives back the task's id, subject and flag |
| CsvRepository.CanonicalRowRoundTrip | src/Repository/CsvRepository.php:167-184 | re-encoding a decoded row in the written form reproduces the row |
| CsvRepository.LoadEntries | src/Repository/CsvRepository.php:141-149 | loading succeeds iff every row decodes, and yields unique ids, at most one entry per row |
| CsvRepository.LoadOrderIsFirstOccurrence | src/Repository/CsvRepository.php:141-149 | the loaded keys are the file's ids, each once, in the order of their first occurrence in the file |
| CsvRepository.LoadedIdsAreRowIds | src/Repository/CsvRepository.php:141-149 | every loaded id is the id of some row, and every row's id is loaded |
| Store.IdsPut | src/Repository/CsvRepository.php:146 | array assignment keeps the key order for a present key and appends a new key at the end |
| CsvRepository.LoadLastRowWins | src/Repository/CsvRepository.php:141-149 | when ids repeat in the file, the last row with an id supplies its value |
| CsvRepository.DetermineNextId | src/Repository/CsvRepository.php:190-195 | the next id is 1 for an empty map, else one more than the largest id, so it exceeds every id |
| CsvRepository.SaveRowsDecode | src/Repository/CsvRepository.php:154-160 | the file holds one row per task in map order, and each row decodes back to its task |
| CsvRepository.Open | src/Repository/CsvRepository.php:70-71 | opening succeeds iff every row decodes, and seeds the counter from the largest loaded id |
| CsvRepository.GetAll | src/Repository/CsvRepository.php:86-88 | returns every stored task with its id, in map order |
| CsvRepository.Create | src/Repository/CsvRepository.php:93-98 | a task with an id is refused with nothing changed; otherwise it gets the counter as a fresh id, is appended and written, and the counter advances by one |
| CsvRepository.Update | src/Repository/CsvRepository.php:103-107 | after the existence check the id's entry gets the new data in place, every other entry is kept, and the file is rewritten; errors change nothing |
| CsvRepository.Delete | src/Repository/CsvRepository.php:77-81 | after the existence check exactly that entry is cut out and the file is rewritten; errors change nothing |
| CsvRepository.LoadSaveRoundTrip | src/Repository/CsvRepository.php:141-160 | reading back the written file gives the same map |
| CsvRepository.ReopenSeesSameTasks | src/Repository/CsvRepository.php:55-72 | reopening the file after any mutation gives the same tasks, with a counter no larger than before |
| CsvRepository.IssuedIdsIncrease | src/Repository/CsvRepository.php:93-98 | within one instance the ids issued by creates strictly increase and lie between the starting and final counter |
| CsvRepository.TwoCreates | src/Repository/CsvRepository.php:93-98 | two creates append two entries with consecutive ids, starting at the counter |
| CsvRepository.ReopenReusesDeletedMaxId | src/Repository/CsvRepository.php:190-195 | after creating two tasks and deleting the second, a reopened file hands out the deleted id again |
| SqliteRepository.ToStmtParams | src/Repository/SqliteRepository.php:129-138 | the subject is kept and is_completed is 1 for a completed task, 0 otherwise |
| SqliteRepository.ToTask | src/Repository/SqliteRepository.php:145-152 | a row becomes a task with the row's id and subject, completed iff is_completed is 1 |
| SqliteRepository.TaskRoundTrip | src/Repository/SqliteRepository.php:129-152 | writing and reading a task keeps subject and flag and adds the id |
| SqliteRepository.RowRoundTrip | src/Repository/SqliteRepository.php:129-152 | a row with a 0/1 flag is reproduced by reading and rewriting it |
| SqliteRepository.Create | src/Repository/SqliteRepository.php:43-49 | succeeds iff the task has no id and the INSERT succeeds; it then has the new id and its row is appended; any failure rolls back and changes nothing |
| SqliteRepository.Update | src/Repository/SqliteRepository.php:55-59 | after the existence check only the row with that id is rewritten; errors change nothing |
| SqliteRepository.Delete | src/Repository/SqliteRepository.php:64-69 | after the existence check exactly that row is cut out; errors change nothing |
| SqliteRepository.GetAll | src/Repository/SqliteRepository.php:74-79 | every row is read back as a task, in table order, with its id, subject and flag |
| SqliteRepository.MutationsKeepFlagsBinary | src/Repository/SqliteRepository.php:129-138 | create, update and delete only ever store 0 or 1 in is_completed |
| SqliteRepository.CreateThenGetAll | src/Repository/SqliteRepository.php:43-79 | a created task appears as the last task of getAll, exactly as returned by create |
| TaskSqliteRepository.ToStmtParams | src/Repository/TaskSqliteRepository.php:180-193 | the row carries subject, description, priority, status and the owner's user id |
| TaskSqliteRepository.ToTask | src/Repository/TaskSqliteRepository.php:201-211 | a row rebuilds iff its priority and status are valid, giving the row's fields, id and the author; otherwise InvalidArgument |
| TaskSqliteRepository.TaskRoundTrip | src/Repository/TaskSqliteRepository.php:180-211 | a valid task written under its owner reads back unchanged apart from its new id |
| TaskSqliteRepository.Create | src/Repository/TaskSqliteRepository.php:51-60 | succeeds iff the task has no id and the INSERT succeeds, appending its row under a fresh id; failures roll back and change nothing |
| TaskSqliteRepository.Update | src/Repository/TaskSqliteRepository.php:67-79 | the existence check uses the id alone; then all five data columns of that row, user_id included, are overwritten; errors change nothing |
| TaskSqliteRepository.Delete | src/Repository/TaskSqliteRepository.php:86-91 | the existence check uses the id alone; then exactly that row is cut out; errors change nothing |
| TaskSqliteRepository.Find | src/Repository/TaskSqliteRepository.php:101-109 | "Can't find task with id = N" iff no row has both the id and the author's user id; otherwise the first such row rebuilt with that id and author, which succeeds iff the row is valid and else is InvalidArgument |
| TaskSqliteRepository.ToTasks | src/Repository/TaskSqliteRepository.php:126-128 | maps every row to a task of the author, succeeding whenever every row is valid |
| TaskSqliteRepository.GetUserTasks | src/Repository/TaskSqliteRepository.php:118-129 | NotFound "Can't find tasks for user L." iff the author owns no row; otherwise it succeeds iff all the author's rows are valid, returning each of them in table order, rebuilt with its id, subject, description, priority, status and the author |
| TaskSqliteRepository.ValidRowsReadBack | src/Repository/TaskSqliteRepository.php:101-129 | on a table of valid rows, reads fail only with NotFound |
| TaskSqliteRepository.MutationsKeepRowsValid | src/Repository/TaskSqliteRepository.php:51-91 | create and update with valid tasks, and delete, keep every row's priority and status valid |
| TaskSqliteRepository.CreateOnFreshTable | src/Repository/TaskSqliteRepository.php:51-60 | on a fresh table the first two creates get ids 1 and 2 and store all columns |
| TaskSqliteRepository.UpdateIgnoresOwner | src/Repository/TaskSqliteRepository.php:67-79 | an update naming another user's row succeeds and moves the row to the task's owner, hiding it from the original author's find |
| TaskSqliteRepository.DeleteIgnoresOwner | src/Repository/TaskSqliteRepository.php:86-91 | a delete naming any user's row succeeds and cuts that row out |
| TaskSqliteRepository.DefaultTaskLifecycle | src/Repository/TaskSqliteRepository.php:51-129 | a default task is stored as row 1 with "", 3, "New"; an update to priority 5 changes only that column; after delete the owner's tasks are NotFound |
| UserSqliteRepository.Create | src/Repository/UserSqliteRepository.php:42-99 | succeeds iff no transaction is open, the INSERT succeeds and the user has no id, storing login and password verbatim under a fresh id and committing; an open transaction fails at begin with nothing changed; any other failure leaves the transaction open, with the row inserted when the user already had an id |
| UserSqliteRepository.Close | src/Repository/UserSqliteRepository.php:104-106 | what survives closing is the committed table: the table as it was when a still-open transaction began |
| UserSqliteRepository.CreateWithRollback | src/Repository/SqliteRepository.php:93-105 | the create with the rollback the helper was written to perform: a failure leaves the connection exactly as it was |
| UserSqliteRepository.FailedCreateBlocksLaterCreates | src/Repository/UserSqliteRepository.php:88-99 | after a failed create on a clean connection, every later create fails with "There is already an active transaction", and closing discards the failed create's work |
| UserSqliteRepository.FailedCreateRowVisible | src/Repository/UserSqliteRepository.php:42-99 | creating a user that already has an id raises BadMethodCall, yet its login is no longer free on that connection |
| UserSqliteRepository.RollbackKeepsConnectionUsable | src/Repository/SqliteRepository.php:93-105 | with the rollback, a failed create changes nothing and the next create of a user without an id succeeds |
| UserSqliteRepository.IsLoginFree | src/Repository/UserSqliteRepository.php:57-62 | a login is free iff no row carries it |
| UserSqliteRepository.Find | src/Repository/UserSqliteRepository.php:71-81 | NotFound "Can't find user with login - L." iff the login is free; otherwise the user of the first row with that login |
| UserSqliteRepository.CreateThenFind | src/Repository/UserSqliteRepository.php:42-81 | a user created under a free login is found again exactly as created |
| UserSqliteRepository.DuplicateLoginAccepted | src/Repository/UserSqliteRepository.php:42-49 | the repository accepts a second user with a taken login, and find keeps returning the first |
| UserManager.Register | src/Model/UserManager.php:39-47 | a taken login gives AlreadyExists "User with login L already exists." with nothing changed; otherwise a user with the login and the hashed password is created; a failing create adds no row but leaves the repository's transaction open |
| UserManager.FaultBlocksLaterRegistrations | src/Model/UserManager.php:39-47 | after a driver failure during registration, registering any other free login through the same repository fails |
| UserManager.Find | src/Model/UserManager.php:55-62 | the repository's user, or its NotFound turned into the model NotFound "Can't find user with login - 'L'." exactly when the login is free |
| UserManager.RegisterTwice | src/Model/UserManager.php:39-62 | a registered user is found by login, and registering the same login again fails with nothing changed |
| UserManager.StoredPasswordIsNotPlain | src/Model/UserManager.php:39-47 | if the hash never returns its input, the stored password of a registered user differs from the plaintext |
| RepositoryFactory.Protocol | src/Repository/RepositoryFactory.php:23 | the protocol is the text before the first ':', with no ':' inside it; there is none iff the URL has no ':' |
| RepositoryFactory.Create | src/Repository/RepositoryFactory.php:22-36 | "csv" opens the file backend on the rest of the URL, "sqlite" the SQL backend on the whole URL, and anything else is "Unknown protocol P" |
| RepositoryFactory.ProtocolOfPrefix | src/Repository/RepositoryFactory.php:23 | the protocol of "p:rest" is p whenever p holds no ':' |
| RepositoryFactory.CsvGetsPath | src/Repository/RepositoryFactory.php:25-29 | "csv:" + path opens the file backend on exactly path |
| RepositoryFactory.SqliteGetsWholeUrl | src/Repository/RepositoryFactory.php:30-31 | "sqlite:" + rest opens the SQL backend with the whole URL |
| RepositoryFactory.NoColonRefused | src/Repository/RepositoryFactory.php:32-33 | a URL without ':' is refused with "Unknown protocol " |
| RepositoryFactory.OtherProtocolRefused | src/Repository/RepositoryFactory.php:24-33 | any other protocol is refused with its name in the message, including the empty one and "CSV" |

## Findings

| source | as written | input that shows it | evidently intended | confidence | as-written member | corrected member |
|---|---|---|---|---|---|---|
| src/Repository/UserSqliteRepository.php:88-96 | `catch (Exception $e)` with no `use Exception;` among the imports at lines 6-7, so it names `Kkdshka\TodoList\Repository\Exception`, a class that does not exist, and never matches: no rollback | `create` of a user that already has an id, or an INSERT the driver rejects | roll back and rethrow, as SqliteRepository.php does at lines 93-105, having imported it at line 11 | high; not executed | UserSqliteRepository.FailedCreateBlocksLaterCreates | UserSqliteRepository.RollbackKeepsConnectionUsable |

`UserSqliteRepository.Create` models the code as written. `UserSqliteRepository.CreateWithRollback` is the intended version. `UserManager.Register` is built on `Create`, the version the program actually runs.

## Left out

- File handling in the CSV constructor and `close`: existence check, `fopen`, `flock`, `fclose` and their RuntimeExceptions. The file is modelled as its sequence of rows.
- CSV quoting and line splitting by `fgetcsv`/`fputcsv`: a row is modelled as its list of fields.
- PDO mechanics: SQL text, the CREATE TABLE statements, statement preparation, `lastInsertId`, and the conversion of column values to strings. A table is an ordered list of rows keyed by an autoincrement id.
- Driver failures other than a failing INSERT.
- Concurrency: file locking between processes, and the race between the existence check and the UPDATE/DELETE that follows it (update and delete run outside a transaction).
- `password_hash` and `password_verify`. The hash is a function parameter, and `UserManager::checkPassword` is not modelled because it is a single call to `password_verify`.
- The `Repository` interface's `findTaskById` (Repository.php:49). `CsvRepository` and `SqliteRepository` both declare `implements Repository` (CsvRepository.php:17, SqliteRepository.php:18), yet neither defines this method. As written, PHP therefore refuses to declare either class: the first use ends in a fatal error, because the class has an abstract method it does not implement. No member of either backend ever runs, and the `csv` and `sqlite` branches of the factory (RepositoryFactory.php:25-31) both end in that fatal error. The models of `CsvRepository`, of `SqliteRepository` and of the backends that `RepositoryFactory.Create` chooses assume that a `findTaskById` has been supplied. Every "as written" failure described below for these two classes is the failure that would follow under that assumption.
- The task manager that delegates to the repository: pass-through calls only.
- Object aliasing: in PHP, `create` sets the id on the caller's object. In the model, `create` returns the task with its id. Aliasing matters more than that in the CSV backend. It stores the caller's task objects themselves (CsvRepository.php:95, :105), and `getAll` returns those same objects (:87). A caller that changes a task after `create`, `update` or `getAll` therefore changes the stored map without any repository call. The next rewrite of the file, caused by any later mutation (:157-158), writes that change out. The model passes tasks by value and cannot show this.
- CsvRepository.ToTask: reads the id field as a decimal integer, optional minus sign included. Even once the class loads (see `findTaskById`), as written it does not work. CsvRepository.php:3 declares strict types, and the `Task` it imports takes `setId(int $id)` (Task.php:76). Passing the string field from `fgetcsv` therefore raises a TypeError at CsvRepository.php:170, so opening any non-empty file fails. The model shows the intended integer conversion instead.
- CsvRepository.DetermineNextId: ids are unbounded integers. PHP ints are 64-bit. Take a file holding the id 9223372036854775807. Then `max(array_keys($this->tasks)) + 1` (CsvRepository.php:194) is a float. Under strict types (:3), returning that float from `determineNextId() : int` (:190) raises a TypeError inside the constructor (:71), so the file cannot be opened at all.
- CsvRepository.Create: issues ids from an unbounded counter. Take a file whose largest id is 9223372036854775806. The counter starts at 9223372036854775807, and the first create issues that id. `$this->nextId++` (CsvRepository.php:97) then turns the counter into a float. The next create fails at `setId($this->nextId)` (:94) with a TypeError under strict types.
- Store.Insert: the autoincrement counter is unbounded. SQLite fails an AUTOINCREMENT insert with SQLITE_FULL once the largest rowid, 2^63-1, has been used.
- TaskSqliteRepository.Create: requires the owner to have an id. Without one, `getId` returns null into an int return type, and PHP raises a TypeError. The TypeError is not an Exception, so the transaction is left open and not rolled back; the model does not cover that path. With the real `Task`, every create fails at `toStmtParams` in the same way, with the transaction left open, as described for `ToStmtParams`. The model shows the behaviour the code was written for.
- TaskSqliteRepository.Update: requires the owner to have an id when the existence check passes, for the same TypeError reason.
- TaskSqliteRepository.Find: requires the author to have an id, for the same reason.
- TaskSqliteRepository.GetUserTasks: requires the author to have an id, for the same reason.
- SimpleTask.NewTask: models the `{id, subject, completed}` task that the CSV and single-table SQL backends call. The imported `Task` (src/Model/Task.php:19-86) has a constructor taking a subject, so `new Task($subject)` itself works there.
- SimpleTask.Complete: substitutes a `complete()` method that `Task` does not have. Assuming the backends load (see `findTaskById`), as written `$task->complete()` raises an Error at CsvRepository.php:172 and SqliteRepository.php:149. `isCompleted()` is missing too, so the calls at CsvRepository.php:183 and SqliteRepository.php:131 raise an Error.
- SqliteRepository.Create: models the substituted task. Assuming the class loads (see `findTaskById`), as written `toStmtParams` calls the missing `isCompleted()` inside `inTransaction`. The resulting Error is not an `Exception`, so the `catch` does not take it, and the transaction is left open without a rollback.
- SqliteRepository.ToStmtParams: models the substituted task. Assuming the class loads (see `findTaskById`), as written it raises an Error at SqliteRepository.php:131, as described for `Create`.
- TaskSqliteRepository.ToStmtParams: models a task paired with its owner. As written, `$task->getUser()` (TaskSqliteRepository.php:181) is not a method of `Task`, so it raises an Error. Inside `create`, that Error escapes the `catch (Exception $e)` and leaves the transaction open.
- TaskSqliteRepository.ToTask: models the rebuild the code was written for. As written, `new Task($user, …)` (TaskSqliteRepository.php:202-208) passes a `User` where the constructor expects a string subject. Under strict types that raises a TypeError, so every non-empty read fails.
- UserSqliteRepository.IsLoginFree: follows its documented intent, "no row has this login". The code counts rows with `rowCount()` after a SELECT, and how the driver fills that in is not modelled.
- Store.Where: its contract gives only a length bound. Membership in both directions is stated separately by `Store.WhereMembers`.
- CsvRepository.ReopenSeesSameTasks: bounds the reopened counter only for a non-empty map. An empty map always reopens at 1, and the model's table invariant allows any counter when a table is empty.
- The five-field CSV layout (`id, subject, description, priority, status`): the code reads and writes three fields.
