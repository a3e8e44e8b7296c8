# Dialog store: a verified model

This project models the core of a small Go service that stores
conversation records called "dialogs". Each dialog accepts exactly one
reply. The store is a single SQLite table named `dialogs`. The model
covers four layers:

- **The Dialog entity** (`entities.dfy`, module `Entities`). The class
  `Dialog` is the Go struct. Its `SetReply` method moves it from unreplied
  to replied, in place. `DialogValue` is a copy of the struct's seven
  fields. `ReplyTransition` is the same transition written on values.
  Lemmas describe a whole series of `SetReply` calls: at most one call
  succeeds, the first non-empty message is the reply that is kept, and
  the identity fields never change.
- **The SQLite engine** (`storage.dfy`, module `Storage`). The table is a
  `map<int64, DialogValue>` keyed by id. The insert, update, delete and
  select statements are functions of that map. Each one fails with an
  engine result code, or succeeds with the new table and the number of
  rows it affected. The table's unique constraints form a parameter: a
  `Schema` lists the unique indexes besides the primary key on `id`.
  The migration scripts that would fix them are not part of this model.
  Engine failures unrelated to the table's contents form the parameter
  `fault`.
- **The current repository** (`domain_repository.dfy`, module
  `DomainRepository`). It is a class holding the table. Its `Create`,
  `Get`, `Update` and `Delete` methods derive their errors from what the
  engine reports:
  - SQLITE_CONSTRAINT (code 19) becomes `DialogAlreadyExists`;
  - zero affected rows becomes "no entity" on update and `sql.ErrNoRows`
    on delete;
  - every other engine error passes through unchanged.
- **The superseded repository** (`legacy_repository.dfy`, module
  `LegacyRepository`). It works on the same table through
  `CreateDialog`, `GetDialog`, `UpdateDialog` and `RemoveDialog`. It does
  not remap insert errors, and it reports "no entity" for a delete that
  matched no row.
- **The service** (`dialog_service.dfy`, module `Service`):
  - `NewDialogService` applies option functions in order.
  - `Create` rejects non-positive ids and builds an unreplied dialog.
  - `Get` and `Delete` delegate to the repository.
  - `SetReply` is modelled as the code stands: it fetches the dialog and
    applies the transition to a local copy. It returns nil whatever the
    transition reports, and it never writes the copy back.
    `SetReplyIsNotPersisted` states the outcome of the service test's
    scenario (`service/dialogService_test.go:124-136`) for the code as
    written: a later `Get` still sees the dialog unreplied, while the
    test expects the reply to be stored.

`Wrappers` (Option, Result) and `Errors` hold the error values. Each
`Errors.Error` constructor stands for one Go error value, and its comment
names where that value is declared.

Where the code differs from what the service tests expect, the model
follows the code:
- the service's `SetReply` neither persists the reply nor reports
  `EmptyMessage` or `DialogAlreadyHasReply`, while
  service/dialogService_test.go:131-144 expects the reply stored and both
  errors returned;
- a `Get` or `Delete` of a missing dialog reports `sql.ErrNoRows`, not
  the `ErrDialogNotExists` that service/dialogService_test.go:99-102 and
  118-120 look for.

Two further behaviours of the code are kept as they are: `Create` maps
every constraint violation to `DialogAlreadyExists`, not only a duplicate
id; and `Update` overwrites `ChatID` like every other column.

The service tests refer to names that the code does not declare
(`ErrInvalidId`, `ErrDialogAlreadyExists`, `ErrDialogNotExists`,
`ErrEmptyMessage`, `ErrDialogAlreadyHasReply`). The model uses the
declared names.

## Model

| member | source | states |
|---|---|---|
| `Entities.ReplyTransition` | entities/dialog.go:19-32 | succeeds iff the message is non-empty and the dialog has not replied; an empty message gives `EmptyMessage` (the empty check wins over the replied check); a non-empty message on a replied dialog gives `DialogAlreadyHasReply`; a failure changes nothing; success stores the message and sets the flag; identity fields unchanged; `Replied` never reset; `Replied ==> Reply != ""` preserved |
| `Entities.Dialog.SetReply` | entities/dialog.go:19-32 | the in-place transition: `EmptyMessage` with no change, then `DialogAlreadyHasReply` with no change, else `Reply == message`, `Replied`, nil; Id, UserName, FirstName, LastName and ChatID unchanged |
| `Entities.Dialog.constructor` | entities/dialog.go:9-17 | a struct value with every field as given |
| `Entities.ReplyOutcome` | entities/dialog.go:21-31 | in a series of calls, call i returns `EmptyMessage` for an empty message, `DialogAlreadyHasReply` once the dialog replied (before the series or through an earlier non-empty message), else nil |
| `Entities.AtMostOneAccepted` | entities/dialog.go:25-31 | after a call that succeeded, every later call fails |
| `Entities.ReplyAllOutcome` | entities/dialog.go:19-32 | a series of calls on an unreplied dialog keeps exactly the first non-empty message; on a replied dialog it changes nothing |
| `Entities.ReplyAllKeepsIdentity` | entities/dialog.go:19-32 | a series of calls keeps the identity fields and keeps `Replied ==> Reply != ""` |
| `Storage.Insert` | domain/repository/dialogRepository.go:54-57 | the insert statement: a fault comes first and fails with its code; otherwise it is refused with code 19 exactly when the row conflicts with a stored one (same id or same key in a unique index), and else adds the row verbatim under its id, affecting 1 row |
| `Storage.UpdateRow` | domain/repository/dialogRepository.go:82-84 | the update statement: a fault comes first; an absent id affects 0 rows, leaves the table as it is and checks no constraint; a present id is refused with code 19 exactly when the new row clashes with another stored row, and otherwise is overwritten, affecting 1 row |
| `Storage.DeleteRow` | domain/repository/dialogRepository.go:101 | the delete statement: a fault comes first; otherwise it always goes through, removes the id's row and affects 1 row if it was stored, 0 if not |
| `Storage.Fetch` | domain/repository/dialogRepository.go:71-73 | the select and scan: a fault comes first; a stored id gives its row; an absent id gives `sql.ErrNoRows` |
| `Storage.InsertKeepsWellFormed` | domain/repository/dialogRepository.go:52-67 | an insert that goes through adds a row under an id not yet stored, and the table keeps its keys and unique constraints |
| `Storage.DuplicateIdRejected` | domain/repository/dialogRepository.go:59-64 | whatever the other indexes, inserting a stored id fails with SQLITE_CONSTRAINT |
| `Storage.UpdateKeepsWellFormed` | domain/repository/dialogRepository.go:80-96 | an update that goes through keeps the table's keys and unique constraints |
| `Storage.DeleteKeepsWellFormed` | domain/repository/dialogRepository.go:99-115 | a delete keeps the table's keys and unique constraints |
| `Storage.FetchAfterInsert` | domain/repository/dialogRepository.go:52-77 | after an insert, the new id reads back the row field for field and every other id reads as before |
| `Storage.FetchAfterUpdate` | domain/repository/dialogRepository.go:69-96 | after an update that affected a row, that id reads back the new row and every other id reads as before |
| `Storage.FetchAfterDelete` | domain/repository/dialogRepository.go:69-115 | a delete always goes through without a fault; afterwards the deleted id reads as `sql.ErrNoRows` and every other id reads as before |
| `DomainRepository.CreateError` | domain/repository/dialogRepository.go:59-65 | code 19 and only code 19 becomes `DialogAlreadyExists`; every other code comes back as the raw engine error |
| `DomainRepository.DialogRepository.constructor` | domain/repository/dialogRepository.go:23-25 | a repository over a well-formed table |
| `DomainRepository.DialogRepository.Create` | domain/repository/dialogRepository.go:52-67 | succeeds iff no fault and the row breaks no constraint; then it stores all seven fields verbatim (Reply and Replied included) and returns `dialog.Id`; otherwise `(0, DialogAlreadyExists)` for a constraint, the raw error for any other code, and the table is unchanged |
| `DomainRepository.DialogRepository.Get` | domain/repository/dialogRepository.go:69-77 | returns the stored row for that id; absent id gives `sql.ErrNoRows`; an engine fault is returned raw |
| `DomainRepository.DialogRepository.Update` | domain/repository/dialogRepository.go:80-96 | true iff no fault, the id is stored and the new row breaks no unique index; then that row alone is overwritten; absent id gives `(false, NoEntity)`; a broken index gives the raw code 19; on failure the table is unchanged |
| `DomainRepository.DialogRepository.Delete` | domain/repository/dialogRepository.go:99-115 | true iff no fault and the id is stored; then exactly that row is removed; absent id gives `(false, sql.ErrNoRows)` and no change |
| `LegacyRepository.DialogRepository.constructor` | repository/dialogRepository.go:21-23 | a repository over a well-formed table |
| `LegacyRepository.DialogRepository.CreateDialog` | repository/dialogRepository.go:39-49 | stores the row and returns its id iff no fault and no constraint is broken; otherwise returns 0 and the raw engine error (code 19 unmapped) with the table unchanged |
| `LegacyRepository.DialogRepository.GetDialog` | repository/dialogRepository.go:51-59 | returns the stored row for that id; absent id gives `sql.ErrNoRows`; an engine fault is returned raw |
| `LegacyRepository.DialogRepository.UpdateDialog` | repository/dialogRepository.go:62-78 | true iff no fault, the id is stored and no unique index is broken; then that row alone is overwritten; absent id gives `(false, NoEntity)` and no change |
| `LegacyRepository.DialogRepository.RemoveDialog` | repository/dialogRepository.go:81-97 | true iff no fault and the id is stored; then only that row is removed; absent id gives `(false, NoEntity)` and no change |
| `Service.DialogService.constructor` | service/dialogService.go:21 | a new service holds no repository |
| `Service.NewDialogService` | service/dialogService.go:20-31 | applies the options in order; the first failing option's error comes back with a nil service; otherwise the service holds the repository that the last installing option put in place |
| `Service.PrefixFailure` | service/dialogService.go:23-28 | once an option fails, later options do not change which failure is reported |
| `Service.DialogService.Get` | service/dialogService.go:50-52 | exactly the repository's `Get` result |
| `Service.DialogService.Create` | service/dialogService.go:54-72 | `id <= 0` or `chatID <= 0` gives `(0, InvalidId)` with storage untouched; otherwise the repository's `Create` on a dialog with empty Reply and `Replied == false`, with its result returned unchanged, `DialogAlreadyExists` included |
| `Service.DialogService.Delete` | service/dialogService.go:74-76 | exactly the repository's `Delete`: its result and its effect on the table |
| `Service.DialogService.SetReply` | service/dialogService.go:78-92 | the fetch error when the dialog cannot be read, nil otherwise for every message (empty, or on a replied dialog); no state changes, so no reply is ever stored |
| `Service.SetReplyIsNotPersisted` | service/dialogService.go:78-92 | create dialog 1, then `SetReply(1, "testReply")` returns nil, yet `Get(1)` still returns it with an empty reply and `Replied == false` |

## Left out

- Connection health: every current-repository operation first pings the database and ends the process if the ping fails (domain/repository/dialogRepository.go:31-35). The model assumes an open connection.
- `CloseConnection`, `GetDb` and `EndSession` are left out. They release the connection or expose the raw handle and hold no table logic.
- `WithLocalRepository` is left out. It opens a real database from process-wide configuration. Options are modelled by their effect only: they may install a repository, then they return an error. An option that changes anything else is not modelled.
- The migration runner, the configuration constants and `main.go` are not part of this model. The unique indexes they would create form the `Schema` parameter. The repository tests show an index on `userName` and/or `chatId` (domain/repository/dialogRepository_test.go:51-69).
- The failure of `RowsAffected` is not modelled. The SQLite driver always reports the count.
- The unchecked `err.(sqlite3.Error)` assertion (domain/repository/dialogRepository.go:60) would panic on an error that is not from SQLite. Every insert failure here is an engine error, so that panic is not modelled.
- `println(err)` and the SQL text, placeholders and column order are driver details and are left out.
- `Get` returns a pointer to a freshly scanned struct. The model returns the value copy, because pointer identity plays no part.
- `errors.New("нет сущности")` makes a distinct error value on every call, so callers cannot match it. The model uses one constructor, `NoEntity`.
- A service that no option gave a repository panics on its nil repository in `Get`, `Create`, `Delete` and `SetReply` (service/dialogService.go:51, 71, 75, 79). The model's service methods require a repository instead, so that panic is not modelled.
- Concurrency is left out. This includes the lost-update window between a fetch and a write, and connection pooling. Every operation is modelled as one sequential step.
- Ids are `int64`. Nothing computes on them, so no overflow can arise.
