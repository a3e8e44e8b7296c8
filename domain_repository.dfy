/**
 * The current repository over the `dialogs` table
 * (domain/repository/dialogRepository.go). Errors come from what the
 * engine reports, never from a look-up done beforehand: SQLITE_CONSTRAINT
 * on insert becomes `DialogAlreadyExists`, zero affected rows becomes an
 * error, and every other engine error is handed back as it came.
 *
 * Every operation first pings the connection and ends the process if the
 * ping fails; here the connection is simply open.
 */
module DomainRepository {
  import opened Wrappers
  import opened Errors
  import opened Entities
  import opened Storage

  /** How `Create` reports a failed insert: SQLITE_CONSTRAINT is `DialogAlreadyExists`, the rest is raw. */
  function CreateError(code: int): (r: Error)
    ensures r == DialogAlreadyExists <==> code == SqliteConstraint
    ensures code != SqliteConstraint ==> r == Engine(code)
  {
    if code == SqliteConstraint then DialogAlreadyExists else Engine(code)
  }

  class DialogRepository {
    /** The unique constraints of the migrated table. */
    const schema: Schema
    /** The rows of the table, by id. */
    var table: Table

    ghost predicate Valid()
      reads this
    {
      WellFormed(schema, table)
    }

    /** `MakeDialogRepository(db)`: a repository over an open, migrated database. */
    constructor (schema: Schema, table: Table)
      requires WellFormed(schema, table)
      ensures Valid() && this.schema == schema && this.table == table
    {
      this.schema := schema;
      this.table := table;
    }

    /**
     * Inserts all seven fields of `dialog` as they are, `Reply` and `Replied`
     * included, and returns its id. A row that breaks a constraint (its id
     * or any unique index) gives `(0, DialogAlreadyExists)`; any other
     * engine error is returned unmapped; on failure the table is unchanged.
     */
    method Create(dialog: Dialog, fault: Option<int>) returns (id: int64, err: Option<Error>)
      requires Valid()
      modifies this
      ensures Valid()
      ensures err == None <==> fault == None && Fits(schema, old(table), dialog.Value())
      ensures err == None ==> id == dialog.id && dialog.id !in old(table)
      ensures err == None ==> table == old(table)[dialog.id := dialog.Value()]
      ensures err != None ==> id == 0 && table == old(table)
      ensures fault != None ==> err == Some(CreateError(fault.value))
      ensures fault == None && err != None ==> err == Some(DialogAlreadyExists)
    {
      var v := dialog.Value();
      InsertKeepsWellFormed(schema, table, v, fault);
      var r := Insert(schema, table, v, fault);
      match r
      case Failure(e) =>
        id, err := 0, Some(CreateError(e.code));
      case Success(w) =>
        table := w.table;
        id, err := dialog.id, None;
    }

    /** Reads back a copy of the row with this id; a missing row is `sql.ErrNoRows`, an engine error is raw. */
    method Get(id: int64, fault: Option<int>) returns (r: Result<DialogValue, Error>)
      requires Valid()
      ensures r == Fetch(table, id, fault)
      ensures r.Success? <==> fault == None && id in table
      ensures r.Success? ==> r.value == table[id] && r.value.id == id
      ensures fault == None && id !in table ==> r == Failure(NoRows)
      ensures fault != None ==> r == Failure(Engine(fault.value))
    {
      r := Fetch(table, id, fault);
    }

    /**
     * Overwrites every column but `id` of the row with `dialog`'s id. No
     * such row: `(false, NoEntity)` and nothing changes. Engine errors,
     * a broken unique index among them, are returned raw.
     */
    method Update(dialog: Dialog, fault: Option<int>) returns (ok: bool, err: Option<Error>)
      requires Valid()
      modifies this
      ensures Valid()
      ensures ok <==> err == None
      ensures ok <==> fault == None && dialog.id in old(table) && Fits(schema, old(table) - {dialog.id}, dialog.Value())
      ensures ok ==> table == old(table)[dialog.id := dialog.Value()]
      ensures !ok ==> table == old(table)
      ensures fault != None ==> err == Some(Engine(fault.value))
      ensures fault == None && dialog.id !in old(table) ==> err == Some(NoEntity)
      ensures fault == None && dialog.id in old(table) && !ok ==> err == Some(Engine(SqliteConstraint))
    {
      var v := dialog.Value();
      UpdateKeepsWellFormed(schema, table, v, fault);
      var r := UpdateRow(schema, table, v, fault);
      match r
      case Failure(e) =>
        return false, Some(e);
      case Success(w) =>
        table := w.table;
        if w.rowsAffected == 0 {
          return false, Some(NoEntity);
        }
        return true, None;
    }

    /** Removes the row with this id and only it; no such row is `(false, sql.ErrNoRows)`. */
    method Delete(id: int64, fault: Option<int>) returns (ok: bool, err: Option<Error>)
      requires Valid()
      modifies this
      ensures Valid()
      ensures ok <==> err == None
      ensures ok <==> fault == None && id in old(table)
      ensures ok ==> table == old(table) - {id}
      ensures !ok ==> table == old(table)
      ensures fault != None ==> err == Some(Engine(fault.value))
      ensures fault == None && id !in old(table) ==> err == Some(NoRows)
    {
      DeleteKeepsWellFormed(schema, table, id, fault);
      var r := DeleteRow(table, id, fault);
      match r
      case Failure(e) =>
        return false, Some(e);
      case Success(w) =>
        table := w.table;
        if w.rowsAffected == 0 {
          return false, Some(NoRows);
        }
        return true, None;
    }
  }
}
