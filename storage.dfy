/**
 * The `dialogs` table and the four statements the repositories send to
 * SQLite, as functions of the table. A statement either fails with an
 * engine error and leaves the table as it was, or succeeds with the new
 * table and the number of rows it affected.
 *
 * The table's unique constraints come from migration scripts that are not
 * part of this model, so they are a parameter: a `Schema` lists the unique
 * indexes besides the primary key on `id`.
 *
 * Engine failures that have nothing to do with the table's contents
 * (I/O, locking, a full disk) are the parameter `fault`: when it holds a
 * result code the statement fails with that code.
 */
module Storage {
  import opened Wrappers
  import opened Errors
  import opened Entities

  /** SQLite's primary result code SQLITE_CONSTRAINT. */
  const SqliteConstraint: int := 19

  datatype Column = IdColumn | UserNameColumn | FirstNameColumn | LastNameColumn
                  | ChatIdColumn | ReplyColumn | RepliedColumn

  datatype Cell = Integer(i: int64) | Text(s: string) | Flag(b: bool)

  /** The value a row holds in column `c`. */
  function CellOf(v: DialogValue, c: Column): Cell {
    match c
    case IdColumn => Integer(v.id)
    case UserNameColumn => Text(v.userName)
    case FirstNameColumn => Text(v.firstName)
    case LastNameColumn => Text(v.lastName)
    case ChatIdColumn => Integer(v.chatId)
    case ReplyColumn => Text(v.reply)
    case RepliedColumn => Flag(v.replied)
  }

  /** The unique indexes the migrations created besides the primary key. */
  datatype Schema = Schema(uniqueIndexes: set<set<Column>>)

  /** Rows `a` and `b` collide on the (non-empty) unique index `index`. */
  predicate Agree(a: DialogValue, b: DialogValue, index: set<Column>) {
    index != {} && forall c :: c in index ==> CellOf(a, c) == CellOf(b, c)
  }

  /** Rows `a` and `b` may not both be stored: same primary key, or same key in some unique index. */
  predicate Conflicts(schema: Schema, a: DialogValue, b: DialogValue) {
    a.id == b.id || exists index :: index in schema.uniqueIndexes && Agree(a, b, index)
  }

  /** Row `v` can join the rows of `t` without breaking a constraint. */
  predicate Fits(schema: Schema, t: Table, v: DialogValue) {
    forall k :: k in t ==> !Conflicts(schema, t[k], v)
  }

  /** The `dialogs` table, keyed by `id`. */
  type Table = map<int64, DialogValue>

  /** Every row sits under its own id, and no two rows conflict. */
  ghost predicate WellFormed(schema: Schema, t: Table) {
    && (forall k :: k in t ==> t[k].id == k)
    && (forall j, k :: j in t && k in t && j != k ==> !Conflicts(schema, t[j], t[k]))
  }

  /** What a write statement that went through leaves behind. */
  datatype Written = Written(table: Table, rowsAffected: nat)

  /** `insert into dialogs (id, ..., replied) values (...)`. */
  function Insert(schema: Schema, t: Table, v: DialogValue, fault: Option<int>): (r: Result<Written, Error>)
    ensures r.Failure? ==> r.error.Engine?
    ensures fault != None ==> r == Failure(Engine(fault.value))
    ensures fault == None ==> (r.Success? <==> Fits(schema, t, v))
    ensures fault == None && !Fits(schema, t, v) ==> r == Failure(Engine(SqliteConstraint))
    ensures r.Success? ==> r.value == Written(t[v.id := v], 1)
  {
    if fault.Some? then Failure(Engine(fault.value))
    else if !Fits(schema, t, v) then Failure(Engine(SqliteConstraint))
    else Success(Written(t[v.id := v], 1))
  }

  /** `update dialogs set userName = .., ..., replied = .. where id = ..`. */
  function UpdateRow(schema: Schema, t: Table, v: DialogValue, fault: Option<int>): (r: Result<Written, Error>)
    ensures r.Failure? ==> r.error.Engine?
    ensures fault != None ==> r == Failure(Engine(fault.value))
    ensures fault == None && v.id !in t ==> r == Success(Written(t, 0))
    ensures fault == None && v.id in t ==> (r.Success? <==> Fits(schema, t - {v.id}, v))
    ensures fault == None && v.id in t && r.Failure? ==> r.error == Engine(SqliteConstraint)
    ensures r.Success? ==> r.value.rowsAffected <= 1
    ensures r.Success? && r.value.rowsAffected == 1 ==> r.value.table == t[v.id := v]
  {
    if fault.Some? then Failure(Engine(fault.value))
    else if v.id !in t then Success(Written(t, 0))
    else if !Fits(schema, t - {v.id}, v) then Failure(Engine(SqliteConstraint))
    else Success(Written(t[v.id := v], 1))
  }

  /** `delete from dialogs where id = ..`. */
  function DeleteRow(t: Table, id: int64, fault: Option<int>): (r: Result<Written, Error>)
    ensures r.Failure? ==> r.error.Engine?
    ensures fault != None ==> r == Failure(Engine(fault.value))
    ensures fault == None ==> r.Success? && r.value.table == t - {id}
    ensures fault == None ==> r.value.rowsAffected == if id in t then 1 else 0
  {
    if fault.Some? then Failure(Engine(fault.value))
    else if id in t then Success(Written(t - {id}, 1))
    else Success(Written(t, 0))
  }

  /** `select * from dialogs where id = ..` followed by `Scan`; no row scans as `sql.ErrNoRows`. */
  function Fetch(t: Table, id: int64, fault: Option<int>): (r: Result<DialogValue, Error>)
    ensures fault != None ==> r == Failure(Engine(fault.value))
    ensures fault == None && id in t ==> r == Success(t[id])
    ensures fault == None && id !in t ==> r == Failure(NoRows)
  {
    if fault.Some? then Failure(Engine(fault.value))
    else if id in t then Success(t[id])
    else Failure(NoRows)
  }

  lemma ConflictsSymmetric(schema: Schema, a: DialogValue, b: DialogValue)
    ensures Conflicts(schema, a, b) == Conflicts(schema, b, a)
  {
  }

  /** An insert that goes through adds a row under a fresh id and keeps the constraints. */
  lemma InsertKeepsWellFormed(schema: Schema, t: Table, v: DialogValue, fault: Option<int>)
    requires WellFormed(schema, t)
    ensures Insert(schema, t, v, fault).Success? ==>
      v.id !in t && WellFormed(schema, Insert(schema, t, v, fault).value.table)
  {
  }

  /** Whatever the other constraints, a second row with a stored id is refused with SQLITE_CONSTRAINT. */
  lemma DuplicateIdRejected(schema: Schema, t: Table, v: DialogValue)
    requires WellFormed(schema, t)
    requires v.id in t
    ensures Insert(schema, t, v, None) == Failure(Engine(SqliteConstraint))
  {
  }

  /** An update that goes through overwrites one row in place and keeps the constraints. */
  lemma UpdateKeepsWellFormed(schema: Schema, t: Table, v: DialogValue, fault: Option<int>)
    requires WellFormed(schema, t)
    ensures UpdateRow(schema, t, v, fault).Success? ==>
      WellFormed(schema, UpdateRow(schema, t, v, fault).value.table)
  {
    var r := UpdateRow(schema, t, v, fault);
    if r.Success? && r.value.rowsAffected == 1 {
      var u := t[v.id := v];
      forall j, k | j in u && k in u && j != k
        ensures !Conflicts(schema, u[j], u[k])
      {
        if k == v.id {
          assert j in t - {v.id};
        } else if j == v.id {
          assert k in t - {v.id};
          ConflictsSymmetric(schema, u[j], u[k]);
        }
      }
    }
  }

  /** A delete keeps the constraints. */
  lemma DeleteKeepsWellFormed(schema: Schema, t: Table, id: int64, fault: Option<int>)
    requires WellFormed(schema, t)
    ensures DeleteRow(t, id, fault).Success? ==> WellFormed(schema, DeleteRow(t, id, fault).value.table)
  {
  }

  /** After an insert, the new id reads back the row exactly as given and every other id reads as before. */
  lemma FetchAfterInsert(schema: Schema, t: Table, v: DialogValue, id: int64)
    requires Insert(schema, t, v, None).Success?
    ensures Fetch(Insert(schema, t, v, None).value.table, id, None) ==
      if id == v.id then Success(v) else Fetch(t, id, None)
  {
  }

  /** After an update that affected a row, that id reads back the new row and every other id reads as before. */
  lemma FetchAfterUpdate(schema: Schema, t: Table, v: DialogValue, id: int64)
    requires UpdateRow(schema, t, v, None).Success?
    requires UpdateRow(schema, t, v, None).value.rowsAffected == 1
    ensures Fetch(UpdateRow(schema, t, v, None).value.table, id, None) ==
      if id == v.id then Success(v) else Fetch(t, id, None)
  {
  }

  /** After a delete, the id reads as `sql.ErrNoRows` and every other id reads as before. */
  lemma FetchAfterDelete(t: Table, deleted: int64, id: int64)
    ensures DeleteRow(t, deleted, None).Success?
    ensures Fetch(DeleteRow(t, deleted, None).value.table, id, None) ==
      if id == deleted then Failure(NoRows) else Fetch(t, id, None)
  {
  }
}
