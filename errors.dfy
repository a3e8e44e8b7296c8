/**
 * The error values the dialog store can return. Go has a single `error`
 * interface; each constructor here stands for one of the values that
 * flow through it, and its comment says where that value is declared.
 */
module Errors {

  datatype Error =
    /** `entities.EmptyMessage`: a reply with no text. */
    | EmptyMessage
    /** `entities.DialogAlreadyHasReply`: a second reply to one dialog. */
    | DialogAlreadyHasReply
    /** `repository.DialogAlreadyExists`: the insert broke a table constraint. */
    | DialogAlreadyExists
    /** `sql.ErrNoRows`: a select or delete that matched no row. */
    | NoRows
    /** `errors.New("нет сущности")`: an update or delete that matched no row. */
    | NoEntity
    /** `service.InvalidId`: a non-positive id or chat id. */
    | InvalidId
    /** A raw `sqlite3.Error` with its primary result code. */
    | Engine(code: int)
}
