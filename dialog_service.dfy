/**
 * The dialog service (service/dialogService.go): validates ids, builds
 * new dialogs in the unreplied state and hands storage work to the
 * current repository (`DomainRepository`).
 *
 * `SetReply` is modelled as the code stands: it fetches the dialog,
 * runs the reply transition on its local copy, returns nil whatever the
 * transition said, and never writes the copy back.
 */
module Service {
  import opened Wrappers
  import opened Errors
  import opened Entities
  import opened Storage
  import DomainRepository

  /**
   * A `DialogServiceConfiguration` option function, by its effect: it may
   * install a repository in the service, and then returns its error.
   */
  datatype Configuration = Configuration(
    repository: Option<DomainRepository.DialogRepository>,
    result: Option<Error>)

  /** The error of the first option that fails, if any. */
  function FirstFailure(cfgs: seq<Configuration>): Option<Error>
    decreases |cfgs|
  {
    if cfgs == [] then None
    else
      var earlier := FirstFailure(cfgs[..|cfgs| - 1]);
      if earlier != None then earlier else cfgs[|cfgs| - 1].result
  }

  /** The repository the last installing option put in place; nil if none did. */
  function Installed(cfgs: seq<Configuration>): DomainRepository.DialogRepository?
    decreases |cfgs|
  {
    if cfgs == [] then null
    else match cfgs[|cfgs| - 1].repository
      case Some(r) => r
      case None => Installed(cfgs[..|cfgs| - 1])
  }

  class DialogService {
    var repository: DomainRepository.DialogRepository?

    ghost predicate Valid()
      reads this, repository
    {
      repository != null && repository.Valid()
    }

    /** `&DialogService{}`: no repository yet. */
    constructor ()
      ensures repository == null
    {
      repository := null;
    }

    /** Delegates to the repository and returns exactly what it returns. */
    method Get(userId: int64, fault: Option<int>) returns (r: Result<DialogValue, Error>)
      requires Valid()
      ensures r == Fetch(repository.table, userId, fault)
      ensures r.Success? ==> r.value.id == userId && r.value == repository.table[userId]
    {
      r := repository.Get(userId, fault);
    }

    /**
     * Rejects a non-positive id or chat id with `(0, InvalidId)` before
     * storage is touched; otherwise inserts an unreplied dialog (empty
     * reply, `Replied` false) and returns the repository's answer as it is,
     * `DialogAlreadyExists` included.
     */
    method Create(id: int64, userName: string, firstName: string, lastName: string, chatID: int64,
                  fault: Option<int>)
      returns (newId: int64, err: Option<Error>)
      requires Valid()
      modifies repository
      ensures Valid()
      ensures id <= 0 || chatID <= 0 ==>
        newId == 0 && err == Some(InvalidId) && repository.table == old(repository.table)
      ensures id > 0 && chatID > 0 ==>
        var v := DialogValue(id, userName, firstName, lastName, chatID, "", false);
        && (err == None <==> fault == None && Fits(repository.schema, old(repository.table), v))
        && (err == None ==> newId == id && repository.table == old(repository.table)[id := v])
        && (err != None ==> newId == 0 && repository.table == old(repository.table))
        && (fault != None ==> err == Some(DomainRepository.CreateError(fault.value)))
        && (fault == None && err != None ==> err == Some(DialogAlreadyExists))
    {
      if id <= 0 || chatID <= 0 {
        return 0, Some(InvalidId);
      }
      var dialog := new Dialog(DialogValue(id, userName, firstName, lastName, chatID, "", false));
      newId, err := repository.Create(dialog, fault);
    }

    /** Delegates to the repository: removes the row, or `(false, sql.ErrNoRows)` when there is none. */
    method Delete(userId: int64, fault: Option<int>) returns (ok: bool, err: Option<Error>)
      requires Valid()
      modifies repository
      ensures Valid()
      ensures ok <==> err == None
      ensures ok <==> fault == None && userId in old(repository.table)
      ensures ok ==> repository.table == old(repository.table) - {userId}
      ensures !ok ==> repository.table == old(repository.table)
      ensures fault != None ==> err == Some(Engine(fault.value))
      ensures fault == None && userId !in old(repository.table) ==> err == Some(NoRows)
    {
      ok, err := repository.Delete(userId, fault);
    }

    /**
     * Returns the repository's error when the dialog cannot be fetched, and
     * nil otherwise, for every message: an empty message or a dialog that
     * already replied is not reported. The method changes no state (it has
     * no modifies clause): the transitioned copy is never stored.
     */
    method SetReply(userId: int64, message: string, fault: Option<int>) returns (err: Option<Error>)
      requires Valid()
      ensures err == match Fetch(repository.table, userId, fault)
        case Failure(e) => Some(e)
        case Success(_) => None
      ensures err == None <==> fault == None && userId in repository.table
    {
      var fetched := repository.Get(userId, fault);
      match fetched
      case Failure(e) =>
        return Some(e);
      case Success(v) =>
        var dialog := new Dialog(v);
        var replyErr := dialog.SetReply(message);
        // The transition's error is dropped and `dialog` is never passed to
        // Update; service/dialogService_test.go:131-144 expects both to happen.
        if replyErr != None {
          return None;
        }
        return None;
    }
  }

  /**
   * Applies the option functions in order to a fresh service. The first
   * one that fails ends the construction with `(nil, err)`; otherwise the
   * service holds the repository the last installing option gave it.
   */
  method NewDialogService(cfgs: seq<Configuration>) returns (service: DialogService?, err: Option<Error>)
    ensures err == FirstFailure(cfgs)
    ensures service == null <==> err != None
    ensures service != null ==> service.repository == Installed(cfgs)
  {
    var s := new DialogService();
    var i := 0;
    while i < |cfgs|
      invariant 0 <= i <= |cfgs|
      invariant FirstFailure(cfgs[..i]) == None
      invariant s.repository == Installed(cfgs[..i])
    {
      assert cfgs[..i + 1][..i] == cfgs[..i];
      var cfg := cfgs[i];
      if cfg.repository != None {
        s.repository := cfg.repository.value;
      }
      if cfg.result != None {
        PrefixFailure(cfgs, i);
        return null, cfg.result;
      }
      i := i + 1;
    }
    assert cfgs[..i] == cfgs;
    return s, None;
  }

  /** Once an option fails, no later option changes which failure comes first. */
  lemma {:induction false} PrefixFailure(cfgs: seq<Configuration>, i: nat)
    requires i < |cfgs|
    requires FirstFailure(cfgs[..i]) == None && cfgs[i].result != None
    ensures FirstFailure(cfgs) == cfgs[i].result
    decreases |cfgs|
  {
    if i + 1 == |cfgs| {
      assert cfgs[..|cfgs| - 1] == cfgs[..i];
    } else {
      var front := cfgs[..|cfgs| - 1];
      assert front[..i] == cfgs[..i];
      PrefixFailure(front, i);
    }
  }

  /**
   * The scenario of service/dialogService_test.go:124-136, stated for the
   * service as written: after creating dialog 1 and a `SetReply` that
   * returns nil, `Get(1)` still reports the dialog unreplied, with an
   * empty reply.
   */
  method SetReplyIsNotPersisted(schema: Schema) returns (replyErr: Option<Error>, after: Result<DialogValue, Error>)
    ensures replyErr == None
    ensures after == Success(DialogValue(1, "test", "test1", "test2", 1, "", false))
  {
    var repo := new DomainRepository.DialogRepository(schema, map[]);
    var service, err := NewDialogService([Configuration(Some(repo), None)]);
    var id, createErr := service.Create(1, "test", "test1", "test2", 1, None);
    replyErr := service.SetReply(id, "testReply", None);
    after := service.Get(id, None);
  }
}
