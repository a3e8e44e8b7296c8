/**
 * The Dialog entity (entities/dialog.go): a conversation record that
 * accepts exactly one reply. `Dialog` is the Go struct as an object whose
 * `SetReply` updates it through its pointer receiver; `DialogValue` is a
 * copy of its seven fields, which is what a table row holds and what the
 * repositories hand back.
 */
module Entities {
  import opened Wrappers
  import opened Errors

  /** Go's `int64`, the type of `Id` and `ChatID`. */
  newtype int64 = x: int | -0x8000_0000_0000_0000 <= x < 0x8000_0000_0000_0000

  datatype DialogValue = DialogValue(
    id: int64,
    userName: string,
    firstName: string,
    lastName: string,
    chatId: int64,
    reply: string,
    replied: bool)

  /** A replied dialog carries a reply. Nothing enforces this on construction;
      the reply transition keeps it. */
  predicate Consistent(v: DialogValue) {
    v.replied ==> v.reply != ""
  }

  /** `a` and `b` describe the same conversation: all but the reply fields agree. */
  predicate SameIdentity(a: DialogValue, b: DialogValue) {
    a.id == b.id && a.userName == b.userName && a.firstName == b.firstName &&
    a.lastName == b.lastName && a.chatId == b.chatId
  }

  /** What one `SetReply` call leaves behind: the dialog's new fields and the returned error. */
  datatype Step = Step(value: DialogValue, err: Option<Error>)

  /**
   * The reply transition on values. The call succeeds exactly when the
   * message is non-empty and the dialog has not replied; the empty check
   * comes first; a failed call changes nothing; a successful one fills in
   * the reply and sets the flag; the identity fields never change.
   */
  function ReplyTransition(v: DialogValue, message: string): (s: Step)
    ensures s.err == None <==> message != "" && !v.replied
    ensures message == "" ==> s.err == Some(EmptyMessage)
    ensures message != "" && v.replied ==> s.err == Some(DialogAlreadyHasReply)
    ensures s.err != None ==> s.value == v
    ensures s.err == None ==> s.value.reply == message && s.value.replied
    ensures SameIdentity(v, s.value)
    ensures v.replied ==> s.value.replied
    ensures Consistent(v) ==> Consistent(s.value)
  {
    if message == "" then Step(v, Some(EmptyMessage))
    else if v.replied then Step(v, Some(DialogAlreadyHasReply))
    else Step(v.(reply := message, replied := true), None)
  }

  /** The dialog after `SetReply` has been called with each message of `msgs` in turn. */
  function ReplyAll(v: DialogValue, msgs: seq<string>): DialogValue
    decreases |msgs|
  {
    if msgs == [] then v else ReplyAll(ReplyTransition(v, msgs[0]).value, msgs[1..])
  }

  /** The errors those calls return, one per message. */
  function Replies(v: DialogValue, msgs: seq<string>): (r: seq<Option<Error>>)
    ensures |r| == |msgs|
    decreases |msgs|
  {
    if msgs == [] then []
    else
      var s := ReplyTransition(v, msgs[0]);
      [s.err] + Replies(s.value, msgs[1..])
  }

  /** Some message of `msgs` has text. */
  predicate HasNonEmpty(msgs: seq<string>) {
    exists j :: 0 <= j < |msgs| && msgs[j] != ""
  }

  /** The first message of `msgs` that has text, if any. */
  function FirstNonEmpty(msgs: seq<string>): Option<string>
    decreases |msgs|
  {
    if msgs == [] then None
    else if msgs[0] != "" then Some(msgs[0])
    else FirstNonEmpty(msgs[1..])
  }

  /**
   * The i-th of a series of `SetReply` calls returns `EmptyMessage` for an
   * empty message, `DialogAlreadyHasReply` once the dialog has replied
   * (before the series or through an earlier non-empty message), and `nil`
   * otherwise.
   */
  lemma {:induction false} ReplyOutcome(v: DialogValue, msgs: seq<string>, i: nat)
    requires i < |msgs|
    ensures Replies(v, msgs)[i] ==
      if msgs[i] == "" then Some(EmptyMessage)
      else if v.replied || HasNonEmpty(msgs[..i]) then Some(DialogAlreadyHasReply)
      else None
    decreases |msgs|
  {
    var s := ReplyTransition(v, msgs[0]);
    var rest := msgs[1..];
    if i == 0 {
      assert !HasNonEmpty(msgs[..0]);
    } else {
      ReplyOutcome(s.value, rest, i - 1);
      assert rest[i - 1] == msgs[i];
      assert msgs[..i] == [msgs[0]] + rest[..i - 1];
      if HasNonEmpty(rest[..i - 1]) {
        var j :| 0 <= j < i - 1 && rest[..i - 1][j] != "";
        assert msgs[..i][j + 1] != "";
      }
      if HasNonEmpty(msgs[..i]) && msgs[0] == "" {
        var j :| 0 <= j < i && msgs[..i][j] != "";
        assert j != 0;
        assert rest[..i - 1][j - 1] != "";
      }
    }
  }

  /** At most one call of a series succeeds: every call after a successful one fails. */
  lemma {:induction false} AtMostOneAccepted(v: DialogValue, msgs: seq<string>, i: nat, j: nat)
    requires i < j < |msgs|
    requires Replies(v, msgs)[i] == None
    ensures Replies(v, msgs)[j] in {Some(EmptyMessage), Some(DialogAlreadyHasReply)}
  {
    ReplyOutcome(v, msgs, i);
    ReplyOutcome(v, msgs, j);
    assert msgs[..j][i] == msgs[i];
  }

  /**
   * A series of `SetReply` calls on an unreplied dialog records the first
   * non-empty message and nothing else; on a replied dialog it changes nothing.
   */
  lemma {:induction false} ReplyAllOutcome(v: DialogValue, msgs: seq<string>)
    ensures ReplyAll(v, msgs) ==
      if v.replied then v
      else match FirstNonEmpty(msgs)
        case None => v
        case Some(m) => v.(reply := m, replied := true)
    decreases |msgs|
  {
    if msgs != [] {
      ReplyAllOutcome(ReplyTransition(v, msgs[0]).value, msgs[1..]);
    }
  }

  /** A series of calls never changes the identity fields and keeps a consistent dialog consistent. */
  lemma ReplyAllKeepsIdentity(v: DialogValue, msgs: seq<string>)
    ensures SameIdentity(v, ReplyAll(v, msgs))
    ensures Consistent(v) ==> Consistent(ReplyAll(v, msgs))
  {
    ReplyAllOutcome(v, msgs);
    FirstNonEmptyHasText(msgs);
  }

  lemma {:induction false} FirstNonEmptyHasText(msgs: seq<string>)
    ensures FirstNonEmpty(msgs) != None ==> FirstNonEmpty(msgs).value != ""
    decreases |msgs|
  {
    if msgs != [] && msgs[0] == "" {
      FirstNonEmptyHasText(msgs[1..]);
    }
  }

  /** The Go struct `Dialog`, updated in place by `SetReply`. */
  class Dialog {
    var id: int64
    var userName: string
    var firstName: string
    var lastName: string
    var chatId: int64
    var reply: string
    var replied: bool

    /** A struct literal: every field as given. */
    constructor (v: DialogValue)
      ensures Value() == v
    {
      id, userName, firstName, lastName := v.id, v.userName, v.firstName, v.lastName;
      chatId, reply, replied := v.chatId, v.reply, v.replied;
    }

    /** A copy of the struct. */
    function Value(): DialogValue
      reads this
    {
      DialogValue(id, userName, firstName, lastName, chatId, reply, replied)
    }

    /** The one-shot reply: rejects an empty message, then a dialog that already replied. */
    method SetReply(message: string) returns (err: Option<Error>)
      modifies this
      ensures Step(Value(), err) == ReplyTransition(old(Value()), message)
      ensures message == "" ==> err == Some(EmptyMessage) && Value() == old(Value())
      ensures message != "" && old(replied) ==> err == Some(DialogAlreadyHasReply) && Value() == old(Value())
      ensures message != "" && !old(replied) ==> err == None && reply == message && replied
      ensures id == old(id) && userName == old(userName) && firstName == old(firstName)
      ensures lastName == old(lastName) && chatId == old(chatId)
      ensures old(replied) ==> replied
    {
      if message == "" {
        return Some(EmptyMessage);
      }
      if replied {
        return Some(DialogAlreadyHasReply);
      }
      reply := message;
      replied := true;
      return None;
    }
  }
}
