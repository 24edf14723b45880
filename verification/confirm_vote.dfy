/** The confirm_vote command and the type guard that recognises it in a
    decoded JSON object. */
module ConfirmVotes {
  import opened Json

  /** `interface ConfirmVote { voteorderTxId; accepted; msg }`. */
  datatype ConfirmVote = ConfirmVote(voteorderTxId: string, accepted: bool, msg: string)

  const GuardedKeys: set<string> := {"voteorderTxId", "accepted", "msg"}

  /** `ConfirmVote.isConfirmVote(cmd)`: each of the three properties is
      something other than `undefined`. Their types are not looked at. */
  predicate IsConfirmVote(cmd: JsObject): (b: bool)
    ensures b <==> forall k :: k in GuardedKeys ==> k in cmd && cmd[k] != Undefined
  {
    && Get(cmd, "voteorderTxId") != Undefined
    && Get(cmd, "accepted") != Undefined
    && Get(cmd, "msg") != Undefined
  }

  /** The object a ConfirmVote is written as, besides any other properties. */
  function AsObject(c: ConfirmVote, others: JsObject): (o: JsObject)
    ensures o.Keys == others.Keys + GuardedKeys
    ensures forall k :: k in others && k !in GuardedKeys ==> o[k] == others[k]
  {
    others["voteorderTxId" := Str(c.voteorderTxId)]["accepted" := Bool(c.accepted)]["msg" := Str(c.msg)]
  }

  /** Every confirm vote passes the guard, whatever other properties its
      object carries, including `accepted = false` and empty strings. */
  lemma ConfirmVotesPass(c: ConfirmVote, others: JsObject)
    ensures IsConfirmVote(AsObject(c, others))
  {
  }

  /** Missing any one of the three properties, or holding `undefined` there,
      makes the guard false. */
  lemma MissingPropertyFails(cmd: JsObject, key: string)
    requires key in GuardedKeys
    ensures !IsConfirmVote(cmd - {key})
    ensures !IsConfirmVote(cmd[key := Undefined])
  {
  }

  /** Properties other than the three never change the answer. */
  lemma OtherPropertiesIgnored(cmd: JsObject, key: string, v: JsValue)
    requires key !in GuardedKeys
    ensures IsConfirmVote(cmd[key := v]) == IsConfirmVote(cmd)
    ensures IsConfirmVote(cmd - {key}) == IsConfirmVote(cmd)
  {
  }

  /** Only `undefined` is rejected: `null`, `false` and the empty string all
      pass, and so does a value of the wrong type. */
  lemma OnlyUndefinedRejected(cmd: JsObject)
    requires forall k :: k in GuardedKeys ==> k in cmd && cmd[k] in {Null, Bool(false), Str(""), Num(0.0)}
    ensures IsConfirmVote(cmd)
  {
    assert "voteorderTxId" in GuardedKeys && "accepted" in GuardedKeys && "msg" in GuardedKeys;
  }
}
