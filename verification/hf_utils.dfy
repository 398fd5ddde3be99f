/**
 * The chat-template helper that folds the system message into the first user message,
 * for models whose templates have no system role.
 *
 * A message is its role and its text; the column remapping only chooses which keys hold
 * them, so it is reduced to the role that counts as the human one.
 */
module HfUtils {

  datatype Msg = Msg(role: string, content: string)

  /** The position of the first message with role `role`; `|msgs|` when there is none. */
  function FirstRole(msgs: seq<Msg>, role: string): (r: nat)
    ensures r <= |msgs|
    ensures r < |msgs| ==> msgs[r].role == role
    ensures forall i :: 0 <= i < r ==> msgs[i].role != role
    decreases |msgs|
  {
    if |msgs| == 0 then 0
    else if msgs[0].role == role then 0
    else 1 + FirstRole(msgs[1..], role)
  }

  /** The list without the message at `k`. */
  function RemoveAt(msgs: seq<Msg>, k: nat): (r: seq<Msg>)
    requires k < |msgs|
    ensures |r| == |msgs| - 1
    ensures forall i :: 0 <= i < |msgs| && i != k ==> r[if i < k then i else i - 1] == msgs[i]
  {
    msgs[..k] + msgs[k + 1..]
  }

  /**
   * `_prepend_system_to_first_user`: when the list has a system message and a message
   * with the human role, the first human message is prefixed with the first system
   * message's text and a newline, and that system message is removed; otherwise the list
   * comes back as it was.
   *
   * When the human role is itself `system`, the first human message is the system
   * message, so the prefixed text is removed with it.
   */
  function PrependSystem(msgs: seq<Msg>, human: string): (r: seq<Msg>)
    ensures (forall i :: 0 <= i < |msgs| ==> msgs[i].role != "system") ==> r == msgs
    ensures (forall i :: 0 <= i < |msgs| ==> msgs[i].role != human) ==> r == msgs
    ensures var s := FirstRole(msgs, "system");
      var u := FirstRole(msgs, human);
      s < |msgs| && u < |msgs| ==>
      && |r| == |msgs| - 1
      && (forall i :: 0 <= i < |msgs| && i != s && i != u ==> r[if i < s then i else i - 1] == msgs[i])
      && (u != s ==> r[if u < s then u else u - 1] == Msg(msgs[u].role, msgs[s].content + "\n" + msgs[u].content))
  {
    var s := FirstRole(msgs, "system");
    if s == |msgs| then msgs
    else
      var u := FirstRole(msgs, human);
      if u == |msgs| then msgs
      else
        var merged := Msg(msgs[u].role, msgs[s].content + "\n" + msgs[u].content);
        MergeAt(msgs, s, u, merged);
        RemoveAt(msgs[u := merged], s)
  }

  /** Replacing the message at `u` and removing the one at `s` keeps every other message in order. */
  lemma MergeAt(msgs: seq<Msg>, s: nat, u: nat, merged: Msg)
    requires s < |msgs| && u < |msgs|
    ensures var r := RemoveAt(msgs[u := merged], s);
      && |r| == |msgs| - 1
      && (forall i :: 0 <= i < |msgs| && i != s && i != u ==> r[if i < s then i else i - 1] == msgs[i])
      && (u != s ==> r[if u < s then u else u - 1] == merged)
  {
    var updated := msgs[u := merged];
    assert forall i :: 0 <= i < |msgs| && i != u ==> updated[i] == msgs[i];
  }

  lemma UpdateMultiset(msgs: seq<Msg>, k: nat, v: Msg)
    requires k < |msgs|
    ensures multiset(msgs[k := v]) == multiset(msgs) - multiset{msgs[k]} + multiset{v}
  {
    assert msgs[k := v] == msgs[..k] + [v] + msgs[k + 1..];
    assert msgs == msgs[..k] + [msgs[k]] + msgs[k + 1..];
  }

  lemma RemoveAtMultiset(msgs: seq<Msg>, k: nat)
    requires k < |msgs|
    ensures multiset(RemoveAt(msgs, k)) == multiset(msgs) - multiset{msgs[k]}
  {
    assert msgs == msgs[..k] + [msgs[k]] + msgs[k + 1..];
  }

  /** The merge step the function takes for a given first system message and first human message. */
  lemma PrependSystemAt(msgs: seq<Msg>, human: string, s: nat, u: nat)
    requires s < |msgs| && msgs[s].role == "system" && forall i :: 0 <= i < s ==> msgs[i].role != "system"
    requires u < |msgs| && msgs[u].role == human && forall i :: 0 <= i < u ==> msgs[i].role != human
    ensures PrependSystem(msgs, human) == RemoveAt(msgs[u := Msg(human, msgs[s].content + "\n" + msgs[u].content)], s)
  {
    FirstRoleAt(msgs, "system", s);
    FirstRoleAt(msgs, human, u);
  }

  /**
   * With the ordinary human role, the list keeps every message but the first system
   * message and the first user message, which is replaced by its prefixed version.
   */
  lemma OnlyFirstSystemRemoved(msgs: seq<Msg>, s: nat, u: nat)
    requires s < |msgs| && msgs[s].role == "system" && forall i :: 0 <= i < s ==> msgs[i].role != "system"
    requires u < |msgs| && msgs[u].role == "user" && forall i :: 0 <= i < u ==> msgs[i].role != "user"
    ensures var r := PrependSystem(msgs, "user");
      multiset(r) == multiset(msgs) - multiset{msgs[s], msgs[u]} + multiset{Msg("user", msgs[s].content + "\n" + msgs[u].content)}
  {
    PrependSystemAt(msgs, "user", s, u);
    MergeMultiset(msgs, s, u, Msg("user", msgs[s].content + "\n" + msgs[u].content));
  }

  /** Replacing the message at `u` and removing the one at `s` trades those two messages for the replacement. */
  lemma MergeMultiset(msgs: seq<Msg>, s: nat, u: nat, merged: Msg)
    requires s < |msgs| && u < |msgs| && s != u && merged != msgs[s]
    ensures multiset(RemoveAt(msgs[u := merged], s)) == multiset(msgs) - multiset{msgs[s], msgs[u]} + multiset{merged}
  {
    var updated := msgs[u := merged];
    UpdateMultiset(msgs, u, merged);
    RemoveAtMultiset(updated, s);
    assert updated[s] == msgs[s];
  }

  /**
   * When the human role is remapped to `system`, the message that receives the prefix is
   * the system message itself, so the call only drops the first system message.
   */
  lemma HumanRoleSystem(msgs: seq<Msg>, s: nat)
    requires s < |msgs| && msgs[s].role == "system" && forall i :: 0 <= i < s ==> msgs[i].role != "system"
    ensures PrependSystem(msgs, "system") == RemoveAt(msgs, s)
  {
    PrependSystemAt(msgs, "system", s, s);
    var updated := msgs[s := Msg("system", msgs[s].content + "\n" + msgs[s].content)];
    assert RemoveAt(updated, s) == RemoveAt(msgs, s);
  }

  lemma FirstRoleAt(msgs: seq<Msg>, role: string, k: nat)
    requires k < |msgs| && msgs[k].role == role && forall i :: 0 <= i < k ==> msgs[i].role != role
    ensures FirstRole(msgs, role) == k
  {
  }
}
