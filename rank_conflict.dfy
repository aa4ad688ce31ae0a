/**
 * The rank-role conflict resolver of the role monitor: given a member's role
 * list before and after a change and the exclusive rank group, decide whether
 * roles must be taken away, which group role is kept and which are removed.
 */
module RankConflict {
  import opened Wrappers

  type RoleId = int

  /** A corrective action: the group role kept and the group roles removed. */
  datatype Correction = Correction(keep: RoleId, remove: set<RoleId>)

  /** The group roles a member holds (the `matching_roles` of the handler). */
  function HeldGroupRoles(roles: seq<RoleId>, group: set<RoleId>): set<RoleId>
  {
    set r | r in roles && r in group
  }

  /** A group role that the member did not hold before the change. */
  predicate IsNewGroupRole(before: seq<RoleId>, group: set<RoleId>, r: RoleId)
  {
    r !in before && r in group
  }

  /** The new group roles of `after`, in `after`'s order (the `new_roles` list). */
  function NewGroupRoles(before: seq<RoleId>, after: seq<RoleId>, group: set<RoleId>): (added: seq<RoleId>)
    ensures forall r :: r in added <==> r in after && IsNewGroupRole(before, group, r)
    ensures |added| <= |after|
    decreases |after|
  {
    if after == [] then []
    else if IsNewGroupRole(before, group, after[0]) then [after[0]] + NewGroupRoles(before, after[1..], group)
    else NewGroupRoles(before, after[1..], group)
  }

  /**
   * The decision of the handler: no action when the role list did not change,
   * when the member holds at most one group role, or when no held group role is
   * new; otherwise keep the first new group role and remove every other group
   * role the member holds.
   */
  function Decide(before: seq<RoleId>, after: seq<RoleId>, group: set<RoleId>): (c: Option<Correction>)
    ensures c.Some? <==>
              && before != after
              && |HeldGroupRoles(after, group)| >= 2
              && exists r :: r in after && IsNewGroupRole(before, group, r)
    ensures c.Some? ==> c.value.keep in after && IsNewGroupRole(before, group, c.value.keep)
    ensures c.Some? ==> c.value.remove == HeldGroupRoles(after, group) - {c.value.keep}
    ensures c.Some? ==> c.value.remove != {} && c.value.remove <= group && c.value.keep !in c.value.remove
  {
    if before == after then None
    else
      var matching := HeldGroupRoles(after, group);
      if |matching| <= 1 then None
      else
        var added := NewGroupRoles(before, after, group);
        if added == [] then None
        else
          var keep := added[0];
          assert keep in added;
          assert keep in matching;
          assert |matching - {keep}| == |matching| - 1;
          Some(Correction(keep, matching - {keep}))
  }

  /** The member's role list once the removal has been applied. */
  function RemoveRoles(roles: seq<RoleId>, remove: set<RoleId>): (rest: seq<RoleId>)
    ensures forall r :: r in rest <==> r in roles && r !in remove
    ensures |rest| <= |roles|
    decreases |roles|
  {
    if roles == [] then []
    else if roles[0] in remove then RemoveRoles(roles[1..], remove)
    else [roles[0]] + RemoveRoles(roles[1..], remove)
  }

  /** The first new group role of `after` heads the list of new group roles. */
  lemma {:induction false} FirstNewGroupRoleIsHead(before: seq<RoleId>, after: seq<RoleId>, group: set<RoleId>, k: nat)
    requires k < |after| && IsNewGroupRole(before, group, after[k])
    requires forall j :: 0 <= j < k ==> !IsNewGroupRole(before, group, after[j])
    ensures NewGroupRoles(before, after, group) != []
    ensures NewGroupRoles(before, after, group)[0] == after[k]
  {
    if k > 0 {
      assert !IsNewGroupRole(before, group, after[0]);
      forall j | 0 <= j < k - 1
        ensures !IsNewGroupRole(before, group, after[1..][j])
      {
        assert after[1..][j] == after[j + 1];
      }
      FirstNewGroupRoleIsHead(before, after[1..], group, k - 1);
    }
  }

  /**
   * When the member holds two or more group roles after a change, the role kept
   * is the first new group role in `after`'s order, and all other held group
   * roles are removed.
   */
  lemma KeptRoleIsFirstNewGroupRole(before: seq<RoleId>, after: seq<RoleId>, group: set<RoleId>, k: nat)
    requires before != after && |HeldGroupRoles(after, group)| >= 2
    requires k < |after| && IsNewGroupRole(before, group, after[k])
    requires forall j :: 0 <= j < k ==> !IsNewGroupRole(before, group, after[j])
    ensures Decide(before, after, group) == Some(Correction(after[k], HeldGroupRoles(after, group) - {after[k]}))
  {
    FirstNewGroupRoleIsHead(before, after, group, k);
  }

  /** Two group roles added in one change: the earlier one in `after` is kept. */
  lemma SimultaneousAdditionKeepsEarlier(before: seq<RoleId>, after: seq<RoleId>, group: set<RoleId>, i: nat, j: nat)
    requires i < j < |after| && after[i] != after[j]
    requires IsNewGroupRole(before, group, after[i]) && IsNewGroupRole(before, group, after[j])
    requires forall m :: 0 <= m < i ==> !IsNewGroupRole(before, group, after[m])
    ensures Decide(before, after, group).Some?
    ensures Decide(before, after, group).value.keep == after[i]
    ensures after[j] in Decide(before, after, group).value.remove
  {
    var held := HeldGroupRoles(after, group);
    var pair := {after[i], after[j]};
    assert pair <= held;
    assert held == pair + (held - pair);
    assert |pair| == 2;
    assert before != after by {
      assert after[i] in after && after[i] !in before;
    }
    KeptRoleIsFirstNewGroupRole(before, after, group, i);
  }

  /** After the removal the member holds exactly one group role: the kept one. */
  lemma RemovalRestoresExclusivity(before: seq<RoleId>, after: seq<RoleId>, group: set<RoleId>)
    requires Decide(before, after, group).Some?
    ensures var c := Decide(before, after, group).value;
            HeldGroupRoles(RemoveRoles(after, c.remove), group) == {c.keep}
  {
  }

  /** The removal takes away only group roles: all other roles stay. */
  lemma RemovalKeepsOtherRoles(before: seq<RoleId>, after: seq<RoleId>, group: set<RoleId>, r: RoleId)
    requires Decide(before, after, group).Some?
    requires r in after && r !in group
    ensures r in RemoveRoles(after, Decide(before, after, group).value.remove)
  {
  }

  /**
   * The removal itself produces a second member-update event, from `after` to
   * the reduced role list; that event leads to no further action.
   */
  lemma FollowUpEventNeedsNoAction(before: seq<RoleId>, after: seq<RoleId>, group: set<RoleId>)
    requires Decide(before, after, group).Some?
    ensures Decide(after, RemoveRoles(after, Decide(before, after, group).value.remove), group) == None
  {
  }

  /** A conflict with no new group role is left in place. */
  lemma PreexistingConflictIsLeft(before: seq<RoleId>, after: seq<RoleId>, group: set<RoleId>)
    requires |HeldGroupRoles(after, group)| >= 2
    requires forall r :: r in after ==> !IsNewGroupRole(before, group, r)
    ensures Decide(before, after, group) == None
  {
  }

  /** A member already holding group role 5 is given group role 10: 10 is kept, 5 removed. */
  lemma ReplaceOlderRank()
    ensures Decide([5], [5, 10], {5, 10}) == Some(Correction(10, {5}))
  {
    assert HeldGroupRoles([5, 10], {5, 10}) == {5, 10};
    assert |{5, 10}| == 2 && {5, 10} - {10} == {5};
    KeptRoleIsFirstNewGroupRole([5], [5, 10], {5, 10}, 1);
  }

  /** Group roles 10 and 20 added at once: the first in the list, 10, is kept. */
  lemma AddTwoRanksAtOnce()
    ensures Decide([], [10, 20], {10, 20}) == Some(Correction(10, {20}))
  {
    assert HeldGroupRoles([10, 20], {10, 20}) == {10, 20};
    assert |{10, 20}| == 2 && {10, 20} - {10} == {20};
    KeptRoleIsFirstNewGroupRole([], [10, 20], {10, 20}, 0);
  }

  /** A single group role beside a role outside the group is no conflict. */
  lemma SingleRankIsNoConflict()
    ensures Decide([5], [5, 20], {20}) == None
  {
  }
}
