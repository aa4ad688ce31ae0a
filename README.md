# Only-1-Rank role monitor, modelled in Dafny

The role monitor is a Discord bot that keeps members to at most one "rank"
role out of a configured exclusive group (`ROLE_GROUP`). On each member
update it compares the member's role list before and after the change. If the
member now holds two or more group roles and at least one of them was just
added, it keeps the first newly added group role (in the order of the `after`
list) and asks Discord to remove every other group role the member holds.
Once the removal succeeds, it messages the member, posts to a log channel, and
overwrites the member's entry in a JSON audit file (`role_data.json`) with the
time, the removed role ids and the kept role id.

The model has four modules:

- `Wrappers` (`wrappers.dfy`): `Option`.
- `RankConflict` (`rank_conflict.dfy`): the pure decision. Roles are integer
  ids, role lists are `seq<RoleId>`, and the removal collection is a set. The
  source builds it from a Python set, so its order is unspecified.
- `AuditStore` (`audit_store.dfy`): the audit records, the file as a value,
  its load and save operations (a class `RoleDataStore` whose `file` field is
  the file on disk), and the one-entry update of the mapping.
- `RoleMonitor` (`role_monitor.dfy`): the handler `OnMemberUpdate`, one
  sequential step per event. It takes the outcomes of the Discord calls as
  parameters.

Behaviour of `Role-Monitor.py` that the model keeps:

- `Role-Monitor.py` has no prerequisite-role rule; the group rule is the only one.
- Group roles added in the same change: the first in `after` order is kept
  (line 59).
- A conflict that already existed, with no newly added group role, is left in
  place (lines 55-57).
- A failed direct message can stop the audit write. Around `after.send` the
  handler catches only `discord.Forbidden` (lines 90-92). Any other HTTP error
  from it leaves the handler before the audit write (`MessageFailed`).
- A missing audit file, or one that is not valid JSON, reads as an empty mapping
  (lines 15-20). The next write then replaces it with a file holding only the
  acting member's record. Other read errors are not caught by `load_role_data`
  (a file that cannot be opened, or whose bytes are not valid text). They leave
  the handler at line 121 with the file unchanged (`StoreUnreadable`).
- A file that decodes to something other than an object makes the item
  assignment at line 122 fail, and the file stays as it was (`StoreRejected`).

## Model

| member | source | states |
|---|---|---|
| RankConflict.HeldGroupRoles | Role-Monitor.py:47-49 | the distinct roles the member holds after the change that belong to the group (`matching_roles`) |
| RankConflict.IsNewGroupRole | Role-Monitor.py:55 | the filter condition of `new_roles`: a group role the member did not hold before |
| RankConflict.NewGroupRoles | Role-Monitor.py:55 | the list holds exactly the roles of `after` that are in the group and not in `before`, and is no longer than `after` |
| RankConflict.Decide | Role-Monitor.py:44-60 | an action is taken iff the role list changed, the member holds at least two distinct group roles, and some held group role is new. The kept role is a new group role the member holds. The removal set is exactly the held group roles minus the kept one. It is non-empty, lies inside the group and excludes the kept role |
| RankConflict.RemoveRoles | Role-Monitor.py:64 | the member's roles after removal are exactly the roles of `after` that are not in the removal set |
| RankConflict.FirstNewGroupRoleIsHead | Role-Monitor.py:55-59 | the first new group role in `after` order is the head of the new-role list, which is therefore non-empty |
| RankConflict.KeptRoleIsFirstNewGroupRole | Role-Monitor.py:47-60 | when the role list changed and two or more group roles are held, the decision keeps exactly the first new group role of `after` and removes every other held group role |
| RankConflict.SimultaneousAdditionKeepsEarlier | Role-Monitor.py:55-60 | when two distinct group roles are added at once, the one earlier in `after` is kept and the later one is removed |
| RankConflict.RemovalRestoresExclusivity | Role-Monitor.py:59-64 | after the removal the member holds exactly one group role, the kept one |
| RankConflict.RemovalKeepsOtherRoles | Role-Monitor.py:60-64 | a role outside the group that the member holds is never removed |
| RankConflict.FollowUpEventNeedsNoAction | Role-Monitor.py:44-64 | the member update caused by the removal itself, from `after` to the reduced list, leads to no further action |
| RankConflict.PreexistingConflictIsLeft | Role-Monitor.py:55-57 | two or more held group roles with none of them new lead to no action |
| RankConflict.ReplaceOlderRank | Role-Monitor.py:55-60 | holding group role 5 and gaining group role 10 keeps 10 and removes {5} |
| RankConflict.AddTwoRanksAtOnce | Role-Monitor.py:55-60 | gaining group roles 10 and 20 at once, in that order, keeps 10 and removes {20} |
| RankConflict.SingleRankIsNoConflict | Role-Monitor.py:47-52 | one group role beside a role outside the group leads to no action |
| AuditStore.LoadRoleData | Role-Monitor.py:15-20 | a file that decodes reads as its contents; a missing file or one that is not valid JSON reads as an empty mapping; a file that cannot be opened or read as text is a load error, and only then |
| AuditStore.RecordOf | Role-Monitor.py:122-126 | the record written for a correction: the time, the removed role ids and the kept role id |
| AuditStore.WithRecord | Role-Monitor.py:122-126 | the acting member's entry becomes the new record, overwriting any earlier one. Every other member's entry is unchanged, and no other key is added |
| AuditStore.RoleDataStore.constructor | Role-Monitor.py:13 | the store starts with the given file |
| AuditStore.RoleDataStore.Load | Role-Monitor.py:15-20 | returns what reading the current file gives, as `LoadRoleData` states it, and changes nothing |
| AuditStore.RoleDataStore.Save | Role-Monitor.py:22-24 | the file is replaced by the mapping, and loading it again gives that mapping back |
| RoleMonitor.OnMemberUpdate | Role-Monitor.py:43-127 | acts exactly when the decision does. A failed removal (forbidden or HTTP error) ends the handler with no audit write, and so do an uncaught HTTP error on the direct message and a file that cannot be read. With a file that decodes to an object, a successful action writes back the loaded mapping with the member's entry set to the time, the removed ids and the kept id. In every other case the file is unchanged |

## Left out

- The Discord client: bot construction, intents, presence, `on_ready` and `bot.run`. These are foreign library calls with no decision logic.
- The `keep_alive` HTTP endpoint. It is an external module doing network I/O.
- The contents of the direct-message and log-channel embeds. They are presentation only. The log-channel post catches every exception, so it never affects the audit write and is not modelled. The direct message appears only through its outcome.
- JSON encoding and file handles. The file is a value: missing, not valid JSON, unreadable, or decoded to an object or a non-object. Keys are member ids; the source writes them as `str(after.id)`, which is injective. A failure of the write itself is not modelled.
- Timestamps from `datetime.now(UTC)`. They are an opaque string parameter.
- Asynchronous scheduling. Each event is one sequential step. The audit read-modify-write (lines 121-127) has no `await`, so it cannot interleave with another handler. But two events for the same member can interleave at the awaits on lines 64, 90, 96 and 114. The model does not capture decisions made on such stale snapshots, nor audit entries landing in completion order rather than event order.
- The iteration order of `matching_roles`. The removal collection is a set, so the order of `removed_roles` in the file is not modelled.
- RoleMonitor.OnMemberUpdate: treats the removal call as all-or-nothing. Whether the library applies some removals before failing is not visible in this file.
- `role_config`, which supplies `ROLE_GROUP` and `LOG_CHANNEL_ID`, is not part of this model. The group is a parameter.
