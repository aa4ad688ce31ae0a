/**
 * The member-update handler of the role monitor: decide, ask the platform to
 * remove roles, notify the member, then record the correction in the audit
 * store. The platform calls are given by their outcomes.
 */
module RoleMonitor {
  import opened Wrappers
  import opened RankConflict
  import opened AuditStore

  /** Outcome of the platform call that removes the roles. */
  datatype RemovalOutcome = Removed | Forbidden | HttpError

  /**
   * Outcome of the direct message to the member. Only a forbidden message is
   * caught by the handler; any other HTTP error escapes it.
   */
  datatype MessageOutcome = Delivered | MessageForbidden | MessageHttpError

  /** How one member-update event ends. */
  datatype HandlerResult =
    | NoAction
    | RemovalFailed(correction: Correction, error: RemovalOutcome)
    | MessageFailed(correction: Correction)
    | StoreUnreadable(correction: Correction)
    | StoreRejected(correction: Correction)
    | Recorded(correction: Correction)

  /**
   * One member-update event for `member`. The log-channel post catches every
   * failure and so plays no part here.
   */
  method OnMemberUpdate(
    store: RoleDataStore, member: MemberId,
    before: seq<RoleId>, after: seq<RoleId>, group: set<RoleId>,
    removal: RemovalOutcome, message: MessageOutcome, now: Timestamp)
    returns (res: HandlerResult)
    modifies store
    ensures res.NoAction? <==> Decide(before, after, group).None?
    ensures !res.NoAction? ==> res.correction == Decide(before, after, group).value
    ensures res.RemovalFailed? <==> !res.NoAction? && removal != Removed
    ensures res.RemovalFailed? ==> res.error == removal
    ensures res.MessageFailed? <==> !res.NoAction? && removal == Removed && message == MessageHttpError
    ensures res.Recorded? <==>
              && Decide(before, after, group).Some?
              && removal == Removed && message != MessageHttpError
              && LoadRoleData(old(store.file)).Loaded?
              && LoadRoleData(old(store.file)).value.Object?
    ensures res.Recorded? ==>
              store.file == Decodes(Object(WithRecord(LoadRoleData(old(store.file)).value.records, member,
                                                      RecordOf(res.correction, now))))
    ensures !res.Recorded? ==> store.file == old(store.file)
  {
    var decision := Decide(before, after, group);
    if decision.None? {
      return NoAction;
    }
    var c := decision.value;
    if removal != Removed {
      return RemovalFailed(c, removal);
    }
    if message == MessageHttpError {
      return MessageFailed(c);
    }
    var loaded := store.Load();
    if loaded.LoadFailed? {
      return StoreUnreadable(c);
    }
    var roleData := loaded.value;
    if roleData.NonObject? {
      return StoreRejected(c);
    }
    var records := WithRecord(roleData.records, member, RecordOf(c, now));
    store.Save(records);
    return Recorded(c);
  }
}
