/** server/src/utils/activityLogger.js: the best-effort audit append. */
module ActivityLogger {
  import opened Outcomes
  import opened Tables
  import opened Db

  /**
   * The tables after `logActivity`: when the INSERT succeeds (`stored`), exactly one
   * row with the given columns, the next id and the current time in seconds is appended;
   * when it fails nothing changes. No other table and no earlier entry is touched.
   */
  function Recorded(t: Tables, userId: nat, action: Action, entityType: EntityType,
                    entityId: Option<nat>, entityName: Option<string>, details: Option<Detail>,
                    now: int, stored: bool): (r: Tables)
    ensures r.users == t.users && r.categories == t.categories && r.items == t.items
    ensures r.nextUserId == t.nextUserId && r.nextCategoryId == t.nextCategoryId && r.nextItemId == t.nextItemId
    ensures |r.logs| == |t.logs| + (if stored then 1 else 0) && r.logs[..|t.logs|] == t.logs
    ensures stored ==> r.logs[|t.logs|] == LogEntry(t.nextLogId, userId, action, entityType, entityId,
                                                     entityName, details, Seconds(now))
    ensures !stored ==> r == t
  {
    if stored then
      var e := LogEntry(t.nextLogId, userId, action, entityType, entityId, entityName, details, Seconds(now));
      assert (t.logs + [e])[..|t.logs|] == t.logs;
      t.(logs := t.logs + [e], nextLogId := t.nextLogId + 1)
    else t
  }

  lemma RecordedOk(t: Tables, userId: nat, action: Action, entityType: EntityType,
                   entityId: Option<nat>, entityName: Option<string>, details: Option<Detail>,
                   now: int, stored: bool)
    requires Consistent(t) && HasUser(t.users, userId)
    ensures Consistent(Recorded(t, userId, action, entityType, entityId, entityName, details, now, stored))
  {
    if stored {
      AppendLogOk(t, LogEntry(t.nextLogId, userId, action, entityType, entityId, entityName, details, Seconds(now)));
    }
  }

  /**
   * `logActivity(userId, action, entityType, entityId = null, entityName = null, details = null)`.
   * The omitted arguments are `None`. `stored` is whether the INSERT succeeds; a failure is
   * swallowed, so the call always returns normally and the caller carries on.
   */
  method LogActivity(db: Store, userId: nat, action: Action, entityType: EntityType,
                     entityId: Option<nat>, entityName: Option<string>, details: Option<Detail>,
                     now: int, stored: bool)
    requires db.Valid() && HasUser(db.users, userId)
    modifies db
    ensures db.Valid()
    ensures db.Snapshot() == Recorded(old(db.Snapshot()), userId, action, entityType, entityId,
                                      entityName, details, now, stored)
  {
    if stored {
      db.logs := db.logs + [LogEntry(db.nextLogId, userId, action, entityType, entityId, entityName, details, Seconds(now))];
      db.nextLogId := db.nextLogId + 1;
    }
    RecordedOk(old(db.Snapshot()), userId, action, entityType, entityId, entityName, details, now, stored);
  }
}
