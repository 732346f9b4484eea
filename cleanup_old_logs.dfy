/** server/src/utils/cleanupOldLogs.js: the retention sweep over activity_logs. */
module CleanupOldLogs {
  import opened Tables
  import opened Db

  /** "6 months" as the source counts it: 6 * 30 days, in seconds. */
  const SIX_MONTHS_SECONDS: int := 6 * 30 * 24 * 60 * 60

  /** `Math.floor(Date.now() / 1000) - 6 * 30 * 24 * 60 * 60`: 15,552,000 s before now, whole seconds. */
  function Cutoff(now: int): (c: int)
    ensures c == Seconds(now) - 15552000
    ensures c * 1000 <= now - 15552000000 < c * 1000 + 1000
  {
    Seconds(now) - SIX_MONTHS_SECONDS
  }

  /** `{ deleted: n }`, or `{ deleted: 0, error }` when the statement fails. */
  datatype CleanupResult = CleanupResult(deleted: nat, error: bool)

  /** Number of entries a WHERE clause selects; `DeleteLogsCount` proves it is the number of rows the matching DELETE removes. */
  function CountSelected(ls: seq<LogEntry>, w: LogWhere): (n: nat)
    ensures n <= |ls|
  {
    if ls == [] then 0 else (if LogSelected(w, ls[0]) then 1 else 0) + CountSelected(ls[1..], w)
  }

  /** A DELETE removes exactly the rows its WHERE selects: what is left plus what went is everything. */
  lemma {:induction false} DeleteLogsCount(ls: seq<LogEntry>, w: LogWhere)
    ensures |DeleteLogs(ls, w)| + CountSelected(ls, w) == |ls|
  {
    if ls != [] { DeleteLogsCount(ls[1..], w); }
  }

  /** Running the same DELETE again removes nothing. */
  lemma {:induction false} DeleteLogsIdempotent(ls: seq<LogEntry>, w: LogWhere)
    ensures DeleteLogs(DeleteLogs(ls, w), w) == DeleteLogs(ls, w)
  {
    if ls != [] {
      DeleteLogsIdempotent(ls[1..], w);
    }
  }

  /**
   * `cleanupOldLogs()`: `DELETE FROM activity_logs WHERE createdAt < cutoff` over all users.
   * `storageOk` is whether the statement succeeds; a failure leaves the table as it was and is
   * reported in the result, never thrown.
   */
  method CleanupOldLogs(db: Store, now: int, storageOk: bool) returns (r: CleanupResult)
    requires db.Valid()
    modifies db
    ensures db.Valid()
    ensures !storageOk ==> r == CleanupResult(0, true) && db.Snapshot() == old(db.Snapshot())
    ensures storageOk ==> db.Snapshot() == old(db.Snapshot()).(logs := DeleteLogs(old(db.logs), CreatedBefore(Cutoff(now))))
    ensures storageOk ==> r == CleanupResult(CountSelected(old(db.logs), CreatedBefore(Cutoff(now))), false)
    ensures forall e :: e in db.logs <==> e in old(db.logs) && (!storageOk || e.createdAt >= Cutoff(now))
  {
    if !storageOk {
      return CleanupResult(0, true);
    }
    var sixMonthsAgo := Cutoff(now);
    var before := |db.logs|;
    DeleteLogsOk(db.Snapshot(), CreatedBefore(sixMonthsAgo));
    DeleteLogsCount(db.logs, CreatedBefore(sixMonthsAgo));
    db.logs := DeleteLogs(db.logs, CreatedBefore(sixMonthsAgo));
    r := CleanupResult(before - |db.logs|, false);
  }

  /** A second sweep at the same clock reading deletes nothing and changes nothing. */
  lemma SecondSweepDeletesNothing(ls: seq<LogEntry>, now: int)
    ensures var once := DeleteLogs(ls, CreatedBefore(Cutoff(now)));
      CountSelected(once, CreatedBefore(Cutoff(now))) == 0
      && DeleteLogs(once, CreatedBefore(Cutoff(now))) == once
  {
    var w := CreatedBefore(Cutoff(now));
    DeleteLogsIdempotent(ls, w);
    DeleteLogsCount(DeleteLogs(ls, w), w);
  }

  /** `startCleanupSchedule()`: one sweep at start-up; the 24-hour timer is not modelled. */
  method StartCleanupSchedule(db: Store, now: int, storageOk: bool)
    requires db.Valid()
    modifies db
    ensures db.Valid()
    ensures db.Snapshot() == old(db.Snapshot()).(logs := if storageOk then DeleteLogs(old(db.logs), CreatedBefore(Cutoff(now)))
                                                        else old(db.logs))
    ensures forall e :: e in db.logs <==> e in old(db.logs) && (!storageOk || e.createdAt >= Cutoff(now))
  {
    var _ := CleanupOldLogs(db, now, storageOk);
  }
}
