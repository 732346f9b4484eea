/**
 * The database handle of server/src/db.js: one object whose fields are the four
 * tables and their AUTOINCREMENT counters, shared by every route handler.
 */
module Db {
  import opened Tables

  class Store {
    var users: seq<User>
    var categories: seq<Category>
    var items: seq<Item>
    var logs: seq<LogEntry>
    var nextUserId: nat
    var nextCategoryId: nat
    var nextItemId: nat
    var nextLogId: nat

    /** The current contents of all tables as one value. */
    function Snapshot(): Tables
      reads this
    {
      Tables(users, categories, items, logs, nextUserId, nextCategoryId, nextItemId, nextLogId)
    }

    /** The schema's UNIQUE and FOREIGN KEY constraints and the ownership invariant hold. */
    ghost predicate Valid()
      reads this
    {
      Consistent(Snapshot())
    }

    /** A freshly created database file: empty tables. */
    constructor ()
      ensures Valid() && Snapshot() == EmptyTables()
    {
      var t := EmptyTables();
      users, categories, items, logs := t.users, t.categories, t.items, t.logs;
      nextUserId, nextCategoryId, nextItemId, nextLogId := t.nextUserId, t.nextCategoryId, t.nextItemId, t.nextLogId;
    }

    /** Replaces every table by the ones in `t`. */
    method Replace(t: Tables)
      modifies this
      ensures Snapshot() == t
    {
      users, categories, items, logs := t.users, t.categories, t.items, t.logs;
      nextUserId, nextCategoryId, nextItemId, nextLogId := t.nextUserId, t.nextCategoryId, t.nextItemId, t.nextLogId;
    }

    /**
     * `DELETE FROM users WHERE id = ?` with the schema's ON DELETE CASCADE: the user's
     * categories, items and activity log entries go with the row. No route issues it.
     */
    method DeleteUser(userId: nat)
      requires Valid()
      modifies this
      ensures Valid()
      ensures Snapshot() == DeleteUserCascade(old(Snapshot()), userId)
    {
      Replace(DeleteUserCascade(Snapshot(), userId));
    }
  }
}
