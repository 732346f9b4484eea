/**
 * The read side of server/src/routes/inventoryRoutes.js as SQL evaluates it: WHERE as an
 * order-keeping selection, COUNT(*), ORDER BY (name ascending, createdAt descending) and
 * LIMIT/OFFSET.
 */
module Queries {
  import opened Outcomes
  import opened Tables
  import Text

  /** `WHERE p`: the rows satisfying `p`, in table order. */
  function Filter<T(!new)>(s: seq<T>, p: T -> bool): (r: seq<T>)
    ensures forall x :: x in r <==> x in s && p(x)
    ensures forall x :: multiset(r)[x] == if p(x) then multiset(s)[x] else 0
  {
    if s == [] then []
    else
      var rest := Filter(s[1..], p);
      assert s == [s[0]] + s[1..];
      if p(s[0]) then [s[0]] + rest else rest
  }

  // ---------------------------------------------------------------- ORDER BY name

  ghost predicate SortedByName<T>(s: seq<T>, key: T -> string)
  {
    forall i, j :: 0 <= i < j < |s| ==> Text.LessEq(key(s[i]), key(s[j]))
  }

  function InsertByName<T>(x: T, s: seq<T>, key: T -> string): (r: seq<T>)
    requires SortedByName(s, key)
    ensures SortedByName(r, key)
    ensures multiset(r) == multiset(s) + multiset{x}
  {
    if s == [] || Text.LessEq(key(x), key(s[0])) then
      FirstBoundsAll(x, s, key);
      ConsSortedByName(x, s, key);
      [x] + s
    else
      Text.LessTotal(key(x), key(s[0]));
      var rest := InsertByName(x, s[1..], key);
      HeadBoundsInsert(s, x, rest, key);
      ConsSortedByName(s[0], rest, key);
      ConsMultiset(s, x, rest);
      [s[0]] + rest
  }

  /** In a sorted sequence, a bound on the first key bounds every key. */
  lemma FirstBoundsAll<T>(x: T, s: seq<T>, key: T -> string)
    requires SortedByName(s, key) && (s != [] ==> Text.LessEq(key(x), key(s[0])))
    ensures forall j :: 0 <= j < |s| ==> Text.LessEq(key(x), key(s[j]))
  {
    forall j | 0 <= j < |s| ensures Text.LessEq(key(x), key(s[j])) {
      Text.LessEqTransitive(key(x), key(s[0]), key(s[j]));
    }
  }

  lemma ConsSortedByName<T>(y: T, s: seq<T>, key: T -> string)
    requires SortedByName(s, key)
    requires forall j :: 0 <= j < |s| ==> Text.LessEq(key(y), key(s[j]))
    ensures SortedByName([y] + s, key)
  {
    assert forall j :: 1 <= j < |[y] + s| ==> ([y] + s)[j] == s[j - 1];
  }

  /** The head of a sorted `s` bounds `x` inserted into the tail. */
  lemma HeadBoundsInsert<T>(s: seq<T>, x: T, rest: seq<T>, key: T -> string)
    requires SortedByName(s, key) && s != [] && Text.LessEq(key(s[0]), key(x))
    requires multiset(rest) == multiset(s[1..]) + multiset{x}
    ensures forall j :: 0 <= j < |rest| ==> Text.LessEq(key(s[0]), key(rest[j]))
  {
    forall j | 0 <= j < |rest| ensures Text.LessEq(key(s[0]), key(rest[j])) {
      assert rest[j] in multiset(rest);
      if rest[j] != x {
        assert rest[j] in s[1..];
        var i :| 0 <= i < |s[1..]| && s[1..][i] == rest[j];
        assert s[i + 1] == rest[j];
      }
    }
  }

  lemma ConsMultiset<T>(s: seq<T>, x: T, rest: seq<T>)
    requires s != [] && multiset(rest) == multiset(s[1..]) + multiset{x}
    ensures multiset([s[0]] + rest) == multiset(s) + multiset{x}
  {
    assert s == [s[0]] + s[1..];
  }

  /** Rows in ascending order of `key` under the BINARY collation. */
  function SortByName<T>(s: seq<T>, key: T -> string): (r: seq<T>)
    ensures SortedByName(r, key)
    ensures multiset(r) == multiset(s)
  {
    if s == [] then []
    else
      assert s == [s[0]] + s[1..];
      InsertByName(s[0], SortByName(s[1..], key), key)
  }

  // ---------------------------------------------------------------- ORDER BY createdAt DESC

  ghost predicate NewestFirstOrder(s: seq<LogEntry>)
  {
    forall i, j :: 0 <= i < j < |s| ==> s[i].createdAt >= s[j].createdAt
  }

  /** Places `e` after every entry at least as new, so among equal times later rows come first. */
  function InsertNewest(e: LogEntry, s: seq<LogEntry>): (r: seq<LogEntry>)
    requires NewestFirstOrder(s)
    ensures NewestFirstOrder(r)
    ensures multiset(r) == multiset(s) + multiset{e}
    ensures r[0] == e || (s != [] && r[0] == s[0])
  {
    if s == [] || s[0].createdAt < e.createdAt then
      ConsNewestFirst(e, s);
      [e] + s
    else
      var rest := InsertNewest(e, s[1..]);
      assert s[0].createdAt >= rest[0].createdAt;
      ConsNewestFirst(s[0], rest);
      ConsMultiset(s, e, rest);
      [s[0]] + rest
  }

  lemma ConsNewestFirst(y: LogEntry, s: seq<LogEntry>)
    requires NewestFirstOrder(s) && (s != [] ==> y.createdAt >= s[0].createdAt)
    ensures NewestFirstOrder([y] + s)
  {
    assert forall j :: 1 <= j < |[y] + s| ==> ([y] + s)[j] == s[j - 1];
  }

  /**
   * `ORDER BY createdAt DESC`. SQL leaves the order of equal timestamps open; this model
   * fixes one: the later-inserted row first.
   */
  function NewestFirst(s: seq<LogEntry>): (r: seq<LogEntry>)
    ensures NewestFirstOrder(r)
    ensures multiset(r) == multiset(s)
  {
    if s == [] then []
    else
      assert s == [s[0]] + s[1..];
      InsertNewest(s[0], NewestFirst(s[1..]))
  }

  // ---------------------------------------------------------------- WHERE and COUNT(*) on activity_logs

  /**
   * The conditions of the two log queries: the owner, optional inclusive bounds on
   * createdAt, and for the item history `entityType = 'item' AND entityId = ?`.
   */
  datatype Criteria = Criteria(userId: nat, fromDate: Option<int>, toDate: Option<int>, itemId: Option<nat>)

  predicate Matches(c: Criteria, e: LogEntry)
  {
    && e.userId == c.userId
    && (c.fromDate.Some? ==> e.createdAt >= c.fromDate.value)
    && (c.toDate.Some? ==> e.createdAt <= c.toDate.value)
    && (c.itemId.Some? ==> e.entityType == ItemEntity && e.entityId == Some(c.itemId.value))
  }

  /** `SELECT * FROM activity_logs WHERE ...`, in table order. */
  function Select(ls: seq<LogEntry>, c: Criteria): (r: seq<LogEntry>)
    ensures forall e :: e in r <==> e in ls && Matches(c, e)
  {
    if ls == [] then []
    else if Matches(c, ls[0]) then [ls[0]] + Select(ls[1..], c)
    else Select(ls[1..], c)
  }

  /** `SELECT COUNT(*) FROM activity_logs WHERE ...`: a separate statement in the source. */
  function Count(ls: seq<LogEntry>, c: Criteria): (n: nat)
  {
    if ls == [] then 0 else (if Matches(c, ls[0]) then 1 else 0) + Count(ls[1..], c)
  }

  /** The count statement and the select statement agree: `total` is the size of the full result. */
  lemma {:induction false} CountIsSelectSize(ls: seq<LogEntry>, c: Criteria)
    ensures Count(ls, c) == |Select(ls, c)|
  {
    if ls != [] { CountIsSelectSize(ls[1..], c); }
  }

  // ---------------------------------------------------------------- LIMIT ? OFFSET ?

  /** `parseInt(q) || fallback`: a missing or zero parameter takes the default. */
  function OrDefault(q: Option<int>, fallback: int): (v: int)
    ensures q.None? || q.value == 0 ==> v == fallback
    ensures q.Some? && q.value != 0 ==> v == q.value
  {
    if q.None? || q.value == 0 then fallback else q.value
  }

  /** `if (fromDate)`: a bound of 0 (falsy) is dropped like a missing one. */
  function Bound(q: Option<int>): (b: Option<int>)
    ensures b.Some? <==> q.Some? && q.value != 0
    ensures b.Some? ==> b == q
  {
    if q.Some? && q.value != 0 then q else None
  }

  /** Where the page starts: SQLite treats a negative OFFSET as 0. */
  function PageStart(n: nat, offset: int): (lo: nat)
    ensures lo <= n
    ensures offset <= 0 ==> lo == 0
    ensures 0 <= offset <= n ==> lo == offset
    ensures offset > n ==> lo == n
  {
    if offset <= 0 then 0 else if offset > n then n else offset
  }

  /** Where the page ends: SQLite treats a negative LIMIT as no limit. */
  function PageEnd(n: nat, limit: int, offset: int): (hi: nat)
    ensures PageStart(n, offset) <= hi <= n
    ensures limit < 0 ==> hi == n
    ensures limit >= 0 && PageStart(n, offset) + limit <= n ==> hi == PageStart(n, offset) + limit
    ensures limit >= 0 && PageStart(n, offset) + limit > n ==> hi == n
  {
    var lo := PageStart(n, offset);
    if limit < 0 || lo + limit > n then n else lo + limit
  }

  /** `LIMIT limit OFFSET offset` applied to an ordered result. */
  function Page<T>(s: seq<T>, limit: int, offset: int): (r: seq<T>)
    ensures |r| == PageEnd(|s|, limit, offset) - PageStart(|s|, offset)
    ensures limit >= 0 ==> |r| <= limit
    ensures forall k :: 0 <= k < |r| ==> r[k] == s[PageStart(|s|, offset) + k]
  {
    s[PageStart(|s|, offset)..PageEnd(|s|, limit, offset)]
  }

  /** Consecutive pages of one size tile the result: nothing is skipped or repeated. */
  lemma PagesTile<T>(s: seq<T>, limit: nat, offset: nat)
    ensures Page(s, limit, offset) + Page(s, limit, offset + limit) == Page(s, 2 * limit, offset)
  {
    var a, b := Page(s, limit, offset), Page(s, limit, offset + limit);
    assert PageStart(|s|, offset + limit) == PageEnd(|s|, limit, offset);
    assert s[PageStart(|s|, offset)..PageEnd(|s|, 2 * limit, offset)]
        == s[PageStart(|s|, offset)..PageEnd(|s|, limit, offset)]
         + s[PageEnd(|s|, limit, offset)..PageEnd(|s|, 2 * limit, offset)];
  }

  /** With no limit and no offset the page is the whole result. */
  lemma WholePage<T>(s: seq<T>, limit: int, offset: int)
    requires limit < 0 && offset <= 0
    ensures Page(s, limit, offset) == s
  {
  }

  /** A page of the newest-first result of a query, and the size of the whole result. */
  datatype Window = Window(logs: seq<LogEntry>, total: nat)

  /**
   * `page` is what `ORDER BY createdAt DESC LIMIT limit OFFSET offset` returns for the
   * entries matching `c`: the window at `offset` of the matches in some newest-first order
   * (SQL leaves the order of equal timestamps open).
   */
  ghost predicate IsWindow(ls: seq<LogEntry>, c: Criteria, limit: int, offset: int, page: seq<LogEntry>)
  {
    exists all :: NewestFirstOrder(all) && multiset(all) == multiset(Select(ls, c)) && page == Page(all, limit, offset)
  }

  /**
   * The first page holds the newest matches: an entry it leaves out is no newer than any
   * entry it shows.
   */
  lemma FirstPageIsNewest(ls: seq<LogEntry>, c: Criteria, limit: int, offset: int, page: seq<LogEntry>)
    requires offset <= 0 && IsWindow(ls, c, limit, offset, page)
    ensures forall x, e :: x in page && e in Select(ls, c) && e !in page ==> e.createdAt <= x.createdAt
  {
    var all :| NewestFirstOrder(all) && multiset(all) == multiset(Select(ls, c)) && page == Page(all, limit, offset);
    forall x, e | x in page && e in Select(ls, c) && e !in page ensures e.createdAt <= x.createdAt {
      var i :| 0 <= i < |page| && page[i] == x;
      assert page[i] == all[i];
      assert e in multiset(all);
      var j :| 0 <= j < |all| && all[j] == e;
    }
  }

  /**
   * One log query: the page `limit`/`offset` of the entries matching `c`, newest first, and
   * a total from the separate COUNT statement.
   */
  function Query(ls: seq<LogEntry>, c: Criteria, limit: int, offset: int): (w: Window)
    ensures forall e :: e in w.logs ==> e in ls && Matches(c, e)
    ensures NewestFirstOrder(w.logs)
    ensures w.total == |Select(ls, c)|
    ensures |w.logs| == PageEnd(w.total, limit, offset) - PageStart(w.total, offset)
    ensures PageStart(w.total, offset) == 0 && PageEnd(w.total, limit, offset) == w.total ==>
              multiset(w.logs) == multiset(Select(ls, c))
    ensures IsWindow(ls, c, limit, offset, w.logs)
  {
    var sel := Select(ls, c);
    var all := NewestFirst(sel);
    var page := Page(all, limit, offset);
    CountIsSelectSize(ls, c);
    assert |all| == |multiset(all)| == |sel|;
    assert forall e :: e in page ==> e in all;
    assert forall e :: e in all ==> e in multiset(sel);
    assert PageStart(|all|, offset) == 0 && PageEnd(|all|, limit, offset) == |all| ==> page == all;
    Window(page, Count(ls, c))
  }
}
