/**
 * The four tables of server/src/db.js as values: one datatype per row, the column
 * defaults, the UNIQUE and FOREIGN KEY constraints as predicates, and the row-level
 * operations (look-ups, DELETE ... WHERE) with the lemmas that they keep the
 * constraints. Tables are sequences in rowid order; AUTOINCREMENT is a counter per table.
 */
module Tables {
  import opened Outcomes
  import Text

  /** Column defaults of items (db.js: `quantity REAL NOT NULL DEFAULT 0`, `unit ... DEFAULT 'lbs'`). */
  const DEFAULT_QUANTITY: real := 0.0
  const DEFAULT_UNIT: string := "lbs"
  /** AUTOINCREMENT hands out 1 first. */
  const FIRST_ID: nat := 1

  /** Unix seconds of a millisecond clock reading: `strftime('%s','now')`, `Math.floor(Date.now() / 1000)`. */
  function Seconds(nowMs: int): (s: int)
    ensures s * 1000 <= nowMs < s * 1000 + 1000
  {
    nowMs / 1000
  }

  datatype User = User(id: nat, companyName: string, email: string, passwordHash: string,
                       resetToken: Option<string>, resetTokenExpires: Option<int>)

  datatype Category = Category(id: nat, userId: nat, name: string, createdAt: int)

  datatype Item = Item(id: nat, userId: nat, categoryId: nat, name: string, quantity: real,
                       unit: string, createdAt: int, updatedAt: int)

  /** The values the handlers write into `activity_logs.action` and `.entityType`. */
  datatype Action = Created | Added | Took | Updated | Deleted
  datatype EntityType = CategoryEntity | ItemEntity

  datatype Change = Change(before: string, after: string)

  /** The `details` text of each handler, kept as the values its template interpolates. */
  datatype Detail =
    | InitialQuantity(quantity: real, unit: string)               // Quantity: {quantity}{unit}
    | AddedAmount(amount: real, newQuantity: real, unit: string)  // Added {amount}, new quantity: {newQuantity}{unit}
    | TookAmount(amount: real, newQuantity: real, unit: string)   // Took {amount}, new quantity: {newQuantity}{unit}
    | QuantityWas(quantity: real, unit: string)                   // Quantity was: {quantity}{unit}
    | NameChanged(change: Change)                                 // Name changed from "{before}" to "{after}"
    | ItemChanges(nameChange: Option<Change>, unitChange: Option<Change>)  // name: "{before}" → "{after}", unit: ...
    | DeletedWithItems(count: nat)                                // Deleted with {count} items

  /** `entityId`, `entityName` and `details` are nullable and refer to no other table. */
  datatype LogEntry = LogEntry(id: nat, userId: nat, action: Action, entityType: EntityType,
                               entityId: Option<nat>, entityName: Option<string>,
                               details: Option<Detail>, createdAt: int)

  /** The whole database: the four tables and their AUTOINCREMENT counters. */
  datatype Tables = Tables(users: seq<User>, categories: seq<Category>, items: seq<Item>,
                           logs: seq<LogEntry>, nextUserId: nat, nextCategoryId: nat,
                           nextItemId: nat, nextLogId: nat)

  /** The tables after a request, and its answer. */
  datatype Outcome<T> = Outcome(tables: Tables, result: Result<T>)

  function EmptyTables(): (t: Tables)
    ensures Consistent(t)
  {
    Tables([], [], [], [], FIRST_ID, FIRST_ID, FIRST_ID, FIRST_ID)
  }

  // ---------------------------------------------------------------- constraints

  predicate HasUser(us: seq<User>, id: nat)
  {
    exists i :: 0 <= i < |us| && us[i].id == id
  }

  /** A category with id `categoryId` owned by `userId` exists. */
  predicate OwnsCategory(cs: seq<Category>, categoryId: nat, userId: nat)
  {
    exists i :: 0 <= i < |cs| && cs[i].id == categoryId && cs[i].userId == userId
  }

  ghost predicate UserIdsAscending(us: seq<User>)
  {
    forall i, j :: 0 <= i < j < |us| ==> us[i].id < us[j].id
  }

  ghost predicate CategoryIdsAscending(cs: seq<Category>)
  {
    forall i, j :: 0 <= i < j < |cs| ==> cs[i].id < cs[j].id
  }

  ghost predicate ItemIdsAscending(its: seq<Item>)
  {
    forall i, j :: 0 <= i < j < |its| ==> its[i].id < its[j].id
  }

  ghost predicate LogIdsAscending(ls: seq<LogEntry>)
  {
    forall i, j :: 0 <= i < j < |ls| ==> ls[i].id < ls[j].id
  }

  /** users: ids from AUTOINCREMENT, `email TEXT NOT NULL UNIQUE`, emails stored lower-cased. */
  ghost predicate UsersOk(us: seq<User>, next: nat)
  {
    && FIRST_ID <= next
    && UserIdsAscending(us)
    && (forall i :: 0 <= i < |us| ==> FIRST_ID <= us[i].id < next)
    && (forall i, j :: 0 <= i < j < |us| ==> us[i].email != us[j].email)
    && (forall i :: 0 <= i < |us| ==> Text.IsLowerCase(us[i].email))
  }

  /** categories: FOREIGN KEY (userId) and UNIQUE(userId, name). */
  ghost predicate CategoriesOk(us: seq<User>, cs: seq<Category>, next: nat)
  {
    && FIRST_ID <= next
    && CategoryIdsAscending(cs)
    && (forall i :: 0 <= i < |cs| ==> FIRST_ID <= cs[i].id < next)
    && (forall i :: 0 <= i < |cs| ==> HasUser(us, cs[i].userId))
    && (forall i, j :: 0 <= i < j < |cs| && cs[i].userId == cs[j].userId ==> cs[i].name != cs[j].name)
  }

  /**
   * items: FOREIGN KEY (categoryId), UNIQUE(userId, categoryId, name), and the invariant
   * the handlers keep on top of the schema: an item's category belongs to the item's user.
   */
  ghost predicate ItemsOk(cs: seq<Category>, its: seq<Item>, next: nat)
  {
    && FIRST_ID <= next
    && ItemIdsAscending(its)
    && (forall i :: 0 <= i < |its| ==> FIRST_ID <= its[i].id < next)
    && (forall i :: 0 <= i < |its| ==> OwnsCategory(cs, its[i].categoryId, its[i].userId))
    && (forall i, j :: 0 <= i < j < |its| && its[i].userId == its[j].userId && its[i].categoryId == its[j].categoryId
          ==> its[i].name != its[j].name)
  }

  /** activity_logs: FOREIGN KEY (userId) only; entityId refers to nothing. */
  ghost predicate LogsOk(us: seq<User>, ls: seq<LogEntry>, next: nat)
  {
    && FIRST_ID <= next
    && LogIdsAscending(ls)
    && (forall i :: 0 <= i < |ls| ==> FIRST_ID <= ls[i].id < next)
    && (forall i :: 0 <= i < |ls| ==> HasUser(us, ls[i].userId))
  }

  ghost predicate Consistent(t: Tables)
  {
    && UsersOk(t.users, t.nextUserId)
    && CategoriesOk(t.users, t.categories, t.nextCategoryId)
    && ItemsOk(t.categories, t.items, t.nextItemId)
    && LogsOk(t.users, t.logs, t.nextLogId)
  }

  /** Another row than `except` of `userId` is already called `name`: UNIQUE(userId, name) would reject it. */
  predicate CategoryNameTaken(cs: seq<Category>, userId: nat, name: string, except: Option<nat>)
  {
    exists i :: 0 <= i < |cs| && cs[i].userId == userId && cs[i].name == name && Some(cs[i].id) != except
  }

  /** UNIQUE(userId, categoryId, name) would reject a row other than `except` with this key. */
  predicate ItemNameTaken(its: seq<Item>, userId: nat, categoryId: nat, name: string, except: Option<nat>)
  {
    exists i :: 0 <= i < |its| && its[i].userId == userId && its[i].categoryId == categoryId
                && its[i].name == name && Some(its[i].id) != except
  }

  // ---------------------------------------------------------------- SELECT by key

  /** `SELECT * FROM users WHERE email = ?`: the index of the row, if any. */
  function FindUserByEmail(us: seq<User>, email: string): (r: Option<nat>)
    ensures r.Some? ==> r.value < |us| && us[r.value].email == email
    ensures r.None? <==> forall i :: 0 <= i < |us| ==> us[i].email != email
  {
    if us == [] then None
    else if us[|us| - 1].email == email then Some(|us| - 1)
    else FindUserByEmail(us[..|us| - 1], email)
  }

  /** `SELECT * FROM categories WHERE id = ? AND userId = ?`. */
  function FindCategory(cs: seq<Category>, id: nat, userId: nat): (r: Option<nat>)
    ensures r.Some? ==> r.value < |cs| && cs[r.value].id == id && cs[r.value].userId == userId
    ensures r.None? <==> !OwnsCategory(cs, id, userId)
  {
    if cs == [] then None
    else if cs[|cs| - 1].id == id && cs[|cs| - 1].userId == userId then Some(|cs| - 1)
    else
      var r := FindCategory(cs[..|cs| - 1], id, userId);
      assert OwnsCategory(cs[..|cs| - 1], id, userId) ==> OwnsCategory(cs, id, userId);
      r
  }

  /** The item rows owned by a user, as `WHERE id = ? AND userId = ?` sees them. */
  predicate OwnsItem(its: seq<Item>, id: nat, userId: nat)
  {
    exists i :: 0 <= i < |its| && its[i].id == id && its[i].userId == userId
  }

  /** `SELECT * FROM items WHERE id = ? AND userId = ?`. */
  function FindItem(its: seq<Item>, id: nat, userId: nat): (r: Option<nat>)
    ensures r.Some? ==> r.value < |its| && its[r.value].id == id && its[r.value].userId == userId
    ensures r.None? <==> !OwnsItem(its, id, userId)
  {
    if its == [] then None
    else if its[|its| - 1].id == id && its[|its| - 1].userId == userId then Some(|its| - 1)
    else
      var r := FindItem(its[..|its| - 1], id, userId);
      assert OwnsItem(its[..|its| - 1], id, userId) ==> OwnsItem(its, id, userId);
      r
  }

  /** `SELECT COUNT(*) FROM items WHERE categoryId = ?`; `InventoryRoutes.DeleteItemsCount` proves it is the number of rows the matching DELETE removes. */
  function CountInCategory(its: seq<Item>, categoryId: nat): (n: nat)
    ensures n <= |its|
    ensures n == 0 <==> forall i :: 0 <= i < |its| ==> its[i].categoryId != categoryId
  {
    if its == [] then 0
    else (if its[0].categoryId == categoryId then 1 else 0) + CountInCategory(its[1..], categoryId)
  }

  // ---------------------------------------------------------------- DELETE ... WHERE

  datatype CategoryWhere = CategoryIdIs(id: nat) | CategoryUserIs(userId: nat)
  datatype ItemWhere = ItemIdIs(id: nat) | ItemCategoryIs(categoryId: nat) | ItemUserIs(userId: nat)
  datatype LogWhere = LogUserIs(userId: nat) | CreatedBefore(cutoff: int)

  predicate CategorySelected(w: CategoryWhere, c: Category)
  {
    match w
    case CategoryIdIs(id) => c.id == id
    case CategoryUserIs(u) => c.userId == u
  }

  predicate ItemSelected(w: ItemWhere, it: Item)
  {
    match w
    case ItemIdIs(id) => it.id == id
    case ItemCategoryIs(c) => it.categoryId == c
    case ItemUserIs(u) => it.userId == u
  }

  predicate LogSelected(w: LogWhere, e: LogEntry)
  {
    match w
    case LogUserIs(u) => e.userId == u
    case CreatedBefore(cutoff) => e.createdAt < cutoff
  }

  /** `DELETE FROM users WHERE id = ?`. */
  function DeleteUserRow(us: seq<User>, id: nat): (r: seq<User>)
    ensures forall x :: x in r <==> x in us && x.id != id
  {
    if us == [] then []
    else
      var rest := DeleteUserRow(us[1..], id);
      assert us == [us[0]] + us[1..];
      if us[0].id == id then rest else [us[0]] + rest
  }

  /** `DELETE FROM categories WHERE ...`. */
  function DeleteCategories(cs: seq<Category>, w: CategoryWhere): (r: seq<Category>)
    ensures forall x :: x in r <==> x in cs && !CategorySelected(w, x)
  {
    if cs == [] then []
    else
      var rest := DeleteCategories(cs[1..], w);
      assert cs == [cs[0]] + cs[1..];
      if CategorySelected(w, cs[0]) then rest else [cs[0]] + rest
  }

  /** `DELETE FROM items WHERE ...`. */
  function DeleteItems(its: seq<Item>, w: ItemWhere): (r: seq<Item>)
    ensures forall x :: x in r <==> x in its && !ItemSelected(w, x)
  {
    if its == [] then []
    else
      var rest := DeleteItems(its[1..], w);
      assert its == [its[0]] + its[1..];
      if ItemSelected(w, its[0]) then rest else [its[0]] + rest
  }

  /** `DELETE FROM activity_logs WHERE ...`. */
  function DeleteLogs(ls: seq<LogEntry>, w: LogWhere): (r: seq<LogEntry>)
    ensures |r| <= |ls|
    ensures forall x :: x in r <==> x in ls && !LogSelected(w, x)
  {
    if ls == [] then []
    else
      var rest := DeleteLogs(ls[1..], w);
      assert ls == [ls[0]] + ls[1..];
      if LogSelected(w, ls[0]) then rest else [ls[0]] + rest
  }

  // A DELETE keeps the rows it leaves in their rowid order; every kept id stays above a bound `b`
  // that all ids were above.

  lemma {:induction false} DeleteUserRowAscending(us: seq<User>, id: nat, b: int)
    requires UserIdsAscending(us) && forall i :: 0 <= i < |us| ==> b < us[i].id
    ensures var r := DeleteUserRow(us, id);
      UserIdsAscending(r) && forall k :: 0 <= k < |r| ==> b < r[k].id
  {
    if us != [] {
      var tail := us[1..];
      assert forall i :: 0 <= i < |tail| ==> tail[i] == us[i + 1];
      DeleteUserRowAscending(tail, id, us[0].id);
      if us[0].id != id {
        UserConsAscending(us[0], DeleteUserRow(tail, id), b);
      }
    }
  }

  lemma UserConsAscending(x: User, rest: seq<User>, b: int)
    requires UserIdsAscending(rest) && forall k :: 0 <= k < |rest| ==> x.id < rest[k].id
    requires b < x.id
    ensures UserIdsAscending([x] + rest) && forall k :: 0 <= k < |[x] + rest| ==> b < ([x] + rest)[k].id
  {
    var r := [x] + rest;
    assert forall k :: 1 <= k < |r| ==> r[k] == rest[k - 1];
  }

  lemma {:induction false} DeleteCategoriesAscending(cs: seq<Category>, w: CategoryWhere, b: int)
    requires CategoryIdsAscending(cs) && forall i :: 0 <= i < |cs| ==> b < cs[i].id
    ensures var r := DeleteCategories(cs, w);
      CategoryIdsAscending(r) && forall k :: 0 <= k < |r| ==> b < r[k].id
  {
    if cs != [] {
      var tail := cs[1..];
      assert forall i :: 0 <= i < |tail| ==> tail[i] == cs[i + 1];
      DeleteCategoriesAscending(tail, w, cs[0].id);
      if !CategorySelected(w, cs[0]) {
        CategoryConsAscending(cs[0], DeleteCategories(tail, w), b);
      }
    }
  }

  lemma CategoryConsAscending(x: Category, rest: seq<Category>, b: int)
    requires CategoryIdsAscending(rest) && forall k :: 0 <= k < |rest| ==> x.id < rest[k].id
    requires b < x.id
    ensures CategoryIdsAscending([x] + rest) && forall k :: 0 <= k < |[x] + rest| ==> b < ([x] + rest)[k].id
  {
    var r := [x] + rest;
    assert forall k :: 1 <= k < |r| ==> r[k] == rest[k - 1];
  }

  lemma {:induction false} DeleteItemsAscending(its: seq<Item>, w: ItemWhere, b: int)
    requires ItemIdsAscending(its) && forall i :: 0 <= i < |its| ==> b < its[i].id
    ensures var r := DeleteItems(its, w);
      ItemIdsAscending(r) && forall k :: 0 <= k < |r| ==> b < r[k].id
  {
    if its != [] {
      var tail := its[1..];
      assert forall i :: 0 <= i < |tail| ==> tail[i] == its[i + 1];
      DeleteItemsAscending(tail, w, its[0].id);
      if !ItemSelected(w, its[0]) {
        ItemConsAscending(its[0], DeleteItems(tail, w), b);
      }
    }
  }

  lemma ItemConsAscending(x: Item, rest: seq<Item>, b: int)
    requires ItemIdsAscending(rest) && forall k :: 0 <= k < |rest| ==> x.id < rest[k].id
    requires b < x.id
    ensures ItemIdsAscending([x] + rest) && forall k :: 0 <= k < |[x] + rest| ==> b < ([x] + rest)[k].id
  {
    var r := [x] + rest;
    assert forall k :: 1 <= k < |r| ==> r[k] == rest[k - 1];
  }

  lemma {:induction false} DeleteLogsAscending(ls: seq<LogEntry>, w: LogWhere, b: int)
    requires LogIdsAscending(ls) && forall i :: 0 <= i < |ls| ==> b < ls[i].id
    ensures var r := DeleteLogs(ls, w);
      LogIdsAscending(r) && forall k :: 0 <= k < |r| ==> b < r[k].id
  {
    if ls != [] {
      var tail := ls[1..];
      assert forall i :: 0 <= i < |tail| ==> tail[i] == ls[i + 1];
      DeleteLogsAscending(tail, w, ls[0].id);
      if !LogSelected(w, ls[0]) {
        LogConsAscending(ls[0], DeleteLogs(tail, w), b);
      }
    }
  }

  lemma LogConsAscending(x: LogEntry, rest: seq<LogEntry>, b: int)
    requires LogIdsAscending(rest) && forall k :: 0 <= k < |rest| ==> x.id < rest[k].id
    requires b < x.id
    ensures LogIdsAscending([x] + rest) && forall k :: 0 <= k < |[x] + rest| ==> b < ([x] + rest)[k].id
  {
    var r := [x] + rest;
    assert forall k :: 1 <= k < |r| ==> r[k] == rest[k - 1];
  }

  // ---------------------------------------------------------------- the writes keep the constraints

  lemma InsertUserOk(t: Tables, u: User)
    requires Consistent(t)
    requires u.id == t.nextUserId && Text.IsLowerCase(u.email)
    requires FindUserByEmail(t.users, u.email).None?
    ensures Consistent(t.(users := t.users + [u], nextUserId := t.nextUserId + 1))
  {
    var us := t.users + [u];
    forall id | HasUser(t.users, id) ensures HasUser(us, id) {
      var i :| 0 <= i < |t.users| && t.users[i].id == id;
      assert us[i] == t.users[i];
    }
  }

  /** Rewriting a user row in place (reset token, password) with its id and email unchanged. */
  lemma UpdateUserOk(t: Tables, k: nat, u: User)
    requires Consistent(t) && k < |t.users|
    requires u.id == t.users[k].id && u.email == t.users[k].email
    ensures Consistent(t.(users := t.users[k := u]))
  {
    var us := t.users[k := u];
    forall id | HasUser(t.users, id) ensures HasUser(us, id) {
      var i :| 0 <= i < |t.users| && t.users[i].id == id;
      assert us[i].id == id;
    }
  }

  lemma InsertCategoryOk(t: Tables, c: Category)
    requires Consistent(t)
    requires c.id == t.nextCategoryId && HasUser(t.users, c.userId)
    requires !CategoryNameTaken(t.categories, c.userId, c.name, None)
    ensures Consistent(t.(categories := t.categories + [c], nextCategoryId := t.nextCategoryId + 1))
  {
    var cs := t.categories + [c];
    forall id, u | OwnsCategory(t.categories, id, u) ensures OwnsCategory(cs, id, u) {
      var i :| 0 <= i < |t.categories| && t.categories[i].id == id && t.categories[i].userId == u;
      assert cs[i] == t.categories[i];
    }
  }

  /** `UPDATE categories SET name = ? WHERE id = ?` on row `k`. */
  lemma RenameCategoryOk(t: Tables, k: nat, name: string)
    requires Consistent(t) && k < |t.categories|
    requires !CategoryNameTaken(t.categories, t.categories[k].userId, name, Some(t.categories[k].id))
    ensures Consistent(t.(categories := t.categories[k := t.categories[k].(name := name)]))
  {
    var cs := t.categories[k := t.categories[k].(name := name)];
    forall id, u | OwnsCategory(t.categories, id, u) ensures OwnsCategory(cs, id, u) {
      var i :| 0 <= i < |t.categories| && t.categories[i].id == id && t.categories[i].userId == u;
      assert cs[i].id == id && cs[i].userId == u;
    }
    forall i, j | 0 <= i < j < |cs| && cs[i].userId == cs[j].userId ensures cs[i].name != cs[j].name {
      if i == k {
        assert t.categories[j].id != t.categories[k].id;
      } else if j == k {
        assert t.categories[i].id != t.categories[k].id;
      }
    }
  }

  /** Deleting a category row once no item refers to it. */
  lemma DeleteCategoryOk(t: Tables, id: nat)
    requires Consistent(t)
    requires forall i :: 0 <= i < |t.items| ==> t.items[i].categoryId != id
    ensures Consistent(t.(categories := DeleteCategories(t.categories, CategoryIdIs(id))))
  {
    var cs := DeleteCategories(t.categories, CategoryIdIs(id));
    DeleteCategoriesAscending(t.categories, CategoryIdIs(id), -1);
    CategoriesKept(t.users, t.categories, t.nextCategoryId, cs);
    forall i | 0 <= i < |t.items| ensures OwnsCategory(cs, t.items[i].categoryId, t.items[i].userId) {
      assert OwnsCategory(t.categories, t.items[i].categoryId, t.items[i].userId);
      var j :| 0 <= j < |t.categories| && t.categories[j].id == t.items[i].categoryId
               && t.categories[j].userId == t.items[i].userId;
      assert t.categories[j] in cs;
      var m :| 0 <= m < |cs| && cs[m] == t.categories[j];
    }
  }

  /** Any ascending selection of category rows keeps the category constraints. */
  lemma CategoriesKept(us: seq<User>, cs: seq<Category>, next: nat, r: seq<Category>)
    requires CategoriesOk(us, cs, next)
    requires CategoryIdsAscending(r) && forall x :: x in r ==> x in cs
    ensures CategoriesOk(us, r, next)
  {
    forall i | 0 <= i < |r| ensures FIRST_ID <= r[i].id < next && HasUser(us, r[i].userId) {
      assert r[i] in cs;
    }
    forall i, j | 0 <= i < j < |r| && r[i].userId == r[j].userId ensures r[i].name != r[j].name {
      assert r[i] in cs && r[j] in cs;
      var a :| 0 <= a < |cs| && cs[a] == r[i];
      var b :| 0 <= b < |cs| && cs[b] == r[j];
      assert a != b;
    }
  }

  lemma InsertItemOk(t: Tables, it: Item)
    requires Consistent(t)
    requires it.id == t.nextItemId && OwnsCategory(t.categories, it.categoryId, it.userId)
    requires !ItemNameTaken(t.items, it.userId, it.categoryId, it.name, None)
    ensures Consistent(t.(items := t.items + [it], nextItemId := t.nextItemId + 1))
  {
  }

  /** `UPDATE items SET ... WHERE id = ?` on row `k`, keeping its id, owner and category. */
  lemma UpdateItemOk(t: Tables, k: nat, it: Item)
    requires Consistent(t) && k < |t.items|
    requires it.id == t.items[k].id && it.userId == t.items[k].userId && it.categoryId == t.items[k].categoryId
    requires !ItemNameTaken(t.items, it.userId, it.categoryId, it.name, Some(it.id))
    ensures Consistent(t.(items := t.items[k := it]))
  {
    var its := t.items[k := it];
    forall i, j | 0 <= i < j < |its| && its[i].userId == its[j].userId && its[i].categoryId == its[j].categoryId
      ensures its[i].name != its[j].name
    {
      if i == k {
        assert t.items[j].id != it.id;
      } else if j == k {
        assert t.items[i].id != it.id;
      }
    }
  }

  /** Any ascending selection of item rows keeps the item constraints. */
  lemma ItemsKept(cs: seq<Category>, its: seq<Item>, next: nat, r: seq<Item>)
    requires ItemsOk(cs, its, next)
    requires ItemIdsAscending(r) && forall x :: x in r ==> x in its
    ensures ItemsOk(cs, r, next)
  {
    forall i | 0 <= i < |r|
      ensures FIRST_ID <= r[i].id < next && OwnsCategory(cs, r[i].categoryId, r[i].userId)
    {
      assert r[i] in its;
    }
    forall i, j | 0 <= i < j < |r| && r[i].userId == r[j].userId && r[i].categoryId == r[j].categoryId
      ensures r[i].name != r[j].name
    {
      assert r[i] in its && r[j] in its;
      var a :| 0 <= a < |its| && its[a] == r[i];
      var b :| 0 <= b < |its| && its[b] == r[j];
      assert a != b;
    }
  }

  lemma DeleteItemsOk(t: Tables, w: ItemWhere)
    requires Consistent(t)
    ensures Consistent(t.(items := DeleteItems(t.items, w)))
  {
    DeleteItemsAscending(t.items, w, -1);
    ItemsKept(t.categories, t.items, t.nextItemId, DeleteItems(t.items, w));
  }

  lemma AppendLogOk(t: Tables, e: LogEntry)
    requires Consistent(t)
    requires e.id == t.nextLogId && HasUser(t.users, e.userId)
    ensures Consistent(t.(logs := t.logs + [e], nextLogId := t.nextLogId + 1))
  {
  }

  /** Any ascending selection of log rows keeps the log constraints. */
  lemma LogsKept(us: seq<User>, ls: seq<LogEntry>, next: nat, r: seq<LogEntry>)
    requires LogsOk(us, ls, next)
    requires LogIdsAscending(r) && forall x :: x in r ==> x in ls
    ensures LogsOk(us, r, next)
  {
    forall i | 0 <= i < |r| ensures FIRST_ID <= r[i].id < next && HasUser(us, r[i].userId) {
      assert r[i] in ls;
    }
  }

  lemma DeleteLogsOk(t: Tables, w: LogWhere)
    requires Consistent(t)
    ensures Consistent(t.(logs := DeleteLogs(t.logs, w)))
  {
    DeleteLogsAscending(t.logs, w, -1);
    LogsKept(t.users, t.logs, t.nextLogId, DeleteLogs(t.logs, w));
  }

  /**
   * ON DELETE CASCADE from users: removing a user row removes the user's categories,
   * items and log entries (by their userId foreign keys; the items of the user's
   * categories are the same rows, since an item's category has the item's user).
   */
  function DeleteUserCascade(t: Tables, userId: nat): (r: Tables)
    requires Consistent(t)
    ensures Consistent(r)
    ensures forall u :: u in r.users <==> u in t.users && u.id != userId
    ensures forall c :: c in r.categories <==> c in t.categories && c.userId != userId
    ensures forall it :: it in r.items <==> it in t.items && it.userId != userId
    ensures forall e :: e in r.logs <==> e in t.logs && e.userId != userId
  {
    var us := DeleteUserRow(t.users, userId);
    var cs := DeleteCategories(t.categories, CategoryUserIs(userId));
    var its := DeleteItems(t.items, ItemUserIs(userId));
    var ls := DeleteLogs(t.logs, LogUserIs(userId));
    DeleteUserCascadeOk(t, userId, us, cs, its, ls);
    t.(users := us, categories := cs, items := its, logs := ls)
  }

  lemma DeleteUserCascadeOk(t: Tables, userId: nat, us: seq<User>, cs: seq<Category>, its: seq<Item>, ls: seq<LogEntry>)
    requires Consistent(t)
    requires us == DeleteUserRow(t.users, userId)
    requires cs == DeleteCategories(t.categories, CategoryUserIs(userId))
    requires its == DeleteItems(t.items, ItemUserIs(userId))
    requires ls == DeleteLogs(t.logs, LogUserIs(userId))
    ensures Consistent(t.(users := us, categories := cs, items := its, logs := ls))
  {
    DeleteUserRowAscending(t.users, userId, -1);
    UsersKept(t.users, t.nextUserId, us);
    CascadeCategoriesOk(t.users, t.categories, t.nextCategoryId, userId);
    CascadeItemsOk(t.categories, t.items, t.nextItemId, userId);
    CascadeLogsOk(t.users, t.logs, t.nextLogId, userId);
  }

  /** After the cascade every remaining user id is still a user, except the deleted one. */
  lemma OtherUsersKept(us: seq<User>, userId: nat)
    ensures forall id :: HasUser(us, id) && id != userId ==> HasUser(DeleteUserRow(us, userId), id)
  {
    forall id | HasUser(us, id) && id != userId ensures HasUser(DeleteUserRow(us, userId), id) {
      UserKept(us, DeleteUserRow(us, userId), id);
    }
  }

  lemma CascadeCategoriesOk(us: seq<User>, cs: seq<Category>, next: nat, userId: nat)
    requires CategoriesOk(us, cs, next)
    ensures CategoriesOk(DeleteUserRow(us, userId), DeleteCategories(cs, CategoryUserIs(userId)), next)
  {
    var r := DeleteCategories(cs, CategoryUserIs(userId));
    DeleteCategoriesAscending(cs, CategoryUserIs(userId), -1);
    CategoriesKept(us, cs, next, r);
    forall i | 0 <= i < |r| ensures r[i].userId != userId { assert r[i] in r; }
    OtherUsersKept(us, userId);
    CategoriesMoveUsers(us, DeleteUserRow(us, userId), r, next, userId);
  }

  lemma CascadeItemsOk(cs: seq<Category>, its: seq<Item>, next: nat, userId: nat)
    requires ItemsOk(cs, its, next)
    ensures ItemsOk(DeleteCategories(cs, CategoryUserIs(userId)), DeleteItems(its, ItemUserIs(userId)), next)
  {
    var r := DeleteItems(its, ItemUserIs(userId));
    DeleteItemsAscending(its, ItemUserIs(userId), -1);
    ItemsKept(cs, its, next, r);
    forall i | 0 <= i < |r| ensures r[i].userId != userId { assert r[i] in r; }
    ItemsMoveCategories(cs, DeleteCategories(cs, CategoryUserIs(userId)), r, next, userId);
  }

  lemma CascadeLogsOk(us: seq<User>, ls: seq<LogEntry>, next: nat, userId: nat)
    requires LogsOk(us, ls, next)
    ensures LogsOk(DeleteUserRow(us, userId), DeleteLogs(ls, LogUserIs(userId)), next)
  {
    var r := DeleteLogs(ls, LogUserIs(userId));
    DeleteLogsAscending(ls, LogUserIs(userId), -1);
    LogsKept(us, ls, next, r);
    forall i | 0 <= i < |r| ensures r[i].userId != userId { assert r[i] in r; }
    OtherUsersKept(us, userId);
    LogsMoveUsers(us, DeleteUserRow(us, userId), r, next, userId);
  }

  lemma UsersKept(us: seq<User>, next: nat, r: seq<User>)
    requires UsersOk(us, next)
    requires UserIdsAscending(r) && forall x :: x in r ==> x in us
    ensures UsersOk(r, next)
  {
    forall i | 0 <= i < |r| ensures FIRST_ID <= r[i].id < next && Text.IsLowerCase(r[i].email) {
      assert r[i] in us;
    }
    forall i, j | 0 <= i < j < |r| ensures r[i].email != r[j].email {
      assert r[i] in us && r[j] in us;
      var a :| 0 <= a < |us| && us[a] == r[i];
      var b :| 0 <= b < |us| && us[b] == r[j];
      assert a != b;
    }
  }

  lemma UserKept(us: seq<User>, r: seq<User>, id: nat)
    requires HasUser(us, id)
    requires forall x :: x in us && x.id == id ==> x in r
    ensures HasUser(r, id)
  {
    var i :| 0 <= i < |us| && us[i].id == id;
    assert us[i] in r;
    var m :| 0 <= m < |r| && r[m] == us[i];
  }

  lemma CategoriesMoveUsers(us: seq<User>, us': seq<User>, cs: seq<Category>, next: nat, gone: nat)
    requires CategoriesOk(us, cs, next)
    requires forall i :: 0 <= i < |cs| ==> cs[i].userId != gone
    requires forall id :: HasUser(us, id) && id != gone ==> HasUser(us', id)
    ensures CategoriesOk(us', cs, next)
  {
  }

  lemma LogsMoveUsers(us: seq<User>, us': seq<User>, ls: seq<LogEntry>, next: nat, gone: nat)
    requires LogsOk(us, ls, next)
    requires forall i :: 0 <= i < |ls| ==> ls[i].userId != gone
    requires forall id :: HasUser(us, id) && id != gone ==> HasUser(us', id)
    ensures LogsOk(us', ls, next)
  {
  }

  lemma ItemsMoveCategories(cs: seq<Category>, cs': seq<Category>, its: seq<Item>, next: nat, gone: nat)
    requires ItemsOk(cs, its, next)
    requires forall i :: 0 <= i < |its| ==> its[i].userId != gone
    requires forall x :: x in cs && x.userId != gone ==> x in cs'
    ensures ItemsOk(cs', its, next)
  {
    forall i | 0 <= i < |its| ensures OwnsCategory(cs', its[i].categoryId, its[i].userId) {
      var j :| 0 <= j < |cs| && cs[j].id == its[i].categoryId && cs[j].userId == its[i].userId;
      assert cs[j] in cs';
      var m :| 0 <= m < |cs'| && cs'[m] == cs[j];
    }
  }
}
