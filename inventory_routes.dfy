/**
 * server/src/routes/inventoryRoutes.js: the tenant-scoped handlers behind `/api/inventory`.
 *
 * Every mutating handler appears twice: a function `...Outcome` on `Tables` that says what
 * the request does to the database and what it answers, with the properties the handler
 * promises as its contract, and a method on `Store` that performs the same steps in place
 * and is proved to reach exactly that outcome. `userId` is the authenticated caller
 * (`req.user.sub`), `now` the clock in milliseconds, and `logStored` whether the audit
 * insert of `logActivity` succeeds.
 */
module InventoryRoutes {
  import opened Outcomes
  import opened Tables
  import opened Db
  import opened ActivityLogger
  import opened Queries
  import Text

  /** `const { amount = 1 } = req.body`. */
  const DEFAULT_AMOUNT: real := 1.0

  /** `limit` when the query string gives none (or 0): 50 for the log, 3 for an item's history. */
  const DEFAULT_LOG_LIMIT: int := 50
  const DEFAULT_HISTORY_LIMIT: int := 3

  /**
   * `after` has the log of `before` with one more entry, numbered `nextLogId` and carrying
   * these columns and the current time in seconds, when the audit insert succeeds; the log
   * and its counter are those of `before` when the insert fails.
   */
  ghost predicate Audited(before: Tables, after: Tables, stored: bool, userId: nat,
                          action: Action, entityType: EntityType, entityId: Option<nat>,
                          entityName: Option<string>, details: Option<Detail>, now: int)
  {
    if stored then
      && |after.logs| == |before.logs| + 1
      && after.logs[..|before.logs|] == before.logs
      && after.logs[|before.logs|]
         == LogEntry(before.nextLogId, userId, action, entityType, entityId, entityName, details, Seconds(now))
      && after.nextLogId == before.nextLogId + 1
    else after.logs == before.logs && after.nextLogId == before.nextLogId
  }

  /** `!name || typeof name !== 'string' || !name.trim()`, negated: a usable name was sent. */
  predicate NameGiven(name: Option<string>)
  {
    name.Some? && Text.Trim(name.value) != ""
  }

  // ---------------------------------------------------------------- POST /categories

  function CreateCategoryOutcome(t: Tables, userId: nat, name: Option<string>, now: int, logStored: bool): (o: Outcome<Category>)
    ensures o.result.Ok? || o.result == Err(MissingInput) || o.result == Err(Conflict)
    ensures o.result == Err(MissingInput) <==> !NameGiven(name)
    ensures o.result == Err(Conflict) <==>
              NameGiven(name) && CategoryNameTaken(t.categories, userId, Text.Trim(name.value), None)
    ensures o.result.Err? ==> o.tables == t
    ensures o.result.Ok? ==>
              && o.result.value == Category(t.nextCategoryId, userId, Text.Trim(name.value), Seconds(now))
              && o.tables.categories == t.categories + [o.result.value]
              && o.tables.users == t.users && o.tables.items == t.items
              && Audited(t, o.tables, logStored, userId, Created, CategoryEntity,
                         Some(o.result.value.id), Some(o.result.value.name), None, now)
  {
    if !NameGiven(name) then Outcome(t, Err(MissingInput))
    else
      var trimmed := Text.Trim(name.value);
      if CategoryNameTaken(t.categories, userId, trimmed, None) then Outcome(t, Err(Conflict))
      else
        var c := Category(t.nextCategoryId, userId, trimmed, Seconds(now));
        var t1 := t.(categories := t.categories + [c], nextCategoryId := t.nextCategoryId + 1);
        Outcome(Recorded(t1, userId, Created, CategoryEntity, Some(c.id), Some(c.name), None, now, logStored), Ok(c))
  }

  lemma CreateCategoryKeepsConsistent(t: Tables, userId: nat, name: Option<string>, now: int, logStored: bool)
    requires Consistent(t) && HasUser(t.users, userId)
    ensures Consistent(CreateCategoryOutcome(t, userId, name, now, logStored).tables)
  {
    if NameGiven(name) && !CategoryNameTaken(t.categories, userId, Text.Trim(name.value), None) {
      var c := Category(t.nextCategoryId, userId, Text.Trim(name.value), Seconds(now));
      InsertCategoryOk(t, c);
      RecordedOk(t.(categories := t.categories + [c], nextCategoryId := t.nextCategoryId + 1),
                 userId, Created, CategoryEntity, Some(c.id), Some(c.name), None, now, logStored);
    }
  }

  /** POST `/categories`: 400 without a name, 409 on a duplicate of the caller's, else 201. */
  method CreateCategory(db: Store, userId: nat, name: Option<string>, now: int, logStored: bool) returns (r: Result<Category>)
    requires db.Valid() && HasUser(db.users, userId)
    modifies db
    ensures db.Valid()
    ensures var o := CreateCategoryOutcome(old(db.Snapshot()), userId, name, now, logStored);
      db.Snapshot() == o.tables && r == o.result
  {
    if !NameGiven(name) {
      return Err(MissingInput);
    }
    var trimmed := Text.Trim(name.value);
    if CategoryNameTaken(db.categories, userId, trimmed, None) {
      return Err(Conflict);
    }
    var category := Category(db.nextCategoryId, userId, trimmed, Seconds(now));
    InsertCategory(db, category, now, logStored);
    r := Ok(category);
  }

  /** The INSERT of a checked category row, then its `created` audit entry. */
  method InsertCategory(db: Store, category: Category, now: int, logStored: bool)
    requires db.Valid() && category.id == db.nextCategoryId && HasUser(db.users, category.userId)
    requires !CategoryNameTaken(db.categories, category.userId, category.name, None)
    modifies db
    ensures db.Valid()
    ensures db.Snapshot() == Recorded(old(db.Snapshot()).(categories := old(db.categories) + [category],
                                                          nextCategoryId := category.id + 1),
                                      category.userId, Created, CategoryEntity, Some(category.id),
                                      Some(category.name), None, now, logStored)
  {
    ghost var t := db.Snapshot();
    InsertCategoryOk(t, category);
    db.categories, db.nextCategoryId := db.categories + [category], db.nextCategoryId + 1;
    assert db.Snapshot() == t.(categories := t.categories + [category], nextCategoryId := t.nextCategoryId + 1);
    LogActivity(db, category.userId, Created, CategoryEntity, Some(category.id), Some(category.name), None,
                now, logStored);
  }

  // ---------------------------------------------------------------- POST /items

  /** `!categoryId`: absent or 0. */
  predicate CategoryIdGiven(categoryId: Option<nat>)
  {
    categoryId.Some? && categoryId.value != 0
  }

  /** The row `INSERT INTO items` writes, with the body's defaults for quantity and unit. */
  function NewItem(t: Tables, userId: nat, categoryId: nat, name: string, quantity: Option<real>,
                   unit: Option<string>, now: int): (it: Item)
    ensures quantity.None? ==> it.quantity == DEFAULT_QUANTITY
    ensures quantity.Some? ==> it.quantity == quantity.value
    ensures unit.None? ==> it.unit == DEFAULT_UNIT
    ensures unit.Some? ==> it.unit == unit.value
    ensures it.id == t.nextItemId && it.userId == userId && it.categoryId == categoryId && it.name == name
    ensures it.createdAt == Seconds(now) && it.updatedAt == Seconds(now)
  {
    Item(t.nextItemId, userId, categoryId, name,
         if quantity.None? then DEFAULT_QUANTITY else quantity.value,
         if unit.None? then DEFAULT_UNIT else unit.value,
         Seconds(now), Seconds(now))
  }

  function CreateItemOutcome(t: Tables, userId: nat, categoryId: Option<nat>, name: Option<string>,
                             quantity: Option<real>, unit: Option<string>, now: int, logStored: bool): (o: Outcome<Item>)
    ensures o.result.Ok? || o.result == Err(MissingInput) || o.result == Err(NotFound) || o.result == Err(Conflict)
    ensures o.result == Err(MissingInput) <==> !CategoryIdGiven(categoryId) || !NameGiven(name)
    ensures o.result == Err(NotFound) <==>
              CategoryIdGiven(categoryId) && NameGiven(name) && !OwnsCategory(t.categories, categoryId.value, userId)
    ensures o.result == Err(Conflict) <==>
              && CategoryIdGiven(categoryId) && NameGiven(name) && OwnsCategory(t.categories, categoryId.value, userId)
              && ItemNameTaken(t.items, userId, categoryId.value, Text.Trim(name.value), None)
    ensures o.result.Err? ==> o.tables == t
    ensures o.result.Ok? ==>
              && o.result.value == NewItem(t, userId, categoryId.value, Text.Trim(name.value), quantity, unit, now)
              && o.tables.items == t.items + [o.result.value]
              && o.tables.users == t.users && o.tables.categories == t.categories
              && Audited(t, o.tables, logStored, userId, Created, ItemEntity, Some(o.result.value.id),
                         Some(o.result.value.name),
                         Some(InitialQuantity(o.result.value.quantity, o.result.value.unit)), now)
  {
    if !CategoryIdGiven(categoryId) || !NameGiven(name) then Outcome(t, Err(MissingInput))
    else if FindCategory(t.categories, categoryId.value, userId).None? then Outcome(t, Err(NotFound))
    else
      var trimmed := Text.Trim(name.value);
      if ItemNameTaken(t.items, userId, categoryId.value, trimmed, None) then Outcome(t, Err(Conflict))
      else
        var it := NewItem(t, userId, categoryId.value, trimmed, quantity, unit, now);
        var t1 := t.(items := t.items + [it], nextItemId := t.nextItemId + 1);
        Outcome(Recorded(t1, userId, Created, ItemEntity, Some(it.id), Some(it.name),
                         Some(InitialQuantity(it.quantity, it.unit)), now, logStored), Ok(it))
  }

  lemma CreateItemKeepsConsistent(t: Tables, userId: nat, categoryId: Option<nat>, name: Option<string>,
                                  quantity: Option<real>, unit: Option<string>, now: int, logStored: bool)
    requires Consistent(t) && HasUser(t.users, userId)
    ensures Consistent(CreateItemOutcome(t, userId, categoryId, name, quantity, unit, now, logStored).tables)
  {
    if && CategoryIdGiven(categoryId) && NameGiven(name) && FindCategory(t.categories, categoryId.value, userId).Some?
       && !ItemNameTaken(t.items, userId, categoryId.value, Text.Trim(name.value), None)
    {
      var it := NewItem(t, userId, categoryId.value, Text.Trim(name.value), quantity, unit, now);
      var t1 := t.(items := t.items + [it], nextItemId := t.nextItemId + 1);
      var detail := Some(InitialQuantity(it.quantity, it.unit));
      assert CreateItemOutcome(t, userId, categoryId, name, quantity, unit, now, logStored)
          == Outcome(Recorded(t1, userId, Created, ItemEntity, Some(it.id), Some(it.name), detail, now, logStored), Ok(it));
      InsertItemOk(t, it);
      RecordedOk(t1, userId, Created, ItemEntity, Some(it.id), Some(it.name), detail, now, logStored);
    }
  }

  /** The INSERT of a checked item row, then its `created` audit entry. */
  method InsertItem(db: Store, item: Item, now: int, logStored: bool)
    requires db.Valid() && item.id == db.nextItemId
    requires OwnsCategory(db.categories, item.categoryId, item.userId)
    requires !ItemNameTaken(db.items, item.userId, item.categoryId, item.name, None)
    modifies db
    ensures db.Valid()
    ensures db.Snapshot() == Recorded(old(db.Snapshot()).(items := old(db.items) + [item], nextItemId := item.id + 1),
                                      item.userId, Created, ItemEntity, Some(item.id), Some(item.name),
                                      Some(InitialQuantity(item.quantity, item.unit)), now, logStored)
  {
    ghost var t := db.Snapshot();
    InsertItemOk(t, item);
    db.items, db.nextItemId := db.items + [item], db.nextItemId + 1;
    assert db.Snapshot() == t.(items := t.items + [item], nextItemId := t.nextItemId + 1);
    assert HasUser(db.users, item.userId);
    LogActivity(db, item.userId, Created, ItemEntity, Some(item.id), Some(item.name),
                Some(InitialQuantity(item.quantity, item.unit)), now, logStored);
  }

  /**
   * POST `/items`: 400 without a category id or a name, 404 unless the category is the
   * caller's, 409 on a duplicate name in that category, else 201 with the new row.
   */
  method CreateItem(db: Store, userId: nat, categoryId: Option<nat>, name: Option<string>,
                    quantity: Option<real>, unit: Option<string>, now: int, logStored: bool) returns (r: Result<Item>)
    requires db.Valid() && HasUser(db.users, userId)
    modifies db
    ensures db.Valid()
    ensures var o := CreateItemOutcome(old(db.Snapshot()), userId, categoryId, name, quantity, unit, now, logStored);
      db.Snapshot() == o.tables && r == o.result
  {
    if !CategoryIdGiven(categoryId) || !NameGiven(name) {
      return Err(MissingInput);
    }
    var category := FindCategory(db.categories, categoryId.value, userId);
    if category.None? {
      return Err(NotFound);
    }
    var trimmed := Text.Trim(name.value);
    if ItemNameTaken(db.items, userId, categoryId.value, trimmed, None) {
      return Err(Conflict);
    }
    var item := NewItem(db.Snapshot(), userId, categoryId.value, trimmed, quantity, unit, now);
    assert CreateItemOutcome(db.Snapshot(), userId, categoryId, name, quantity, unit, now, logStored)
        == Outcome(Recorded(db.Snapshot().(items := db.items + [item], nextItemId := item.id + 1), userId, Created,
                            ItemEntity, Some(item.id), Some(item.name), Some(InitialQuantity(item.quantity, item.unit)),
                            now, logStored), Ok(item));
    InsertItem(db, item, now, logStored);
    r := Ok(item);
  }

  // ---------------------------------------------------------------- PUT /items/:id/add and /items/:id/take

  function AmountOrDefault(amount: Option<real>): (a: real)
    ensures amount.None? ==> a == DEFAULT_AMOUNT
    ensures amount.Some? ==> a == amount.value
  {
    if amount.None? then DEFAULT_AMOUNT else amount.value
  }

  /** `Math.max(0, quantity - amount)`. */
  function TakenQuantity(quantity: real, amount: real): (q: real)
    ensures q >= 0.0 && q >= quantity - amount
    ensures q == 0.0 || q == quantity - amount
  {
    if quantity - amount > 0.0 then quantity - amount else 0.0
  }

  /**
   * The caller's row `itemId` with a new quantity and `updatedAt` now; every other row, every
   * other table and the audit trail apart from one entry stay as they were.
   */
  ghost predicate QuantitySet(t: Tables, o: Outcome<Item>, userId: nat, itemId: nat, newQuantity: real, now: int)
    requires FindItem(t.items, itemId, userId).Some?
    requires o.result.Ok?
  {
    var k := FindItem(t.items, itemId, userId).value;
    && o.result.value == t.items[k].(quantity := newQuantity, updatedAt := Seconds(now))
    && o.tables.items == t.items[k := o.result.value]
    && o.tables.users == t.users && o.tables.categories == t.categories
  }

  function AddQuantityOutcome(t: Tables, userId: nat, itemId: nat, amount: Option<real>, now: int, logStored: bool): (o: Outcome<Item>)
    ensures o.result.Ok? || o.result == Err(NotFound)
    ensures o.result == Err(NotFound) <==> !OwnsItem(t.items, itemId, userId)
    ensures o.result.Err? ==> o.tables == t
    ensures o.result.Ok? ==>
              var old_ := t.items[FindItem(t.items, itemId, userId).value];
              && QuantitySet(t, o, userId, itemId, old_.quantity + AmountOrDefault(amount), now)
              && Audited(t, o.tables, logStored, userId, Added, ItemEntity, Some(itemId), Some(old_.name),
                         Some(AddedAmount(AmountOrDefault(amount), o.result.value.quantity, old_.unit)), now)
  {
    var k := FindItem(t.items, itemId, userId);
    if k.None? then Outcome(t, Err(NotFound))
    else
      var item := t.items[k.value];
      var a := AmountOrDefault(amount);
      var updated := item.(quantity := item.quantity + a, updatedAt := Seconds(now));
      var t1 := t.(items := t.items[k.value := updated]);
      Outcome(Recorded(t1, userId, Added, ItemEntity, Some(itemId), Some(item.name),
                       Some(AddedAmount(a, updated.quantity, item.unit)), now, logStored), Ok(updated))
  }

  /** The add has no clamp: a non-negative stock stays non-negative exactly when it does not shrink below 0. */
  lemma AddKeepsStockNonNegative(t: Tables, userId: nat, itemId: nat, amount: Option<real>, now: int, logStored: bool)
    requires OwnsItem(t.items, itemId, userId)
    ensures var o := AddQuantityOutcome(t, userId, itemId, amount, now, logStored);
      var before := t.items[FindItem(t.items, itemId, userId).value].quantity;
      (o.result.value.quantity >= 0.0 <==> before + AmountOrDefault(amount) >= 0.0)
      && (before >= 0.0 && AmountOrDefault(amount) >= 0.0 ==> o.result.value.quantity >= before)
  {
  }

  lemma AddQuantityKeepsConsistent(t: Tables, userId: nat, itemId: nat, amount: Option<real>, now: int, logStored: bool)
    requires Consistent(t) && HasUser(t.users, userId)
    ensures Consistent(AddQuantityOutcome(t, userId, itemId, amount, now, logStored).tables)
  {
    var k := FindItem(t.items, itemId, userId);
    if k.Some? {
      var item := t.items[k.value];
      var updated := item.(quantity := item.quantity + AmountOrDefault(amount), updatedAt := Seconds(now));
      var t1 := t.(items := t.items[k.value := updated]);
      var detail := Some(AddedAmount(AmountOrDefault(amount), updated.quantity, item.unit));
      assert AddQuantityOutcome(t, userId, itemId, amount, now, logStored)
          == Outcome(Recorded(t1, userId, Added, ItemEntity, Some(itemId), Some(item.name), detail, now, logStored), Ok(updated));
      ItemKeepsKey(t, k.value, updated);
      RecordedOk(t1, userId, Added, ItemEntity, Some(itemId), Some(item.name), detail, now, logStored);
    }
  }

  /** Rewriting a row without touching its id, owner, category or name keeps the constraints. */
  lemma ItemKeepsKey(t: Tables, k: nat, it: Item)
    requires Consistent(t) && k < |t.items|
    requires it.id == t.items[k].id && it.userId == t.items[k].userId
    requires it.categoryId == t.items[k].categoryId && it.name == t.items[k].name
    ensures Consistent(t.(items := t.items[k := it]))
  {
    forall i | 0 <= i < |t.items| && t.items[i].userId == it.userId && t.items[i].categoryId == it.categoryId
                 && t.items[i].name == it.name
      ensures i == k
    {
    }
    UpdateItemOk(t, k, it);
  }

  /** Writes the items table, when the result keeps every constraint. */
  method SetItems(db: Store, its: seq<Item>)
    requires db.Valid() && Consistent(db.Snapshot().(items := its))
    modifies db
    ensures db.Valid() && db.Snapshot() == old(db.Snapshot()).(items := its)
  {
    db.items := its;
    assert db.Snapshot() == old(db.Snapshot()).(items := its);
  }

  /** Writes the categories table, when the result keeps every constraint. */
  method SetCategories(db: Store, cs: seq<Category>)
    requires db.Valid() && Consistent(db.Snapshot().(categories := cs))
    modifies db
    ensures db.Valid() && db.Snapshot() == old(db.Snapshot()).(categories := cs)
  {
    db.categories := cs;
    assert db.Snapshot() == old(db.Snapshot()).(categories := cs);
  }

  /** PUT `/items/:id/add`: 404 unless the item is the caller's, else the quantity grows by `amount` (default 1). */
  method AddQuantity(db: Store, userId: nat, itemId: nat, amount: Option<real>, now: int, logStored: bool) returns (r: Result<Item>)
    requires db.Valid() && HasUser(db.users, userId)
    modifies db
    ensures db.Valid()
    ensures var o := AddQuantityOutcome(old(db.Snapshot()), userId, itemId, amount, now, logStored);
      db.Snapshot() == o.tables && r == o.result
  {
    var k := FindItem(db.items, itemId, userId);
    if k.None? {
      return Err(NotFound);
    }
    var item := db.items[k.value];
    var a := AmountOrDefault(amount);
    var updated := item.(quantity := item.quantity + a, updatedAt := Seconds(now));
    ghost var t1 := db.Snapshot().(items := db.items[k.value := updated]);
    var detail := Some(AddedAmount(a, updated.quantity, item.unit));
    assert AddQuantityOutcome(db.Snapshot(), userId, itemId, amount, now, logStored)
        == Outcome(Recorded(t1, userId, Added, ItemEntity, Some(itemId), Some(item.name), detail, now, logStored), Ok(updated));
    ItemKeepsKey(db.Snapshot(), k.value, updated);
    SetItems(db, db.items[k.value := updated]);
    LogActivity(db, userId, Added, ItemEntity, Some(itemId), Some(item.name), detail, now, logStored);
    r := Ok(updated);
  }

  function TakeQuantityOutcome(t: Tables, userId: nat, itemId: nat, amount: Option<real>, now: int, logStored: bool): (o: Outcome<Item>)
    ensures o.result.Ok? || o.result == Err(NotFound)
    ensures o.result == Err(NotFound) <==> !OwnsItem(t.items, itemId, userId)
    ensures o.result.Err? ==> o.tables == t
    ensures o.result.Ok? ==> o.result.value.quantity >= 0.0
    ensures o.result.Ok? ==>
              var old_ := t.items[FindItem(t.items, itemId, userId).value];
              && QuantitySet(t, o, userId, itemId, TakenQuantity(old_.quantity, AmountOrDefault(amount)), now)
              && Audited(t, o.tables, logStored, userId, Took, ItemEntity, Some(itemId), Some(old_.name),
                         Some(TookAmount(AmountOrDefault(amount), o.result.value.quantity, old_.unit)), now)
  {
    var k := FindItem(t.items, itemId, userId);
    if k.None? then Outcome(t, Err(NotFound))
    else
      var item := t.items[k.value];
      var a := AmountOrDefault(amount);
      var updated := item.(quantity := TakenQuantity(item.quantity, a), updatedAt := Seconds(now));
      var t1 := t.(items := t.items[k.value := updated]);
      Outcome(Recorded(t1, userId, Took, ItemEntity, Some(itemId), Some(item.name),
                       Some(TookAmount(a, updated.quantity, item.unit)), now, logStored), Ok(updated))
  }

  lemma TakeQuantityKeepsConsistent(t: Tables, userId: nat, itemId: nat, amount: Option<real>, now: int, logStored: bool)
    requires Consistent(t) && HasUser(t.users, userId)
    ensures Consistent(TakeQuantityOutcome(t, userId, itemId, amount, now, logStored).tables)
  {
    var k := FindItem(t.items, itemId, userId);
    if k.Some? {
      var item := t.items[k.value];
      var updated := item.(quantity := TakenQuantity(item.quantity, AmountOrDefault(amount)), updatedAt := Seconds(now));
      ItemKeepsKey(t, k.value, updated);
      RecordedOk(t.(items := t.items[k.value := updated]), userId, Took, ItemEntity, Some(itemId), Some(item.name),
                 Some(TookAmount(AmountOrDefault(amount), updated.quantity, item.unit)), now, logStored);
    }
  }

  /** PUT `/items/:id/take`: 404 unless the item is the caller's, else the quantity shrinks by `amount`, clamped at 0. */
  method TakeQuantity(db: Store, userId: nat, itemId: nat, amount: Option<real>, now: int, logStored: bool) returns (r: Result<Item>)
    requires db.Valid() && HasUser(db.users, userId)
    modifies db
    ensures db.Valid()
    ensures var o := TakeQuantityOutcome(old(db.Snapshot()), userId, itemId, amount, now, logStored);
      db.Snapshot() == o.tables && r == o.result
  {
    var k := FindItem(db.items, itemId, userId);
    if k.None? {
      return Err(NotFound);
    }
    var item := db.items[k.value];
    var a := AmountOrDefault(amount);
    var updated := item.(quantity := TakenQuantity(item.quantity, a), updatedAt := Seconds(now));
    ItemKeepsKey(db.Snapshot(), k.value, updated);
    SetItems(db, db.items[k.value := updated]);
    LogActivity(db, userId, Took, ItemEntity, Some(itemId), Some(item.name),
                Some(TookAmount(a, updated.quantity, item.unit)), now, logStored);
    r := Ok(updated);
  }

  // ---------------------------------------------------------------- DELETE /items/:id

  function DeleteItemOutcome(t: Tables, userId: nat, itemId: nat, now: int, logStored: bool): (o: Outcome<()>)
    ensures o.result.Ok? || o.result == Err(NotFound)
    ensures o.result == Err(NotFound) <==> !OwnsItem(t.items, itemId, userId)
    ensures o.result.Err? ==> o.tables == t
    ensures o.result.Ok? ==>
              var old_ := t.items[FindItem(t.items, itemId, userId).value];
              && (forall x :: x in o.tables.items <==> x in t.items && x.id != itemId)
              && o.tables.users == t.users && o.tables.categories == t.categories
              && Audited(t, o.tables, logStored, userId, Deleted, ItemEntity, Some(itemId), Some(old_.name),
                         Some(QuantityWas(old_.quantity, old_.unit)), now)
  {
    var k := FindItem(t.items, itemId, userId);
    if k.None? then Outcome(t, Err(NotFound))
    else
      var item := t.items[k.value];
      var t1 := Recorded(t, userId, Deleted, ItemEntity, Some(itemId), Some(item.name),
                         Some(QuantityWas(item.quantity, item.unit)), now, logStored);
      Outcome(t1.(items := DeleteItems(t1.items, ItemIdIs(itemId))), Ok(()))
  }

  lemma DeleteItemKeepsConsistent(t: Tables, userId: nat, itemId: nat, now: int, logStored: bool)
    requires Consistent(t) && HasUser(t.users, userId)
    ensures Consistent(DeleteItemOutcome(t, userId, itemId, now, logStored).tables)
  {
    var k := FindItem(t.items, itemId, userId);
    if k.Some? {
      var item := t.items[k.value];
      var t1 := Recorded(t, userId, Deleted, ItemEntity, Some(itemId), Some(item.name),
                         Some(QuantityWas(item.quantity, item.unit)), now, logStored);
      RecordedOk(t, userId, Deleted, ItemEntity, Some(itemId), Some(item.name),
                 Some(QuantityWas(item.quantity, item.unit)), now, logStored);
      DeleteItemsOk(t1, ItemIdIs(itemId));
    }
  }

  /**
   * The audit trail outlives what it describes: deleting an item removes no log entry, not
   * even the ones about that item.
   */
  lemma DeleteItemKeepsHistory(t: Tables, userId: nat, itemId: nat, now: int, logStored: bool)
    ensures forall e :: e in t.logs ==> e in DeleteItemOutcome(t, userId, itemId, now, logStored).tables.logs
  {
    var o := DeleteItemOutcome(t, userId, itemId, now, logStored);
    if o.result.Ok? && logStored {
      forall e | e in t.logs ensures e in o.tables.logs {
        assert o.tables.logs[..|t.logs|] == t.logs;
        var i :| 0 <= i < |t.logs| && t.logs[i] == e;
        assert o.tables.logs[i] == e;
      }
    }
  }

  /** DELETE `/items/:id`: 404 unless the item is the caller's; the entry is written before the row goes. */
  method DeleteItem(db: Store, userId: nat, itemId: nat, now: int, logStored: bool) returns (r: Result<()>)
    requires db.Valid() && HasUser(db.users, userId)
    modifies db
    ensures db.Valid()
    ensures var o := DeleteItemOutcome(old(db.Snapshot()), userId, itemId, now, logStored);
      db.Snapshot() == o.tables && r == o.result
  {
    var k := FindItem(db.items, itemId, userId);
    if k.None? {
      return Err(NotFound);
    }
    var item := db.items[k.value];
    LogActivity(db, userId, Deleted, ItemEntity, Some(itemId), Some(item.name),
                Some(QuantityWas(item.quantity, item.unit)), now, logStored);
    DeleteItemsOk(db.Snapshot(), ItemIdIs(itemId));
    SetItems(db, DeleteItems(db.items, ItemIdIs(itemId)));
    r := Ok(());
  }

  // ---------------------------------------------------------------- PUT /categories/:id

  function RenameCategoryOutcome(t: Tables, userId: nat, categoryId: nat, name: Option<string>, now: int,
                                 logStored: bool): (o: Outcome<Category>)
    ensures o.result.Ok? || o.result == Err(MissingInput) || o.result == Err(NotFound) || o.result == Err(Conflict)
    ensures o.result == Err(MissingInput) <==> !NameGiven(name)
    ensures o.result == Err(NotFound) <==> NameGiven(name) && !OwnsCategory(t.categories, categoryId, userId)
    ensures o.result == Err(Conflict) <==>
              && NameGiven(name) && OwnsCategory(t.categories, categoryId, userId)
              && CategoryNameTaken(t.categories, userId, Text.Trim(name.value), Some(categoryId))
    ensures o.result.Err? ==> o.tables == t
    ensures o.result.Ok? ==>
              var k := FindCategory(t.categories, categoryId, userId).value;
              && o.result.value == t.categories[k].(name := Text.Trim(name.value))
              && o.tables.categories == t.categories[k := o.result.value]
              && o.tables.users == t.users && o.tables.items == t.items
              && Audited(t, o.tables, logStored, userId, Updated, CategoryEntity, Some(categoryId),
                         Some(o.result.value.name), Some(NameChanged(Change(t.categories[k].name, o.result.value.name))), now)
  {
    if !NameGiven(name) then Outcome(t, Err(MissingInput))
    else
      var k := FindCategory(t.categories, categoryId, userId);
      var trimmed := Text.Trim(name.value);
      if k.None? then Outcome(t, Err(NotFound))
      else if CategoryNameTaken(t.categories, userId, trimmed, Some(categoryId)) then Outcome(t, Err(Conflict))
      else
        var c := t.categories[k.value];
        var renamed := c.(name := trimmed);
        var t1 := t.(categories := t.categories[k.value := renamed]);
        Outcome(Recorded(t1, userId, Updated, CategoryEntity, Some(categoryId), Some(trimmed),
                         Some(NameChanged(Change(c.name, trimmed))), now, logStored), Ok(renamed))
  }

  lemma RenameCategoryKeepsConsistent(t: Tables, userId: nat, categoryId: nat, name: Option<string>, now: int,
                                      logStored: bool)
    requires Consistent(t) && HasUser(t.users, userId)
    ensures Consistent(RenameCategoryOutcome(t, userId, categoryId, name, now, logStored).tables)
  {
    var o := RenameCategoryOutcome(t, userId, categoryId, name, now, logStored);
    if o.result.Ok? {
      var k := FindCategory(t.categories, categoryId, userId).value;
      var c := t.categories[k];
      var trimmed := Text.Trim(name.value);
      RenameCategoryOk(t, k, trimmed);
      var t1 := t.(categories := t.categories[k := c.(name := trimmed)]);
      RecordedOk(t1, userId, Updated, CategoryEntity, Some(categoryId), Some(trimmed),
                 Some(NameChanged(Change(c.name, trimmed))), now, logStored);
    }
  }

  /**
   * PUT `/categories/:id`: 400 without a name, 404 unless the category is the caller's,
   * 409 when another of the caller's categories has the name. The rename is recorded even
   * when the name stays the same.
   */
  method RenameCategory(db: Store, userId: nat, categoryId: nat, name: Option<string>, now: int, logStored: bool)
    returns (r: Result<Category>)
    requires db.Valid() && HasUser(db.users, userId)
    modifies db
    ensures db.Valid()
    ensures var o := RenameCategoryOutcome(old(db.Snapshot()), userId, categoryId, name, now, logStored);
      db.Snapshot() == o.tables && r == o.result
  {
    if !NameGiven(name) {
      return Err(MissingInput);
    }
    var k := FindCategory(db.categories, categoryId, userId);
    if k.None? {
      return Err(NotFound);
    }
    var trimmed := Text.Trim(name.value);
    if CategoryNameTaken(db.categories, userId, trimmed, Some(categoryId)) {
      return Err(Conflict);
    }
    var category := db.categories[k.value];
    RenameCategoryOk(db.Snapshot(), k.value, trimmed);
    SetCategories(db, db.categories[k.value := category.(name := trimmed)]);
    LogActivity(db, userId, Updated, CategoryEntity, Some(categoryId), Some(trimmed),
                Some(NameChanged(Change(category.name, trimmed))), now, logStored);
    r := Ok(category.(name := trimmed));
  }

  // ---------------------------------------------------------------- PUT /items/:id

  /** `unit && typeof unit === 'string'`: a non-empty unit was sent. */
  predicate UnitGiven(unit: Option<string>)
  {
    unit.Some? && unit.value != ""
  }

  /** The row after `UPDATE items SET name = ?, unit = ?, updatedAt = ?` with only the usable fields. */
  function EditedItem(item: Item, name: Option<string>, unit: Option<string>, now: int): (e: Item)
    ensures e.name == (if NameGiven(name) then Text.Trim(name.value) else item.name)
    ensures e.unit == (if UnitGiven(unit) then unit.value else item.unit)
    ensures e == item.(name := e.name, unit := e.unit, updatedAt := Seconds(now))
  {
    item.(name := if NameGiven(name) then Text.Trim(name.value) else item.name,
          unit := if UnitGiven(unit) then unit.value else item.unit,
          updatedAt := Seconds(now))
  }

  /**
   * The `changes` list as the handler builds it: a name change whenever `name` is
   * truthy and its trimmed form differs from the stored name, whether or not the name was
   * written. A name of only whitespace is truthy but is not written.
   */
  function ItemChangesAsWritten(item: Item, name: Option<string>, unit: Option<string>): (d: Detail)
    ensures d.ItemChanges?
    ensures d.nameChange.Some? <==> name.Some? && name.value != "" && Text.Trim(name.value) != item.name
  {
    ItemChanges(if name.Some? && name.value != "" && Text.Trim(name.value) != item.name
                then Some(Change(item.name, Text.Trim(name.value))) else None,
                if UnitGiven(unit) && unit.value != item.unit then Some(Change(item.unit, unit.value)) else None)
  }

  /**
   * With a whitespace-only name and a new unit, the request writes only the unit, yet the
   * entry it records claims the name changed to "".
   */
  lemma WhitespaceNameLogsPhantomRename()
    ensures var item := Item(1, 1, 1, "Flour", 2.0, "lbs", 0, 0);
      var e := EditedItem(item, Some(" "), Some("kg"), 0);
      && e.name == "Flour"
      && ItemChangesAsWritten(item, Some(" "), Some("kg")).nameChange == Some(Change("Flour", ""))
  {
    BlankTrimsToEmpty();
  }

  lemma BlankTrimsToEmpty()
    ensures Text.Trim(" ") == ""
  {
    assert Text.AllSpace(" ") by {
      assert Text.IsSpace(" "[0]);
    }
  }

  /** The changes recorded for an update: exactly the fields whose stored value differs afterwards. */
  function ItemChangesOf(item: Item, name: Option<string>, unit: Option<string>, now: int): (d: Detail)
    ensures d.ItemChanges?
    ensures var e := EditedItem(item, name, unit, now);
      && (d.nameChange.Some? <==> e.name != item.name)
      && (d.nameChange.Some? ==> d.nameChange.value == Change(item.name, e.name))
      && (d.unitChange.Some? <==> e.unit != item.unit)
      && (d.unitChange.Some? ==> d.unitChange.value == Change(item.unit, e.unit))
  {
    ItemChanges(if NameGiven(name) && Text.Trim(name.value) != item.name
                then Some(Change(item.name, Text.Trim(name.value))) else None,
                if UnitGiven(unit) && unit.value != item.unit then Some(Change(item.unit, unit.value)) else None)
  }

  /**
   * The handler's change list and the corrected one differ exactly when a non-empty name of
   * only whitespace is sent for an item whose stored name is not empty: the handler then
   * claims a rename to "".
   */
  lemma ChangeListsDiffer(item: Item, name: Option<string>, unit: Option<string>, now: int)
    ensures ItemChangesAsWritten(item, name, unit) != ItemChangesOf(item, name, unit, now) <==>
              name.Some? && name.value != "" && Text.Trim(name.value) == "" && item.name != ""
    ensures ItemChangesAsWritten(item, name, unit).unitChange == ItemChangesOf(item, name, unit, now).unitChange
  {
    if name.Some? && name.value == "" {
      assert Text.Trim(name.value) == "" by {
        assert Text.AllSpace(name.value);
      }
    }
  }

  /** Whether an update records anything (`changes.length > 0`). */
  predicate Changed(d: Detail)
  {
    d.ItemChanges? && (d.nameChange.Some? || d.unitChange.Some?)
  }

  function UpdateItemOutcome(t: Tables, userId: nat, itemId: nat, name: Option<string>, unit: Option<string>,
                             now: int, logStored: bool): (o: Outcome<Item>)
    ensures o.result.Ok? || o.result == Err(NotFound) || o.result == Err(NoValidFields) || o.result == Err(Conflict)
    ensures o.result == Err(NotFound) <==> !OwnsItem(t.items, itemId, userId)
    ensures o.result == Err(NoValidFields) <==> OwnsItem(t.items, itemId, userId) && !NameGiven(name) && !UnitGiven(unit)
    ensures o.result == Err(Conflict) <==>
              && OwnsItem(t.items, itemId, userId) && (NameGiven(name) || UnitGiven(unit))
              && var item := t.items[FindItem(t.items, itemId, userId).value];
                 ItemNameTaken(t.items, userId, item.categoryId, EditedItem(item, name, unit, now).name, Some(itemId))
    ensures o.result.Err? ==> o.tables == t
    ensures o.result.Ok? ==>
              var k := FindItem(t.items, itemId, userId).value;
              var d := ItemChangesOf(t.items[k], name, unit, now);
              && (NameGiven(name) || UnitGiven(unit))
              && o.result.value == EditedItem(t.items[k], name, unit, now)
              && o.tables.items == t.items[k := o.result.value]
              && o.tables.users == t.users && o.tables.categories == t.categories
              && (Changed(d) ==> Audited(t, o.tables, logStored, userId, Updated, ItemEntity, Some(itemId),
                                         Some(o.result.value.name), Some(d), now))
              && (!Changed(d) ==> o.tables.logs == t.logs)
  {
    var k := FindItem(t.items, itemId, userId);
    if k.None? then Outcome(t, Err(NotFound))
    else if !NameGiven(name) && !UnitGiven(unit) then Outcome(t, Err(NoValidFields))
    else
      var item := t.items[k.value];
      var edited := EditedItem(item, name, unit, now);
      if ItemNameTaken(t.items, userId, item.categoryId, edited.name, Some(itemId)) then Outcome(t, Err(Conflict))
      else
        var t1 := t.(items := t.items[k.value := edited]);
        var d := ItemChangesOf(item, name, unit, now);
        if Changed(d) then
          Outcome(Recorded(t1, userId, Updated, ItemEntity, Some(itemId), Some(edited.name), Some(d), now, logStored), Ok(edited))
        else Outcome(t1, Ok(edited))
  }

  /** Only a new name can collide: when the name is left alone the update never answers 409. */
  lemma UnitOnlyUpdateNeverConflicts(t: Tables, userId: nat, itemId: nat, name: Option<string>, unit: Option<string>,
                                     now: int, logStored: bool)
    requires Consistent(t) && !NameGiven(name)
    ensures UpdateItemOutcome(t, userId, itemId, name, unit, now, logStored).result != Err(Conflict)
  {
    var k := FindItem(t.items, itemId, userId);
    if k.Some? && UnitGiven(unit) {
      var item := t.items[k.value];
      assert EditedItem(item, name, unit, now).name == item.name;
    }
  }

  lemma UpdateItemKeepsConsistent(t: Tables, userId: nat, itemId: nat, name: Option<string>, unit: Option<string>,
                                  now: int, logStored: bool)
    requires Consistent(t) && HasUser(t.users, userId)
    ensures Consistent(UpdateItemOutcome(t, userId, itemId, name, unit, now, logStored).tables)
  {
    var o := UpdateItemOutcome(t, userId, itemId, name, unit, now, logStored);
    if o.result.Ok? {
      var k := FindItem(t.items, itemId, userId).value;
      var edited := EditedItem(t.items[k], name, unit, now);
      UpdateItemOk(t, k, edited);
      var d := ItemChangesOf(t.items[k], name, unit, now);
      if Changed(d) {
        RecordedOk(t.(items := t.items[k := edited]), userId, Updated, ItemEntity, Some(itemId), Some(edited.name),
                   Some(d), now, logStored);
      }
    }
  }

  /**
   * PUT `/items/:id`: 404 unless the item is the caller's, 400 unless a usable name or unit
   * was sent, 409 when the new name is taken in the item's category. An entry is recorded
   * only when a stored field actually changes.
   */
  method UpdateItem(db: Store, userId: nat, itemId: nat, name: Option<string>, unit: Option<string>, now: int,
                    logStored: bool) returns (r: Result<Item>)
    requires db.Valid() && HasUser(db.users, userId)
    modifies db
    ensures db.Valid()
    ensures var o := UpdateItemOutcome(old(db.Snapshot()), userId, itemId, name, unit, now, logStored);
      db.Snapshot() == o.tables && r == o.result
  {
    var k := FindItem(db.items, itemId, userId);
    if k.None? {
      return Err(NotFound);
    }
    var item := db.items[k.value];
    var updates: seq<string> := [];
    if NameGiven(name) {
      updates := updates + ["name"];
    }
    if UnitGiven(unit) {
      updates := updates + ["unit"];
    }
    if |updates| == 0 {
      return Err(NoValidFields);
    }
    var edited := EditedItem(item, name, unit, now);
    if ItemNameTaken(db.items, userId, item.categoryId, edited.name, Some(itemId)) {
      return Err(Conflict);
    }
    UpdateItemOk(db.Snapshot(), k.value, edited);
    SetItems(db, db.items[k.value := edited]);
    var changes := ItemChangesOf(item, name, unit, now);
    if Changed(changes) {
      LogActivity(db, userId, Updated, ItemEntity, Some(itemId), Some(edited.name), Some(changes), now, logStored);
    }
    r := Ok(edited);
  }

  // ---------------------------------------------------------------- DELETE /categories/:id

  /** Deleting the items of a category removes exactly as many rows as the count reported beforehand. */
  lemma {:induction false} DeleteItemsCount(its: seq<Item>, categoryId: nat)
    ensures |DeleteItems(its, ItemCategoryIs(categoryId))| + CountInCategory(its, categoryId) == |its|
  {
    if its != [] {
      DeleteItemsCount(its[1..], categoryId);
    }
  }

  lemma NothingLeftIn(remaining: seq<Item>, categoryId: nat)
    requires forall x :: x in remaining ==> x.categoryId != categoryId
    ensures forall i :: 0 <= i < |remaining| ==> remaining[i].categoryId != categoryId
  {
    forall i | 0 <= i < |remaining| ensures remaining[i].categoryId != categoryId {
      assert remaining[i] in remaining;
    }
  }

  function DeleteCategoryOutcome(t: Tables, userId: nat, categoryId: nat, now: int, logStored: bool): (o: Outcome<()>)
    ensures o.result.Ok? || o.result == Err(NotFound)
    ensures o.result == Err(NotFound) <==> !OwnsCategory(t.categories, categoryId, userId)
    ensures o.result.Err? ==> o.tables == t
    ensures o.result.Ok? ==>
              var c := t.categories[FindCategory(t.categories, categoryId, userId).value];
              && (forall x :: x in o.tables.items <==> x in t.items && x.categoryId != categoryId)
              && (forall x :: x in o.tables.categories <==> x in t.categories && x.id != categoryId)
              && o.tables.users == t.users
              && |t.items| - |o.tables.items| == CountInCategory(t.items, categoryId)
              && Audited(t, o.tables, logStored, userId, Deleted, CategoryEntity, Some(categoryId), Some(c.name),
                         Some(DeletedWithItems(|t.items| - |o.tables.items|)), now)
  {
    var k := FindCategory(t.categories, categoryId, userId);
    if k.None? then Outcome(t, Err(NotFound))
    else
      var c := t.categories[k.value];
      var count := CountInCategory(t.items, categoryId);
      var t1 := Recorded(t, userId, Deleted, CategoryEntity, Some(categoryId), Some(c.name),
                         Some(DeletedWithItems(count)), now, logStored);
      var t2 := t1.(items := DeleteItems(t1.items, ItemCategoryIs(categoryId)));
      DeleteItemsCount(t.items, categoryId);
      Outcome(t2.(categories := DeleteCategories(t2.categories, CategoryIdIs(categoryId))), Ok(()))
  }

  lemma DeleteCategoryKeepsConsistent(t: Tables, userId: nat, categoryId: nat, now: int, logStored: bool)
    requires Consistent(t) && HasUser(t.users, userId)
    ensures Consistent(DeleteCategoryOutcome(t, userId, categoryId, now, logStored).tables)
  {
    var k := FindCategory(t.categories, categoryId, userId);
    if k.Some? {
      var c := t.categories[k.value];
      var count := CountInCategory(t.items, categoryId);
      RecordedOk(t, userId, Deleted, CategoryEntity, Some(categoryId), Some(c.name), Some(DeletedWithItems(count)), now, logStored);
      var t1 := Recorded(t, userId, Deleted, CategoryEntity, Some(categoryId), Some(c.name),
                         Some(DeletedWithItems(count)), now, logStored);
      DeleteItemsOk(t1, ItemCategoryIs(categoryId));
      var t2 := t1.(items := DeleteItems(t1.items, ItemCategoryIs(categoryId)));
      assert DeleteCategoryOutcome(t, userId, categoryId, now, logStored)
          == Outcome(t2.(categories := DeleteCategories(t2.categories, CategoryIdIs(categoryId))), Ok(()));
      NothingLeftIn(t2.items, categoryId);
      DeleteCategoryOk(t2, categoryId);
    }
  }

  /**
   * DELETE `/categories/:id`: 404 unless the category is the caller's; records the number of
   * items it held, then deletes those items, then the category.
   */
  method DeleteCategory(db: Store, userId: nat, categoryId: nat, now: int, logStored: bool) returns (r: Result<()>)
    requires db.Valid() && HasUser(db.users, userId)
    modifies db
    ensures db.Valid()
    ensures var o := DeleteCategoryOutcome(old(db.Snapshot()), userId, categoryId, now, logStored);
      db.Snapshot() == o.tables && r == o.result
  {
    var k := FindCategory(db.categories, categoryId, userId);
    if k.None? {
      return Err(NotFound);
    }
    var category := db.categories[k.value];
    var itemCount := CountInCategory(db.items, categoryId);
    ghost var t1 := Recorded(db.Snapshot(), userId, Deleted, CategoryEntity, Some(categoryId), Some(category.name),
                             Some(DeletedWithItems(itemCount)), now, logStored);
    ghost var t2 := t1.(items := DeleteItems(t1.items, ItemCategoryIs(categoryId)));
    assert DeleteCategoryOutcome(db.Snapshot(), userId, categoryId, now, logStored)
        == Outcome(t2.(categories := DeleteCategories(t2.categories, CategoryIdIs(categoryId))), Ok(()));
    LogActivity(db, userId, Deleted, CategoryEntity, Some(categoryId), Some(category.name),
                Some(DeletedWithItems(itemCount)), now, logStored);
    var remaining := DeleteItems(db.items, ItemCategoryIs(categoryId));
    DeleteItemsOk(db.Snapshot(), ItemCategoryIs(categoryId));
    SetItems(db, remaining);
    NothingLeftIn(remaining, categoryId);
    DeleteCategoryOk(db.Snapshot(), categoryId);
    SetCategories(db, DeleteCategories(db.categories, CategoryIdIs(categoryId)));
    r := Ok(());
  }

  // ---------------------------------------------------------------- GET /

  /** A category of the caller with the items listed under it. */
  datatype Group = Group(category: Category, items: seq<Item>)

  function CategoryName(c: Category): string { c.name }
  function ItemName(it: Item): string { it.name }
  function GroupName(g: Group): string { g.category.name }

  /** `req.query.search?.toLowerCase() || ''`. */
  function SearchTerm(search: Option<string>): (s: string)
    ensures Text.IsLowerCase(s)
    ensures search.None? ==> s == ""
    ensures search.Some? ==> s == Text.Lower(search.value)
  {
    if search.None? then ""
    else Text.LowerIsLowerCase(search.value); Text.Lower(search.value)
  }

  /**
   * `LOWER(i.name) LIKE %term% OR LOWER(c.name) LIKE %term%`, applied only when the term is
   * non-empty; `%` and `_` in the term are taken literally here.
   */
  predicate SearchHit(term: string, it: Item, c: Category)
  {
    term == "" || Text.Contains(Text.Lower(it.name), term) || Text.Contains(Text.Lower(c.name), term)
  }

  /** `items.filter(item => item.categoryId === category.id)` over the joined, searched, ordered items. */
  function GroupItems(t: Tables, userId: nat, c: Category, term: string): (r: seq<Item>)
    ensures SortedByName(r, ItemName)
    ensures forall x :: x in r <==> x in t.items && x.userId == userId && x.categoryId == c.id && SearchHit(term, x, c)
    ensures forall x :: multiset(r)[x] ==
              if x.userId == userId && x.categoryId == c.id && SearchHit(term, x, c) then multiset(t.items)[x] else 0
  {
    var hits := Filter(t.items, InGroup(userId, c, term));
    var r := SortByName(hits, ItemName);
    assert forall x :: x in r <==> x in multiset(r);
    assert forall x :: x in hits <==> x in multiset(hits);
    r
  }

  /** The WHERE of the item query restricted to one category. */
  function InGroup(userId: nat, c: Category, term: string): Item -> bool
  {
    (x: Item) => x.userId == userId && x.categoryId == c.id && SearchHit(term, x, c)
  }

  /** The WHERE of the category query. */
  function OwnedBy(userId: nat): Category -> bool
  {
    (c: Category) => c.userId == userId
  }

  /** The category of each group, in order. */
  function CategoriesOf(r: seq<Group>): (cs: seq<Category>)
    ensures |cs| == |r| && forall i :: 0 <= i < |r| ==> cs[i] == r[i].category
  {
    if r == [] then [] else [r[0].category] + CategoriesOf(r[1..])
  }

  function Groups(cats: seq<Category>, t: Tables, userId: nat, term: string): (r: seq<Group>)
    ensures |r| == |cats|
    ensures forall i :: 0 <= i < |r| ==> r[i] == Group(cats[i], GroupItems(t, userId, cats[i], term))
  {
    if cats == [] then []
    else [Group(cats[0], GroupItems(t, userId, cats[0], term))] + Groups(cats[1..], t, userId, term)
  }

  /** The groups are the categories, one each, in the same order. */
  lemma GroupsFollowCategories(cats: seq<Category>, t: Tables, userId: nat, term: string)
    ensures var r := Groups(cats, t, userId, term);
      && (forall g :: g in r ==> g.category in cats && g.items == GroupItems(t, userId, g.category, term))
      && (forall c :: c in cats ==> Group(c, GroupItems(t, userId, c, term)) in r)
      && (SortedByName(cats, CategoryName) ==> SortedByName(r, GroupName))
  {
    var r := Groups(cats, t, userId, term);
    forall g | g in r ensures g.category in cats && g.items == GroupItems(t, userId, g.category, term) {
      var i :| 0 <= i < |r| && r[i] == g;
    }
    forall c | c in cats ensures Group(c, GroupItems(t, userId, c, term)) in r {
      var i :| 0 <= i < |cats| && cats[i] == c;
      assert r[i] == Group(c, GroupItems(t, userId, c, term));
    }
    if SortedByName(cats, CategoryName) {
      forall i, j | 0 <= i < j < |r| ensures Text.LessEq(GroupName(r[i]), GroupName(r[j])) {
        assert GroupName(r[i]) == CategoryName(cats[i]) && GroupName(r[j]) == CategoryName(cats[j]);
      }
    }
  }

  /**
   * GET `/`: every category of the caller in name order, each with exactly the caller's items
   * in it that pass the search, in name order. Categories are listed even when no item
   * passes.
   */
  function ListInventory(t: Tables, userId: nat, search: Option<string>): (r: seq<Group>)
    ensures forall g :: g in r ==> g.category in t.categories && g.category.userId == userId
    ensures forall c :: c in t.categories && c.userId == userId ==> exists g :: g in r && g.category == c
    ensures SortedByName(r, GroupName)
    ensures forall g :: g in r ==> SortedByName(g.items, ItemName)
    ensures forall g, x :: g in r ==>
              (x in g.items <==> x in t.items && x.userId == userId && x.categoryId == g.category.id
                                 && SearchHit(SearchTerm(search), x, g.category))
    ensures forall c :: multiset(CategoriesOf(r))[c] == if c.userId == userId then multiset(t.categories)[c] else 0
    ensures forall g, x :: g in r ==>
              multiset(g.items)[x] == if x.userId == userId && x.categoryId == g.category.id
                                         && SearchHit(SearchTerm(search), x, g.category)
                                      then multiset(t.items)[x] else 0
  {
    var own := Filter(t.categories, OwnedBy(userId));
    var cats := SortByName(own, CategoryName);
    CategoriesListed(own, cats);
    GroupsFollowCategories(cats, t, userId, SearchTerm(search));
    var r := Groups(cats, t, userId, SearchTerm(search));
    assert CategoriesOf(r) == cats;
    r
  }

  lemma CategoriesListed(own: seq<Category>, cats: seq<Category>)
    requires multiset(cats) == multiset(own)
    ensures forall c :: c in cats <==> c in own
  {
    assert forall c :: c in cats <==> c in multiset(cats);
    assert forall c :: c in own <==> c in multiset(own);
  }

  /**
   * The "Uncategorized" bucket can never be filled: under the ownership invariant every item
   * of the caller belongs to one of the caller's categories, so it has a group to sit in.
   */
  lemma NoUncategorizedItems(t: Tables, userId: nat, search: Option<string>)
    requires Consistent(t)
    ensures forall x :: x in t.items && x.userId == userId ==>
              exists g :: g in ListInventory(t, userId, search) && g.category.id == x.categoryId
  {
    forall x | x in t.items && x.userId == userId
      ensures exists g :: g in ListInventory(t, userId, search) && g.category.id == x.categoryId
    {
      ItemHasCategory(t.categories, t.items, t.nextItemId, x);
      GroupOfCategory(t, userId, search, x.categoryId);
    }
  }

  lemma ItemHasCategory(cs: seq<Category>, its: seq<Item>, next: nat, x: Item)
    requires ItemsOk(cs, its, next) && x in its
    ensures OwnsCategory(cs, x.categoryId, x.userId)
  {
    var i :| 0 <= i < |its| && its[i] == x;
  }

  lemma GroupOfCategory(t: Tables, userId: nat, search: Option<string>, categoryId: nat)
    requires OwnsCategory(t.categories, categoryId, userId)
    ensures exists g :: g in ListInventory(t, userId, search) && g.category.id == categoryId
  {
    var r := ListInventory(t, userId, search);
    var j :| 0 <= j < |t.categories| && t.categories[j].id == categoryId && t.categories[j].userId == userId;
    assert t.categories[j] in t.categories;
    var g :| g in r && g.category == t.categories[j];
  }

  // ---------------------------------------------------------------- GET /activity-logs

  /** The response body: the page of entries, the filtered total and the parameters as used. */
  datatype LogPage = LogPage(logs: seq<LogEntry>, total: nat, limit: int, offset: int,
                             fromDate: Option<int>, toDate: Option<int>)

  /** `WHERE userId = ? [AND createdAt >= fromDate] [AND createdAt <= toDate]`. */
  function LogCriteria(userId: nat, fromDate: Option<int>, toDate: Option<int>): (c: Criteria)
    ensures c.userId == userId && c.itemId.None?
    ensures c.fromDate == Bound(fromDate) && c.toDate == Bound(toDate)
  {
    Criteria(userId, Bound(fromDate), Bound(toDate), None)
  }

  /**
   * GET `/activity-logs`: the caller's entries inside the inclusive date bounds, newest
   * first, one page of them, and the size of the whole filtered set.
   */
  function ActivityLogs(t: Tables, userId: nat, limit: Option<int>, offset: Option<int>,
                        fromDate: Option<int>, toDate: Option<int>): (r: LogPage)
    ensures r.limit == OrDefault(limit, DEFAULT_LOG_LIMIT) && r.offset == OrDefault(offset, 0)
    ensures forall e :: e in r.logs ==> e in t.logs && e.userId == userId
    ensures forall e :: e in r.logs ==> Bound(fromDate).Some? ==> e.createdAt >= fromDate.value
    ensures forall e :: e in r.logs ==> Bound(toDate).Some? ==> e.createdAt <= toDate.value
    ensures NewestFirstOrder(r.logs)
    ensures r.total == |Select(t.logs, LogCriteria(userId, fromDate, toDate))|
    ensures |r.logs| == PageEnd(r.total, r.limit, r.offset) - PageStart(r.total, r.offset) <= r.total
    ensures r.limit > 0 ==> |r.logs| <= r.limit
    ensures PageStart(r.total, r.offset) == 0 && PageEnd(r.total, r.limit, r.offset) == r.total ==>
              forall e :: e in t.logs && Matches(LogCriteria(userId, fromDate, toDate), e) ==> e in r.logs
    ensures IsWindow(t.logs, LogCriteria(userId, fromDate, toDate), r.limit, r.offset, r.logs)
  {
    var c := LogCriteria(userId, fromDate, toDate);
    var l := OrDefault(limit, DEFAULT_LOG_LIMIT);
    var o := OrDefault(offset, 0);
    var w := Query(t.logs, c, l, o);
    assert forall e :: e in Select(t.logs, c) ==> e in multiset(Select(t.logs, c));
    assert forall e :: e in multiset(w.logs) <==> e in w.logs;
    LogPage(w.logs, w.total, l, o, fromDate, toDate)
  }

  // ---------------------------------------------------------------- GET /items/:id/history

  datatype HistoryPage = HistoryPage(logs: seq<LogEntry>, item: Item, total: nat, limit: int, offset: int)

  /** `WHERE userId = ? AND entityType = 'item' AND entityId = ?`. */
  function HistoryCriteria(userId: nat, itemId: nat): (c: Criteria)
    ensures c.userId == userId && c.itemId == Some(itemId) && c.fromDate.None? && c.toDate.None?
  {
    Criteria(userId, None, None, Some(itemId))
  }

  /**
   * GET `/items/:id/history`: 404 unless the item is the caller's; otherwise the entries about
   * that item, newest first, one page of them (3 by default), and their total.
   */
  function ItemHistory(t: Tables, userId: nat, itemId: nat, limit: Option<int>, offset: Option<int>): (r: Result<HistoryPage>)
    ensures r.Err? <==> !OwnsItem(t.items, itemId, userId)
    ensures r.Err? ==> r.error == NotFound
    ensures r.Ok? ==> r.value.item == t.items[FindItem(t.items, itemId, userId).value]
    ensures r.Ok? ==> r.value.limit == OrDefault(limit, DEFAULT_HISTORY_LIMIT) && r.value.offset == OrDefault(offset, 0)
    ensures r.Ok? ==> forall e :: e in r.value.logs ==>
              e in t.logs && e.userId == userId && e.entityType == ItemEntity && e.entityId == Some(itemId)
    ensures r.Ok? ==> NewestFirstOrder(r.value.logs)
    ensures r.Ok? ==> r.value.total == |Select(t.logs, HistoryCriteria(userId, itemId))|
    ensures r.Ok? ==> |r.value.logs| == PageEnd(r.value.total, r.value.limit, r.value.offset)
                                        - PageStart(r.value.total, r.value.offset)
    ensures r.Ok? && PageStart(r.value.total, r.value.offset) == 0
            && PageEnd(r.value.total, r.value.limit, r.value.offset) == r.value.total ==>
              forall e :: e in t.logs && Matches(HistoryCriteria(userId, itemId), e) ==> e in r.value.logs
    ensures r.Ok? ==> IsWindow(t.logs, HistoryCriteria(userId, itemId), r.value.limit, r.value.offset, r.value.logs)
  {
    var k := FindItem(t.items, itemId, userId);
    if k.None? then Err(NotFound)
    else
      var l := OrDefault(limit, DEFAULT_HISTORY_LIMIT);
      var o := OrDefault(offset, 0);
      var w := Query(t.logs, HistoryCriteria(userId, itemId), l, o);
      assert forall e :: e in Select(t.logs, HistoryCriteria(userId, itemId)) ==> e in multiset(Select(t.logs, HistoryCriteria(userId, itemId)));
      assert forall e :: e in multiset(w.logs) <==> e in w.logs;
      Ok(HistoryPage(w.logs, t.items[k.value], w.total, l, o))
  }
}
