# Inventory tracker server core, in Dafny

This project models the server of a multi-tenant inventory tracker. Each account (a company)
keeps categories of stock items and adds or takes quantities. Accounts sign up, log in and reset
their password with a short-lived token. Every inventory change is written to an activity log,
and a retention sweep purges log entries older than six months.

The four SQLite tables of `server/src/db.js` are the fields of one class, `Db.Store`:
- `users`, `categories`, `items` and `activity_logs`, each a `seq` of row datatypes in rowid order;
- one AUTOINCREMENT counter per table.

`Store.Valid()` is the schema as an invariant:
- ids are ascending and below their counter;
- emails are unique and lower-case;
- category names are `UNIQUE(userId, name)`;
- item names are `UNIQUE(userId, categoryId, name)`;
- every item's category belongs to the item's own account;
- every row refers to an existing user.

Each HTTP handler appears twice.
- A pure function `...Outcome` on a `Tables` value returns the new tables and the answer. The answer is a `Result` whose `Failure` mirrors 400, 404, 409 or 401. The function's contract states what the handler promises.
- A method on `Store` performs the same steps in place: it looks up the row, updates the table and appends to the log through `ActivityLogger.LogActivity`. It is proved to keep `Valid()` and to reach exactly the outcome of its function.

GET handlers and login change nothing, so they are plain functions.

Foreign inputs are parameters:
- The clock is `now`, in milliseconds. The model writes the seconds value `floor(now / 1000)` wherever the source uses `strftime('%s','now')` or `Math.floor(Date.now() / 1000)`.
- `logStored` is whether the audit INSERT succeeds. `storageOk` is whether the retention DELETE succeeds.
- bcrypt is two parameters: the hash of a new password, and a `matches` predicate.
- The reset token that `nanoid(32)` would generate is a parameter.
- The outcome of the mail send is `emailSent`. Whether a mail service is configured is `emailConfigured`.

Modules follow the source files:

| module | file | models |
|---|---|---|
| `Outcomes` | `outcomes.dfy` | optional values, results, HTTP failures |
| `Text` | `text.dfy` | `trim`, ASCII lower-casing, substring search, BINARY text order |
| `Tables` | `tables.dfy` | `db.js` rows, defaults, constraints, look-ups, `DELETE ... WHERE`, cascades |
| `Db` | `db.dfy` | the `Store` class |
| `ActivityLogger` | `activity_logger.dfy` | `activityLogger.js` |
| `CleanupOldLogs` | `cleanup_old_logs.dfy` | `cleanupOldLogs.js` |
| `Queries` | `queries.dfy` | WHERE, COUNT, ORDER BY and LIMIT/OFFSET |
| `InventoryRoutes` | `inventory_routes.dfy` | `inventoryRoutes.js` |
| `AuthRoutes` | `auth_routes.dfy` | `authRoutes.js` |

Quantities can be negative:
- `server/src/db.js:39` declares `quantity REAL NOT NULL DEFAULT 0` with no CHECK.
- Only `take` clamps, with `Math.max(0, ...)` (`server/src/routes/inventoryRoutes.js:173`).
- `add` with a negative amount (line 141), and item creation with a negative quantity (line 111), store a negative value.
- `InventoryRoutes.AddKeepsStockNonNegative` states exactly when an added-to quantity stays non-negative.

## Model

| member | source | states |
|---|---|---|
| `Text.Trim` | server/src/routes/inventoryRoutes.js:70-75 | the result is the input with a whitespace prefix and suffix removed, starts and ends with non-whitespace, and is empty exactly when the input is all whitespace |
| `Text.TrimIdempotent` | server/src/routes/inventoryRoutes.js:70-75 | trimming twice is trimming once |
| `Text.Lower` | server/src/routes/authRoutes.js:29 | lower-casing keeps the length and maps each character through the ASCII case map |
| `Text.LowerIsLowerCase` | server/src/routes/authRoutes.js:35 | a lower-cased email is lower-case, and lower-casing leaves a lower-case text alone |
| `Text.Contains` | server/src/routes/inventoryRoutes.js:30-31 | true exactly when the term occurs at some position of the text |
| `Text.LessTransitive` | server/src/routes/inventoryRoutes.js:18 | the BINARY text order used by ORDER BY name is transitive |
| `Text.LessTotal` | server/src/routes/inventoryRoutes.js:18 | of two different texts, one sorts before the other |
| `Tables.Seconds` | server/src/db.js:29 | whole seconds at or below the millisecond clock, less than one second behind it |
| `Tables.EmptyTables` | server/src/db.js:15-58 | a new database satisfies every constraint |
| `Tables.FindUserByEmail` | server/src/routes/authRoutes.js:16 | returns the row with that email, or none exactly when no row has it |
| `Tables.FindCategory` | server/src/routes/inventoryRoutes.js:103 | returns a category with that id owned by that account, or none exactly when there is none |
| `Tables.FindItem` | server/src/routes/inventoryRoutes.js:136 | returns an item with that id owned by that account, or none exactly when there is none |
| `Tables.CountInCategory` | server/src/routes/inventoryRoutes.js:405 | at most the table's size, and zero exactly when no item is in the category |
| `Tables.DeleteUserRow` | server/src/db.js:16-23 | keeps exactly the users with another id |
| `Tables.DeleteCategories` | server/src/routes/inventoryRoutes.js:412 | keeps exactly the categories the WHERE does not select |
| `Tables.DeleteItems` | server/src/routes/inventoryRoutes.js:207-209 | keeps exactly the items the WHERE does not select |
| `Tables.DeleteLogs` | server/src/utils/cleanupOldLogs.js:11-15 | keeps exactly the log entries the WHERE does not select, never more than before |
| `Tables.InsertUserOk` | server/src/db.js:16-23 | inserting a lower-case email that is not registered keeps every constraint |
| `Tables.UpdateUserOk` | server/src/routes/authRoutes.js:17-22 | rewriting a user row without changing its id or email keeps every constraint |
| `Tables.InsertCategoryOk` | server/src/db.js:25-32 | a new category of an existing user under a free name keeps every constraint |
| `Tables.RenameCategoryOk` | server/src/db.js:31 | renaming a category to a name no other category of its owner has keeps every constraint |
| `Tables.DeleteUserRowAscending` | server/src/db.js:17 | deleting users keeps the remaining ids ascending and above any bound the old ids were above |
| `Tables.DeleteCategoriesAscending` | server/src/db.js:26 | deleting categories keeps the remaining ids ascending and above any bound the old ids were above |
| `Tables.DeleteItemsAscending` | server/src/db.js:35 | deleting items keeps the remaining ids ascending and above any bound the old ids were above |
| `Tables.DeleteLogsAscending` | server/src/db.js:49 | deleting log entries keeps the remaining ids ascending and above any bound the old ids were above |
| `Tables.DeleteCategoryOk` | server/src/db.js:44 | deleting a category that no item refers to keeps every constraint |
| `Tables.InsertItemOk` | server/src/db.js:34-46 | a new item in a category of its own account, under a name free in that category, keeps every constraint |
| `Tables.UpdateItemOk` | server/src/db.js:45 | rewriting an item without moving it, under a name no other item of the category has, keeps every constraint |
| `Tables.DeleteItemsOk` | server/src/db.js:34-46 | deleting any selection of items keeps every constraint |
| `Tables.AppendLogOk` | server/src/db.js:48-58 | appending an entry of an existing user with the next id keeps every constraint |
| `Tables.DeleteLogsOk` | server/src/db.js:48-58 | deleting any selection of log entries keeps every constraint |
| `Tables.DeleteUserCascade` | server/src/db.js:30-57 | deleting a user removes exactly that user's rows from all four tables and keeps every constraint |
| `Tables.DeleteUserCascadeOk` | server/src/db.js:43-44 | the four deletions of a user cascade leave consistent tables |
| `Db.Store.constructor` | server/src/db.js:11-65 | a new store is empty and valid |
| `Db.Store.DeleteUser` | server/src/db.js:30-57 | the store keeps its invariant and becomes the cascade of the user's deletion |
| `ActivityLogger.Recorded` | server/src/utils/activityLogger.js:3-13 | exactly one entry with the given columns, the next id and the current second is appended when the insert succeeds; nothing changes when it fails; no other table or earlier entry changes |
| `ActivityLogger.RecordedOk` | server/src/utils/activityLogger.js:5-8 | recording an entry of an existing user keeps every constraint |
| `ActivityLogger.LogActivity` | server/src/utils/activityLogger.js:3-13 | the store stays valid and receives exactly the recorded entry; a failed insert returns normally and changes nothing |
| `CleanupOldLogs.Cutoff` | server/src/utils/cleanupOldLogs.js:9 | the cutoff is 15,552,000 seconds before the current whole second, within one second of `now` minus six 30-day months |
| `CleanupOldLogs.CountSelected` | server/src/utils/cleanupOldLogs.js:17-21 | never more than the number of entries |
| `CleanupOldLogs.DeleteLogsCount` | server/src/utils/cleanupOldLogs.js:15-21 | entries kept plus entries selected is every entry: the reported `deleted` is the number removed |
| `CleanupOldLogs.DeleteLogsIdempotent` | server/src/utils/cleanupOldLogs.js:11-15 | a second identical delete leaves the table as the first left it |
| `CleanupOldLogs.CleanupOldLogs` | server/src/utils/cleanupOldLogs.js:7-26 | deletes exactly the entries older than the cutoff, across all users, and reports how many; on a storage error reports 0 with an error and changes nothing |
| `CleanupOldLogs.SecondSweepDeletesNothing` | server/src/utils/cleanupOldLogs.js:11-21 | a second sweep at the same clock reading deletes 0 entries |
| `CleanupOldLogs.StartCleanupSchedule` | server/src/utils/cleanupOldLogs.js:31-33 | one sweep at start-up: the log becomes the old-entry DELETE of the log, or stays as it was when storage fails, and every other table and counter is unchanged |
| `Queries.Filter` | server/src/routes/inventoryRoutes.js:18 | keeps exactly the rows satisfying the condition, each as many times as the table holds it |
| `Queries.SortByName` | server/src/routes/inventoryRoutes.js:34 | the result is in ascending name order and is a permutation of the input |
| `Queries.NewestFirst` | server/src/routes/inventoryRoutes.js:238 | the result is in descending `createdAt` order and is a permutation of the input |
| `Queries.Select` | server/src/routes/inventoryRoutes.js:225-236 | keeps exactly the entries of the user inside the inclusive date bounds (and, for a history, about the item) |
| `Queries.CountIsSelectSize` | server/src/routes/inventoryRoutes.js:243-257 | the separate COUNT statement equals the size of the SELECT's full result |
| `Queries.OrDefault` | server/src/routes/inventoryRoutes.js:220-221 | a missing or zero parameter takes the default, any other value is kept |
| `Queries.Bound` | server/src/routes/inventoryRoutes.js:222-236 | a date bound applies exactly when it is given and non-zero |
| `Queries.PageStart` | server/src/routes/inventoryRoutes.js:238 | a negative offset starts at 0, an offset within the result is kept, one past its end starts at the end |
| `Queries.PageEnd` | server/src/routes/inventoryRoutes.js:238 | a negative limit means no limit; otherwise the page ends `limit` rows after its start, or at the end of the result if that comes first |
| `Queries.Page` | server/src/routes/inventoryRoutes.js:238 | the page is the contiguous run of the result from the start, never longer than a non-negative limit |
| `Queries.PagesTile` | server/src/routes/inventoryRoutes.js:238 | two consecutive pages of one size are the page of twice that size: nothing is skipped or shown twice |
| `Queries.WholePage` | server/src/routes/inventoryRoutes.js:238 | with no limit and no offset the page is the whole result |
| `Queries.FirstPageIsNewest` | server/src/routes/inventoryRoutes.js:238 | a match that the first page leaves out is no newer than any entry on it |
| `Queries.Query` | server/src/routes/inventoryRoutes.js:238-259 | the page is the `LIMIT`/`OFFSET` window of the matches in newest-first order; it holds only matching entries, newest first, with the size the limit and offset allow; the total is the size of the whole filtered set; an unclipped page holds every match |
| `InventoryRoutes.CreateCategoryOutcome` | server/src/routes/inventoryRoutes.js:65-90 | 400 exactly when the trimmed name is empty or missing; 409 exactly when the caller already has that name, changing nothing; otherwise one new category with the trimmed name and one `created` entry |
| `InventoryRoutes.CreateCategoryKeepsConsistent` | server/src/routes/inventoryRoutes.js:74-85 | creating a category keeps every constraint |
| `InventoryRoutes.CreateCategory` | server/src/routes/inventoryRoutes.js:65-90 | the store stays valid and reaches exactly the outcome above |
| `InventoryRoutes.NewItem` | server/src/routes/inventoryRoutes.js:96-111 | a missing quantity becomes 0 and a missing unit `lbs`; both timestamps are the current second |
| `InventoryRoutes.CreateItemOutcome` | server/src/routes/inventoryRoutes.js:93-126 | 400 without a category id or name; 404 unless the category is the caller's; 409 on a name taken in that category; errors change nothing; otherwise one new row and one `created` entry with the initial quantity |
| `InventoryRoutes.CreateItemKeepsConsistent` | server/src/routes/inventoryRoutes.js:108-121 | creating an item keeps every constraint |
| `InventoryRoutes.CreateItem` | server/src/routes/inventoryRoutes.js:93-126 | the store stays valid and reaches exactly the outcome above |
| `InventoryRoutes.AmountOrDefault` | server/src/routes/inventoryRoutes.js:133 | a missing amount is 1 |
| `InventoryRoutes.TakenQuantity` | server/src/routes/inventoryRoutes.js:173 | the result is never negative, is at least the difference, and is either 0 or the difference |
| `InventoryRoutes.AddQuantityOutcome` | server/src/routes/inventoryRoutes.js:129-158 | 404 with nothing changed unless the caller owns the item; otherwise only that row changes, to quantity old + amount with `updatedAt` now, plus one `added` entry carrying the amount and new quantity |
| `InventoryRoutes.AddKeepsStockNonNegative` | server/src/routes/inventoryRoutes.js:141 | the new quantity is non-negative exactly when old + amount is; a non-negative amount never lowers the stock |
| `InventoryRoutes.AddQuantityKeepsConsistent` | server/src/routes/inventoryRoutes.js:141-150 | adding keeps every constraint |
| `InventoryRoutes.ItemKeepsKey` | server/src/routes/inventoryRoutes.js:142-145 | rewriting an item's quantity and timestamp keeps every constraint |
| `InventoryRoutes.AddQuantity` | server/src/routes/inventoryRoutes.js:129-158 | the store stays valid and reaches exactly the outcome above |
| `InventoryRoutes.TakeQuantityOutcome` | server/src/routes/inventoryRoutes.js:161-190 | 404 with nothing changed unless the caller owns the item; otherwise only that row changes, to `max(0, old - amount)`, never negative, with `updatedAt` now, plus one `took` entry carrying the clamped quantity |
| `InventoryRoutes.TakeQuantityKeepsConsistent` | server/src/routes/inventoryRoutes.js:173-182 | taking keeps every constraint |
| `InventoryRoutes.TakeQuantity` | server/src/routes/inventoryRoutes.js:161-190 | the store stays valid and reaches exactly the outcome above |
| `InventoryRoutes.DeleteItemOutcome` | server/src/routes/inventoryRoutes.js:193-214 | 404 with nothing changed unless the caller owns the item; otherwise exactly that row goes, and one `deleted` entry records its last quantity and unit |
| `InventoryRoutes.DeleteItemKeepsConsistent` | server/src/routes/inventoryRoutes.js:204-208 | deleting an item keeps every constraint |
| `InventoryRoutes.DeleteItemKeepsHistory` | server/src/db.js:53-57 | no log entry is removed when an item is deleted, not even the ones about that item |
| `InventoryRoutes.DeleteItem` | server/src/routes/inventoryRoutes.js:193-214 | the store stays valid and reaches exactly the outcome above |
| `InventoryRoutes.RenameCategoryOutcome` | server/src/routes/inventoryRoutes.js:298-330 | 400 without a usable name; 404 unless the category is the caller's; 409 when another of the caller's categories has the name; errors change nothing; otherwise only that row's name changes and one `updated` entry records the old and new names |
| `InventoryRoutes.RenameCategoryKeepsConsistent` | server/src/routes/inventoryRoutes.js:314-320 | renaming keeps every constraint |
| `InventoryRoutes.RenameCategory` | server/src/routes/inventoryRoutes.js:298-330 | the store stays valid and reaches exactly the outcome above |
| `InventoryRoutes.EditedItem` | server/src/routes/inventoryRoutes.js:345-366 | the name changes only to a usable trimmed name, the unit only to a non-empty unit, and `updatedAt` is now |
| `InventoryRoutes.ItemChangesAsWritten` | server/src/routes/inventoryRoutes.js:371-377 | the handler's own change list: a name change for any non-empty name whose trimmed form differs from the stored name |
| `InventoryRoutes.WhitespaceNameLogsPhantomRename` | server/src/routes/inventoryRoutes.js:348-379 | a whitespace-only name with a new unit leaves the name alone, yet the handler's change list reports a rename to "" |
| `InventoryRoutes.ChangeListsDiffer` | server/src/routes/inventoryRoutes.js:348-379 | the handler's change list and the corrected one differ exactly when a non-empty name of only whitespace meets a non-empty stored name; the unit changes always agree |
| `InventoryRoutes.ItemChangesOf` | server/src/routes/inventoryRoutes.js:371-377 | the recorded changes are exactly the fields whose stored value differs after the update, each with its old and new value |
| `InventoryRoutes.UpdateItemOutcome` | server/src/routes/inventoryRoutes.js:333-390 | 404 unless the caller owns the item; 400 without a usable name or unit; 409 exactly when the new name is taken in the category; errors change nothing; otherwise only that row changes, and an `updated` entry is appended exactly when some field differs (the corrected change list; see Findings) |
| `InventoryRoutes.UnitOnlyUpdateNeverConflicts` | server/src/routes/inventoryRoutes.js:384-386 | an update that leaves the name alone never answers 409 |
| `InventoryRoutes.UpdateItemKeepsConsistent` | server/src/routes/inventoryRoutes.js:362-366 | updating an item keeps every constraint |
| `InventoryRoutes.UpdateItem` | server/src/routes/inventoryRoutes.js:333-390 | the store stays valid and reaches exactly the outcome above |
| `InventoryRoutes.DeleteItemsCount` | server/src/routes/inventoryRoutes.js:405-409 | the count taken before the delete is exactly the number of items the delete removes |
| `InventoryRoutes.DeleteCategoryOutcome` | server/src/routes/inventoryRoutes.js:393-418 | 404 with nothing changed unless the caller owns the category; otherwise the category and exactly its items go, and one `deleted` entry records how many items went |
| `InventoryRoutes.DeleteCategoryKeepsConsistent` | server/src/routes/inventoryRoutes.js:405-412 | deleting a category keeps every constraint |
| `InventoryRoutes.DeleteCategory` | server/src/routes/inventoryRoutes.js:393-418 | the store stays valid and reaches exactly the outcome above |
| `InventoryRoutes.SearchTerm` | server/src/routes/inventoryRoutes.js:15 | the term is the lower-cased search text, or empty without one |
| `InventoryRoutes.GroupItems` | server/src/routes/inventoryRoutes.js:21-40 | exactly the caller's items of the category that pass the search, each as many times as the table holds it, in name order |
| `InventoryRoutes.ListInventory` | server/src/routes/inventoryRoutes.js:12-42 | each of the caller's category rows exactly once and no other, in name order, each holding exactly the caller's items in it that pass the search, each once per row, in name order |
| `InventoryRoutes.NoUncategorizedItems` | server/src/routes/inventoryRoutes.js:44-55 | under the invariant every item of the caller has a category group, so the "Uncategorized" bucket is always empty |
| `InventoryRoutes.LogCriteria` | server/src/routes/inventoryRoutes.js:225-236 | the log filter is the caller plus the given, non-zero date bounds |
| `InventoryRoutes.ActivityLogs` | server/src/routes/inventoryRoutes.js:217-264 | only the caller's entries inside the inclusive bounds, newest first, one page (50 by default), which is the `LIMIT`/`OFFSET` window of the newest-first matches; `total` is the size of the whole filtered set; an unclipped page holds every match |
| `InventoryRoutes.HistoryCriteria` | server/src/routes/inventoryRoutes.js:281-288 | the history filter is the caller, entity type item and the item's id |
| `InventoryRoutes.ItemHistory` | server/src/routes/inventoryRoutes.js:267-295 | 404 exactly when the caller does not own the item; otherwise that item with only its own entries, newest first, one page (3 by default), which is the `LIMIT`/`OFFSET` window of the newest-first matches, and their total; an unclipped page holds every match |
| `AuthRoutes.UserByEmail` | server/src/routes/authRoutes.js:29 | finds the user whose stored email is the lower-cased input, or none exactly when there is none |
| `AuthRoutes.SignupOutcome` | server/src/routes/authRoutes.js:24-40 | 400 exactly when a field is missing; 409 exactly when the lower-cased email is registered, with no insert; otherwise one new user with the lower-cased email and no token |
| `AuthRoutes.SignupKeepsConsistent` | server/src/routes/authRoutes.js:29-35 | signing up keeps emails unique and lower-case |
| `AuthRoutes.SignupRejectsCaseVariant` | server/src/routes/authRoutes.js:29-35 | after a sign-up, a second one with any email of the same lower-case form is refused with 409 |
| `AuthRoutes.Signup` | server/src/routes/authRoutes.js:24-40 | the store stays valid and reaches exactly the outcome above |
| `AuthRoutes.Login` | server/src/routes/authRoutes.js:42-59 | 400 exactly when a field is missing; the same 401 exactly when the email is unknown or the password does not match; otherwise the matching user's id, email and company |
| `AuthRoutes.LoginFailuresIndistinguishable` | server/src/routes/authRoutes.js:47-54 | an unknown email and a wrong password give identical 401 answers |
| `AuthRoutes.RequestResetOutcome` | server/src/routes/authRoutes.js:61-103 | 400 without an email; an unknown email gets the generic notice and changes nothing; a known one gets a new token expiring in 30 minutes, replacing the old one, the link for the new token and the lower-cased email is returned exactly when sending failed and no mail service is configured, and otherwise the notice reports whether the mail went out |
| `AuthRoutes.RequestResetKeepsConsistent` | server/src/routes/authRoutes.js:71-73 | storing a token keeps every constraint |
| `AuthRoutes.RequestPasswordReset` | server/src/routes/authRoutes.js:61-103 | the store stays valid and reaches exactly the outcome above |
| `AuthRoutes.ResetPasswordOutcome` | server/src/routes/authRoutes.js:105-120 | 400 exactly when a field is missing; "Invalid or expired token" exactly when there is no such user, no stored token or expiry, a different token, or the clock is past the expiry; otherwise one update writes the new hash and clears both token columns |
| `AuthRoutes.ResetPasswordKeepsConsistent` | server/src/routes/authRoutes.js:117-119 | resetting keeps every constraint |
| `AuthRoutes.ResetPassword` | server/src/routes/authRoutes.js:105-120 | the store stays valid and reaches exactly the outcome above |
| `AuthRoutes.TokenExpiresAfterThirtyMinutes` | server/src/routes/authRoutes.js:72-114 | a token issued at time T is accepted at T + 30 min and refused at T + 30 min + 1 ms |
| `AuthRoutes.OnlyLatestTokenWorks` | server/src/routes/authRoutes.js:71-73 | after a second reset request, the first token no longer resets the password |
| `AuthRoutes.TokenIsSingleUse` | server/src/routes/authRoutes.js:20-22 | after a successful reset, the same token is refused |

## Left out

- JWT signing and verification are not modelled. `server/src/middleware/auth.js` is not part of this model, so the caller's `userId` is taken to be an existing user (`HasUser` in each handler's precondition).
- bcrypt hashing and comparison are foreign calls: a new hash is a parameter and comparison is the `matches` parameter.
- The random token from `nanoid(32)` is a parameter of the reset request.
- Mail transport (`server/src/utils/emailService.js`) is not part of this model. Its result is `emailSent`, and whether `EMAIL_SERVICE` or `SMTP_HOST` is set is `emailConfigured`.
- The text of the reset link is not modelled: the frontend URL and `encodeURIComponent` are left out. `LinkIssued` carries the token and the lower-cased email the link contains.
- The 24-hour `setInterval` repetition of the sweep is not modelled; `StartCleanupSchedule` is the sweep run once at start-up.
- Concurrency and interleaving of requests are not modelled: every handler runs to completion on its own.
- Storage failures (500 responses) are modelled only for the audit insert and the sweep, the two places where the source catches them and carries on. Any other failing statement is not modelled.
- Request coercion is not modelled: `Number(amount)`, `parseInt` of query strings, `String(password)` and non-string body fields. Inputs arrive parsed. A missing or unparsable value is `None`, a falsy one is `None` or `Some(0)`/`Some("")`.
- Quantities are exact `real` numbers, not IEEE doubles.
- The `details` column is the structured `Detail` datatype holding the values each template interpolates. The number formatting of those strings is left out.
- Lower-casing is ASCII only, as SQLite's `LOWER`. JavaScript's `toLowerCase` on non-ASCII letters is not modelled.
- Search is a plain substring test: `%` and `_` in the search term are not treated as LIKE wildcards.
- The `categoryName` column that item responses join in is left out of the returned rows.
- The `isExpanded` presentation flag of the listing is not modelled.
- The "Uncategorized" bucket is not built. `NoUncategorizedItems` proves it is always empty under the store invariant.
- SQL leaves the order of log entries with equal `createdAt` open. `Queries.NewestFirst` fixes one order: the later-inserted entry first.
- Response message texts are not modelled; each response is its `Failure` kind or its payload.
- InventoryRoutes.UpdateItemOutcome: records the corrected change list `ItemChangesOf`. For a non-empty name of only whitespace, with the unit unchanged, the handler still appends an `updated` entry claiming a rename to "" (inventoryRoutes.js:372-379). This outcome appends none. `ChangeListsDiffer` states when the two lists differ.
- InventoryRoutes.UpdateItem: reaches `UpdateItemOutcome`, so it shares that difference from the handler's audit entry for a whitespace-only name.
- The React client under `client/` is not modelled: it only calls these handlers.

## Findings

| source | as written | input that shows it | evidently intended | confidence | as-written member | corrected member |
|---|---|---|---|---|---|---|
| server/src/routes/inventoryRoutes.js:348-379 | the change list records a name change whenever `name` is truthy and `name.trim()` differs from the stored name, even when the handler did not write the name because it trims to empty | PUT `/items/:id` on an item named "Flour" with body `{ name: " ", unit: "kg" }`: only the unit is written, but the entry says `name: "Flour" → ""` | record a name change only when the name was actually written and differs | not executed | `InventoryRoutes.WhitespaceNameLogsPhantomRename` | `InventoryRoutes.ItemChangesOf` |

`InventoryRoutes.ItemChangesAsWritten` is the change list as the source builds it. `InventoryRoutes.UpdateItem` and `InventoryRoutes.UpdateItemOutcome` use the corrected `ItemChangesOf`, whose contract says the recorded changes are exactly the fields that differ after the update.
