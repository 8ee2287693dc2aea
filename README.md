# Inventory item store and view-model, in Dafny

This project models the core of a small Android inventory app: the Room data-access
object `ItemDao` over the `item` table, and the `InventoryViewModel` that validates
form input, builds `Item` records and forwards inserts, updates, sells and deletes to
the DAO.

- `Items` (`items.dfy`): the `Item` entity. The price (a Kotlin `Double`) is never
  computed on, so it is a type parameter `P`. The quantity is a Kotlin `Int`, modelled
  as the 32-bit subset type `Int32`. An id of `0` (`UnassignedId`) means "let the
  database assign one".
- `NameOrder` (`name_order.dfy`): the order used by `ORDER BY name ASC`. The column has
  SQLite's default BINARY collation, which compares UTF-8 bytes. That is the
  lexicographic order on code points, with a proper prefix first. Lemmas prove the
  order reflexive, total, transitive and antisymmetric.
- `ItemTable` (`item_table.dfy`): what the statements Room generates for each DAO call
  do to the table, as pure functions on a `Table` value. A table holds the rows by
  primary key and SQLite's AUTOINCREMENT counter `lastId`. `autoGenerate = true` makes
  Room declare `INTEGER PRIMARY KEY AUTOINCREMENT` and bind an id of `0` as NULL. A new
  row therefore gets `lastId + 1`, and ids are never reused. `Valid` is the table
  invariant: every row is stored under its own id, no id is `0`, and no key exceeds the
  counter. `Run` applies any sequence of DAO calls.
- `Dao` (`item_dao.dfy`): the class `ItemDao`, whose `Insert`, `Update` and `Delete`
  change its `rows` map and `lastId` counter in place. Each is proved to leave exactly
  the state the matching `ItemTable` function gives.
- `Inventory` (`inventory_view_model.dfy`): `isEntryValid` with Kotlin's own definition
  of whitespace, `isStockAvailable`, the two entry builders, the calls `sellItem`
  makes, and the class `InventoryViewModel`, whose methods change the DAO it holds.

Delete follows the code. Room's generated `@Delete` statement matches on the primary key
alone. So deleting an item whose other fields are stale still removes the row. Reading
`@Delete` as a match on the full record does not describe what the code does.

## Model

| member | source | states |
|---|---|---|
| `ItemTable.Insert` | app/src/main/java/com/example/inventory/data/ItemDao.kt:17-18 | an insert whose id is already stored leaves the table unchanged; any other explicit id is stored as given and raises the counter to that id if it is larger; the unassigned id gets a key above every key the table has held, and the new row carries the given name, price and quantity; the counter never goes down; the invariant is kept |
| `ItemTable.Update` | app/src/main/java/com/example/inventory/data/ItemDao.kt:20-21 | replaces the row under `item.id` with the whole item; an absent id leaves the table unchanged; the invariant is kept |
| `ItemTable.Delete` | app/src/main/java/com/example/inventory/data/ItemDao.kt:23-24 | removes the key `item.id` and keeps every other row as it was; an absent id leaves the table unchanged |
| `ItemTable.GetItem` | app/src/main/java/com/example/inventory/data/ItemDao.kt:26-27 | finds a row exactly when the id is stored, and then it is that row, whose id is the one asked for |
| `ItemTable.GetItems` | app/src/main/java/com/example/inventory/data/ItemDao.kt:29-30 | the listing is sorted by name and lists every stored row exactly once: as many entries as rows, each one a stored row, every row present, no id twice |
| `ItemTable.SortByName` | app/src/main/java/com/example/inventory/data/ItemDao.kt:29 | the sorted sequence is ordered by name and is a permutation of its input, and distinct ids stay distinct |
| `ItemTable.Run` | app/src/main/java/com/example/inventory/data/Item.kt:14-15 | any sequence of inserts, updates and deletes keeps the table invariant: each row under its own id, no id 0, no key above the counter |
| `ItemTable.RunNeverLowersCounter` | app/src/main/java/com/example/inventory/data/Item.kt:14 | no sequence of inserts, updates and deletes lowers the AUTOINCREMENT counter |
| `ItemTable.DeletedIdNotReused` | app/src/main/java/com/example/inventory/data/Item.kt:14 | after a row is deleted, an insert with id 0 never gets the deleted id, whatever calls come in between |
| `ItemTable.PrimaryKeyInvariant` | app/src/main/java/com/example/inventory/data/Item.kt:14 | after any sequence of calls on a new table, no two listed rows share an id and none has id 0 |
| `ItemTable.InsertAssignsFreshId` | app/src/main/java/com/example/inventory/data/Item.kt:14-15 | inserting with id 0 adds exactly one row, under an id not held before; it reads back with the given name, price and quantity; other ids read as before; the listing grows by one and contains it |
| `ItemTable.InsertIgnoresConflict` | app/src/main/java/com/example/inventory/data/ItemDao.kt:17-18 | a second insert under an id already stored is a no-op, so the first row's values stay |
| `ItemTable.UpdateReplacesOnlyItsRow` | app/src/main/java/com/example/inventory/data/ItemDao.kt:20-21 | after an update, the item's id reads as the new item if it was stored; every other id reads as before |
| `ItemTable.DeleteRemovesOnlyItsRow` | app/src/main/java/com/example/inventory/data/ItemDao.kt:23-27 | after a delete, looking up the deleted id finds nothing and every other id reads as before |
| `ItemTable.ListingOrderExample` | app/src/main/java/com/example/inventory/data/ItemDao.kt:29 | after inserting "Banana" and then "Apple", the listing is "Apple", "Banana" |
| `NameOrder.NameLeReflexive` | app/src/main/java/com/example/inventory/data/ItemDao.kt:29 | every name sorts no later than itself |
| `NameOrder.NameLeTotal` | app/src/main/java/com/example/inventory/data/ItemDao.kt:29 | any two names are comparable |
| `NameOrder.NameLeTransitive` | app/src/main/java/com/example/inventory/data/ItemDao.kt:29 | the name order is transitive |
| `NameOrder.NameLeAntisymmetric` | app/src/main/java/com/example/inventory/data/ItemDao.kt:29 | two names that sort no later than each other are equal |
| `Dao.ItemDao.constructor` | app/src/main/java/com/example/inventory/data/ItemRoomDatabase.kt:33-39 | a new database has an empty `item` table that satisfies the invariant |
| `Dao.ItemDao.Insert` | app/src/main/java/com/example/inventory/data/ItemDao.kt:17-18 | the in-place insert keeps the invariant and leaves exactly the state `ItemTable.Insert` gives |
| `Dao.ItemDao.Update` | app/src/main/java/com/example/inventory/data/ItemDao.kt:20-21 | the in-place update keeps the invariant and leaves exactly the state `ItemTable.Update` gives |
| `Dao.ItemDao.Delete` | app/src/main/java/com/example/inventory/data/ItemDao.kt:23-24 | the in-place delete keeps the invariant and leaves exactly the state `ItemTable.Delete` gives |
| `Inventory.IsBlank` | app/src/main/java/com/example/inventory/InventoryViewModel.kt:46 | a text is blank exactly when every character is whitespace in Kotlin's sense; an empty text is blank |
| `Inventory.IsEntryValid` | app/src/main/java/com/example/inventory/InventoryViewModel.kt:45-50 | the entry is refused exactly when at least one of the three fields is empty or only whitespace |
| `Inventory.IsEntryValidExamples` | app/src/main/java/com/example/inventory/InventoryViewModel.kt:45-50 | an empty name, a price of spaces and tabs, or a count of an ideographic space is refused; "Widget", "9.99", "5" is accepted |
| `Inventory.IsStockAvailable` | app/src/main/java/com/example/inventory/InventoryViewModel.kt:73-75 | stock is available exactly when the quantity is above zero |
| `Inventory.GetNewItemEntry` | app/src/main/java/com/example/inventory/InventoryViewModel.kt:30-36 | the record has id 0 and the given name and the converted price and count; a price that does not convert fails first, then a count that does not |
| `Inventory.GetUpdatedItemEntry` | app/src/main/java/com/example/inventory/InventoryViewModel.kt:84-96 | the record carries exactly the given id and name and the converted price and count; conversion failures as for a new entry |
| `Inventory.SellCalls` | app/src/main/java/com/example/inventory/InventoryViewModel.kt:65-70 | with stock available exactly one update is issued, otherwise none; the update keeps id, name and price and has one unit less, which is not negative |
| `Inventory.SellOnlyWhenInStock` | app/src/main/java/com/example/inventory/InventoryViewModel.kt:65-75 | selling changes the table only when `isStockAvailable` holds |
| `Inventory.SellDecrementsOnlyItsRow` | app/src/main/java/com/example/inventory/InventoryViewModel.kt:65-69 | selling a stocked, stored item makes its row read back with one unit less and the same id, name and price; every other id reads as before |
| `Inventory.SellKeepsStockNonNegative` | app/src/main/java/com/example/inventory/InventoryViewModel.kt:66-67 | if no stored quantity is negative before a sell, none is after it |
| `Inventory.SellExamples` | app/src/main/java/com/example/inventory/InventoryViewModel.kt:65-70 | selling from a stock of 3 submits one update to 2; from a stock of 0, nothing |
| `Inventory.AddNewItemGetsFreshId` | app/src/main/java/com/example/inventory/InventoryViewModel.kt:30-42 | the record `addNewItem` inserts lands under a new id with the entered name, price and count |
| `Inventory.UpdateItemTargetsGivenId` | app/src/main/java/com/example/inventory/InventoryViewModel.kt:84-106 | the update `updateItem(itemId, ...)` submits rewrites the row under `itemId` with the entered values, and changes nothing if that id is not stored |
| `Inventory.InventoryViewModel.constructor` | app/src/main/java/com/example/inventory/InventoryViewModel.kt:17 | the view-model holds the DAO it was given |
| `Inventory.InventoryViewModel.AllItems` | app/src/main/java/com/example/inventory/InventoryViewModel.kt:19-20 | the current list is sorted by name, has one entry per stored row and contains every row |
| `Inventory.InventoryViewModel.RetrieveItem` | app/src/main/java/com/example/inventory/InventoryViewModel.kt:53-55 | the current value is the row stored under the id, or nothing when there is none |
| `Inventory.InventoryViewModel.AddNewItem` | app/src/main/java/com/example/inventory/InventoryViewModel.kt:39-42 | a converted entry is inserted with id 0; a failed conversion is reported and the table is unchanged |
| `Inventory.InventoryViewModel.UpdateItem` | app/src/main/java/com/example/inventory/InventoryViewModel.kt:98-106 | a converted entry carrying `itemId` is submitted as an update; a failed conversion is reported and the table is unchanged |
| `Inventory.InventoryViewModel.SellItem` | app/src/main/java/com/example/inventory/InventoryViewModel.kt:65-70 | the table afterwards is the result of applying `SellCalls(item)`, so exactly one update when in stock and no change otherwise |
| `Inventory.InventoryViewModel.DeleteItem` | app/src/main/java/com/example/inventory/InventoryViewModel.kt:78-82 | the item is handed unchanged to the DAO's delete |

## Left out

- Asynchrony: `viewModelScope.launch` and `suspend` calls are modelled as immediate calls applied in call order. The lost update between two `sellItem` calls on the same stale item is therefore not modelled.
- Push streams: the `Flow` and `LiveData` results of `getItem`, `getItems`, `allItems` and `retrieveItem` are modelled as the value they hold at one moment, not as subscriptions.
- Conversions: `toDouble` and `toInt` are parameters (`string -> Option<_>`). `None` stands for the `NumberFormatException` they throw. Floating-point parsing and Kotlin's exact number syntax are not modelled. The thrown exception is returned as a value, and the store stays unchanged.
- Item ids are unbounded integers. SQLite rowids are 64-bit and Room reads them back as a 32-bit `Int`, so wrap-around past 2147483647 is not modelled. Running out of rowids (`SQLITE_FULL`) is not modelled either.
- `ItemTable.GetItems`: SQL leaves the order of rows with equal names open. The model lists them by ascending id, and its contract promises only the order by name.
- `ItemTable.GetItem`: `getItem` is declared with a non-null `Item`, but Room emits null when no row matches. The model returns `None` there.
- The private helpers `insertItem` and `updateItem(item)` only launch the DAO call. They are folded into `AddNewItem`, `UpdateItem` and `SellItem`.
- The database singleton (`@Volatile`, `synchronized`), the Room builder and the destructive-migration fallback are thread-safety and library wiring. Only the empty table a new database starts with is modelled.
- `InventoryViewModelFactory` is reflection-based wiring and is not modelled.
- The fragment `AddItemFragment` (view binding, navigation, keyboard, `"%.2f"` price formatting) is UI glue and is not modelled.
