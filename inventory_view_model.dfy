/** The view-model (InventoryViewModel.kt): input validation, the stock rule,
    turning form text into an `Item`, and forwarding each change to the DAO.
    Every DAO call is applied at once, in call order. */
module Inventory {
  import opened Wrappers
  import opened Items
  import ItemTable
  import opened Dao

  /** Kotlin's `Char.isWhitespace()` on the JVM: `Character.isWhitespace` or
      `Character.isSpaceChar`, that is the controls U+0009 to U+000D and
      U+001C to U+001F, and every space, line and paragraph separator of
      Unicode (the no-break spaces included). */
  predicate IsWhitespace(c: char) {
    || '\U{9}' <= c <= '\U{D}'
    || '\U{1C}' <= c <= '\U{1F}'
    || c == ' '
    || c == '\U{A0}'
    || c == '\U{1680}'
    || '\U{2000}' <= c <= '\U{200A}'
    || c == '\U{2028}'
    || c == '\U{2029}'
    || c == '\U{202F}'
    || c == '\U{205F}'
    || c == '\U{3000}'
  }

  /** Kotlin's `CharSequence.isBlank()`. */
  function IsBlank(s: string): (r: bool)
    ensures r <==> AllWhitespace(s)
    decreases |s|
  {
    if s == [] then true else IsWhitespace(s[0]) && IsBlank(s[1..])
  }

  /** Every character is whitespace; true of the empty text. */
  ghost predicate AllWhitespace(s: string) {
    forall i :: 0 <= i < |s| ==> IsWhitespace(s[i])
  }

  /** `isEntryValid`: rejects the entry when any of the three fields is
      empty or blank; the numbers are not checked here. */
  function IsEntryValid(itemName: string, itemPrice: string, itemCount: string): (valid: bool)
    ensures !valid <==> AllWhitespace(itemName) || AllWhitespace(itemPrice) || AllWhitespace(itemCount)
  {
    if IsBlank(itemName) || IsBlank(itemPrice) || IsBlank(itemCount) then false else true
  }

  /** `isStockAvailable`. */
  predicate IsStockAvailable<P>(item: Item<P>): (available: bool)
    ensures available <==> item.quantity > 0
  {
    item.quantity > 0
  }

  /** The exception a conversion throws: `toDouble` on the price text, or
      `toInt` on the count text (both `NumberFormatException`). */
  datatype EntryError = PriceFormat | CountFormat

  /** `getNewItemEntry`: the record `addNewItem` inserts. The id is left at
      its default, so the database assigns one. The price is converted
      before the count, so a bad price is the one reported. */
  function GetNewItemEntry<P>(itemName: string, itemPrice: string, itemCount: string,
                              toDouble: string -> Option<P>, toInt: string -> Option<Int32>)
    : (r: Result<Item<P>, EntryError>)
    ensures r.Success? <==> toDouble(itemPrice).Some? && toInt(itemCount).Some?
    ensures r.Success? ==>
      && r.value.id == UnassignedId
      && r.value.name == itemName
      && r.value.price == toDouble(itemPrice).value
      && r.value.quantity == toInt(itemCount).value
    ensures toDouble(itemPrice).None? ==> r == Failure(PriceFormat)
    ensures toDouble(itemPrice).Some? && toInt(itemCount).None? ==> r == Failure(CountFormat)
  {
    match toDouble(itemPrice)
    case None => Failure(PriceFormat)
    case Some(price) =>
      match toInt(itemCount)
      case None => Failure(CountFormat)
      case Some(count) => Success(Item(UnassignedId, itemName, price, count))
  }

  /** `getUpdatedItemEntry`: the record `updateItem` submits, carrying the
      id it was given. */
  function GetUpdatedItemEntry<P>(itemId: int, itemName: string, itemPrice: string, itemCount: string,
                                  toDouble: string -> Option<P>, toInt: string -> Option<Int32>)
    : (r: Result<Item<P>, EntryError>)
    ensures r.Success? <==> toDouble(itemPrice).Some? && toInt(itemCount).Some?
    ensures r.Success? ==>
      && r.value.id == itemId
      && r.value.name == itemName
      && r.value.price == toDouble(itemPrice).value
      && r.value.quantity == toInt(itemCount).value
    ensures toDouble(itemPrice).None? ==> r == Failure(PriceFormat)
    ensures toDouble(itemPrice).Some? && toInt(itemCount).None? ==> r == Failure(CountFormat)
  {
    match toDouble(itemPrice)
    case None => Failure(PriceFormat)
    case Some(price) =>
      match toInt(itemCount)
      case None => Failure(CountFormat)
      case Some(count) => Success(Item(itemId, itemName, price, count))
  }

  /** The DAO calls `sellItem(item)` makes: one update with a copy of the
      item holding one unit less when some is in stock, none otherwise. */
  function SellCalls<P>(item: Item<P>): (calls: seq<ItemTable.Op<P>>)
    ensures |calls| == if IsStockAvailable(item) then 1 else 0
    ensures forall i :: 0 <= i < |calls| ==>
      && calls[i].UpdateOp?
      && calls[i].item.id == item.id
      && calls[i].item.name == item.name
      && calls[i].item.price == item.price
      && calls[i].item.quantity == item.quantity - 1
      && calls[i].item.quantity >= 0
  {
    if item.quantity > 0 then [ItemTable.UpdateOp(item.(quantity := item.quantity - 1))] else []
  }

  /** Every stored row has a quantity of at least zero. */
  predicate StockNonNegative<P>(t: ItemTable.Table<P>) {
    forall k :: k in t.rows ==> t.rows[k].quantity >= 0
  }

  /** `sellItem` changes the table only when `isStockAvailable` holds. */
  lemma SellOnlyWhenInStock<P>(t: ItemTable.Table<P>, item: Item<P>)
    requires ItemTable.Valid(t)
    ensures ItemTable.Run(t, SellCalls(item)) != t ==> IsStockAvailable(item)
  {
  }

  /** `sellItem` on a stocked item rewrites its row with one unit less and
      the same id, name and price; every other row reads as before. */
  lemma SellDecrementsOnlyItsRow<P>(t: ItemTable.Table<P>, item: Item<P>, id: int)
    requires ItemTable.Valid(t)
    ensures ItemTable.GetItem(ItemTable.Run(t, SellCalls(item)), id) ==
      if id == item.id && item.id in t.rows && IsStockAvailable(item)
      then Some(Item(item.id, item.name, item.price, item.quantity - 1))
      else ItemTable.GetItem(t, id)
  {
    var calls := SellCalls(item);
    if IsStockAvailable(item) {
      assert ItemTable.Run(t, calls) == ItemTable.Update(t, calls[0].item);
    }
  }

  /** `sellItem` never takes a stored quantity below zero. */
  lemma SellKeepsStockNonNegative<P>(t: ItemTable.Table<P>, item: Item<P>)
    requires ItemTable.Valid(t) && StockNonNegative(t)
    ensures StockNonNegative(ItemTable.Run(t, SellCalls(item)))
  {
    var calls := SellCalls(item);
    if IsStockAvailable(item) {
      assert ItemTable.Run(t, calls) == ItemTable.Update(t, calls[0].item);
    }
  }

  /** Selling from a stock of 3 submits one update to 2; from a stock of 0,
      nothing. */
  lemma SellExamples<P>(item: Item<P>)
    ensures item.quantity == 3 ==> SellCalls(item) == [ItemTable.UpdateOp(item.(quantity := 2))]
    ensures item.quantity == 0 ==> SellCalls(item) == []
  {
  }

  /** Blank fields are refused and filled ones accepted. */
  lemma IsEntryValidExamples()
    ensures !IsEntryValid("", "9.99", "5")
    ensures !IsEntryValid("Widget", " \t", "5")
    ensures !IsEntryValid("Widget", "9.99", "\U{3000}")
    ensures IsEntryValid("Widget", "9.99", "5")
  {
    assert !IsWhitespace('W') && !IsWhitespace('9') && !IsWhitespace('5');
  }

  /** The record `addNewItem` builds leaves the id to the database: the row
      it inserts lands under a new id with the entered name, price and count. */
  lemma AddNewItemGetsFreshId<P>(t: ItemTable.Table<P>, itemName: string, itemPrice: string, itemCount: string,
                                 toDouble: string -> Option<P>, toInt: string -> Option<Int32>)
    requires ItemTable.Valid(t)
    requires GetNewItemEntry(itemName, itemPrice, itemCount, toDouble, toInt).Success?
    ensures var entry := GetNewItemEntry(itemName, itemPrice, itemCount, toDouble, toInt).value;
      var r := ItemTable.Insert(t, entry);
      && r.lastId !in t.rows
      && ItemTable.GetItem(r, r.lastId) ==
           Some(Item(r.lastId, itemName, toDouble(itemPrice).value, toInt(itemCount).value))
  {
    var entry := GetNewItemEntry(itemName, itemPrice, itemCount, toDouble, toInt).value;
    ItemTable.InsertAssignsFreshId(t, entry);
  }

  /** The record `updateItem(itemId, ...)` submits rewrites the row under
      `itemId` with the entered values, if that row exists. */
  lemma UpdateItemTargetsGivenId<P>(t: ItemTable.Table<P>, itemId: int, itemName: string, itemPrice: string,
                                    itemCount: string, toDouble: string -> Option<P>, toInt: string -> Option<Int32>)
    requires ItemTable.Valid(t)
    requires GetUpdatedItemEntry(itemId, itemName, itemPrice, itemCount, toDouble, toInt).Success?
    ensures var entry := GetUpdatedItemEntry(itemId, itemName, itemPrice, itemCount, toDouble, toInt).value;
      ItemTable.GetItem(ItemTable.Update(t, entry), itemId) ==
        if itemId in t.rows
        then Some(Item(itemId, itemName, toDouble(itemPrice).value, toInt(itemCount).value))
        else ItemTable.GetItem(t, itemId)
  {
  }

  class InventoryViewModel<P> {
    const itemDao: ItemDao<P>

    constructor (itemDao: ItemDao<P>)
      ensures this.itemDao == itemDao
    {
      this.itemDao := itemDao;
    }

    /** `allItems`, as the list it holds at this moment: every stored item
        once, by name. */
    function AllItems(): (items: seq<Item<P>>)
      reads itemDao
      requires itemDao.Valid()
      ensures ItemTable.SortedByName(items)
      ensures |items| == |itemDao.rows|
      ensures forall k :: k in itemDao.rows ==> itemDao.rows[k] in items
    {
      ItemTable.GetItems(itemDao.State())
    }

    /** `retrieveItem(id)`, as the value it holds at this moment. */
    function RetrieveItem(id: int): (r: Option<Item<P>>)
      reads itemDao
      requires itemDao.Valid()
      ensures r.Some? <==> id in itemDao.rows
      ensures r.Some? ==> r.value == itemDao.rows[id]
    {
      ItemTable.GetItem(itemDao.State(), id)
    }

    /** `addNewItem`: builds the entry and inserts it. A conversion that
        throws ends the call before anything reaches the DAO. */
    method AddNewItem(itemName: string, itemPrice: string, itemCount: string,
                      toDouble: string -> Option<P>, toInt: string -> Option<Int32>)
      returns (thrown: Option<EntryError>)
      requires itemDao.Valid()
      modifies itemDao
      ensures itemDao.Valid()
      ensures match GetNewItemEntry(itemName, itemPrice, itemCount, toDouble, toInt)
        case Success(entry) =>
          thrown == None && itemDao.State() == ItemTable.Insert(old(itemDao.State()), entry)
        case Failure(e) =>
          thrown == Some(e) && itemDao.State() == old(itemDao.State())
    {
      var entry := GetNewItemEntry(itemName, itemPrice, itemCount, toDouble, toInt);
      match entry
      case Failure(e) =>
        thrown := Some(e);
      case Success(newItem) =>
        itemDao.Insert(newItem);
        thrown := None;
    }

    /** `updateItem(itemId, ...)`: builds the entry and submits it as an
        update. */
    method UpdateItem(itemId: int, itemName: string, itemPrice: string, itemCount: string,
                      toDouble: string -> Option<P>, toInt: string -> Option<Int32>)
      returns (thrown: Option<EntryError>)
      requires itemDao.Valid()
      modifies itemDao
      ensures itemDao.Valid()
      ensures match GetUpdatedItemEntry(itemId, itemName, itemPrice, itemCount, toDouble, toInt)
        case Success(entry) =>
          thrown == None && itemDao.State() == ItemTable.Update(old(itemDao.State()), entry)
        case Failure(e) =>
          thrown == Some(e) && itemDao.State() == old(itemDao.State())
    {
      var entry := GetUpdatedItemEntry(itemId, itemName, itemPrice, itemCount, toDouble, toInt);
      match entry
      case Failure(e) =>
        thrown := Some(e);
      case Success(updatedItem) =>
        itemDao.Update(updatedItem);
        thrown := None;
    }

    /** `sellItem`: the calls of `SellCalls`, applied to the table. */
    method SellItem(item: Item<P>)
      requires itemDao.Valid()
      modifies itemDao
      ensures itemDao.Valid()
      ensures itemDao.State() == ItemTable.Run(old(itemDao.State()), SellCalls(item))
    {
      if item.quantity > 0 {
        var newItem := item.(quantity := item.quantity - 1);
        itemDao.Update(newItem);
        assert ItemTable.Run(old(itemDao.State()), SellCalls(item))
            == ItemTable.Update(old(itemDao.State()), newItem);
      }
    }

    /** `deleteItem`: hands the item unchanged to the DAO's delete. */
    method DeleteItem(item: Item<P>)
      requires itemDao.Valid()
      modifies itemDao
      ensures itemDao.Valid()
      ensures itemDao.State() == ItemTable.Delete(old(itemDao.State()), item)
    {
      itemDao.Delete(item);
    }
  }
}
