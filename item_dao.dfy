/** The DAO as an object whose calls change the `item` table in place
    (data/ItemDao.kt). Each call is one statement, applied at once. */
module Dao {
  import opened Items
  import ItemTable

  class ItemDao<P> {
    /** The rows of the table, by primary key. */
    var rows: map<int, Item<P>>
    /** SQLite's AUTOINCREMENT counter for the table. */
    var lastId: int

    function State(): ItemTable.Table<P>
      reads this
    {
      ItemTable.Table(rows, lastId)
    }

    predicate Valid()
      reads this
    {
      ItemTable.Valid(State())
    }

    /** A new, empty table. */
    constructor ()
      ensures Valid() && State() == ItemTable.Empty()
    {
      rows := map[];
      lastId := 0;
    }

    /** `insert(item)`, ignoring a conflicting primary key. */
    method Insert(item: Item<P>)
      requires Valid()
      modifies this
      ensures Valid()
      ensures State() == ItemTable.Insert(old(State()), item)
    {
      if item.id == UnassignedId {
        lastId := lastId + 1;
        rows := rows[lastId := item.(id := lastId)];
      } else if item.id !in rows {
        rows := rows[item.id := item];
        if item.id > lastId {
          lastId := item.id;
        }
      }
    }

    /** `update(item)`, keyed by `item.id`. */
    method Update(item: Item<P>)
      requires Valid()
      modifies this
      ensures Valid()
      ensures State() == ItemTable.Update(old(State()), item)
    {
      if item.id in rows {
        rows := rows[item.id := item];
      }
    }

    /** `delete(item)`, keyed by `item.id`. */
    method Delete(item: Item<P>)
      requires Valid()
      modifies this
      ensures Valid()
      ensures State() == ItemTable.Delete(old(State()), item)
    {
      rows := rows - {item.id};
    }
  }
}
