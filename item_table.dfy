/** What the statements Room generates for `ItemDao` (data/ItemDao.kt) do to
    the `item` table, as functions from one table state to the next. */
module ItemTable {
  import opened Wrappers
  import opened Items
  import opened NameOrder

  /** The table: rows by primary key, and the AUTOINCREMENT counter that
      SQLite keeps for it (the largest key the table has ever held). */
  datatype Table<P> = Table(rows: map<int, Item<P>>, lastId: int)

  /** Each row is stored under its own id, no row has the unassigned id, and
      no key exceeds the counter. A map has one row per key, so no two rows
      share an id. */
  predicate Valid<P>(t: Table<P>) {
    && t.lastId >= 0
    && forall k :: k in t.rows ==> t.rows[k].id == k && k != UnassignedId && k <= t.lastId
  }

  /** The table as the database creates it. */
  function Empty<P>(): (t: Table<P>)
    ensures Valid(t) && t.rows == map[]
  {
    Table(map[], 0)
  }

  /** `@Insert(onConflict = OnConflictStrategy.IGNORE)`: an unassigned id gets
      the next AUTOINCREMENT key; an id already present makes the insert do
      nothing; any other id is stored as given. */
  function Insert<P>(t: Table<P>, item: Item<P>): (r: Table<P>)
    requires Valid(t)
    ensures Valid(r)
    ensures item.id != UnassignedId && item.id in t.rows ==> r == t
    ensures item.id != UnassignedId && item.id !in t.rows ==> r.rows == t.rows[item.id := item]
    ensures item.id != UnassignedId && item.id !in t.rows ==>
      r.lastId == if item.id > t.lastId then item.id else t.lastId
    ensures r.lastId >= t.lastId
    ensures item.id == UnassignedId ==>
      && r.lastId !in t.rows
      && r.lastId > t.lastId
      && r.rows == t.rows[r.lastId := item.(id := r.lastId)]
  {
    if item.id == UnassignedId then
      var id := t.lastId + 1;
      Table(t.rows[id := item.(id := id)], id)
    else if item.id in t.rows then
      t
    else
      Table(t.rows[item.id := item], if item.id > t.lastId then item.id else t.lastId)
  }

  /** `@Update`: replaces the whole row keyed by `item.id`; no row, no change. */
  function Update<P>(t: Table<P>, item: Item<P>): (r: Table<P>)
    requires Valid(t)
    ensures Valid(r)
    ensures r.lastId == t.lastId
    ensures item.id in t.rows ==> r.rows == t.rows[item.id := item]
    ensures item.id !in t.rows ==> r == t
  {
    if item.id in t.rows then Table(t.rows[item.id := item], t.lastId) else t
  }

  /** `@Delete`: removes the row keyed by `item.id` (the generated statement
      matches on the primary key only); no row, no change. */
  function Delete<P>(t: Table<P>, item: Item<P>): (r: Table<P>)
    requires Valid(t)
    ensures Valid(r)
    ensures r.lastId == t.lastId
    ensures r.rows.Keys == t.rows.Keys - {item.id}
    ensures forall k :: k in r.rows ==> r.rows[k] == t.rows[k]
    ensures item.id !in t.rows ==> r == t
  {
    Table(t.rows - {item.id}, t.lastId)
  }

  /** `SELECT * from item WHERE id = :id`. */
  function GetItem<P>(t: Table<P>, id: int): (r: Option<Item<P>>)
    requires Valid(t)
    ensures r.Some? <==> id in t.rows
    ensures r.Some? ==> r.value.id == id && r.value == t.rows[id]
  {
    if id in t.rows then Some(t.rows[id]) else None
  }

  /** `SELECT * from item ORDER BY name ASC`: every row exactly once, by
      name. SQL leaves the order of equal names open; this model lists them
      by ascending id. */
  function GetItems<P>(t: Table<P>): (r: seq<Item<P>>)
    requires Valid(t)
    ensures SortedByName(r)
    ensures |r| == |t.rows|
    ensures forall i :: 0 <= i < |r| ==> r[i].id in t.rows && t.rows[r[i].id] == r[i]
    ensures forall k :: k in t.rows ==> t.rows[k] in r
    ensures DistinctIds(r)
  {
    var rows := Rows(t.rows);
    var r := SortByName(rows);
    SameElements(rows, r);
    r
  }

  /** One call on the DAO. */
  datatype Op<P> = InsertOp(item: Item<P>) | UpdateOp(item: Item<P>) | DeleteOp(item: Item<P>)

  function Apply<P>(t: Table<P>, op: Op<P>): (r: Table<P>)
    requires Valid(t)
    ensures Valid(r)
  {
    match op
    case InsertOp(item) => Insert(t, item)
    case UpdateOp(item) => Update(t, item)
    case DeleteOp(item) => Delete(t, item)
  }

  /** The calls applied one after another, in order. */
  function Run<P>(t: Table<P>, ops: seq<Op<P>>): (r: Table<P>)
    requires Valid(t)
    ensures Valid(r)
    ensures ops == [] ==> r == t
    decreases |ops|
  {
    if ops == [] then t else Run(Apply(t, ops[0]), ops[1..])
  }

  /** No sequence of calls lowers the AUTOINCREMENT counter. */
  lemma {:induction false} RunNeverLowersCounter<P>(t: Table<P>, ops: seq<Op<P>>)
    requires Valid(t)
    ensures Run(t, ops).lastId >= t.lastId
    decreases |ops|
  {
    if ops != [] {
      RunNeverLowersCounter(Apply(t, ops[0]), ops[1..]);
    }
  }

  /** An id freed by a delete is not handed out again by later inserts with
      the unassigned id, whatever calls come in between. */
  lemma DeletedIdNotReused<P>(t: Table<P>, gone: Item<P>, between: seq<Op<P>>, item: Item<P>)
    requires Valid(t) && gone.id in t.rows && item.id == UnassignedId
    ensures Insert(Run(Delete(t, gone), between), item).lastId != gone.id
  {
    RunNeverLowersCounter(Delete(t, gone), between);
  }

  /** After any sequence of inserts, updates and deletes on a new table, no
      two listed rows share an id and none has the unassigned id. */
  lemma {:induction false} PrimaryKeyInvariant<P>(ops: seq<Op<P>>)
    ensures Valid(Run(Empty(), ops))
    ensures DistinctIds(GetItems(Run(Empty(), ops)))
    ensures forall x :: x in GetItems(Run(Empty(), ops)) ==> x.id != UnassignedId
  {
    var t := Run(Empty(), ops);
    var r := GetItems(t);
    forall x | x in r ensures x.id != UnassignedId {
      var i :| 0 <= i < |r| && r[i] == x;
    }
  }

  /** Inserting with the unassigned id adds exactly one row, under an id the
      table has never held, carrying the given name, price and quantity; the
      row can be read back under that id and appears in the listing. */
  lemma InsertAssignsFreshId<P>(t: Table<P>, item: Item<P>)
    requires Valid(t) && item.id == UnassignedId
    ensures var r := Insert(t, item);
      && r.lastId !in t.rows
      && (forall k :: k in t.rows ==> k < r.lastId)
      && |r.rows| == |t.rows| + 1
      && GetItem(r, r.lastId) == Some(Item(r.lastId, item.name, item.price, item.quantity))
      && (forall k :: k != r.lastId ==> GetItem(r, k) == GetItem(t, k))
      && |GetItems(r)| == |GetItems(t)| + 1
      && Item(r.lastId, item.name, item.price, item.quantity) in GetItems(r)
  {
    var r := Insert(t, item);
    assert r.rows.Keys == t.rows.Keys + {r.lastId};
  }

  /** A second insert under an id that is already stored leaves the first
      row's values in place. */
  lemma InsertIgnoresConflict<P>(t: Table<P>, first: Item<P>, second: Item<P>)
    requires Valid(t)
    requires first.id != UnassignedId && first.id !in t.rows && second.id == first.id
    ensures Insert(Insert(t, first), second) == Insert(t, first)
    ensures GetItem(Insert(Insert(t, first), second), first.id) == Some(first)
  {
  }

  /** An update replaces the row under its id and no other; an id that is not
      stored changes nothing. */
  lemma UpdateReplacesOnlyItsRow<P>(t: Table<P>, item: Item<P>, id: int)
    requires Valid(t)
    ensures GetItem(Update(t, item), id) ==
      if id == item.id && item.id in t.rows then Some(item) else GetItem(t, id)
  {
  }

  /** After a delete the id is not found; every other id reads as before. */
  lemma DeleteRemovesOnlyItsRow<P>(t: Table<P>, item: Item<P>, id: int)
    requires Valid(t)
    ensures GetItem(Delete(t, item), id) == if id == item.id then None else GetItem(t, id)
  {
  }

  /** Inserting "Banana" and then "Apple" into a new table lists "Apple"
      first. */
  lemma ListingOrderExample<P>(bananaPrice: P, applePrice: P, bananas: Int32, apples: Int32)
    ensures var t := Insert(Insert(Empty(), Item(UnassignedId, "Banana", bananaPrice, bananas)),
                            Item(UnassignedId, "Apple", applePrice, apples));
      var r := GetItems(t);
      |r| == 2 && r[0].name == "Apple" && r[1].name == "Banana"
  {
    var banana := Item(1, "Banana", bananaPrice, bananas);
    var apple := Item(2, "Apple", applePrice, apples);
    var t := Insert(Insert(Empty(), banana.(id := UnassignedId)), apple.(id := UnassignedId));
    assert t.rows == map[1 := banana, 2 := apple];
    var r := GetItems(t);
    assert |r| == 2;
    assert !NameLe(banana.name, apple.name);
    assert r[0].id != r[1].id && NameLe(r[0].name, r[1].name);
    assert r[0] == t.rows[r[0].id] && r[1] == t.rows[r[1].id];
  }

  // ---------------------------------------------------------------------
  // The listing, built in two steps: rows by ascending key, then a stable
  // insertion sort by name.

  predicate SortedByName<P>(s: seq<Item<P>>) {
    forall i, j :: 0 <= i < j < |s| ==> NameLe(s[i].name, s[j].name)
  }

  predicate DistinctIds<P>(s: seq<Item<P>>) {
    forall i, j :: 0 <= i < j < |s| ==> s[i].id != s[j].id
  }

  lemma HasElement(keys: set<int>)
    requires keys != {}
    ensures exists k :: k in keys
  {
    if forall k :: k !in keys {
      assert false;
    }
  }

  lemma {:induction false} MinKeyExists(keys: set<int>)
    requires keys != {}
    ensures exists k :: k in keys && forall j :: j in keys ==> k <= j
    decreases |keys|
  {
    HasElement(keys);
    var x :| x in keys;
    var others := keys - {x};
    if others == {} {
      forall j | j in keys ensures x <= j {
        assert j !in others;
      }
    } else {
      MinKeyExists(others);
      var k :| k in others && forall j :: j in others ==> k <= j;
      var m := if x < k then x else k;
      forall j | j in keys ensures m <= j {
        if j != x {
          assert j in others;
        }
      }
      assert m in keys;
    }
  }

  /** The rows of `m` in ascending key order. */
  function Rows<P>(m: map<int, Item<P>>): (r: seq<Item<P>>)
    requires forall k :: k in m ==> m[k].id == k
    ensures |r| == |m|
    ensures forall i :: 0 <= i < |r| ==> r[i].id in m && m[r[i].id] == r[i]
    ensures forall k :: k in m ==> m[k] in r
    ensures DistinctIds(r)
    decreases m.Keys
  {
    if m == map[] then
      []
    else
      MinKeyExists(m.Keys);
      var k :| k in m && forall j :: j in m ==> k <= j;
      var rest := m - {k};
      assert rest.Keys == m.Keys - {k};
      var tail := Rows(rest);
      RowsStep(m, k, tail);
      [m[k]] + tail
  }

  lemma RowsStep<P>(m: map<int, Item<P>>, k: int, tail: seq<Item<P>>)
    requires forall j :: j in m ==> m[j].id == j
    requires k in m
    requires forall i :: 0 <= i < |tail| ==> tail[i].id in m - {k} && (m - {k})[tail[i].id] == tail[i]
    requires forall j :: j in m - {k} ==> (m - {k})[j] in tail
    requires DistinctIds(tail)
    ensures forall i :: 0 <= i < |[m[k]] + tail| ==> ([m[k]] + tail)[i].id in m && m[([m[k]] + tail)[i].id] == ([m[k]] + tail)[i]
    ensures forall j :: j in m ==> m[j] in [m[k]] + tail
    ensures DistinctIds([m[k]] + tail)
  {
    var r := [m[k]] + tail;
    forall i | 0 <= i < |r| ensures r[i].id in m && m[r[i].id] == r[i] {
      if i > 0 {
        assert r[i] == tail[i - 1];
      }
    }
    forall j | j in m ensures m[j] in r {
      if j != k {
        assert (m - {k})[j] in tail;
      }
    }
    DistinctPrepend(m[k], tail);
  }

  /** Two sequences with the same multiset have the same elements. */
  lemma SameElements<P>(a: seq<Item<P>>, b: seq<Item<P>>)
    requires multiset(a) == multiset(b)
    ensures |a| == |b|
    ensures forall i :: 0 <= i < |b| ==> b[i] in a
    ensures forall i :: 0 <= i < |a| ==> a[i] in b
  {
    assert |multiset(a)| == |multiset(b)|;
    forall i | 0 <= i < |b| ensures b[i] in a {
      assert b[i] in multiset(b);
    }
    forall i | 0 <= i < |a| ensures a[i] in b {
      assert a[i] in multiset(a);
    }
  }

  predicate IdAbsent<P>(s: seq<Item<P>>, id: int) {
    forall i :: 0 <= i < |s| ==> s[i].id != id
  }

  lemma SortedPrepend<P>(y: Item<P>, s: seq<Item<P>>)
    requires SortedByName(s)
    requires forall i :: 0 <= i < |s| ==> NameLe(y.name, s[i].name)
    ensures SortedByName([y] + s)
  {
    var r := [y] + s;
    forall i, j | 0 <= i < j < |r| ensures NameLe(r[i].name, r[j].name) {
      if i == 0 {
        assert r[j] == s[j - 1];
      } else {
        assert r[i] == s[i - 1] && r[j] == s[j - 1];
      }
    }
  }

  lemma DistinctPrepend<P>(y: Item<P>, s: seq<Item<P>>)
    requires DistinctIds(s)
    requires IdAbsent(s, y.id)
    ensures DistinctIds([y] + s)
  {
    var r := [y] + s;
    forall i, j | 0 <= i < j < |r| ensures r[i].id != r[j].id {
      assert r[j] == s[j - 1];
    }
  }

  /** Puts `x` before the first row whose name does not sort before it. */
  function InsertByName<P>(x: Item<P>, s: seq<Item<P>>): (r: seq<Item<P>>)
    requires SortedByName(s)
    ensures SortedByName(r)
    ensures multiset(r) == multiset(s) + multiset{x}
    ensures DistinctIds(s) && IdAbsent(s, x.id) ==> DistinctIds(r)
    decreases |s|
  {
    if s == [] then
      [x]
    else if NameLe(x.name, s[0].name) then
      InsertFront(x, s);
      [x] + s
    else
      var rest := InsertByName(x, s[1..]);
      InsertBehind(x, s, rest);
      [s[0]] + rest
  }

  lemma InsertFront<P>(x: Item<P>, s: seq<Item<P>>)
    requires SortedByName(s) && s != [] && NameLe(x.name, s[0].name)
    ensures SortedByName([x] + s)
    ensures DistinctIds(s) && IdAbsent(s, x.id) ==> DistinctIds([x] + s)
  {
    forall j | 0 <= j < |s| ensures NameLe(x.name, s[j].name) {
      if j > 0 {
        NameLeTransitive(x.name, s[0].name, s[j].name);
      }
    }
    SortedPrepend(x, s);
    if DistinctIds(s) && IdAbsent(s, x.id) {
      DistinctPrepend(x, s);
    }
  }

  lemma TailFacts<P>(s: seq<Item<P>>)
    requires s != []
    ensures s == [s[0]] + s[1..]
    ensures SortedByName(s) ==> SortedByName(s[1..])
    ensures DistinctIds(s) ==> DistinctIds(s[1..]) && IdAbsent(s[1..], s[0].id)
  {
    assert s == [s[0]] + s[1..];
  }

  lemma InsertBehind<P>(x: Item<P>, s: seq<Item<P>>, rest: seq<Item<P>>)
    requires SortedByName(s) && s != [] && !NameLe(x.name, s[0].name)
    requires SortedByName(rest)
    requires multiset(rest) == multiset(s[1..]) + multiset{x}
    requires DistinctIds(s[1..]) && IdAbsent(s[1..], x.id) ==> DistinctIds(rest)
    ensures SortedByName([s[0]] + rest)
    ensures multiset([s[0]] + rest) == multiset(s) + multiset{x}
    ensures DistinctIds(s) && IdAbsent(s, x.id) ==> DistinctIds([s[0]] + rest)
  {
    TailFacts(s);
    NameLeTotal(x.name, s[0].name);
    FromTailOrNew(x, s, rest);
    forall i | 0 <= i < |rest| ensures NameLe(s[0].name, rest[i].name) {
      if rest[i] != x {
        var j :| 1 <= j < |s| && s[j] == rest[i];
      }
    }
    SortedPrepend(s[0], rest);
    if DistinctIds(s) && IdAbsent(s, x.id) {
      forall i | 0 <= i < |rest| ensures rest[i].id != s[0].id {
        if rest[i] != x {
          var j :| 1 <= j < |s| && s[j] == rest[i];
        }
      }
      DistinctPrepend(s[0], rest);
    }
  }

  lemma FromTailOrNew<P>(x: Item<P>, s: seq<Item<P>>, rest: seq<Item<P>>)
    requires s != []
    requires multiset(rest) == multiset(s[1..]) + multiset{x}
    ensures forall i :: 0 <= i < |rest| ==> rest[i] == x || exists j :: 1 <= j < |s| && s[j] == rest[i]
  {
    forall i | 0 <= i < |rest| ensures rest[i] == x || exists j :: 1 <= j < |s| && s[j] == rest[i] {
      assert rest[i] in multiset(rest);
      if rest[i] != x {
        assert rest[i] in multiset(s[1..]);
        var j :| 0 <= j < |s[1..]| && s[1..][j] == rest[i];
        assert s[j + 1] == rest[i];
      }
    }
  }

  /** Stable insertion sort by name. */
  function SortByName<P>(s: seq<Item<P>>): (r: seq<Item<P>>)
    ensures SortedByName(r)
    ensures multiset(r) == multiset(s)
    ensures DistinctIds(s) ==> DistinctIds(r)
    decreases |s|
  {
    if s == [] then
      []
    else
      TailFacts(s);
      var sorted := SortByName(s[1..]);
      SameElements(s[1..], sorted);
      InsertByName(s[0], sorted)
  }
}
