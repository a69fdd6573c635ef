/**
 * The `item_counts` table (item_id UNIQUE, count) and the ItemDatabase
 * operations: seed-once insert, count update and the two reads.
 */
module Items {
  import opened Wrappers
  import Tables

  /** One row of `item_counts(item_id, count)`. */
  datatype ItemCount = ItemCount(itemId: int, count: int)

  /** The UNIQUE constraint on item_id: at most one row per item. */
  ghost predicate ValidItems(rows: seq<ItemCount>) {
    forall i, j :: 0 <= i < j < |rows| ==> rows[i].itemId != rows[j].itemId
  }

  /** The WHERE clause `item_id = ?` shared by every statement on this table. */
  function IsItem(itemId: int): ItemCount -> bool {
    (c: ItemCount) => c.itemId == itemId
  }

  /** `SELECT count FROM item_counts WHERE item_id = ?`, first row in rowid order. */
  function CountOf(rows: seq<ItemCount>, itemId: int): Option<int> {
    match Tables.FindFirst(rows, IsItem(itemId))
    case None => None
    case Some(k) => Some(rows[k].count)
  }

  /**
   * add_item_count, `INSERT ... SELECT ?, ? WHERE NOT EXISTS (... item_id = ?)`:
   * an item already present keeps its row and count; an absent one gets one
   * new row at the end. Rows already there are never changed.
   */
  function Seeded(rows: seq<ItemCount>, itemId: int, count: int): (r: seq<ItemCount>)
    ensures ValidItems(rows) ==> ValidItems(r)
    ensures |rows| <= |r| <= |rows| + 1 && r[..|rows|] == rows
    ensures CountOf(rows, itemId).Some? ==> r == rows
    ensures CountOf(rows, itemId).None? ==> r == rows + [ItemCount(itemId, count)]
  {
    if Tables.FindFirst(rows, IsItem(itemId)).Some? then rows
    else rows + [ItemCount(itemId, count)]
  }

  /** update_item_count, `UPDATE item_counts SET count = ? WHERE item_id = ?`. */
  function Recounted(rows: seq<ItemCount>, itemId: int, count: int): (r: seq<ItemCount>)
    ensures |r| == |rows|
    ensures forall i :: 0 <= i < |rows| ==>
      r[i] == if rows[i].itemId == itemId then rows[i].(count := count) else rows[i]
    ensures ValidItems(rows) ==> ValidItems(r)
  {
    Tables.UpdateWhere(rows, IsItem(itemId), (c: ItemCount) => c.(count := count))
  }

  /**
   * Seeding is once only: whatever count a later seed carries, the count
   * read back is the one the item was first seeded with.
   */
  lemma SeedKeepsFirstCount(rows: seq<ItemCount>, itemId: int, count: int)
    ensures CountOf(Seeded(rows, itemId, count), itemId) ==
      if CountOf(rows, itemId).Some? then CountOf(rows, itemId) else Some(count)
  {
    if CountOf(rows, itemId).None? {
      var r := rows + [ItemCount(itemId, count)];
      Tables.FindFirstIs(r, IsItem(itemId), |rows|);
    }
  }

  /** Seeding one item leaves the count read for every other item as it was. */
  lemma SeedLeavesOthers(rows: seq<ItemCount>, itemId: int, count: int, other: int)
    requires other != itemId
    ensures CountOf(Seeded(rows, itemId, count), other) == CountOf(rows, other)
  {
  }

  /** A second seed of the same item, with any count, is a no-op. */
  lemma SeedTwice(rows: seq<ItemCount>, itemId: int, c1: int, c2: int)
    ensures Seeded(Seeded(rows, itemId, c1), itemId, c2) == Seeded(rows, itemId, c1)
  {
    SeedKeepsFirstCount(rows, itemId, c1);
  }

  /**
   * update_item_count: a seeded item reads back the new count, an unseeded
   * item stays unseeded and leaves the table exactly as it was.
   */
  lemma RecountSetsCount(rows: seq<ItemCount>, itemId: int, count: int)
    ensures CountOf(Recounted(rows, itemId, count), itemId) ==
      if CountOf(rows, itemId).Some? then Some(count) else None
    ensures CountOf(rows, itemId).None? ==> Recounted(rows, itemId, count) == rows
  {
  }

  /** update_item_count on one item leaves every other item's count as it was. */
  lemma RecountLeavesOthers(rows: seq<ItemCount>, itemId: int, count: int, other: int)
    requires other != itemId
    ensures CountOf(Recounted(rows, itemId, count), other) == CountOf(rows, other)
  {
  }

  /** Under the UNIQUE invariant, every row is what a lookup of its item returns, so the listing agrees with the lookup. */
  lemma LookupFindsEveryRow(rows: seq<ItemCount>)
    ensures ValidItems(rows) ==> forall i :: 0 <= i < |rows| ==> CountOf(rows, rows[i].itemId) == Some(rows[i].count)
  {
  }

  class ItemDatabase {
    var rows: seq<ItemCount>

    ghost predicate Valid()
      reads this
    {
      ValidItems(rows)
    }

    /** A freshly created, empty table. */
    constructor ()
      ensures Valid() && rows == []
    {
      rows := [];
    }

    /** add_item_count */
    method AddItemCount(itemId: int, count: int)
      requires Valid()
      modifies this
      ensures Valid()
      ensures rows == Seeded(old(rows), itemId, count)
    {
      rows := Seeded(rows, itemId, count);
    }

    /** update_item_count */
    method UpdateItemCount(itemId: int, count: int)
      requires Valid()
      modifies this
      ensures Valid()
      ensures rows == Recounted(old(rows), itemId, count)
    {
      rows := Recounted(rows, itemId, count);
    }

    /**
     * get_item_count: the item's count, None when the item was never seeded.
     * A count of 0 is still Some(0): the fetched row is a non-empty tuple.
     */
    function GetItemCount(itemId: int): (r: Option<int>)
      reads this
      ensures r.None? <==> forall i :: 0 <= i < |rows| ==> rows[i].itemId != itemId
      ensures r.Some? ==> exists i :: 0 <= i < |rows| && rows[i] == ItemCount(itemId, r.value)
    {
      CountOf(rows, itemId)
    }

    /**
     * get_all_item_counts: every (item_id, count) pair in rowid order; under
     * the invariant each pair agrees with get_item_count of its item.
     */
    function GetAllItemCounts(): (r: seq<(int, int)>)
      reads this
      ensures |r| == |rows|
      ensures forall i :: 0 <= i < |rows| ==> r[i] == (rows[i].itemId, rows[i].count)
      ensures Valid() ==> forall i :: 0 <= i < |r| ==> GetItemCount(r[i].0) == Some(r[i].1)
    {
      var rs := rows;
      LookupFindsEveryRow(rs);
      seq(|rs|, i requires 0 <= i < |rs| => (rs[i].itemId, rs[i].count))
    }
  }
}
