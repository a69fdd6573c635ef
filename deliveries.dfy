/**
 * The `deliveries` table (id AUTOINCREMENT, order_id UNIQUE,
 * requires_delivery) and the DeliveryDatabase check-then-update-or-insert.
 */
module Deliveries {
  import opened Wrappers
  import Tables

  /** One row of `deliveries`; order_id may be NULL. */
  datatype DeliveryRow = DeliveryRow(id: int, orderId: Option<int>, requiresDelivery: bool)

  /** The table's rows in rowid order and its AUTOINCREMENT counter (the last id handed out). */
  datatype DeliveryTable = DeliveryTable(rows: seq<DeliveryRow>, lastId: int)

  /**
   * Ids are positive, increasing and never above the counter, and no two rows
   * share a non-NULL order_id (UNIQUE lets any number of NULLs through).
   */
  ghost predicate ValidDeliveries(t: DeliveryTable) {
    && t.lastId >= 0
    && (forall i :: 0 <= i < |t.rows| ==> 0 < t.rows[i].id <= t.lastId)
    && (forall i, j :: 0 <= i < j < |t.rows| ==> t.rows[i].id < t.rows[j].id)
    && (forall i, j :: 0 <= i < j < |t.rows| && t.rows[i].orderId.Some? ==> t.rows[i].orderId != t.rows[j].orderId)
  }

  /** The WHERE clause `order_id = ?`: SQL equality, so a NULL on either side matches nothing. */
  function Matches(orderId: Option<int>): DeliveryRow -> bool {
    (d: DeliveryRow) => orderId.Some? && d.orderId == orderId
  }

  /**
   * update_delivery_status, `UPDATE deliveries SET requires_delivery = ? WHERE
   * order_id = ?`: only the flag of the matching rows changes; a NULL order id
   * matches no row and changes nothing.
   */
  function Reflagged(t: DeliveryTable, orderId: Option<int>, flag: bool): (r: DeliveryTable)
    ensures ValidDeliveries(t) ==> ValidDeliveries(r)
    ensures r.lastId == t.lastId && |r.rows| == |t.rows|
    ensures forall i :: 0 <= i < |t.rows| ==>
      r.rows[i] == if t.rows[i].orderId == orderId && orderId.Some? then t.rows[i].(requiresDelivery := flag) else t.rows[i]
    ensures orderId.None? ==> r == t
  {
    var rows := Tables.UpdateWhere(t.rows, Matches(orderId), (d: DeliveryRow) => d.(requiresDelivery := flag));
    assert orderId.None? ==> rows == t.rows;
    t.(rows := rows)
  }

  /**
   * add_delivery_status: update the flag when a row for the order exists,
   * otherwise append one new row. A NULL order id never finds its row, so
   * each such call appends another row.
   */
  function Upserted(t: DeliveryTable, orderId: Option<int>, flag: bool): (r: DeliveryTable)
    ensures ValidDeliveries(t) ==> ValidDeliveries(r)
    ensures orderId.None? ==> r == DeliveryTable(t.rows + [DeliveryRow(t.lastId + 1, None, flag)], t.lastId + 1)
    ensures (exists i :: 0 <= i < |t.rows| && Matches(orderId)(t.rows[i])) ==> r == Reflagged(t, orderId, flag)
    ensures (forall i :: 0 <= i < |t.rows| ==> !Matches(orderId)(t.rows[i])) ==>
      r == DeliveryTable(t.rows + [DeliveryRow(t.lastId + 1, orderId, flag)], t.lastId + 1)
  {
    if Tables.FindFirst(t.rows, Matches(orderId)).Some? then Reflagged(t, orderId, flag)
    else DeliveryTable(t.rows + [DeliveryRow(t.lastId + 1, orderId, flag)], t.lastId + 1)
  }

  /**
   * After add_delivery_status(o, f) there is exactly one row for o and its
   * flag is f; rows for other orders are untouched and at most one row is added.
   */
  lemma UpsertSingleRecord(t: DeliveryTable, o: int, flag: bool)
    requires ValidDeliveries(t)
    ensures var r := Upserted(t, Some(o), flag);
      && |t.rows| <= |r.rows| <= |t.rows| + 1
      && (forall i :: 0 <= i < |t.rows| && t.rows[i].orderId != Some(o) ==> r.rows[i] == t.rows[i])
      && (exists i :: 0 <= i < |r.rows| && r.rows[i].orderId == Some(o))
      && (forall i :: 0 <= i < |r.rows| && r.rows[i].orderId == Some(o) ==> r.rows[i].requiresDelivery == flag)
      && (forall i, j :: 0 <= i < |r.rows| && 0 <= j < |r.rows| && r.rows[i].orderId == Some(o) && r.rows[j].orderId == Some(o) ==> i == j)
  {
    var r := Upserted(t, Some(o), flag);
    assert ValidDeliveries(r);
    match Tables.FindFirst(t.rows, Matches(Some(o)))
    case Some(k) =>
      assert r.rows[k].orderId == Some(o);
    case None =>
      assert r.rows[|t.rows|].orderId == Some(o);
  }

  /** Two flag updates of one order leave what the second alone would leave. */
  lemma ReflagTwice(t: DeliveryTable, o: Option<int>, a: bool, b: bool)
    ensures Reflagged(Reflagged(t, o, a), o, b) == Reflagged(t, o, b)
  {
  }

  /** Reflagging a row that was just appended for an order with no earlier row touches only that row. */
  lemma ReflagAppended(t: DeliveryTable, o: int, a: bool, b: bool)
    requires Tables.FindFirst(t.rows, Matches(Some(o))).None?
    ensures Reflagged(DeliveryTable(t.rows + [DeliveryRow(t.lastId + 1, Some(o), a)], t.lastId + 1), Some(o), b)
         == DeliveryTable(t.rows + [DeliveryRow(t.lastId + 1, Some(o), b)], t.lastId + 1)
  {
  }

  /** Two upserts for one order leave what the second alone would leave: the last flag written wins. */
  lemma UpsertLastWriteWins(t: DeliveryTable, o: int, a: bool, b: bool)
    ensures Upserted(Upserted(t, Some(o), a), Some(o), b) == Upserted(t, Some(o), b)
  {
    var t1 := Upserted(t, Some(o), a);
    match Tables.FindFirst(t.rows, Matches(Some(o)))
    case Some(k) =>
      Tables.FindFirstIs(t1.rows, Matches(Some(o)), k);
      ReflagTwice(t, Some(o), a, b);
    case None =>
      Tables.FindFirstIs(t1.rows, Matches(Some(o)), |t.rows|);
      ReflagAppended(t, o, a, b);
  }

  /** Calling add_delivery_status twice with the same arguments is the same as calling it once. */
  lemma UpsertIdempotent(t: DeliveryTable, o: int, flag: bool)
    ensures Upserted(Upserted(t, Some(o), flag), Some(o), flag) == Upserted(t, Some(o), flag)
  {
    UpsertLastWriteWins(t, o, flag, flag);
  }

  /** Upserting (o, true) and then (o, false) leaves one row for o, with the flag false. */
  lemma UpsertTrueThenFalse(t: DeliveryTable, o: int)
    requires ValidDeliveries(t)
    ensures var r := Upserted(Upserted(t, Some(o), true), Some(o), false);
      && (exists i :: 0 <= i < |r.rows| && r.rows[i].orderId == Some(o) && !r.rows[i].requiresDelivery)
      && (forall i, j :: 0 <= i < |r.rows| && 0 <= j < |r.rows| && r.rows[i].orderId == Some(o) && r.rows[j].orderId == Some(o) ==> i == j)
  {
    UpsertLastWriteWins(t, o, true, false);
    UpsertSingleRecord(t, o, false);
  }

  class DeliveryDatabase {
    var rows: seq<DeliveryRow>
    var lastId: int

    function State(): DeliveryTable
      reads this
    {
      DeliveryTable(rows, lastId)
    }

    ghost predicate Valid()
      reads this
    {
      ValidDeliveries(State())
    }

    /** A freshly created, empty table. */
    constructor ()
      ensures Valid() && rows == [] && lastId == 0
    {
      rows := [];
      lastId := 0;
    }

    /** add_delivery_status: look for the order's row, then update it or insert one. */
    method AddDeliveryStatus(orderId: Option<int>, flag: bool)
      requires Valid()
      modifies this
      ensures Valid()
      ensures State() == Upserted(old(State()), orderId, flag)
    {
      var existing := Tables.FindFirst(rows, Matches(orderId));
      if existing.Some? {
        UpdateDeliveryStatus(orderId, flag);
      } else {
        lastId := lastId + 1;
        rows := rows + [DeliveryRow(lastId, orderId, flag)];
      }
    }

    /** update_delivery_status */
    method UpdateDeliveryStatus(orderId: Option<int>, flag: bool)
      requires Valid()
      modifies this
      ensures Valid()
      ensures State() == Reflagged(old(State()), orderId, flag)
    {
      rows := Tables.UpdateWhere(rows, Matches(orderId), (d: DeliveryRow) => d.(requiresDelivery := flag));
      assert rows == Reflagged(old(State()), orderId, flag).rows;
    }
  }
}
