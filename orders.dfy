/**
 * The `orders` table (id AUTOINCREMENT, section, subsection, item, status,
 * timestamp) and the OrderDatabase operations over it.
 */
module Orders {
  import opened Wrappers
  import Tables

  // The schema's DEFAULT status 'Placed' never applies: every insert of the
  // program names its status.
  const Completed: string := "Completed"
  const Deleted: string := "Deleted"

  /** The value CURRENT_TIMESTAMP supplies at insert time, taken as given. */
  type Timestamp = string

  /** One row of `orders`. `item` holds the subsection's menu position, not a stock item id. */
  datatype OrderRow = OrderRow(id: int, section: string, subsection: string, item: int, status: string, timestamp: Timestamp)

  /** One row of `SELECT id, timestamp, status FROM orders`. */
  datatype OrderSummary = OrderSummary(id: int, timestamp: Timestamp, status: string)

  /** The table's rows in rowid order and its AUTOINCREMENT counter (the last id handed out). */
  datatype OrderTable = OrderTable(rows: seq<OrderRow>, lastId: int)

  /** Ids are positive, strictly increasing in rowid order and never above the counter. */
  ghost predicate ValidOrders(t: OrderTable) {
    && t.lastId >= 0
    && (forall i :: 0 <= i < |t.rows| ==> 0 < t.rows[i].id <= t.lastId)
    && (forall i, j :: 0 <= i < j < |t.rows| ==> t.rows[i].id < t.rows[j].id)
  }

  /**
   * `INSERT INTO orders (section, subsection, item, status) VALUES (...)`:
   * one row, with the next AUTOINCREMENT id, appended; the new id is larger
   * than every id already in the table.
   */
  function Appended(t: OrderTable, section: string, subsection: string, item: int, status: string, now: Timestamp): (r: OrderTable)
    ensures ValidOrders(t) ==> ValidOrders(r)
    ensures ValidOrders(t) ==> forall i :: 0 <= i < |t.rows| ==> t.rows[i].id < r.lastId
    ensures |r.rows| == |t.rows| + 1 && r.rows[..|t.rows|] == t.rows
    ensures r.rows[|t.rows|] == OrderRow(r.lastId, section, subsection, item, status, now)
  {
    var row := OrderRow(t.lastId + 1, section, subsection, item, status, now);
    assert (t.rows + [row])[..|t.rows|] == t.rows;
    OrderTable(t.rows + [row], t.lastId + 1)
  }

  /**
   * `SELECT id FROM orders ORDER BY id DESC LIMIT 1`: the largest id in the
   * table, None when the table is empty.
   */
  function LatestId(rows: seq<OrderRow>): (r: Option<int>)
    ensures r.None? <==> rows == []
    ensures r.Some? ==> exists i :: 0 <= i < |rows| && rows[i].id == r.value
    ensures r.Some? ==> forall i :: 0 <= i < |rows| ==> rows[i].id <= r.value
  {
    if rows == [] then None
    else match LatestId(rows[1..])
      case None => Some(rows[0].id)
      case Some(m) => Some(if rows[0].id >= m then rows[0].id else m)
  }

  /** The row just inserted is the one the "latest order" query returns. */
  lemma AppendedIsLatest(t: OrderTable, section: string, subsection: string, item: int, status: string, now: Timestamp)
    requires ValidOrders(t)
    ensures LatestId(Appended(t, section, subsection, item, status, now).rows) == Some(t.lastId + 1)
  {
  }

  /** Every id the "latest order" query can return is at most the counter, so never a later insert's id. */
  lemma LatestBelowCounter(t: OrderTable)
    requires ValidOrders(t)
    ensures LatestId(t.rows).Some? ==> LatestId(t.rows).value <= t.lastId
  {
  }

  /**
   * update_order_status, `UPDATE orders SET status = ? WHERE id = ?`: only the
   * status of the row with that id changes; an unknown id changes nothing.
   */
  function WithStatus(t: OrderTable, orderId: int, status: string): (r: OrderTable)
    ensures ValidOrders(t) ==> ValidOrders(r)
    ensures r.lastId == t.lastId && |r.rows| == |t.rows|
    ensures forall i :: 0 <= i < |t.rows| ==>
      r.rows[i] == if t.rows[i].id == orderId then t.rows[i].(status := status) else t.rows[i]
    ensures (forall i :: 0 <= i < |t.rows| ==> t.rows[i].id != orderId) ==> r == t
  {
    var rows := Tables.UpdateWhere(t.rows, (o: OrderRow) => o.id == orderId, (o: OrderRow) => o.(status := status));
    assert (forall i :: 0 <= i < |t.rows| ==> t.rows[i].id != orderId) ==> rows == t.rows;
    t.(rows := rows)
  }

  /** The projection `SELECT id, timestamp, status` of a sequence of rows. */
  function Summaries(rows: seq<OrderRow>): seq<OrderSummary> {
    seq(|rows|, i requires 0 <= i < |rows| => OrderSummary(rows[i].id, rows[i].timestamp, rows[i].status))
  }

  class OrderDatabase {
    var rows: seq<OrderRow>
    var lastId: int

    function State(): OrderTable
      reads this
    {
      OrderTable(rows, lastId)
    }

    ghost predicate Valid()
      reads this
    {
      ValidOrders(State())
    }

    /** A freshly created, empty table. */
    constructor ()
      ensures Valid() && rows == [] && lastId == 0
    {
      rows := [];
      lastId := 0;
    }

    /** The INSERT that the confirmation step issues through execute_query. */
    method InsertOrder(section: string, subsection: string, item: int, status: string, now: Timestamp)
      requires Valid()
      modifies this
      ensures Valid()
      ensures State() == Appended(old(State()), section, subsection, item, status, now)
    {
      lastId := lastId + 1;
      rows := rows + [OrderRow(lastId, section, subsection, item, status, now)];
    }

    /** update_order_status */
    method UpdateOrderStatus(orderId: int, status: string)
      requires Valid()
      modifies this
      ensures Valid()
      ensures State() == WithStatus(old(State()), orderId, status)
    {
      rows := Tables.UpdateWhere(rows, (o: OrderRow) => o.id == orderId, (o: OrderRow) => o.(status := status));
      assert rows == WithStatus(old(State()), orderId, status).rows;
    }

    /**
     * get_all_orders: one (id, timestamp, status) per order in rowid order,
     * which under the invariant is ascending id order.
     */
    function GetAllOrders(): (r: seq<OrderSummary>)
      reads this
      ensures |r| == |rows|
      ensures forall i :: 0 <= i < |rows| ==> r[i].id == rows[i].id && r[i].timestamp == rows[i].timestamp && r[i].status == rows[i].status
      ensures Valid() ==> forall i, j :: 0 <= i < j < |r| ==> r[i].id < r[j].id
    {
      Summaries(rows)
    }
  }
}
