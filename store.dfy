/**
 * The relational store the warehouse registration works against: the Product,
 * Warehouse, Order and Product_Warehouse tables, kept as sequences of rows
 * (a SQL table is a bag of rows), plus the identity counter the store uses to
 * assign Product_Warehouse ids.
 */
module Store {

  datatype Option<+T> = None | Some(value: T)

  /** An opaque point in time; the model never inspects it. */
  datatype Timestamp = Timestamp(ticks: int)

  /** A row of the Order table; `fulfilledAt` is the nullable FulfilledAt column. */
  datatype OrderRow = OrderRow(idOrder: int, idProduct: int, amount: int, fulfilledAt: Option<Timestamp>)

  /** A row of the Product_Warehouse table (a placement). */
  datatype PlacementRow = PlacementRow(
    idProductWarehouse: int,
    idWarehouse: int,
    idProduct: int,
    idOrder: int,
    createdAt: Timestamp,
    amount: int,
    price: int)

  /**
   * The whole store. Products and warehouses are represented by their id
   * column only, one entry per row.
   */
  datatype Database = Database(
    products: seq<int>,
    warehouses: seq<int>,
    orders: seq<OrderRow>,
    placements: seq<PlacementRow>,
    nextPlacementId: int)

  /** The identity counter is positive and above every id already handed out. */
  ghost predicate WellFormed(db: Database) {
    && db.nextPlacementId > 0
    && forall i :: 0 <= i < |db.placements| ==> db.placements[i].idProductWarehouse < db.nextPlacementId
  }

  /** Number of rows satisfying `matches`: SELECT COUNT(*) ... WHERE matches. */
  function Count<T>(rows: seq<T>, matches: T -> bool): (n: nat)
    ensures n <= |rows|
  {
    if rows == [] then 0
    else Count(rows[..|rows| - 1], matches) + (if matches(rows[|rows| - 1]) then 1 else 0)
  }

  /** COUNT(*) > 0 holds exactly when some row matches. */
  lemma {:induction false} CountPositive<T>(rows: seq<T>, matches: T -> bool)
    ensures Count(rows, matches) > 0 <==> exists i :: 0 <= i < |rows| && matches(rows[i])
  {
    if rows != [] {
      var init := rows[..|rows| - 1];
      CountPositive(init, matches);
      if exists i :: 0 <= i < |init| && matches(init[i]) {
        var i :| 0 <= i < |init| && matches(init[i]);
        assert matches(rows[i]);
      }
    }
  }

  /** Appending a row adds one to the count when the row matches, nothing otherwise. */
  lemma CountAppend<T>(rows: seq<T>, row: T, matches: T -> bool)
    ensures Count(rows + [row], matches) == Count(rows, matches) + (if matches(row) then 1 else 0)
  {
  }

  /**
   * UPDATE "Order" SET FulfilledAt = at WHERE IdOrder = idOrder: every matching
   * row gets the timestamp, whatever it held before; no other row changes.
   */
  function FulfillOrders(orders: seq<OrderRow>, idOrder: int, at: Timestamp): (r: seq<OrderRow>)
    ensures |r| == |orders|
    ensures forall i :: 0 <= i < |orders| && orders[i].idOrder == idOrder ==>
      r[i] == orders[i].(fulfilledAt := Some(at))
    ensures forall i :: 0 <= i < |orders| && orders[i].idOrder != idOrder ==> r[i] == orders[i]
  {
    if orders == [] then []
    else
      var row := orders[0];
      [if row.idOrder == idOrder then row.(fulfilledAt := Some(at)) else row]
        + FulfillOrders(orders[1..], idOrder, at)
  }

  /** With no row for `idOrder` the update affects nothing. */
  lemma FulfillMissingOrderIsNoOp(orders: seq<OrderRow>, idOrder: int, at: Timestamp)
    requires forall i :: 0 <= i < |orders| ==> orders[i].idOrder != idOrder
    ensures FulfillOrders(orders, idOrder, at) == orders
  {
  }

  /** The update does not guard against an earlier fulfilment: the last write wins. */
  lemma FulfillOverwrites(orders: seq<OrderRow>, idOrder: int, first: Timestamp, second: Timestamp)
    ensures FulfillOrders(FulfillOrders(orders, idOrder, first), idOrder, second)
      == FulfillOrders(orders, idOrder, second)
  {
  }

  /** The row that the INSERT into Product_Warehouse adds: amount and price are always 0. */
  function NewPlacement(id: int, idWarehouse: int, idProduct: int, idOrder: int, createdAt: Timestamp): (r: PlacementRow)
    ensures r.idProductWarehouse == id
    ensures r.idWarehouse == idWarehouse && r.idProduct == idProduct && r.idOrder == idOrder && r.createdAt == createdAt
    ensures r.amount == 0 && r.price == 0
  {
    PlacementRow(id, idWarehouse, idProduct, idOrder, createdAt, 0, 0)
  }

  /**
   * The store after the registration transaction commits: the order update,
   * then the insert, which takes the next identity value.
   */
  function Committed(db: Database, idWarehouse: int, idProduct: int, idOrder: int,
                     createdAt: Timestamp, fulfilledAt: Timestamp): (r: Database)
    requires WellFormed(db)
    ensures WellFormed(r)
    ensures r.products == db.products && r.warehouses == db.warehouses
    ensures r.orders == FulfillOrders(db.orders, idOrder, fulfilledAt)
    ensures r.placements == db.placements + [NewPlacement(db.nextPlacementId, idWarehouse, idProduct, idOrder, createdAt)]
    ensures forall i :: 0 <= i < |db.placements| ==> db.placements[i].idProductWarehouse != db.nextPlacementId
  {
    var updated := db.(orders := FulfillOrders(db.orders, idOrder, fulfilledAt));
    updated.(placements := updated.placements + [NewPlacement(db.nextPlacementId, idWarehouse, idProduct, idOrder, createdAt)],
             nextPlacementId := db.nextPlacementId + 1)
  }
}
