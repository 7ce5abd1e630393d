/**
 * The warehouse repository: three read-only existence queries, the order lookup
 * stub, and the transactional write that fulfils an order and records its
 * placement.
 */
module Repository {
  import opened Store

  /** The order the lookup hands back to the service (not a table row). */
  datatype Order = Order(idOrder: int, productId: int, amount: int)

  /** Where the write transaction fails, if it does: the environment's choice. */
  datatype Fault = NoFault | UpdateFails | InsertFails | CommitFails

  /** The arguments of one call of the transactional write. */
  datatype WriteArgs = WriteArgs(idWarehouse: int, idProduct: int, idOrder: int, createdAt: Timestamp)

  /** SELECT COUNT(*) FROM Product WHERE IdProduct = productId, compared with 0. */
  function CheckProductExists(db: Database, productId: int): (r: bool)
    ensures r <==> exists i :: 0 <= i < |db.products| && db.products[i] == productId
  {
    var matches := (id: int) => id == productId;
    CountPositive(db.products, matches);
    Count(db.products, matches) > 0
  }

  /** SELECT COUNT(*) FROM Warehouse WHERE IdWarehouse = warehouseId, compared with 0. */
  function CheckWarehouseExists(db: Database, warehouseId: int): (r: bool)
    ensures r <==> exists i :: 0 <= i < |db.warehouses| && db.warehouses[i] == warehouseId
  {
    var matches := (id: int) => id == warehouseId;
    CountPositive(db.warehouses, matches);
    Count(db.warehouses, matches) > 0
  }

  /** The filter WHERE IdOrder = orderId on Product_Warehouse rows. */
  function ForOrder(orderId: int): PlacementRow -> bool
  {
    (row: PlacementRow) => row.idOrder == orderId
  }

  /** The number of Product_Warehouse rows recorded for `orderId`. */
  function PlacementCount(db: Database, orderId: int): nat
  {
    Count(db.placements, ForOrder(orderId))
  }

  /** SELECT COUNT(*) FROM Product_Warehouse WHERE IdOrder = orderId, compared with 0. */
  function CheckProductInWarehouse(db: Database, orderId: int): (r: bool)
    ensures r <==> exists i :: 0 <= i < |db.placements| && db.placements[i].idOrder == orderId
  {
    CountPositive(db.placements, ForOrder(orderId));
    PlacementCount(db, orderId) > 0
  }

  /**
   * The order lookup is a stub: it never consults the store and always
   * resolves to order 1, echoing the product and amount asked for.
   */
  function GetOrder(productId: int, amount: int): (r: Option<Order>)
    ensures r.Some? && r.value.idOrder == 1
    ensures r.value.productId == productId && r.value.amount == amount
  {
    Some(Order(1, productId, amount))
  }

  /**
   * The outcome of the write transaction: the committed store and the new
   * placement id, or the untouched store and no id.
   */
  function Write(db: Database, args: WriteArgs, fulfilledAt: Timestamp, fault: Fault): (r: (Option<int>, Database))
    requires WellFormed(db)
    ensures WellFormed(r.1)
    ensures r.0.None? <==> fault != NoFault
    ensures r.0.None? ==> r.1 == db
    ensures r.0.Some? ==>
      && r.0.value > 0
      && (forall i :: 0 <= i < |db.placements| ==> db.placements[i].idProductWarehouse != r.0.value)
      && r.1 == Committed(db, args.idWarehouse, args.idProduct, args.idOrder, args.createdAt, fulfilledAt)
      && r.1.placements == db.placements + [NewPlacement(r.0.value, args.idWarehouse, args.idProduct, args.idOrder, args.createdAt)]
  {
    if fault == NoFault then
      (Some(db.nextPlacementId), Committed(db, args.idWarehouse, args.idProduct, args.idOrder, args.createdAt, fulfilledAt))
    else
      (None, db)
  }

  class WarehouseRepository {
    /** The store behind the connection. */
    var db: Database
    /** Every call of the transactional write, in order, committed or not. */
    ghost var writeLog: seq<WriteArgs>

    constructor (db: Database)
      requires WellFormed(db)
      ensures WellFormed(this.db)
      ensures this.db == db && writeLog == []
    {
      this.db := db;
      writeLog := [];
    }

    /**
     * Inside one transaction: mark order `idOrder` fulfilled at `fulfilledAt`,
     * then insert the placement row with amount and price 0 and return its new
     * id. A failure at any step rolls the transaction back and yields None.
     */
    method RegisterProductInWarehouse(idWarehouse: int, idProduct: int, idOrder: int,
                                      createdAt: Timestamp, fulfilledAt: Timestamp, fault: Fault)
      returns (id: Option<int>)
      requires WellFormed(db)
      modifies this
      ensures WellFormed(db)
      ensures writeLog == old(writeLog) + [WriteArgs(idWarehouse, idProduct, idOrder, createdAt)]
      ensures (id, db) == Write(old(db), WriteArgs(idWarehouse, idProduct, idOrder, createdAt), fulfilledAt, fault)
    {
      writeLog := writeLog + [WriteArgs(idWarehouse, idProduct, idOrder, createdAt)];
      var snapshot := db;  // BEGIN TRANSACTION
      if fault == UpdateFails {
        db := snapshot;  // ROLLBACK
        return None;
      }
      db := db.(orders := FulfillOrders(db.orders, idOrder, fulfilledAt));
      if fault == InsertFails {
        db := snapshot;
        return None;
      }
      var newId := db.nextPlacementId;
      db := db.(placements := db.placements + [NewPlacement(newId, idWarehouse, idProduct, idOrder, createdAt)],
                nextPlacementId := newId + 1);
      if fault == CommitFails {
        db := snapshot;
        return None;
      }
      id := Some(newId);  // COMMIT
    }
  }
}
