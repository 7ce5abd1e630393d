/**
 * The warehouse service: the guard chain that validates a placement request
 * against the store and, when every check passes, calls the repository's
 * transactional write.
 */
module Service {
  import opened Store
  import opened Repository

  /** The placement request: product, warehouse and requested amount. */
  datatype Request = Request(idProduct: int, idWarehouse: int, amount: int)

  /** Which lookup found nothing. */
  datatype Missing = NoProduct | NoWarehouse | NoOrder

  /**
   * How a registration ends: the new placement id, a not-found or conflict
   * rejection, or a failed write.
   */
  datatype Outcome = Registered(id: int) | NotFound(missing: Missing) | Conflict | Failed

  /** The order id the service hands to the write, whatever order was resolved. */
  const FixedOrderId := 1

  /** One registration: its outcome, the store afterwards and the write it issued, if any. */
  datatype Step = Step(outcome: Outcome, db: Database, write: Option<WriteArgs>)

  /** The writes a step issued, as a log fragment. */
  function Issued(s: Step): seq<WriteArgs>
  {
    if s.write.Some? then [s.write.value] else []
  }

  /** Every check the service runs before writing passes. */
  predicate ChecksPass(db: Database, req: Request, order: Option<Order>)
  {
    && CheckProductExists(db, req.idProduct)
    && CheckWarehouseExists(db, req.idWarehouse)
    && order.Some?
    && !CheckProductInWarehouse(db, order.value.idOrder)
  }

  /**
   * The registration once the order lookup has answered `order`: the checks in
   * their fixed order, then the write with the fixed order id.
   */
  function RegisterWithOrder(db: Database, req: Request, order: Option<Order>,
                             createdAt: Timestamp, fulfilledAt: Timestamp, fault: Fault): (s: Step)
    requires WellFormed(db)
    ensures WellFormed(s.db)
    ensures s.write.Some? <==> ChecksPass(db, req, order)
    ensures s.write.Some? ==> s.write.value == WriteArgs(req.idWarehouse, req.idProduct, FixedOrderId, createdAt)
    ensures s.outcome.Registered? <==> ChecksPass(db, req, order) && fault == NoFault
    ensures !s.outcome.Registered? ==> s.db == db
    ensures s.outcome.Registered? ==>
      && s.outcome.id > 0
      && (forall i :: 0 <= i < |db.placements| ==> db.placements[i].idProductWarehouse != s.outcome.id)
      && s.db.products == db.products && s.db.warehouses == db.warehouses
      && s.db.orders == FulfillOrders(db.orders, FixedOrderId, fulfilledAt)
      && s.db.placements == db.placements + [NewPlacement(s.outcome.id, req.idWarehouse, req.idProduct, FixedOrderId, createdAt)]
  {
    if !CheckProductExists(db, req.idProduct) then Step(NotFound(NoProduct), db, None)
    else if !CheckWarehouseExists(db, req.idWarehouse) then Step(NotFound(NoWarehouse), db, None)
    else if order.None? then Step(NotFound(NoOrder), db, None)
    else if CheckProductInWarehouse(db, order.value.idOrder) then Step(Conflict, db, None)
    else
      var args := WriteArgs(req.idWarehouse, req.idProduct, FixedOrderId, createdAt);
      var (id, after) := Write(db, args, fulfilledAt, fault);
      if id.None? then Step(Failed, after, Some(args)) else Step(Registered(id.value), after, Some(args))
  }

  /** The registration with the repository's own order lookup. */
  function Register(db: Database, req: Request, createdAt: Timestamp, fulfilledAt: Timestamp, fault: Fault): (s: Step)
    requires WellFormed(db)
    ensures s.outcome != NotFound(NoOrder)
  {
    RegisterWithOrder(db, req, GetOrder(req.idProduct, req.amount), createdAt, fulfilledAt, fault)
  }

  /** The first check that fails decides the outcome, and nothing is written. */
  lemma FirstFailingCheckDecides(db: Database, req: Request, order: Option<Order>,
                                 createdAt: Timestamp, fulfilledAt: Timestamp, fault: Fault)
    requires WellFormed(db)
    ensures var s := RegisterWithOrder(db, req, order, createdAt, fulfilledAt, fault);
      && (!CheckProductExists(db, req.idProduct) ==> s == Step(NotFound(NoProduct), db, None))
      && (CheckProductExists(db, req.idProduct) && !CheckWarehouseExists(db, req.idWarehouse) ==>
            s == Step(NotFound(NoWarehouse), db, None))
      && (CheckProductExists(db, req.idProduct) && CheckWarehouseExists(db, req.idWarehouse) && order.None? ==>
            s == Step(NotFound(NoOrder), db, None))
      && ((CheckProductExists(db, req.idProduct) && CheckWarehouseExists(db, req.idWarehouse) && order.Some?
           && CheckProductInWarehouse(db, order.value.idOrder)) ==> s == Step(Conflict, db, None))
      && (ChecksPass(db, req, order) ==>
            var written := Write(db, s.write.value, fulfilledAt, fault);
            && s.outcome == (if written.0.None? then Failed else Registered(written.0.value))
            && s.db == written.1)
  {
  }

  /** Every placement order has at most one Product_Warehouse row. */
  ghost predicate OnePlacementPerOrder(db: Database)
  {
    forall o :: PlacementCount(db, o) <= 1
  }

  /**
   * With the stub lookup the conflict check and the write both use order 1, so
   * registration keeps at most one placement per order.
   */
  lemma {:induction false} RegisterKeepsOnePlacementPerOrder(db: Database, req: Request,
                                                             createdAt: Timestamp, fulfilledAt: Timestamp, fault: Fault)
    requires WellFormed(db) && OnePlacementPerOrder(db)
    ensures OnePlacementPerOrder(Register(db, req, createdAt, fulfilledAt, fault).db)
  {
    var s := Register(db, req, createdAt, fulfilledAt, fault);
    if s.outcome.Registered? {
      var row := NewPlacement(s.outcome.id, req.idWarehouse, req.idProduct, FixedOrderId, createdAt);
      assert !CheckProductInWarehouse(db, FixedOrderId);
      CountPositive(db.placements, ForOrder(FixedOrderId));
      assert PlacementCount(db, FixedOrderId) == 0;
      forall o ensures PlacementCount(s.db, o) <= 1 {
        assert PlacementCount(db, o) <= 1;
        CountAppend(db.placements, row, ForOrder(o));
      }
    }
  }

  /**
   * Once a registration has succeeded, every later request whose product and
   * warehouse exist is rejected as a conflict and leaves the store alone.
   */
  lemma SecondRegistrationConflicts(db: Database, req: Request, createdAt: Timestamp, fulfilledAt: Timestamp, fault: Fault,
                                    next: Request, createdAt': Timestamp, fulfilledAt': Timestamp, fault': Fault)
    requires WellFormed(db)
    requires Register(db, req, createdAt, fulfilledAt, fault).outcome.Registered?
    requires CheckProductExists(db, next.idProduct) && CheckWarehouseExists(db, next.idWarehouse)
    ensures var s := Register(db, req, createdAt, fulfilledAt, fault);
      Register(s.db, next, createdAt', fulfilledAt', fault') == Step(Conflict, s.db, None)
  {
  }

  /** Repeating the identical successful request is a conflict. */
  lemma RepeatedRequestConflicts(db: Database, req: Request, createdAt: Timestamp, fulfilledAt: Timestamp, fault: Fault)
    requires WellFormed(db)
    requires Register(db, req, createdAt, fulfilledAt, fault).outcome.Registered?
    ensures var s := Register(db, req, createdAt, fulfilledAt, fault);
      Register(s.db, req, createdAt, fulfilledAt, fault).outcome == Conflict
  {
  }

  /**
   * A not-found or conflict rejection depends on the store alone: repeating the
   * request on the unchanged store, at any time and whatever the write would
   * do, gives the same rejection.
   */
  lemma RejectionIsRepeatable(db: Database, req: Request, createdAt: Timestamp, fulfilledAt: Timestamp, fault: Fault,
                              createdAt': Timestamp, fulfilledAt': Timestamp, fault': Fault)
    requires WellFormed(db)
    requires Register(db, req, createdAt, fulfilledAt, fault).outcome.NotFound?
          || Register(db, req, createdAt, fulfilledAt, fault).outcome.Conflict?
    ensures var s := Register(db, req, createdAt, fulfilledAt, fault);
      Register(s.db, req, createdAt', fulfilledAt', fault') == s
  {
  }

  /**
   * Were the lookup to resolve an order other than 1 that has no placement yet,
   * the conflict check would pass and the write would add one more placement
   * for order 1, however many it already has.
   */
  lemma ResolvedOrderMismatchAddsPlacementForOrderOne(
    db: Database, req: Request, order: Order, createdAt: Timestamp, fulfilledAt: Timestamp)
    requires WellFormed(db)
    requires order.idOrder != FixedOrderId && PlacementCount(db, order.idOrder) == 0
    requires CheckProductExists(db, req.idProduct) && CheckWarehouseExists(db, req.idWarehouse)
    ensures var s := RegisterWithOrder(db, req, Some(order), createdAt, fulfilledAt, NoFault);
      && s.outcome.Registered?
      && PlacementCount(s.db, FixedOrderId) == PlacementCount(db, FixedOrderId) + 1
  {
  }

  /**
   * One concrete store where the general lemma above bites: the store keeps at
   * most one placement per order, order 1 already has its placement, and
   * resolving order 2 lets a second placement for order 1 through.
   */
  lemma ResolvedOrderMismatchAllowsDoublePlacement()
    ensures
      var first := NewPlacement(1, 20, 10, FixedOrderId, Timestamp(0));
      var db := Database([10], [20], [], [first], 2);
      var s := RegisterWithOrder(db, Request(10, 20, 3), Some(Order(2, 10, 3)), Timestamp(1), Timestamp(1), NoFault);
      WellFormed(db) && OnePlacementPerOrder(db)
      && s.outcome == Registered(2) && PlacementCount(s.db, FixedOrderId) == 2
  {
    var first := NewPlacement(1, 20, 10, FixedOrderId, Timestamp(0));
    var db := Database([10], [20], [], [first], 2);
    forall o ensures PlacementCount(db, o) <= 1 {
      assert [first][..0] == [];
    }
    var s := RegisterWithOrder(db, Request(10, 20, 3), Some(Order(2, 10, 3)), Timestamp(1), Timestamp(1), NoFault);
    assert CheckProductExists(db, 10) by { assert db.products[0] == 10; }
    assert CheckWarehouseExists(db, 20) by { assert db.warehouses[0] == 20; }
    CountAppend([first], s.db.placements[1], ForOrder(FixedOrderId));
    CountAppend([], first, ForOrder(FixedOrderId));
  }

  /**
   * Product 10, warehouse 20 and order 5 for product 10 exist, with no
   * placement yet. The request succeeds with placement id 1, its repetition is
   * a conflict, and a request for the absent warehouse 999 is not found. The
   * write targets order 1, which the store does not hold, so order 5 is left
   * unfulfilled.
   */
  lemma RegistrationScenario()
    ensures
      var db := Database([10], [20], [OrderRow(5, 10, 3, None)], [], 1);
      var s := Register(db, Request(10, 20, 3), Timestamp(1), Timestamp(2), NoFault);
      && WellFormed(db)
      && s.outcome == Registered(1)
      && s.db.orders == db.orders
      && Register(s.db, Request(10, 20, 3), Timestamp(3), Timestamp(4), NoFault).outcome == Conflict
      && Register(db, Request(10, 999, 1), Timestamp(1), Timestamp(2), NoFault).outcome == NotFound(NoWarehouse)
  {
  }

  class WarehouseService {
    const repository: WarehouseRepository

    constructor (repository: WarehouseRepository)
      ensures this.repository == repository
    {
      this.repository := repository;
    }

    /**
     * Registers the requested product in the requested warehouse: product,
     * warehouse, order and conflict checks in turn, each rejection returned at
     * once, then the write for order 1.
     */
    method RegisterProductInWarehouse(req: Request, createdAt: Timestamp, fulfilledAt: Timestamp, fault: Fault)
      returns (outcome: Outcome)
      requires WellFormed(repository.db)
      modifies repository
      ensures var s := Register(old(repository.db), req, createdAt, fulfilledAt, fault);
        && outcome == s.outcome
        && repository.db == s.db
        && repository.writeLog == old(repository.writeLog) + Issued(s)
    {
      if !CheckProductExists(repository.db, req.idProduct) {
        return NotFound(NoProduct);
      }
      if !CheckWarehouseExists(repository.db, req.idWarehouse) {
        return NotFound(NoWarehouse);
      }
      var order := GetOrder(req.idProduct, req.amount);
      if order.None? {
        return NotFound(NoOrder);
      }
      if CheckProductInWarehouse(repository.db, order.value.idOrder) {
        return Conflict;
      }
      var id := repository.RegisterProductInWarehouse(req.idWarehouse, req.idProduct, FixedOrderId,
                                                      createdAt, fulfilledAt, fault);
      if id.None? {
        return Failed;
      }
      return Registered(id.value);
    }
  }
}
