# Warehouse placement registration, modelled in Dafny

This project models the core of a small warehouse web service: registering a
purchased product as placed in a warehouse for a customer order. A request
names a product, a warehouse and an amount. The service checks that the product
and the warehouse exist, resolves the order, and rejects the request when a
placement already exists for that order. Otherwise it asks the repository to
run one transaction. The transaction marks the order fulfilled and inserts a
`Product_Warehouse` row with amount and price 0, and it returns the new row's
id. A failure at any step rolls the transaction back.

The store is an abstract value (`Store.Database`):

- the Product and Warehouse tables, as sequences of ids;
- the Order table, as a sequence of `OrderRow`s with a nullable `fulfilledAt`;
- the Product_Warehouse table, as a sequence of `PlacementRow`s;
- the identity counter that assigns placement ids.

Files:

- `store.dfy` (module `Store`): rows, the store, `COUNT(*)` as `Count`, the
  order update `FulfillOrders`, and the committed store `Committed`.
- `repository.dfy` (module `Repository`): the three existence queries, the
  `GetOrder` stub, the write transaction as the function `Write`, and class
  `WarehouseRepository`. The class holds the store and performs the
  transaction step by step in `RegisterProductInWarehouse`, with rollback to
  a snapshot.
- `service.dfy` (module `Service`): the guard chain as the function `Register`,
  the lemmas about sequences of registrations, and class `WarehouseService`.
  Its method `RegisterProductInWarehouse` runs the checks one by one against
  the repository and is proved to behave as `Register` says.

Two quirks of the code are kept as written:

- The conflict check asks about `order.IdOrder`, but the write always uses the
  constant order id 1.
- `GetOrder` is a stub that always resolves to order 1. So the "order not found"
  branch is kept in the model but can never be taken (`Service.Register`
  ensures it). The conflict check and the write therefore always concern the
  same order, which is why at most one placement per order is kept
  (`RegisterKeepsOnePlacementPerOrder`). `ResolvedOrderMismatchAddsPlacementForOrderOne`
  shows that this guarantee would break if the lookup ever resolved another
  order, and `ResolvedOrderMismatchAllowsDoublePlacement` gives a concrete store
  where it does. `RegistrationScenario` shows that the customer's real order stays
  unfulfilled when it is not order 1.

## Model

| member | source | states |
|---|---|---|
| `Store.Count` | WebApplication2/Repositories/WarehouseRepository.cs:80-83 | the number of rows matching the filter, at most the table size |
| `Store.CountPositive` | WebApplication2/Repositories/WarehouseRepository.cs:82-84 | `COUNT(*) > 0` holds exactly when some row matches the filter |
| `Store.FulfillOrders` | WebApplication2/Repositories/WarehouseRepository.cs:34-39 | the UPDATE sets `fulfilledAt` on every Order row with the given id, even one already fulfilled, and leaves every other row as it was |
| `Store.FulfillMissingOrderIsNoOp` | WebApplication2/Repositories/WarehouseRepository.cs:34-39 | with no Order row for the id, the update changes nothing (its affected-row count is ignored) |
| `Store.FulfillOverwrites` | WebApplication2/Repositories/WarehouseRepository.cs:34-39 | a second fulfilment overwrites the first timestamp: there is no guard against double fulfilment |
| `Store.NewPlacement` | WebApplication2/Repositories/WarehouseRepository.cs:41-49 | the inserted row has the given id, warehouse, product, order and createdAt, and amount 0 and price 0 |
| `Store.Committed` | WebApplication2/Repositories/WarehouseRepository.cs:34-53 | after commit: products and warehouses are unchanged, orders are updated, and exactly one row is appended with amount 0 and price 0 under an id that no existing row has; the identity invariant is kept |
| `Repository.CheckProductExists` | WebApplication2/Repositories/WarehouseRepository.cs:75-85 | true iff some Product row has the id; it is a function of the store, so it changes nothing |
| `Repository.CheckWarehouseExists` | WebApplication2/Repositories/WarehouseRepository.cs:87-97 | true iff some Warehouse row has the id; read-only |
| `Repository.CheckProductInWarehouse` | WebApplication2/Repositories/WarehouseRepository.cs:106-116 | true iff some Product_Warehouse row has the order id; read-only |
| `Repository.GetOrder` | WebApplication2/Repositories/WarehouseRepository.cs:99-104 | always a non-null order with id 1 that echoes the product and amount; it does not take the store |
| `Repository.Write` | WebApplication2/Repositories/WarehouseRepository.cs:25-60 | on commit: a positive, fresh id, and the store after update and insert. On a failure at any step: no id and the store exactly as before |
| `Repository.WarehouseRepository.RegisterProductInWarehouse` | WebApplication2/Repositories/WarehouseRepository.cs:25-60 | the update, insert and commit run in sequence, with rollback to the snapshot on any failure; the result and the new store are those of `Write`, and the call is logged |
| `Service.RegisterWithOrder` | WebApplication2/Services/WarehouseService.cs:24-52 | a write is issued iff every check passes, and always with order id 1 and the request's warehouse and product. Success iff the checks pass and the write commits. Every other outcome leaves the store unchanged. On success the new row and the order update are as committed |
| `Service.Register` | WebApplication2/Services/WarehouseService.cs:32-34 | with the stub lookup the outcome is never "order not found" |
| `Service.FirstFailingCheckDecides` | WebApplication2/Services/WarehouseService.cs:24-52 | checks run in the order product, warehouse, order, conflict; the first failure decides the outcome with no write and the store unchanged; past the checks, the outcome is Failed when the writer returns null and otherwise exactly the writer's id |
| `Service.RegisterKeepsOnePlacementPerOrder` | WebApplication2/Services/WarehouseService.cs:36-47 | registration preserves "at most one Product_Warehouse row per order" |
| `Service.SecondRegistrationConflicts` | WebApplication2/Services/WarehouseService.cs:36-47 | after a successful registration, any request whose product and warehouse exist is a Conflict and changes nothing |
| `Service.RepeatedRequestConflicts` | WebApplication2/Services/WarehouseService.cs:38-41 | repeating a successful request yields Conflict |
| `Service.RejectionIsRepeatable` | WebApplication2/Services/WarehouseService.cs:24-41 | a not-found or conflict rejection repeats on the unchanged store, whatever the timestamps and whatever the write would do |
| `Service.ResolvedOrderMismatchAddsPlacementForOrderOne` | WebApplication2/Services/WarehouseService.cs:36-46 | on any store, if the lookup resolved an order other than 1 with no placement, the conflict check would pass and the write would add one more placement for order 1, however many it already has |
| `Service.ResolvedOrderMismatchAllowsDoublePlacement` | WebApplication2/Services/WarehouseService.cs:36-46 | on one store that keeps at most one placement per order, resolving order 2 lets a second placement for order 1 through |
| `Service.RegistrationScenario` | WebApplication2/Services/WarehouseService.cs:24-52 | a concrete store: the first request succeeds with id 1, its repetition is a Conflict, an absent warehouse gives not-found, and order 5 stays unfulfilled |
| `Service.WarehouseService.RegisterProductInWarehouse` | WebApplication2/Services/WarehouseService.cs:20-53 | the step-by-step method returns the outcome of `Register`, leaves the store as `Register` says, and logs exactly the write it issued |

## Left out

- Connections, commands, configuration and async/await are not modelled. The repository's state is the store value itself.
- `RegisterProductInWarehouseByProcedureAsync` is not modelled, because it calls a stored procedure whose body is not available.
- Concurrent registrations are not modelled. Calls are sequential, so the race between the conflict check and the commit is not represented.
- `DateTime.UtcNow` is not modelled. The service's clock read (`createdAt`) and the repository's clock read (`fulfilledAt`) are opaque parameters.
- The reasons the database may reject a step are not modelled. The `Fault` parameter chooses whether the update, the insert (including its id read-back) or the commit fails.
- Repository.GetOrder: the model keeps the stub lookup (WebApplication2/Repositories/WarehouseRepository.cs:99-104). It does not model a lookup of an unfulfilled order by product and amount, so "order not found" can never happen.
- Repository.Write: every failure maps to no id with the store unchanged, and the service then reports `Failed`. In the code, opening the connection and beginning the transaction sit outside the `try`, and the rollback in the `catch` is not guarded. Exceptions from these escape the repository and the service passes them on, instead of its "Failed to register" error. These exceptions are not modelled.
- Repository.Write: a commit that throws is modelled as a clean rollback. The code cannot know whether such a commit took effect on the server.
- Repository.WarehouseRepository.RegisterProductInWarehouse: a rollback also restores the identity counter. SQL Server's identity gaps after a rolled-back insert are not modelled.
- The Product_Warehouse identity is assumed to start at 1 and grow, so the identity counter is positive and above every existing id (`Store.WellFormed`). The table definition is not part of this model.
- Null DTO fields, exception messages and the HTTP status mapping are not modelled. The request fields are plain integers, and the outcome is a tagged value that names which lookup failed.
- Price is assumed to be a decimal column; the table definition is not part of this model. It is modelled as an integer because the write only ever stores 0.
