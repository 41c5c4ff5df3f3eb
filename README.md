# gastrobar_backend: orders, line items and their rules, in Dafny

This project models the back office of a bar-restaurant. The parts it covers are:

- tables, at most four of them;
- a menu whose items carry a stock;
- customer orders, opened per table, which go from `pending` to `completed`;
- the line items (order details) of an order;
- tasks assigned to staff;
- the bearer-token middleware that guards the routes.

The order lifecycle is the centre of the model. Module `Workflow` writes it as pure steps over a `Ledger`, which holds the customer-orders table, the order-details table and their id counters. The steps are:

- open an order or attach to one, then add a line item;
- change a line item;
- remove a line item;
- complete an order.

The service classes (`DetailService`, `OrderService`) run these steps against repository classes, which hold `map<int, Row>` fields and a serial id counter. Each service method that has a step function is proved to leave the repositories, and to answer, exactly as that step function says. The two reads that join line items with the menu (`GetOrderDetailsByOrderID`, `GetOrderWithDetails`) have no step function; their contracts state the join directly. The lemmas about the step functions state what the system guarantees:

- a table never has two pending orders;
- every line item belongs to a stored order;
- `completed` is final;
- a completed order's line items cannot be added by a create or removed by a delete; an update can still move one off it, because it checks only the order the request names (`UpdateMovesDetailOffCompletedOrder`).

The line-item handler's field checks and its mapping from error to HTTP status are pure functions. The handler class calls the service with them, and lemmas characterise exactly when it answers 500.

The table registry, the menu catalog and the employee tasks are services over their own repositories. Their ordered checks are stated in each method's contract, together with the invariant each one keeps:

- at most 4 tables, with unique non-empty names;
- menu items that are well formed and uniquely named;
- a completion instant on a task exactly when the service completes it.

The middleware is modelled in three parts:

- a faithful `strings.Split` on one character, with its round trip proved;
- a proof that the `Bearer <token>` split check accepts exactly the headers "Bearer", one space, then a token with no space;
- the allowed-role loop.

Modelling choices:

- Money is integer cents.
- Instants are `Time = int` values passed in as `now`. The database clock and Go's clock are taken as the same instant.
- Error strings that the handlers match by substring are replaced with an error-kind datatype (`OrderError`). `DetailHandler.Message` keeps the texts.
- A SQL query without `ORDER BY` (`FindPendingByTableID`) picks any matching row.
- The join in `FindByOrderID` is specified up to row order.
- Token verification (signature, expiry) is a function parameter of `AuthMiddleware`.

## Model

| member | source | states |
|---|---|---|
| CustomerOrderStore.CustomerOrderRepository.Create | internal/repositories/customer_order_repository.go:26-45 | the stored order is the given one under a fresh id, unused before; no other row changes; the counter advances |
| CustomerOrderStore.CustomerOrderRepository.FindByID | internal/repositories/customer_order_repository.go:47-68 | Ok exactly when the id is stored, with that row; otherwise the not-found error |
| CustomerOrderStore.CustomerOrderRepository.FindPendingByTableID | internal/repositories/customer_order_repository.go:70-91 | an answer is a stored pending order of that table; the no-pending error exactly when the table has none |
| CustomerOrderStore.CustomerOrderRepository.FindCompletedByTableID | internal/repositories/customer_order_repository.go:94-117 | an answer is a stored completed order of that table whose created_at is the greatest among them; the no-completed error exactly when there is none |
| CustomerOrderStore.CustomerOrderRepository.UpdateStatus | internal/repositories/customer_order_repository.go:119-141 | for a stored id only the status of that row changes and the updated row is returned; an absent id gives not-found and no change |
| OrderDetailStore.OrderDetailRepository.Create | internal/repositories/orden_detail_repository.go:30-49 | the stored line item has a fresh id and the given order id, menu item id and quantity, stamped now; nothing else changes |
| OrderDetailStore.OrderDetailRepository.FindByID | internal/repositories/orden_detail_repository.go:51-72 | Ok exactly when the id is stored, with that row; otherwise not-found |
| OrderDetailStore.OrderDetailRepository.FindByOrderID | internal/repositories/orden_detail_repository.go:74-121 | the result holds exactly one row for each line item of that order whose menu item exists (inner join), each carrying its menu item; no other rows |
| OrderDetailStore.OrderDetailRepository.Update | internal/repositories/orden_detail_repository.go:123-146 | overwrites order id, menu item id and quantity of that row and keeps created_at; an absent id gives not-found and no change |
| OrderDetailStore.OrderDetailRepository.Delete | internal/repositories/orden_detail_repository.go:148-164 | removes exactly that row; an absent id gives not-found and no change |
| Stores.TableRepository.FindByID | internal/repositories/table_repository.go:27-42 | Ok exactly when the id is stored, with that row; otherwise not-found |
| Stores.TableRepository.FindByName | internal/repositories/table_repository.go:44-59 | an answer is a stored table with that name; not-found exactly when no table has it |
| Stores.TableRepository.Count | internal/repositories/table_repository.go:81-91 | the number of stored tables, 0 exactly when there are none |
| Stores.TableRepository.Create | internal/repositories/table_repository.go:93-105 | stores the given name under a fresh id, stamped now; nothing else changes |
| Stores.TableRepository.Update | internal/repositories/table_repository.go:107-123 | renames only that table, keeping its creation instant; an absent id gives not-found and no change |
| Stores.MenuItemRepository.FindByID | internal/repositories/menu_item_repository.go:29-44 | Ok exactly when the id is stored, with that row; otherwise not-found |
| Stores.MenuItemRepository.FindByName | internal/repositories/menu_item_repository.go:46-61 | an answer is a stored item with that name; not-found exactly when no item has it |
| Stores.MenuItemRepository.Create | internal/repositories/menu_item_repository.go:85-97 | stores the given item under a fresh id, stamped now; nothing else changes |
| Stores.MenuItemRepository.Update | internal/repositories/menu_item_repository.go:99-115 | overwrites that item's fields, keeping its creation instant; an absent id gives not-found and no change |
| Stores.MenuItemRepository.Delete | internal/repositories/menu_item_repository.go:117-134 | removes exactly that item; no row affected gives not-found |
| Stores.EmployeeRepository.FindByID | internal/repositories/employee_repository.go:64-79 | Ok exactly when the employee is stored, with that row; otherwise not-found |
| Stores.EmployeeTaskRepository.FindByID | internal/repositories/employee_task_repository.go:30-54 | Ok exactly when the task is stored, with that row; otherwise not-found |
| Stores.EmployeeTaskRepository.Create | internal/repositories/employee_task_repository.go:115-136 | stores the given task under a fresh id, stamped now; nothing else changes |
| Stores.EmployeeTaskRepository.Update | internal/repositories/employee_task_repository.go:138-163 | overwrites that task's fields, keeping its creation instant; an absent id gives not-found and no change |
| Stores.EmployeeTaskRepository.UpdateStatus | internal/repositories/employee_task_repository.go:165-184 | changes only status and completion instant of that task; no row affected gives not-found |
| Stores.EmployeeTaskRepository.Delete | internal/repositories/employee_task_repository.go:186-204 | removes exactly that task; no row affected gives not-found |
| Workflow.AttachDetail | internal/services/orden_detail_service.go:90-115 | menu-item and stock checks of an addition: a failure changes nothing; menu-item-not-found exactly when the item is missing; stock below the quantity gives insufficient-stock with the item's name, id and stock and the requested quantity; it succeeds exactly when the item exists with enough stock, storing one line item on the given order under the next detail id |
| Workflow.CreateDetailStep | internal/services/orden_detail_service.go:41-116 | the checks in the source's order, each with its error: unknown table; with no order id, a pending order of the table (conflict); with an order id, the order missing, then on another table, then completed; then menu item missing; then stock below the quantity (with name, id, stock and requested quantity). Each of the table and order failures changes nothing. It succeeds exactly when every check passes. A failure never stores a line item, and the only trace it can leave is the order it opened. With no order id and no pending order, that order is stored under the next order id whatever the menu-item and stock checks answer. A success stores one line item on a pending order of that table: the named order, or else a new pending order with total 0 |
| Workflow.UpdateDetailStep | internal/services/orden_detail_service.go:150-185 | the checks in the source's order, each with its error: non-positive id; named order missing; named order completed; menu item missing; stock below the new quantity; then the line item missing at the write. It succeeds exactly when all pass. A failure changes nothing; orders are never changed; a success overwrites the row, keeping created_at |
| Workflow.DeleteDetailStep | internal/services/orden_detail_service.go:187-214 | in order: an id ≤ 0 is invalid, an absent line item is not found, a missing order is not found, a completed order refuses the removal; succeeds exactly when all pass, and then removes exactly that line item; a failure changes nothing |
| Workflow.CompleteStep | internal/services/customer_order_service.go:53-72 | succeeds exactly when the order exists and is pending, and then sets only its status to completed and returns it; a missing order gives order-not-found and a stored order that is not pending gives not-pending; a failure changes nothing |
| Workflow.GetDetailStep | internal/services/orden_detail_service.go:118-129 | Ok exactly when the id is positive and stored, with that row; otherwise the invalid-id or not-found error |
| Workflow.CreatePreservesConsistent | internal/services/orden_detail_service.go:52-75 | adding a line item keeps at most one pending order per table, and keeps every line item on a stored order |
| Workflow.UpdatePreservesConsistent | internal/services/orden_detail_service.go:155-164 | changing a line item keeps the invariant, because the named order must exist |
| Workflow.DeletePreservesConsistent | internal/services/orden_detail_service.go:207-211 | removing a line item keeps the invariant |
| Workflow.CompletePreservesConsistent | internal/services/customer_order_service.go:60-66 | completing an order keeps the invariant |
| Workflow.PendingOrderUnique | internal/repositories/customer_order_repository.go:70-91 | under the invariant a table has at most one pending order, so the unordered lookup has one choice |
| Workflow.CompleteTwiceFails | internal/services/customer_order_service.go:61-66 | completing the same order a second time fails (not pending, or not found) and changes nothing |
| Workflow.CompletedOrderNoAddition | internal/services/orden_detail_service.go:85-87 | under the invariant, an addition naming a completed order changes nothing |
| Workflow.CompletedOrderNoRemoval | internal/services/orden_detail_service.go:203-205 | under the invariant, removing a line item of a completed order fails with the completed error and changes nothing |
| Workflow.RetryAfterFailedOpenConflicts | internal/services/orden_detail_service.go:52-94 | after a first addition opened an order and then failed on the menu item or the stock, a second addition without an order id is refused as a pending-order conflict |
| Workflow.UpdateMovesDetailOffCompletedOrder | internal/services/orden_detail_service.go:155-164 | a concrete case: a line item of a completed order can be moved onto a pending order by an update, because only the order named in the request is checked |
| DetailService.OrderDetailService.CreateOrderDetail | internal/services/orden_detail_service.go:41-116 | the answer and the new order and detail tables are those of `CreateDetailStep`; the menu items are not written |
| DetailService.OrderDetailService.GetOrderDetailByID | internal/services/orden_detail_service.go:118-129 | answers as `GetDetailStep` on the current tables |
| DetailService.OrderDetailService.GetOrderDetailsByOrderID | internal/services/orden_detail_service.go:131-148 | a non-positive id gives invalid-order-id; a missing order gives order-not-found; a stored order gives exactly its joined line items |
| DetailService.OrderDetailService.UpdateOrderDetail | internal/services/orden_detail_service.go:150-185 | the answer and the new tables are those of `UpdateDetailStep` |
| DetailService.OrderDetailService.DeleteOrderDetail | internal/services/orden_detail_service.go:187-214 | the answer and the new tables are those of `DeleteDetailStep` |
| OrderService.CustomerOrderService.GetOrderWithDetails | internal/services/customer_order_service.go:34-51 | order-not-found exactly when the order is missing; otherwise the stored order with exactly its joined line items |
| OrderService.CustomerOrderService.CompleteOrder | internal/services/customer_order_service.go:53-72 | the answer and the new tables are those of `CompleteStep` |
| OrderService.CustomerOrderService.CompleteOrderByEmployee | internal/services/customer_order_service.go:74-76 | the same answer and state change as `CompleteOrder` |
| DetailHandler.ValidateCreate | internal/handlers/orden_detail_handler.go:41-59 | lets the request through exactly when table id, menu item id and quantity are all positive; otherwise 400 with the message of the first failing check: table_id, then menu_item_id, then quantity |
| DetailHandler.ValidateUpdate | internal/handlers/orden_detail_handler.go:199-217 | lets the request through exactly when order id, menu item id and quantity are all positive; otherwise 400 with the message of the first failing check: order_id, then menu_item_id, then quantity |
| DetailHandler.CreateFailure | internal/handlers/orden_detail_handler.go:68-107 | 500 ("Internal server error") exactly for the errors the create chain does not match, a missing named order among them; a missing table or menu item gets 404 with "table not found" / "menu item not found"; every 400 (stock, pending conflict, completed order, table mismatch) carries the service's message; the status is the error's class status |
| DetailHandler.UpdateFailure | internal/handlers/orden_detail_handler.go:221-254 | 500 ("Internal server error") exactly for the errors the update chain does not match, the invalid id among them; a missing line item, order or menu item gets 404 with "order detail not found" / "customer order not found" / "menu item not found"; every 400 (stock, completed order) carries the service's message |
| DetailHandler.DeleteFailure | internal/handlers/orden_detail_handler.go:276-297 | 500 ("Internal server error") exactly unless the error is a missing line item, a missing order or a completed order; those get 404 "order detail not found", 404 "customer order not found", and 400 with the service's message |
| DetailHandler.Message | internal/services/orden_detail_service.go:56-204 | the texts the handlers echo, exactly; a wrapped error (table, order, menu item or line item not found) keeps only the service's own prefix, not the repository error appended to it; an insufficient-stock text starts with "insufficient stock for item " and a completed-order text ends with "customer order is already completed", the phrases the handlers match |
| DetailHandler.CreateInternalErrorOnlyForMissingOrder | internal/handlers/orden_detail_handler.go:67-112 | for a request that passes the field checks: 500 exactly when the table exists and the request names an order that does not exist; 201 exactly on success; otherwise the class status |
| DetailHandler.UpdateInternalErrorOnlyForBadId | internal/handlers/orden_detail_handler.go:220-254 | for a request that passes the field checks: 500 exactly when the id in the URL is not positive |
| DetailHandler.DeleteInternalErrorOnlyForBadId | internal/handlers/orden_detail_handler.go:275-300 | 500 exactly when the id is not positive; 204 exactly when the line item was removed |
| DetailHandler.OrderDetailHandler.CreateOrderDetailHandler | internal/handlers/orden_detail_handler.go:33-114 | a bad body gives "Invalid request body" and no change; a failed field check gives its 400 and no change; otherwise the reply and the new tables follow `CreateDetailStep` |
| DetailHandler.OrderDetailHandler.UpdateOrderDetailHandler | internal/handlers/orden_detail_handler.go:178-261 | a non-numeric URL id or a bad body is refused with no change; the URL id replaces the body's; then field checks, then `UpdateDetailStep` with the 200/error reply |
| DetailHandler.OrderDetailHandler.DeleteOrderDetailHandler | internal/handlers/orden_detail_handler.go:263-302 | a non-numeric URL id is refused; otherwise the reply and the new tables follow `DeleteDetailStep` |
| TableRegistry.TableService.CreateTable | internal/services/table_service.go:30-62 | checks in order: empty name, name in use, `MaxTables` (4) reached; a failure changes nothing; a non-empty free name under the cap always succeeds and stores the table under a fresh id; at most 4 uniquely and non-emptily named tables are kept |
| TableRegistry.TableService.UpdateTable | internal/services/table_service.go:80-109 | empty name, then missing table; keeping the same name always succeeds; a changed name is refused as taken exactly when another table has it, and succeeds otherwise; a success renames only that table; the registry invariant is kept |
| MenuCatalog.FieldProblem | internal/services/menu_item_service.go:45-58 | no problem exactly when description is non-empty, price positive and stock non-negative; the first failing check gives the error: empty description, then non-positive price, then negative stock |
| MenuCatalog.MenuItemService.CreateMenuItem | internal/services/menu_item_service.go:30-66 | checks in order: empty name, name in use, then description, price, stock; a failure changes nothing; a non-empty free name with good fields always succeeds and stores the item under a fresh id |
| MenuCatalog.MenuItemService.UpdateMenuItem | internal/services/menu_item_service.go:84-128 | empty name, then missing item; a changed name is refused as taken exactly when another item has it; past the name checks the first field problem is the error, and good fields succeed; a success overwrites only that item, keeping created_at |
| MenuCatalog.MenuItemService.DeleteMenuItem | internal/services/menu_item_service.go:130-136 | removes exactly that item, or item-not-found with no change |
| EmployeeTasks.CompletionFor | internal/services/employee_task_service.go:118-125 | a completion instant exactly for the completed status, and it is now |
| EmployeeTasks.AssigneeProblem | internal/services/employee_task_service.go:38-47 | no problem exactly when the employee exists and has the role `empleado`; a missing employee is reported first, then an existing one without that role |
| EmployeeTasks.EmployeeTaskService.CreateTask | internal/services/employee_task_service.go:37-61 | refused for an assignee that is missing or not `empleado`, with no change; otherwise stored pending, assigned now, with no completion instant, whatever the input said |
| EmployeeTasks.EmployeeTaskService.UpdateTask | internal/services/employee_task_service.go:91-108 | the same assignee checks, then task-not-found for a missing id; a valid assignee and a stored task always succeed, overwriting that task as given and keeping created_at |
| EmployeeTasks.EmployeeTaskService.UpdateTaskStatus | internal/services/employee_task_service.go:111-138 | a missing task gives not-found and no write; otherwise only status and completion instant change, and the task has a completion instant exactly when it is completed |
| EmployeeTasks.EmployeeTaskService.DeleteTask | internal/services/employee_task_service.go:141-147 | removes exactly that task, or task-not-found with no change |
| Middleware.Split | pkg/middleware/middleware.go:25 | at least one piece, and no piece contains the separator |
| Middleware.SplitJoin | pkg/middleware/middleware.go:25 | the pieces joined with the separator give the header back |
| Middleware.SplitAfterPiece | pkg/middleware/middleware.go:25-26 | a separator-free piece, a separator and a rest split into that piece followed by the rest's pieces |
| Middleware.SplitWithoutSeparator | pkg/middleware/middleware.go:25-26 | a string without the separator is a single piece |
| Middleware.BearerSplit | pkg/middleware/middleware.go:25-30 | the split check passes exactly for "Bearer", one space and a token without spaces, and the token is what follows "Bearer " |
| Middleware.RoleAllowed | pkg/middleware/middleware.go:62-69 | true exactly when some allowed role has the token's role name |
| Middleware.AuthMiddleware | pkg/middleware/middleware.go:19-82 | the checks in order, each with its status and message: 401 "Authorization header required", "Invalid Authorization header format", "Invalid or expired token", "Role not found in token"; 403 "Insufficient permissions" exactly when a non-empty allowed list lacks the role; it proceeds exactly when all pass, carrying the role and the employee id, 0 when absent |

## Left out

- Database plumbing: connection failures, scan errors and every other non-"no rows" SQL error. With them go the `errors.Wrap(err, "failed to …")` branches they feed, including a failure creating the order or the line item. Repositories never fail except with "not found".
- The JWT library (signature, algorithm and expiry checks) is a parameter `verify`. The "Invalid token claims" branch cannot happen with map claims and is not modelled. A non-numeric `employee_id` claim is modelled as absent, and the float-to-int truncation is not modelled.
- `internal/services/auth_service.go` (bcrypt, token signing), `internal/services/employee_service.go` (password generation), `config/config.go`, `db/db.go`, `cmd/`: I/O and wiring only.
- `api/routes.go` is route wiring. Of it, only this is noted: `/orders/{order_id}/complete` is registered without the middleware, so completing an order needs no token.
- The other handlers (table, menu, task, employee, auth, customer order, business) and the two Get handlers of the line-item endpoints: JSON decoding and encoding around the services.
- The read-only passthroughs GetTable, ListTables, GetMenuItem, ListMenuItems, GetTask, ListTasks and ListTasksByEmployee: each returns a repository read unchanged.
- Logging: the handlers' `log.Printf` calls on their 500 paths (internal/handlers/orden_detail_handler.go:105, 136, 167, 252, 295) are output only and change no reply, so the model leaves them out.
- Concurrency: two requests can race between a check and the insert that follows it (no transactions). The model treats each request as one atomic step.
- Decimal arithmetic: prices and totals are integer cents. The 64-bit width of Go's `int` is not modelled; integers are unbounded.
- DetailHandler.CreateFailure, DetailHandler.UpdateFailure: the handlers match error texts by substring. An item name that contains one of the matched phrases could, in the code, move an insufficient-stock error to an earlier branch (in update, the "order detail not found" test comes before the stock test, so such a name turns the stock error into a 404). The model classifies by error kind.
- Three behaviours of the code that the model keeps as they are:
  - no operation ever decrements a menu item's stock; stock is only compared;
  - a failed first addition leaves the order it opened pending, so a retry without an order id is refused as a conflict;
  - the update checks the order the request names, not the line item's current order.
- EmployeeTasks.EmployeeTaskService.UpdateTask: stores the status and completion instant as given. The rule "a completion instant exactly when completed" therefore holds only for tasks written by CreateTask and UpdateTaskStatus, and the contract states no more.
