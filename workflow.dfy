/** The order lifecycle as pure steps over the two tables it changes: opening or attaching to a
    table's order and adding a line item, changing and removing line items, and completing an
    order. The services run these steps against the repositories; the lemmas here are about the
    steps themselves. */
module Workflow {
  import opened Models
  import opened CustomerOrderStore
  import opened OrderDetailStore

  /** Which line-item operation ran into a completed order. */
  datatype DetailAction = Adding | Updating | Deleting

  /** Why a line-item or order operation failed. */
  datatype OrderError =
    | TableNotFound        // "failed to find table"
    | PendingOrderExists   // "a pending customer order already exists for this table"
    | OrderNotFound        // "failed to find customer order"
    | OrderTableMismatch   // "customer order does not belong to the specified table"
    | OrderCompleted(action: DetailAction) // "cannot … order detail: customer order is already completed"
    | MenuItemNotFound     // "failed to find menu item"
    | InsufficientStock(itemName: string, itemId: int, available: int, requested: int)
    | InvalidDetailId      // "invalid order detail ID"
    | InvalidOrderId       // "invalid order ID"
    | DetailNotFound       // "order detail not found"
    | OrderNotPending      // "order is not in 'pending' state"

  /** The customer-orders and order-details tables with their id counters. */
  datatype Ledger = Ledger(
    orders: map<int, CustomerOrder>,
    nextOrderId: int,
    details: map<int, OrderDetail>,
    nextDetailId: int)

  /** What an operation answers and the tables after it. */
  datatype Step<T> = Step(result: Result<T, OrderError>, ledger: Ledger)

  /** No table has two pending orders. */
  ghost predicate AtMostOnePendingPerTable(orders: map<int, CustomerOrder>)
  {
    forall i, j ::
      i in orders && j in orders && IsPendingFor(orders, i, orders[j].tableId) && IsPendingFor(orders, j, orders[i].tableId)
      ==> i == j
  }

  /** Every line item belongs to a stored order. */
  ghost predicate DetailsHaveOrders(l: Ledger)
  {
    forall id :: id in l.details ==> l.details[id].orderId in l.orders
  }

  /** The invariant every step keeps. */
  ghost predicate Consistent(l: Ledger)
  {
    && OrdersKeyed(l.orders, l.nextOrderId)
    && DetailsKeyed(l.details, l.nextDetailId)
    && AtMostOnePendingPerTable(l.orders)
    && DetailsHaveOrders(l)
  }

  /** The pending order a new line item opens for a table, stored under the next order id. */
  function OpenedOrder(l: Ledger, tableId: int, now: Time): CustomerOrder
  {
    CustomerOrder(l.nextOrderId, tableId, 0, Pending, now)
  }

  /** The menu-item and stock checks of an addition and, when they pass, the stored line item on
      order `o`; the answer carries the menu item, the stored row does not. */
  function AttachDetail(l: Ledger, menu: map<int, MenuItem>, d: OrderDetail, o: CustomerOrder, now: Time): (r: Step<OrderDetail>)
    ensures r.result.Err? ==> r.ledger == l
    ensures r.result.Err? ==> (r.result.error == MenuItemNotFound <==> d.menuItemId !in menu)
    ensures d.menuItemId in menu && menu[d.menuItemId].stock < d.quantity ==>
      r.result == Err(InsufficientStock(menu[d.menuItemId].itemName, menu[d.menuItemId].id,
                                        menu[d.menuItemId].stock, d.quantity))
    ensures r.result.Ok? <==> d.menuItemId in menu && d.quantity <= menu[d.menuItemId].stock
    ensures r.result.Ok? ==>
      && d.menuItemId in menu && d.quantity <= menu[d.menuItemId].stock
      && r.result.value == OrderDetail(l.nextDetailId, o.id, d.menuItemId, menu[d.menuItemId], d.quantity, now)
      && r.ledger == l.(details := l.details[l.nextDetailId := r.result.value.(menuItem := NoMenuItem)],
                        nextDetailId := l.nextDetailId + 1)
  {
    if d.menuItemId !in menu then Step(Err(MenuItemNotFound), l)
    else
      var m := menu[d.menuItemId];
      if m.stock < d.quantity then Step(Err(InsufficientStock(m.itemName, m.id, m.stock, d.quantity)), l)
      else
        var row := OrderDetail(l.nextDetailId, o.id, d.menuItemId, NoMenuItem, d.quantity, now);
        Step(Ok(row.(menuItem := m)), l.(details := l.details[row.id := row], nextDetailId := l.nextDetailId + 1))
  }

  /** The order checks of an addition pass: with no order id the table has no pending order;
      with one, that order exists, belongs to the table and is pending. */
  predicate OrderAccepts(l: Ledger, d: OrderDetail, tableId: int)
  {
    if d.orderId == 0 then !HasPendingOrder(l.orders, tableId)
    else d.orderId in l.orders && l.orders[d.orderId].tableId == tableId && l.orders[d.orderId].status == Pending
  }

  /** Adds line item `d` for table `tableId`. With no order id the table must have no pending
      order, and a new pending order with total 0 is stored before the menu item is looked at;
      with an order id that order must exist, belong to the table and not be completed. */
  function CreateDetailStep(l: Ledger, tables: map<int, Table>, menu: map<int, MenuItem>,
                            d: OrderDetail, tableId: int, now: Time): (r: Step<OrderDetail>)
    requires OrdersKeyed(l.orders, l.nextOrderId)
    // A failure never stores a line item; the only thing a failure can leave behind is the
    // order it opened, and only when the menu-item or stock check failed after that.
    ensures r.result.Err? ==> r.ledger.details == l.details && r.ledger.nextDetailId == l.nextDetailId
    ensures r.result.Err? && r.ledger != l ==>
      && d.orderId == 0 && tableId in tables && !HasPendingOrder(l.orders, tableId)
      && (r.result.error == MenuItemNotFound || r.result.error.InsufficientStock?)
      && r.ledger.orders == l.orders[l.nextOrderId := OpenedOrder(l, tableId, now)]
    // With no order id and no pending order, the order is opened before the menu-item and stock
    // checks, so it stays stored whatever they answer.
    ensures tableId in tables && d.orderId == 0 && !HasPendingOrder(l.orders, tableId) ==>
      && r.ledger.orders == l.orders[l.nextOrderId := OpenedOrder(l, tableId, now)]
      && r.ledger.nextOrderId == l.nextOrderId + 1
    // The checks in order, each with its error.
    ensures tableId !in tables ==> r == Step(Err(TableNotFound), l)
    ensures tableId in tables && d.orderId == 0 && HasPendingOrder(l.orders, tableId) ==>
      r == Step(Err(PendingOrderExists), l)
    ensures tableId in tables && d.orderId != 0 && d.orderId !in l.orders ==> r == Step(Err(OrderNotFound), l)
    ensures tableId in tables && d.orderId != 0 && d.orderId in l.orders && l.orders[d.orderId].tableId != tableId
      ==> r == Step(Err(OrderTableMismatch), l)
    ensures tableId in tables && d.orderId != 0 && d.orderId in l.orders && l.orders[d.orderId].tableId == tableId
      && l.orders[d.orderId].status == Completed
      ==> r == Step(Err(OrderCompleted(Adding)), l)
    ensures tableId in tables && OrderAccepts(l, d, tableId) && d.menuItemId !in menu ==>
      r.result == Err(MenuItemNotFound)
    ensures tableId in tables && OrderAccepts(l, d, tableId) && d.menuItemId in menu
      && menu[d.menuItemId].stock < d.quantity
      ==> r.result == Err(InsufficientStock(menu[d.menuItemId].itemName, menu[d.menuItemId].id,
                                            menu[d.menuItemId].stock, d.quantity))
    ensures r.result.Ok? <==>
      tableId in tables && OrderAccepts(l, d, tableId) && d.menuItemId in menu && d.quantity <= menu[d.menuItemId].stock
    ensures r.result.Err? && r.result.error.InsufficientStock? ==>
      d.menuItemId in menu && r.result.error ==
        InsufficientStock(menu[d.menuItemId].itemName, menu[d.menuItemId].id, menu[d.menuItemId].stock, d.quantity) &&
      menu[d.menuItemId].stock < d.quantity
    // A success stores exactly one line item, on a pending order of that table.
    ensures r.result.Ok? ==>
      var v := r.result.value;
      && tableId in tables && d.menuItemId in menu && d.quantity <= menu[d.menuItemId].stock
      && v.id == l.nextDetailId && v.menuItemId == d.menuItemId && v.quantity == d.quantity
      && v.menuItem == menu[d.menuItemId] && v.createdAt == now
      && v.orderId in r.ledger.orders && IsPendingFor(r.ledger.orders, v.orderId, tableId)
      && (d.orderId != 0 ==> v.orderId == d.orderId && r.ledger.orders == l.orders)
      && (d.orderId == 0 ==> v.orderId == l.nextOrderId &&
                             r.ledger.orders == l.orders[l.nextOrderId := OpenedOrder(l, tableId, now)])
      && r.ledger.details == l.details[v.id := v.(menuItem := NoMenuItem)]
  {
    if tableId !in tables then Step(Err(TableNotFound), l)
    else if d.orderId == 0 then
      if HasPendingOrder(l.orders, tableId) then Step(Err(PendingOrderExists), l)
      else
        var o := OpenedOrder(l, tableId, now);
        AttachDetail(l.(orders := l.orders[o.id := o], nextOrderId := l.nextOrderId + 1), menu, d, o, now)
    else if d.orderId !in l.orders then Step(Err(OrderNotFound), l)
    else if l.orders[d.orderId].tableId != tableId then Step(Err(OrderTableMismatch), l)
    else if l.orders[d.orderId].status == Completed then Step(Err(OrderCompleted(Adding)), l)
    else AttachDetail(l, menu, d, l.orders[d.orderId], now)
  }

  /** Changes line item `d.id` to order `d.orderId`, menu item `d.menuItemId` and quantity
      `d.quantity`. The order checked is the one the request names, not the one the line item is
      on; stock is compared with the new quantity alone. */
  function UpdateDetailStep(l: Ledger, menu: map<int, MenuItem>, d: OrderDetail): (r: Step<OrderDetail>)
    ensures r.result.Err? ==> r.ledger == l
    ensures r.ledger.orders == l.orders && r.ledger.nextOrderId == l.nextOrderId
    ensures r.ledger.nextDetailId == l.nextDetailId
    // The checks in order, each with its error; the line item's existence is only found out
    // by the final write.
    ensures d.id <= 0 ==> r.result == Err(InvalidDetailId)
    ensures d.id > 0 && d.orderId !in l.orders ==> r.result == Err(OrderNotFound)
    ensures d.id > 0 && d.orderId in l.orders && l.orders[d.orderId].status == Completed ==>
      r.result == Err(OrderCompleted(Updating))
    ensures d.id > 0 && d.orderId in l.orders && l.orders[d.orderId].status == Pending && d.menuItemId !in menu ==>
      r.result == Err(MenuItemNotFound)
    ensures d.id > 0 && d.orderId in l.orders && l.orders[d.orderId].status == Pending && d.menuItemId in menu
      && menu[d.menuItemId].stock < d.quantity
      ==> r.result == Err(InsufficientStock(menu[d.menuItemId].itemName, menu[d.menuItemId].id,
                                            menu[d.menuItemId].stock, d.quantity))
    ensures d.id > 0 && d.orderId in l.orders && l.orders[d.orderId].status == Pending && d.menuItemId in menu
      && d.quantity <= menu[d.menuItemId].stock && d.id !in l.details
      ==> r.result == Err(DetailNotFound)
    ensures r.result.Err? && r.result.error == DetailNotFound ==> d.id !in l.details
    ensures r.result.Ok? <==>
      && d.id > 0 && d.id in l.details && d.orderId in l.orders && l.orders[d.orderId].status == Pending
      && d.menuItemId in menu && d.quantity <= menu[d.menuItemId].stock
    ensures r.result.Ok? ==>
      && d.id > 0 && d.id in l.details
      && d.orderId in l.orders && l.orders[d.orderId].status == Pending
      && d.menuItemId in menu && d.quantity <= menu[d.menuItemId].stock
      && r.result.value == OrderDetail(d.id, d.orderId, d.menuItemId, NoMenuItem, d.quantity, l.details[d.id].createdAt)
      && r.ledger.details == l.details[d.id := r.result.value]
  {
    if d.id <= 0 then Step(Err(InvalidDetailId), l)
    else if d.orderId !in l.orders then Step(Err(OrderNotFound), l)
    else if l.orders[d.orderId].status == Completed then Step(Err(OrderCompleted(Updating)), l)
    else if d.menuItemId !in menu then Step(Err(MenuItemNotFound), l)
    else
      var m := menu[d.menuItemId];
      if m.stock < d.quantity then Step(Err(InsufficientStock(m.itemName, m.id, m.stock, d.quantity)), l)
      else if d.id !in l.details then Step(Err(DetailNotFound), l)
      else
        var row := OrderDetail(d.id, d.orderId, d.menuItemId, NoMenuItem, d.quantity, l.details[d.id].createdAt);
        assert l.orders[d.orderId].status == Pending;
        Step(Ok(row), l.(details := l.details[d.id := row]))
  }

  /** Removes line item `id` unless its order is completed. */
  function DeleteDetailStep(l: Ledger, id: int): (r: Step<()>)
    ensures r.result.Err? ==> r.ledger == l
    ensures id <= 0 ==> r.result == Err(InvalidDetailId)
    ensures id > 0 && id !in l.details ==> r.result == Err(DetailNotFound)
    ensures id > 0 && id in l.details && l.details[id].orderId !in l.orders ==> r.result == Err(OrderNotFound)
    ensures
      && id > 0 && id in l.details && l.details[id].orderId in l.orders
      && l.orders[l.details[id].orderId].status == Completed
      ==> r.result == Err(OrderCompleted(Deleting))
    ensures r.result.Ok? <==>
      id > 0 && id in l.details && l.details[id].orderId in l.orders &&
      l.orders[l.details[id].orderId].status == Pending
    ensures r.result.Ok? ==> r.ledger == l.(details := l.details - {id})
  {
    if id <= 0 then Step(Err(InvalidDetailId), l)
    else if id !in l.details then Step(Err(DetailNotFound), l)
    else if l.details[id].orderId !in l.orders then Step(Err(OrderNotFound), l)
    else if l.orders[l.details[id].orderId].status == Completed then Step(Err(OrderCompleted(Deleting)), l)
    else
      assert l.orders[l.details[id].orderId].status == Pending;
      Step(Ok(()), l.(details := l.details - {id}))
  }

  /** Moves a pending order to completed; any other order is refused. */
  function CompleteStep(l: Ledger, orderId: int): (r: Step<CustomerOrder>)
    ensures r.result.Err? ==> r.ledger == l
    ensures r.result.Ok? <==> orderId in l.orders && l.orders[orderId].status == Pending
    ensures orderId !in l.orders ==> r.result == Err(OrderNotFound)
    ensures orderId in l.orders && l.orders[orderId].status != Pending ==> r.result == Err(OrderNotPending)
    ensures r.result.Ok? ==>
      && r.result.value == l.orders[orderId].(status := Completed)
      && r.ledger == l.(orders := l.orders[orderId := r.result.value])
  {
    if orderId !in l.orders then Step(Err(OrderNotFound), l)
    else if l.orders[orderId].status != Pending then Step(Err(OrderNotPending), l)
    else
      var o := l.orders[orderId].(status := Completed);
      Step(Ok(o), l.(orders := l.orders[orderId := o]))
  }

  /** Reads one line item by id. */
  function GetDetailStep(l: Ledger, id: int): (r: Result<OrderDetail, OrderError>)
    ensures r.Ok? <==> id > 0 && id in l.details
    ensures r.Ok? ==> r.value == l.details[id]
    ensures r.Err? ==> r.error == (if id <= 0 then InvalidDetailId else DetailNotFound)
  {
    if id <= 0 then Err(InvalidDetailId)
    else if id !in l.details then Err(DetailNotFound)
    else Ok(l.details[id])
  }

  lemma CreatePreservesConsistent(l: Ledger, tables: map<int, Table>, menu: map<int, MenuItem>,
                                  d: OrderDetail, tableId: int, now: Time)
    requires Consistent(l)
    ensures Consistent(CreateDetailStep(l, tables, menu, d, tableId, now).ledger)
  {
    var r := CreateDetailStep(l, tables, menu, d, tableId, now);
    if r.ledger.orders != l.orders {
      // The opened order is the table's only pending one.
      var o := OpenedOrder(l, tableId, now);
      assert r.ledger.orders == l.orders[o.id := o];
      forall i, j | i in r.ledger.orders && j in r.ledger.orders &&
        IsPendingFor(r.ledger.orders, i, r.ledger.orders[j].tableId) &&
        IsPendingFor(r.ledger.orders, j, r.ledger.orders[i].tableId)
        ensures i == j
      {
      }
    }
  }

  lemma UpdatePreservesConsistent(l: Ledger, menu: map<int, MenuItem>, d: OrderDetail)
    requires Consistent(l)
    ensures Consistent(UpdateDetailStep(l, menu, d).ledger)
  {
  }

  lemma DeletePreservesConsistent(l: Ledger, id: int)
    requires Consistent(l)
    ensures Consistent(DeleteDetailStep(l, id).ledger)
  {
  }

  lemma CompletePreservesConsistent(l: Ledger, orderId: int)
    requires Consistent(l)
    ensures Consistent(CompleteStep(l, orderId).ledger)
  {
    var r := CompleteStep(l, orderId);
    if r.result.Ok? {
      forall i, j | i in r.ledger.orders && j in r.ledger.orders &&
        IsPendingFor(r.ledger.orders, i, r.ledger.orders[j].tableId) &&
        IsPendingFor(r.ledger.orders, j, r.ledger.orders[i].tableId)
        ensures i == j
      {
        assert i != orderId && j != orderId;
        assert IsPendingFor(l.orders, i, l.orders[j].tableId);
      }
    }
  }

  /** Under the invariant a table's pending order is unique, so the unordered lookup has only one
      row to choose from. */
  lemma PendingOrderUnique(l: Ledger, tableId: int, i: int, j: int)
    requires Consistent(l)
    requires i in l.orders && IsPendingFor(l.orders, i, tableId)
    requires j in l.orders && IsPendingFor(l.orders, j, tableId)
    ensures i == j
  {
  }

  /** Completed is final: a second completion of the same order fails and changes nothing. */
  lemma CompleteTwiceFails(l: Ledger, orderId: int)
    ensures var once := CompleteStep(l, orderId);
      CompleteStep(once.ledger, orderId) == Step(Err(if orderId in l.orders then OrderNotPending else OrderNotFound), once.ledger)
  {
  }

  /** No line item can be added to a completed order: the addition leaves the ledger as it was. */
  lemma CompletedOrderNoAddition(l: Ledger, tables: map<int, Table>, menu: map<int, MenuItem>,
                                 d: OrderDetail, tableId: int, now: Time)
    requires Consistent(l)
    requires d.orderId in l.orders && l.orders[d.orderId].status == Completed
    ensures CreateDetailStep(l, tables, menu, d, tableId, now).ledger == l
  {
  }

  /** No line item of a completed order can be removed: the removal fails with the completed
      error and changes nothing. */
  lemma CompletedOrderNoRemoval(l: Ledger, id: int)
    requires Consistent(l)
    requires id in l.details && l.details[id].orderId in l.orders && l.orders[l.details[id].orderId].status == Completed
    ensures DeleteDetailStep(l, id) == Step(Err(OrderCompleted(Deleting)), l)
  {
  }

  /** The order a failed first addition opened stays pending, so retrying without an order id is
      refused as a conflict; the retry has to name that order. */
  lemma RetryAfterFailedOpenConflicts(l: Ledger, tables: map<int, Table>, menu: map<int, MenuItem>,
                                      d: OrderDetail, tableId: int, now: Time, d2: OrderDetail, later: Time)
    requires Consistent(l)
    requires d.orderId == 0 && d2.orderId == 0 && tableId in tables
    requires !HasPendingOrder(l.orders, tableId)
    requires d.menuItemId !in menu || menu[d.menuItemId].stock < d.quantity
    ensures var first := CreateDetailStep(l, tables, menu, d, tableId, now);
      && first.result.Err?
      && (d.menuItemId !in menu ==> first.result == Err(MenuItemNotFound))
      && CreateDetailStep(first.ledger, tables, menu, d2, tableId, later).result == Err(PendingOrderExists)
  {
    CreatePreservesConsistent(l, tables, menu, d, tableId, now);
    var first := CreateDetailStep(l, tables, menu, d, tableId, now);
    assert IsPendingFor(first.ledger.orders, l.nextOrderId, tableId);
  }

  /** The update checks the order the request names, so a line item of a completed order can be
      moved onto a pending one, which changes the completed order's contents. */
  lemma UpdateMovesDetailOffCompletedOrder()
    ensures var burger := MenuItem(1, "Burger", "food", 900, 5, "beef", 0);
      var done := CustomerOrder(1, 1, 0, Completed, 0);
      var open := CustomerOrder(2, 1, 0, Pending, 0);
      var line := OrderDetail(1, 1, 1, NoMenuItem, 2, 0);
      var l := Ledger(map[1 := done, 2 := open], 3, map[1 := line], 2);
      && Consistent(l)
      && var r := UpdateDetailStep(l, map[1 := burger], line.(orderId := 2));
      && r.result.Ok? && r.ledger.details[1].orderId == 2
  {
    var burger := MenuItem(1, "Burger", "food", 900, 5, "beef", 0);
    var done := CustomerOrder(1, 1, 0, Completed, 0);
    var open := CustomerOrder(2, 1, 0, Pending, 0);
    var line := OrderDetail(1, 1, 1, NoMenuItem, 2, 0);
    var l := Ledger(map[1 := done, 2 := open], 3, map[1 := line], 2);
    assert AtMostOnePendingPerTable(l.orders) by {
      forall i, j | i in l.orders && j in l.orders && IsPendingFor(l.orders, i, l.orders[j].tableId) &&
        IsPendingFor(l.orders, j, l.orders[i].tableId)
        ensures i == j
      {
      }
    }
  }
}
