/** The line-item service: runs the workflow steps against the repositories. */
module DetailService {
  import opened Models
  import opened Stores
  import opened CustomerOrderStore
  import opened OrderDetailStore
  import opened Workflow

  class OrderDetailService {
    const orderDetailRepo: OrderDetailRepository
    const customerOrderRepo: CustomerOrderRepository
    const menuItemRepo: MenuItemRepository
    const tableRepo: TableRepository

    /** The orders and line-item tables as one value. */
    function Snapshot(): Ledger
      reads customerOrderRepo, orderDetailRepo
    {
      Ledger(customerOrderRepo.rows, customerOrderRepo.nextId, orderDetailRepo.rows, orderDetailRepo.nextId)
    }

    ghost predicate Valid()
      reads this, orderDetailRepo, customerOrderRepo, menuItemRepo, tableRepo
    {
      && orderDetailRepo.Valid() && customerOrderRepo.Valid() && menuItemRepo.Valid() && tableRepo.Valid()
      && Consistent(Snapshot())
    }

    constructor (orderDetailRepo: OrderDetailRepository, customerOrderRepo: CustomerOrderRepository,
                 menuItemRepo: MenuItemRepository, tableRepo: TableRepository)
      requires orderDetailRepo.Valid() && customerOrderRepo.Valid() && menuItemRepo.Valid() && tableRepo.Valid()
      requires Consistent(Ledger(customerOrderRepo.rows, customerOrderRepo.nextId, orderDetailRepo.rows, orderDetailRepo.nextId))
      ensures Valid()
      ensures this.orderDetailRepo == orderDetailRepo && this.customerOrderRepo == customerOrderRepo
      ensures this.menuItemRepo == menuItemRepo && this.tableRepo == tableRepo
    {
      this.orderDetailRepo := orderDetailRepo;
      this.customerOrderRepo := customerOrderRepo;
      this.menuItemRepo := menuItemRepo;
      this.tableRepo := tableRepo;
    }

    /** Adds a line item for a table, opening a pending order for it when no order id is given.
        Menu items, and so their stock, are not written. */
    method CreateOrderDetail(detail: OrderDetail, tableId: int, now: Time) returns (r: Result<OrderDetail, OrderError>)
      requires Valid()
      modifies customerOrderRepo, orderDetailRepo
      ensures Valid()
      ensures Step(r, Snapshot()) == CreateDetailStep(old(Snapshot()), tableRepo.rows, menuItemRepo.rows, detail, tableId, now)
    {
      CreatePreservesConsistent(Snapshot(), tableRepo.rows, menuItemRepo.rows, detail, tableId, now);
      var table := tableRepo.FindByID(tableId);
      if table.Err? {
        return Err(TableNotFound);
      }
      var order: CustomerOrder;
      if detail.orderId == 0 {
        var pending := customerOrderRepo.FindPendingByTableID(tableId);
        if pending.Ok? && pending.value.id != 0 {
          return Err(PendingOrderExists);
        }
        // The latest completed order of the table is looked up only for information.
        var _ := customerOrderRepo.FindCompletedByTableID(tableId);
        order := customerOrderRepo.Create(CustomerOrder(0, tableId, 0, Pending, now));
      } else {
        var found := customerOrderRepo.FindByID(detail.orderId);
        if found.Err? {
          return Err(OrderNotFound);
        }
        order := found.value;
        if order.tableId != tableId {
          return Err(OrderTableMismatch);
        }
        if order.status == Completed {
          return Err(OrderCompleted(Adding));
        }
      }
      var item := menuItemRepo.FindByID(detail.menuItemId);
      if item.Err? {
        return Err(MenuItemNotFound);
      }
      var m := item.value;
      if m.stock < detail.quantity {
        return Err(InsufficientStock(m.itemName, m.id, m.stock, detail.quantity));
      }
      var created := orderDetailRepo.Create(detail.(orderId := order.id, createdAt := now), now);
      var attached := menuItemRepo.FindByID(detail.menuItemId);
      r := Ok(created.(menuItem := if attached.Ok? then attached.value else NoMenuItem));
    }

    function GetOrderDetailByID(id: int): (r: Result<OrderDetail, OrderError>)
      requires Valid()
      reads this, orderDetailRepo, customerOrderRepo, menuItemRepo, tableRepo
      ensures r == GetDetailStep(Snapshot(), id)
    {
      if id <= 0 then Err(InvalidDetailId)
      else
        var found := orderDetailRepo.FindByID(id);
        if found.Err? then Err(DetailNotFound) else Ok(found.value)
    }

    /** The line items of an existing order, joined with their menu items. */
    method GetOrderDetailsByOrderID(orderId: int) returns (r: Result<seq<OrderDetail>, OrderError>)
      requires Valid()
      ensures orderId <= 0 ==> r == Err(InvalidOrderId)
      ensures orderId > 0 && orderId !in customerOrderRepo.rows ==> r == Err(OrderNotFound)
      ensures r.Ok? ==> orderId > 0 && orderId in customerOrderRepo.rows &&
                        IsJoinOf(orderDetailRepo.rows, menuItemRepo.rows, orderId, r.value)
      ensures orderId > 0 && orderId in customerOrderRepo.rows ==> r.Ok?
    {
      if orderId <= 0 {
        return Err(InvalidOrderId);
      }
      var found := customerOrderRepo.FindByID(orderId);
      if found.Err? {
        return Err(OrderNotFound);
      }
      var details := orderDetailRepo.FindByOrderID(orderId, menuItemRepo.rows);
      r := Ok(details);
    }

    /** Changes a line item's order, menu item and quantity after checking the order the request
        names and the stock for the new quantity. */
    method UpdateOrderDetail(detail: OrderDetail) returns (r: Result<OrderDetail, OrderError>)
      requires Valid()
      modifies orderDetailRepo
      ensures Valid()
      ensures Step(r, Snapshot()) == UpdateDetailStep(old(Snapshot()), menuItemRepo.rows, detail)
    {
      UpdatePreservesConsistent(Snapshot(), menuItemRepo.rows, detail);
      if detail.id <= 0 {
        return Err(InvalidDetailId);
      }
      var found := customerOrderRepo.FindByID(detail.orderId);
      if found.Err? {
        return Err(OrderNotFound);
      }
      if found.value.status == Completed {
        return Err(OrderCompleted(Updating));
      }
      var item := menuItemRepo.FindByID(detail.menuItemId);
      if item.Err? {
        return Err(MenuItemNotFound);
      }
      var m := item.value;
      if m.stock < detail.quantity {
        return Err(InsufficientStock(m.itemName, m.id, m.stock, detail.quantity));
      }
      var updated := orderDetailRepo.Update(detail);
      r := if updated.Ok? then Ok(updated.value) else Err(DetailNotFound);
    }

    /** Removes a line item unless its order is completed. */
    method DeleteOrderDetail(id: int) returns (r: Result<(), OrderError>)
      requires Valid()
      modifies orderDetailRepo
      ensures Valid()
      ensures Step(r, Snapshot()) == DeleteDetailStep(old(Snapshot()), id)
    {
      DeletePreservesConsistent(Snapshot(), id);
      if id <= 0 {
        return Err(InvalidDetailId);
      }
      var found := orderDetailRepo.FindByID(id);
      if found.Err? {
        return Err(DetailNotFound);
      }
      var order := customerOrderRepo.FindByID(found.value.orderId);
      if order.Err? {
        return Err(OrderNotFound);
      }
      if order.value.status == Completed {
        return Err(OrderCompleted(Deleting));
      }
      var deleted := orderDetailRepo.Delete(id);
      r := if deleted.None? then Ok(()) else Err(DetailNotFound);
    }
  }
}
