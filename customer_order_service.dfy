/** The order service: reading an order with its line items, and completing an order. */
module OrderService {
  import opened Models
  import opened Stores
  import opened CustomerOrderStore
  import opened OrderDetailStore
  import opened Workflow

  class CustomerOrderService {
    const customerOrderRepo: CustomerOrderRepository
    const menuItemRepo: MenuItemRepository
    const orderDetailRepo: OrderDetailRepository

    function Snapshot(): Ledger
      reads customerOrderRepo, orderDetailRepo
    {
      Ledger(customerOrderRepo.rows, customerOrderRepo.nextId, orderDetailRepo.rows, orderDetailRepo.nextId)
    }

    ghost predicate Valid()
      reads this, customerOrderRepo, menuItemRepo, orderDetailRepo
    {
      && customerOrderRepo.Valid() && menuItemRepo.Valid() && orderDetailRepo.Valid()
      && Consistent(Snapshot())
    }

    constructor (customerOrderRepo: CustomerOrderRepository, menuItemRepo: MenuItemRepository,
                 orderDetailRepo: OrderDetailRepository)
      requires customerOrderRepo.Valid() && menuItemRepo.Valid() && orderDetailRepo.Valid()
      requires Consistent(Ledger(customerOrderRepo.rows, customerOrderRepo.nextId, orderDetailRepo.rows, orderDetailRepo.nextId))
      ensures Valid()
      ensures this.customerOrderRepo == customerOrderRepo && this.menuItemRepo == menuItemRepo
      ensures this.orderDetailRepo == orderDetailRepo
    {
      this.customerOrderRepo := customerOrderRepo;
      this.menuItemRepo := menuItemRepo;
      this.orderDetailRepo := orderDetailRepo;
    }

    /** The order with its line items joined with their menu items. */
    method GetOrderWithDetails(orderId: int) returns (r: Result<OrderWithDetails, OrderError>)
      requires Valid()
      ensures orderId !in customerOrderRepo.rows <==> r == Err(OrderNotFound)
      ensures r.Ok? ==>
        && orderId in customerOrderRepo.rows && r.value.order == customerOrderRepo.rows[orderId]
        && IsJoinOf(orderDetailRepo.rows, menuItemRepo.rows, orderId, r.value.orderDetails)
      ensures orderId in customerOrderRepo.rows ==> r.Ok?
    {
      var found := customerOrderRepo.FindByID(orderId);
      if found.Err? {
        return Err(OrderNotFound);
      }
      var details := orderDetailRepo.FindByOrderID(orderId, menuItemRepo.rows);
      r := Ok(OrderWithDetails(found.value, details));
    }

    /** Moves a pending order to completed. */
    method CompleteOrder(orderId: int) returns (r: Result<CustomerOrder, OrderError>)
      requires Valid()
      modifies customerOrderRepo
      ensures Valid()
      ensures Step(r, Snapshot()) == CompleteStep(old(Snapshot()), orderId)
    {
      CompletePreservesConsistent(Snapshot(), orderId);
      var found := customerOrderRepo.FindByID(orderId);
      if found.Err? {
        return Err(OrderNotFound);
      }
      if found.value.status != Pending {
        return Err(OrderNotPending);
      }
      var updated := customerOrderRepo.UpdateStatus(orderId, Completed);
      r := if updated.Ok? then Ok(updated.value) else Err(OrderNotFound);
    }

    /** The employees' entry to completing an order; it does exactly what `CompleteOrder` does. */
    method CompleteOrderByEmployee(orderId: int) returns (r: Result<CustomerOrder, OrderError>)
      requires Valid()
      modifies customerOrderRepo
      ensures Valid()
      ensures Step(r, Snapshot()) == CompleteStep(old(Snapshot()), orderId)
    {
      r := CompleteOrder(orderId);
    }
  }
}
