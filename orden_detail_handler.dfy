/** The line-item endpoints: checking the request fields, calling the service, and turning its
    answer into an HTTP status and body. */
module DetailHandler {
  import opened Models
  import opened Stores
  import opened CustomerOrderStore
  import opened Workflow
  import opened DetailService

  const StatusOK := 200
  const StatusCreated := 201
  const StatusNoContent := 204
  const StatusBadRequest := 400
  const StatusNotFound := 404
  const StatusInternalServerError := 500

  /** The body of a create request; `orderId` is 0 when the client leaves it out. */
  datatype CreateOrderDetailRequest = CreateOrderDetailRequest(orderId: int, tableId: int, menuItemId: int, quantity: int)

  datatype Body =
    | ErrorJson(message: string)  // {"error": message}
    | PlainText(text: string)     // written by http.Error
    | DetailJson(detail: OrderDetail)
    | NoBody

  datatype Response = Response(status: int, body: Body)

  function BadRequest(message: string): Response
  {
    Response(StatusBadRequest, ErrorJson(message))
  }

  function NotFoundReply(message: string): Response
  {
    Response(StatusNotFound, ErrorJson(message))
  }

  const InternalError := Response(StatusInternalServerError, PlainText("Internal server error"))
  const InvalidBody := Response(StatusBadRequest, PlainText("Invalid request body"))
  const InvalidDetailIdReply := BadRequest("invalid order detail ID")

  function DigitChar(d: nat): char
    requires d < 10
  {
    "0123456789"[d]
  }

  /** Decimal notation, as `%d` writes it. */
  function NatToString(n: nat): string
    decreases n
  {
    if n < 10 then [DigitChar(n)] else NatToString(n / 10) + [DigitChar(n % 10)]
  }

  function IntToString(i: int): string
  {
    if i < 0 then "-" + NatToString(-i) else NatToString(i)
  }

  const StockPhrase := "insufficient stock for item "
  const CompletedPhrase := "customer order is already completed"

  function ActionVerb(a: DetailAction): string
  {
    match a
    case Adding => "add"
    case Updating => "update"
    case Deleting => "delete"
  }

  /** `s` ends with `suffix`. */
  predicate EndsWith(s: string, suffix: string)
  {
    |suffix| <= |s| && s[|s| - |suffix|..] == suffix
  }

  /** The text of the service's error, as far as a handler echoes it. The handlers recognise an
      error by a phrase in its text: a stock error starts with its phrase, and a completed-order
      error ends with its phrase whichever operation it came from. */
  function Message(e: OrderError): (m: string)
    ensures e.InsufficientStock? ==> StockPhrase <= m
    ensures e.OrderCompleted? ==> EndsWith(m, CompletedPhrase)
  {
    match e
    case TableNotFound => "failed to find table"
    case PendingOrderExists => "cannot create new customer order: a pending customer order already exists for this table"
    case OrderNotFound => "failed to find customer order"
    case OrderTableMismatch => "customer order does not belong to the specified table"
    case OrderCompleted(action) => "cannot " + ActionVerb(action) + " order detail: " + CompletedPhrase
    case MenuItemNotFound => "failed to find menu item"
    case InsufficientStock(name, id, available, requested) =>
      StockPhrase + (name + " (ID: " + IntToString(id) + "). Available: " +
      IntToString(available) + ", Requested: " + IntToString(requested))
    case InvalidDetailId => "invalid order detail ID"
    case InvalidOrderId => "invalid order ID"
    case DetailNotFound => "order detail not found"
    case OrderNotPending => "order is not in 'pending' state"
  }

  /** The status the error's class calls for: 404 for a missing entity, 400 for a bad request, a
      conflict, an illegal state or too little stock. */
  function ClassStatus(e: OrderError): int
  {
    match e
    case TableNotFound | OrderNotFound | MenuItemNotFound | DetailNotFound => StatusNotFound
    case _ => StatusBadRequest
  }

  /** The line item the create handler passes to the service. */
  function RequestDetail(req: CreateOrderDetailRequest): OrderDetail
  {
    OrderDetail(0, req.orderId, req.menuItemId, NoMenuItem, req.quantity, 0)
  }

  /** The field checks of a create request, in order; `None` lets the request through. */
  function ValidateCreate(req: CreateOrderDetailRequest): (r: Option<Response>)
    ensures r.None? <==> req.tableId > 0 && req.menuItemId > 0 && req.quantity > 0
    ensures r.Some? ==> r.value.status == StatusBadRequest
    ensures req.tableId <= 0 ==> r == Some(BadRequest("table_id is required"))
    ensures req.tableId > 0 && req.menuItemId <= 0 ==> r == Some(BadRequest("menu_item_id is required"))
    ensures req.tableId > 0 && req.menuItemId > 0 && req.quantity <= 0 ==>
      r == Some(BadRequest("quantity must be greater than 0"))
  {
    if req.tableId <= 0 then Some(BadRequest("table_id is required"))
    else if req.menuItemId <= 0 then Some(BadRequest("menu_item_id is required"))
    else if req.quantity <= 0 then Some(BadRequest("quantity must be greater than 0"))
    else None
  }

  /** The field checks of an update request, in order. */
  function ValidateUpdate(d: OrderDetail): (r: Option<Response>)
    ensures r.None? <==> d.orderId > 0 && d.menuItemId > 0 && d.quantity > 0
    ensures r.Some? ==> r.value.status == StatusBadRequest
    ensures d.orderId <= 0 ==> r == Some(BadRequest("order_id is required"))
    ensures d.orderId > 0 && d.menuItemId <= 0 ==> r == Some(BadRequest("menu_item_id is required"))
    ensures d.orderId > 0 && d.menuItemId > 0 && d.quantity <= 0 ==>
      r == Some(BadRequest("quantity must be greater than 0"))
  {
    if d.orderId <= 0 then Some(BadRequest("order_id is required"))
    else if d.menuItemId <= 0 then Some(BadRequest("menu_item_id is required"))
    else if d.quantity <= 0 then Some(BadRequest("quantity must be greater than 0"))
    else None
  }

  function CreateFailure(e: OrderError): (resp: Response)
    ensures resp.status == StatusInternalServerError <==>
      e in {OrderNotFound, InvalidDetailId, InvalidOrderId, DetailNotFound, OrderNotPending}
    ensures resp.status != StatusInternalServerError ==> resp.status == ClassStatus(e)
    // A 400 echoes the service's message, a 404 names what is missing, a 500 is the plain reply.
    ensures resp.status == StatusBadRequest ==> resp == BadRequest(Message(e))
    ensures e == TableNotFound ==> resp == NotFoundReply("table not found")
    ensures e == MenuItemNotFound ==> resp == NotFoundReply("menu item not found")
    ensures resp.status == StatusInternalServerError ==> resp == InternalError
  {
    match e
    case TableNotFound => NotFoundReply("table not found")
    case MenuItemNotFound => NotFoundReply("menu item not found")
    case InsufficientStock(_, _, _, _) => BadRequest(Message(e))
    case PendingOrderExists => BadRequest(Message(e))
    case OrderCompleted(_) => BadRequest(Message(e))
    case OrderTableMismatch => BadRequest(Message(e))
    case _ => InternalError
  }

  function CreateReply(r: Result<OrderDetail, OrderError>): Response
  {
    if r.Ok? then Response(StatusCreated, DetailJson(r.value)) else CreateFailure(r.error)
  }

  function UpdateFailure(e: OrderError): (resp: Response)
    ensures resp.status == StatusInternalServerError <==>
      e in {TableNotFound, PendingOrderExists, OrderTableMismatch, InvalidDetailId, InvalidOrderId, OrderNotPending}
    ensures resp.status != StatusInternalServerError ==> resp.status == ClassStatus(e)
    ensures resp.status == StatusBadRequest ==> resp == BadRequest(Message(e))
    ensures e == DetailNotFound ==> resp == NotFoundReply("order detail not found")
    ensures e == OrderNotFound ==> resp == NotFoundReply("customer order not found")
    ensures e == MenuItemNotFound ==> resp == NotFoundReply("menu item not found")
    ensures resp.status == StatusInternalServerError ==> resp == InternalError
  {
    match e
    case DetailNotFound => NotFoundReply("order detail not found")
    case OrderNotFound => NotFoundReply("customer order not found")
    case MenuItemNotFound => NotFoundReply("menu item not found")
    case InsufficientStock(_, _, _, _) => BadRequest(Message(e))
    case OrderCompleted(_) => BadRequest(Message(e))
    case _ => InternalError
  }

  function UpdateReply(r: Result<OrderDetail, OrderError>): Response
  {
    if r.Ok? then Response(StatusOK, DetailJson(r.value)) else UpdateFailure(r.error)
  }

  function DeleteFailure(e: OrderError): (resp: Response)
    ensures resp.status == StatusInternalServerError <==>
      !(e == DetailNotFound || e == OrderNotFound || e.OrderCompleted?)
    ensures resp.status != StatusInternalServerError ==> resp.status == ClassStatus(e)
    ensures resp.status == StatusBadRequest ==> resp == BadRequest(Message(e))
    ensures e == DetailNotFound ==> resp == NotFoundReply("order detail not found")
    ensures e == OrderNotFound ==> resp == NotFoundReply("customer order not found")
    ensures resp.status == StatusInternalServerError ==> resp == InternalError
  {
    match e
    case DetailNotFound => NotFoundReply("order detail not found")
    case OrderNotFound => NotFoundReply("customer order not found")
    case OrderCompleted(_) => BadRequest(Message(e))
    case _ => InternalError
  }

  function DeleteReply(r: Result<(), OrderError>): Response
  {
    if r.Ok? then Response(StatusNoContent, NoBody) else DeleteFailure(r.error)
  }

  /** A create request that passes the field checks gets a 500 exactly when it names an order
      that does not exist; every other failure gets the status of its error class. */
  lemma CreateInternalErrorOnlyForMissingOrder(l: Ledger, tables: map<int, Table>, menu: map<int, MenuItem>,
                                               req: CreateOrderDetailRequest, now: Time)
    requires OrdersKeyed(l.orders, l.nextOrderId)
    requires ValidateCreate(req).None?
    ensures var step := CreateDetailStep(l, tables, menu, RequestDetail(req), req.tableId, now);
      var resp := CreateReply(step.result);
      && (resp.status == StatusInternalServerError <==>
            req.tableId in tables && req.orderId != 0 && req.orderId !in l.orders)
      && (step.result.Err? && resp.status != StatusInternalServerError ==> resp.status == ClassStatus(step.result.error))
      && (step.result.Ok? <==> resp.status == StatusCreated)
  {
  }

  /** An update that passes the field checks gets a 500 exactly when the id in the URL is not
      positive. */
  lemma UpdateInternalErrorOnlyForBadId(l: Ledger, menu: map<int, MenuItem>, d: OrderDetail)
    requires ValidateUpdate(d).None?
    ensures var resp := UpdateReply(UpdateDetailStep(l, menu, d).result);
      resp.status == StatusInternalServerError <==> d.id <= 0
  {
  }

  /** A delete gets a 500 exactly when the id in the URL is not positive, and 204 exactly when the
      line item is removed. */
  lemma DeleteInternalErrorOnlyForBadId(l: Ledger, id: int)
    ensures var step := DeleteDetailStep(l, id);
      && (DeleteReply(step.result).status == StatusInternalServerError <==> id <= 0)
      && (DeleteReply(step.result).status == StatusNoContent <==> step.ledger != l)
  {
    var step := DeleteDetailStep(l, id);
    if step.result.Ok? {
      assert id in l.details && id !in step.ledger.details;
    }
  }

  class OrderDetailHandler {
    const service: OrderDetailService

    constructor (service: OrderDetailService)
      ensures this.service == service
    {
      this.service := service;
    }

    /** POST of a line item. `body` is `None` when the request body is not valid JSON. */
    method CreateOrderDetailHandler(body: Option<CreateOrderDetailRequest>, now: Time) returns (resp: Response)
      requires service.Valid()
      modifies service.customerOrderRepo, service.orderDetailRepo
      ensures service.Valid()
      ensures body.None? ==> resp == InvalidBody && service.Snapshot() == old(service.Snapshot())
      ensures body.Some? && ValidateCreate(body.value).Some? ==>
        resp == ValidateCreate(body.value).value && service.Snapshot() == old(service.Snapshot())
      ensures body.Some? && ValidateCreate(body.value).None? ==>
        var step := CreateDetailStep(old(service.Snapshot()), service.tableRepo.rows, service.menuItemRepo.rows,
                                     RequestDetail(body.value), body.value.tableId, now);
        resp == CreateReply(step.result) && service.Snapshot() == step.ledger
    {
      if body.None? {
        return InvalidBody;
      }
      var req := body.value;
      var invalid := ValidateCreate(req);
      if invalid.Some? {
        return invalid.value;
      }
      var r := service.CreateOrderDetail(RequestDetail(req), req.tableId, now);
      resp := CreateReply(r);
    }

    /** PUT of a line item. `urlId` is `None` when the id in the path is not a number; the id in
        the path replaces the one in the body. */
    method UpdateOrderDetailHandler(urlId: Option<int>, body: Option<OrderDetail>) returns (resp: Response)
      requires service.Valid()
      modifies service.orderDetailRepo
      ensures service.Valid()
      ensures urlId.None? ==> resp == InvalidDetailIdReply && service.Snapshot() == old(service.Snapshot())
      ensures urlId.Some? && body.None? ==> resp == InvalidBody && service.Snapshot() == old(service.Snapshot())
      ensures urlId.Some? && body.Some? ==>
        var d := body.value.(id := urlId.value);
        if ValidateUpdate(d).Some? then
          resp == ValidateUpdate(d).value && service.Snapshot() == old(service.Snapshot())
        else
          var step := UpdateDetailStep(old(service.Snapshot()), service.menuItemRepo.rows, d);
          resp == UpdateReply(step.result) && service.Snapshot() == step.ledger
    {
      if urlId.None? {
        return InvalidDetailIdReply;
      }
      if body.None? {
        return InvalidBody;
      }
      var d := body.value.(id := urlId.value);
      var invalid := ValidateUpdate(d);
      if invalid.Some? {
        return invalid.value;
      }
      var r := service.UpdateOrderDetail(d);
      resp := UpdateReply(r);
    }

    /** DELETE of a line item. */
    method DeleteOrderDetailHandler(urlId: Option<int>) returns (resp: Response)
      requires service.Valid()
      modifies service.orderDetailRepo
      ensures service.Valid()
      ensures urlId.None? ==> resp == InvalidDetailIdReply && service.Snapshot() == old(service.Snapshot())
      ensures urlId.Some? ==>
        var step := DeleteDetailStep(old(service.Snapshot()), urlId.value);
        resp == DeleteReply(step.result) && service.Snapshot() == step.ledger
    {
      if urlId.None? {
        return InvalidDetailIdReply;
      }
      var r := service.DeleteOrderDetail(urlId.value);
      resp := DeleteReply(r);
    }
  }
}
