/** The records of the restaurant back end: tables, menu items, customer orders and their
    line items, employees and their tasks. */
module Models {

  /** An instant read from a clock. Operations that read a clock take the instant as a parameter. */
  type Time = int

  /** A money amount, as a whole number of cents. */
  type Cents = int

  datatype Option<+T> = None | Some(value: T)

  datatype Result<+T, +E> = Ok(value: T) | Err(error: E)

  /** Why a repository lookup found nothing. */
  datatype StoreError =
    | NotFound            // "… not found": no row has that key
    | NoPendingForTable   // "no pending customer order found for this table"
    | NoCompletedForTable // "no completed customer order found for this table"

  datatype Table = Table(id: int, tableName: string, createdAt: Time)

  datatype MenuItem = MenuItem(
    id: int,
    itemName: string,
    category: string,
    price: Cents,
    stock: int,
    description: string,
    createdAt: Time)

  /** The zero value of a menu item: what a line item carries when no menu item was attached to it. */
  const NoMenuItem := MenuItem(0, "", "", 0, 0, "", 0)

  /** The two values the `status` column of an order ever takes ("pending", "completed"). */
  datatype OrderStatus = Pending | Completed

  datatype CustomerOrder = CustomerOrder(
    id: int,
    tableId: int,
    totalAmount: Cents,
    status: OrderStatus,
    createdAt: Time)

  /** A line item: a quantity of one menu item on one order. */
  datatype OrderDetail = OrderDetail(
    id: int,
    orderId: int,
    menuItemId: int,
    menuItem: MenuItem,
    quantity: int,
    createdAt: Time)

  /** An order together with its line items, as the order read returns it. */
  datatype OrderWithDetails = OrderWithDetails(order: CustomerOrder, orderDetails: seq<OrderDetail>)

  datatype Role = Owner | Admin | Employee

  /** The role names as they appear in the employees table and in tokens. */
  function RoleName(r: Role): string
  {
    match r
    case Owner => "dueño"
    case Admin => "administrador"
    case Employee => "empleado"
  }

  datatype Employee = Employee(
    id: int,
    employeeName: string,
    email: string,
    phoneNumber: string,
    role: Role,
    username: string,
    createdAt: Time)

  /** "pendiente", "en_progreso", "completada". */
  datatype TaskStatus = TaskPending | TaskInProgress | TaskCompleted

  datatype EmployeeTask = EmployeeTask(
    id: int,
    employeeId: int,
    taskDescription: string,
    status: TaskStatus,
    assignedAt: Time,
    completedAt: Option<Time>,
    createdAt: Time)
}
