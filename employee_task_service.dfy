/** Employee tasks: tasks go only to staff with the role `empleado`, start pending, and carry a
    completion instant exactly when a status change makes them completed. */
module EmployeeTasks {
  import opened Models
  import opened Stores

  datatype TaskError =
    | EmployeeMissing  // "employee does not exist"
    | NotAnEmployee    // "tasks can only be assigned to employees with role 'empleado'"
    | TaskNotFound     // "… task not found"

  /** A task has a completion instant exactly when it is completed. */
  predicate CompletionConsistent(t: EmployeeTask)
  {
    t.completedAt.Some? <==> t.status == TaskCompleted
  }

  /** The completion instant a status change writes. */
  function CompletionFor(status: TaskStatus, now: Time): (c: Option<Time>)
    ensures c.Some? <==> status == TaskCompleted
    ensures c.Some? ==> c.value == now
  {
    if status == TaskCompleted then Some(now) else None
  }

  /** The assignee checks of create and update, in order: the employee exists, then has the role
      `empleado`. */
  function AssigneeProblem(employees: map<int, Employee>, employeeId: int): (r: Option<TaskError>)
    ensures r.None? <==> employeeId in employees && employees[employeeId].role == Role.Employee
    ensures employeeId !in employees ==> r == Some(EmployeeMissing)
    ensures employeeId in employees && employees[employeeId].role != Role.Employee ==> r == Some(NotAnEmployee)
  {
    if employeeId !in employees then Some(EmployeeMissing)
    else if employees[employeeId].role != Role.Employee then Some(NotAnEmployee)
    else None
  }

  class EmployeeTaskService {
    const employeeTaskRepo: EmployeeTaskRepository
    const employeeRepo: EmployeeRepository

    ghost predicate Valid()
      reads this, employeeTaskRepo, employeeRepo
    {
      employeeTaskRepo.Valid() && employeeRepo.Valid()
    }

    constructor (employeeTaskRepo: EmployeeTaskRepository, employeeRepo: EmployeeRepository)
      requires employeeTaskRepo.Valid() && employeeRepo.Valid()
      ensures Valid() && this.employeeTaskRepo == employeeTaskRepo && this.employeeRepo == employeeRepo
    {
      this.employeeTaskRepo := employeeTaskRepo;
      this.employeeRepo := employeeRepo;
    }

    /** Stores a new task for an `empleado`; whatever status and instants it came with, it is
        stored pending, assigned `now` and not completed. */
    method CreateTask(task: EmployeeTask, now: Time) returns (r: Result<EmployeeTask, TaskError>)
      requires Valid()
      modifies employeeTaskRepo
      ensures Valid()
      ensures AssigneeProblem(employeeRepo.rows, task.employeeId).Some? ==>
        r == Err(AssigneeProblem(employeeRepo.rows, task.employeeId).value) &&
        employeeTaskRepo.rows == old(employeeTaskRepo.rows) && employeeTaskRepo.nextId == old(employeeTaskRepo.nextId)
      ensures r.Ok? ==>
        && AssigneeProblem(employeeRepo.rows, task.employeeId).None?
        && r.value == task.(id := old(employeeTaskRepo.nextId), status := TaskPending, assignedAt := now,
                            completedAt := None, createdAt := now)
        && CompletionConsistent(r.value)
        && employeeTaskRepo.rows == old(employeeTaskRepo.rows)[r.value.id := r.value]
      ensures AssigneeProblem(employeeRepo.rows, task.employeeId).None? ==> r.Ok?
    {
      var employee := employeeRepo.FindByID(task.employeeId);
      if employee.Err? {
        return Err(EmployeeMissing);
      }
      if employee.value.role != Role.Employee {
        return Err(NotAnEmployee);
      }
      var created := employeeTaskRepo.Create(task.(status := TaskPending, assignedAt := now, completedAt := None), now);
      r := Ok(created);
    }

    /** Overwrites a task after the same assignee checks. Status and completion instant are
        stored as given, so this operation alone can leave a completed task without a completion
        instant. */
    method UpdateTask(task: EmployeeTask) returns (r: Result<EmployeeTask, TaskError>)
      requires Valid()
      modifies employeeTaskRepo
      ensures Valid()
      ensures AssigneeProblem(employeeRepo.rows, task.employeeId).Some? ==>
        r == Err(AssigneeProblem(employeeRepo.rows, task.employeeId).value)
      ensures AssigneeProblem(employeeRepo.rows, task.employeeId).None? && task.id !in old(employeeTaskRepo.rows) ==>
        r == Err(TaskNotFound)
      ensures r.Err? ==> employeeTaskRepo.rows == old(employeeTaskRepo.rows)
      ensures r.Ok? ==>
        && AssigneeProblem(employeeRepo.rows, task.employeeId).None? && task.id in old(employeeTaskRepo.rows)
        && r.value == task.(createdAt := old(employeeTaskRepo.rows)[task.id].createdAt)
        && employeeTaskRepo.rows == old(employeeTaskRepo.rows)[task.id := r.value]
      ensures AssigneeProblem(employeeRepo.rows, task.employeeId).None? && task.id in old(employeeTaskRepo.rows) ==> r.Ok?
    {
      var employee := employeeRepo.FindByID(task.employeeId);
      if employee.Err? {
        return Err(EmployeeMissing);
      }
      if employee.value.role != Role.Employee {
        return Err(NotAnEmployee);
      }
      var updated := employeeTaskRepo.Update(task);
      r := if updated.Ok? then Ok(updated.value) else Err(TaskNotFound);
    }

    /** Sets the status of an existing task and writes its completion instant: `now` when the
        new status is completed, none otherwise. */
    method UpdateTaskStatus(id: int, status: TaskStatus, now: Time) returns (r: Option<TaskError>)
      requires Valid()
      modifies employeeTaskRepo
      ensures Valid()
      ensures id !in old(employeeTaskRepo.rows) ==> r == Some(TaskNotFound) && employeeTaskRepo.rows == old(employeeTaskRepo.rows)
      ensures id in old(employeeTaskRepo.rows) ==>
        && r == None
        && employeeTaskRepo.rows == old(employeeTaskRepo.rows)[id := old(employeeTaskRepo.rows)[id].(
             status := status, completedAt := CompletionFor(status, now))]
        && CompletionConsistent(employeeTaskRepo.rows[id])
    {
      var task := employeeTaskRepo.FindByID(id);
      if task.Err? {
        return Some(TaskNotFound);
      }
      var completedAt := CompletionFor(status, now);
      var written := employeeTaskRepo.UpdateStatus(id, status, completedAt);
      r := if written.None? then None else Some(TaskNotFound);
    }

    method DeleteTask(id: int) returns (r: Option<TaskError>)
      requires Valid()
      modifies employeeTaskRepo
      ensures Valid()
      ensures id in old(employeeTaskRepo.rows) ==> r == None && employeeTaskRepo.rows == old(employeeTaskRepo.rows) - {id}
      ensures id !in old(employeeTaskRepo.rows) ==> r == Some(TaskNotFound) && employeeTaskRepo.rows == old(employeeTaskRepo.rows)
    {
      var deleted := employeeTaskRepo.Delete(id);
      r := if deleted.None? then None else Some(TaskNotFound);
    }
  }
}
