/** The tables, menu-items, employees and employee-tasks repositories, as in-memory tables keyed
    by id. Each allocates ids from a counter, as the database's serial columns do, and stamps new
    rows with the instant `now` where the database writes CURRENT_TIMESTAMP. */
module Stores {
  import opened Models

  /** Every table row is stored under its own id, and every id is below the next fresh one. */
  ghost predicate TablesKeyed(rows: map<int, Table>, nextId: int)
  {
    1 <= nextId && forall id :: id in rows ==> 1 <= id < nextId && rows[id].id == id
  }

  /** Some table already has this name. */
  predicate TableNameInUse(rows: map<int, Table>, name: string)
  {
    exists id :: id in rows && rows[id].tableName == name
  }

  class TableRepository {
    var rows: map<int, Table>
    var nextId: int

    ghost predicate Valid()
      reads this
    {
      TablesKeyed(rows, nextId)
    }

    constructor ()
      ensures Valid() && rows == map[]
    {
      rows, nextId := map[], 1;
    }

    /** The row with that id, or the not-found error. */
    function FindByID(id: int): (r: Result<Table, StoreError>)
      reads this
      requires Valid()
      ensures r.Ok? <==> id in rows
      ensures r.Ok? ==> r.value == rows[id] && r.value.id == id
      ensures r.Err? ==> r.error == NotFound
    {
      if id in rows then Ok(rows[id]) else Err(NotFound)
    }

    method FindByName(name: string) returns (r: Result<Table, StoreError>)
      requires Valid()
      ensures r.Ok? ==> r.value.id in rows && rows[r.value.id] == r.value && r.value.tableName == name
      ensures r.Err? <==> !TableNameInUse(rows, name)
      ensures r.Err? ==> r.error == NotFound
    {
      if id :| id in rows && rows[id].tableName == name {
        r := Ok(rows[id]);
      } else {
        r := Err(NotFound);
      }
    }

    /** The number of stored tables. */
    function Count(): (c: int)
      reads this
      ensures c == |rows.Keys| && (c == 0 <==> rows == map[])
    {
      |rows|
    }

    method Create(table: Table, now: Time) returns (created: Table)
      requires Valid()
      modifies this
      ensures Valid() && nextId == old(nextId) + 1
      ensures created == Table(old(nextId), table.tableName, now) && created.id !in old(rows)
      ensures rows == old(rows)[created.id := created]
    {
      created := Table(nextId, table.tableName, now);
      rows, nextId := rows[created.id := created], nextId + 1;
    }

    /** Renames the table with that id; its creation instant is kept. */
    method Update(table: Table) returns (r: Result<Table, StoreError>)
      requires Valid()
      modifies this
      ensures Valid() && nextId == old(nextId)
      ensures table.id in old(rows) ==>
        r == Ok(old(rows)[table.id].(tableName := table.tableName)) && rows == old(rows)[table.id := r.value]
      ensures table.id !in old(rows) ==> r == Err(NotFound) && rows == old(rows)
    {
      if table.id in rows {
        var updated := rows[table.id].(tableName := table.tableName);
        rows := rows[table.id := updated];
        r := Ok(updated);
      } else {
        r := Err(NotFound);
      }
    }
  }

  ghost predicate MenuItemsKeyed(rows: map<int, MenuItem>, nextId: int)
  {
    1 <= nextId && forall id :: id in rows ==> 1 <= id < nextId && rows[id].id == id
  }

  /** Some menu item already has this name. */
  predicate ItemNameInUse(rows: map<int, MenuItem>, name: string)
  {
    exists id :: id in rows && rows[id].itemName == name
  }

  class MenuItemRepository {
    var rows: map<int, MenuItem>
    var nextId: int

    ghost predicate Valid()
      reads this
    {
      MenuItemsKeyed(rows, nextId)
    }

    constructor ()
      ensures Valid() && rows == map[]
    {
      rows, nextId := map[], 1;
    }

    /** The row with that id, or the not-found error. */
    function FindByID(id: int): (r: Result<MenuItem, StoreError>)
      reads this
      requires Valid()
      ensures r.Ok? <==> id in rows
      ensures r.Ok? ==> r.value == rows[id] && r.value.id == id
      ensures r.Err? ==> r.error == NotFound
    {
      if id in rows then Ok(rows[id]) else Err(NotFound)
    }

    method FindByName(name: string) returns (r: Result<MenuItem, StoreError>)
      requires Valid()
      ensures r.Ok? ==> r.value.id in rows && rows[r.value.id] == r.value && r.value.itemName == name
      ensures r.Err? <==> !ItemNameInUse(rows, name)
      ensures r.Err? ==> r.error == NotFound
    {
      if id :| id in rows && rows[id].itemName == name {
        r := Ok(rows[id]);
      } else {
        r := Err(NotFound);
      }
    }

    method Create(item: MenuItem, now: Time) returns (created: MenuItem)
      requires Valid()
      modifies this
      ensures Valid() && nextId == old(nextId) + 1
      ensures created == item.(id := old(nextId), createdAt := now) && created.id !in old(rows)
      ensures rows == old(rows)[created.id := created]
    {
      created := item.(id := nextId, createdAt := now);
      rows, nextId := rows[created.id := created], nextId + 1;
    }

    /** Overwrites name, category, price, stock and description; the creation instant is kept. */
    method Update(item: MenuItem) returns (r: Result<MenuItem, StoreError>)
      requires Valid()
      modifies this
      ensures Valid() && nextId == old(nextId)
      ensures item.id in old(rows) ==>
        r == Ok(item.(createdAt := old(rows)[item.id].createdAt)) && rows == old(rows)[item.id := r.value]
      ensures item.id !in old(rows) ==> r == Err(NotFound) && rows == old(rows)
    {
      if item.id in rows {
        var updated := item.(createdAt := rows[item.id].createdAt);
        rows := rows[item.id := updated];
        r := Ok(updated);
      } else {
        r := Err(NotFound);
      }
    }

    method Delete(id: int) returns (r: Option<StoreError>)
      requires Valid()
      modifies this
      ensures Valid() && nextId == old(nextId)
      ensures id in old(rows) ==> r == None && rows == old(rows) - {id}
      ensures id !in old(rows) ==> r == Some(NotFound) && rows == old(rows)
    {
      if id in rows {
        rows := rows - {id};
        r := None;
      } else {
        r := Some(NotFound);
      }
    }
  }

  /** The employees repository, read only here: employees are created and changed elsewhere. */
  class EmployeeRepository {
    var rows: map<int, Employee>

    ghost predicate Valid()
      reads this
    {
      forall id :: id in rows ==> rows[id].id == id
    }

    constructor (employees: map<int, Employee>)
      requires forall id :: id in employees ==> employees[id].id == id
      ensures Valid() && rows == employees
    {
      rows := employees;
    }

    /** The row with that id, or the not-found error. */
    function FindByID(id: int): (r: Result<Employee, StoreError>)
      reads this
      requires Valid()
      ensures r.Ok? <==> id in rows
      ensures r.Ok? ==> r.value == rows[id] && r.value.id == id
      ensures r.Err? ==> r.error == NotFound
    {
      if id in rows then Ok(rows[id]) else Err(NotFound)
    }
  }

  ghost predicate TasksKeyed(rows: map<int, EmployeeTask>, nextId: int)
  {
    1 <= nextId && forall id :: id in rows ==> 1 <= id < nextId && rows[id].id == id
  }

  class EmployeeTaskRepository {
    var rows: map<int, EmployeeTask>
    var nextId: int

    ghost predicate Valid()
      reads this
    {
      TasksKeyed(rows, nextId)
    }

    constructor ()
      ensures Valid() && rows == map[]
    {
      rows, nextId := map[], 1;
    }

    /** The row with that id, or the not-found error. */
    function FindByID(id: int): (r: Result<EmployeeTask, StoreError>)
      reads this
      requires Valid()
      ensures r.Ok? <==> id in rows
      ensures r.Ok? ==> r.value == rows[id] && r.value.id == id
      ensures r.Err? ==> r.error == NotFound
    {
      if id in rows then Ok(rows[id]) else Err(NotFound)
    }

    method Create(task: EmployeeTask, now: Time) returns (created: EmployeeTask)
      requires Valid()
      modifies this
      ensures Valid() && nextId == old(nextId) + 1
      ensures created == task.(id := old(nextId), createdAt := now) && created.id !in old(rows)
      ensures rows == old(rows)[created.id := created]
    {
      created := task.(id := nextId, createdAt := now);
      rows, nextId := rows[created.id := created], nextId + 1;
    }

    /** Overwrites employee, description, status, assignment and completion instants; the creation
        instant is kept. */
    method Update(task: EmployeeTask) returns (r: Result<EmployeeTask, StoreError>)
      requires Valid()
      modifies this
      ensures Valid() && nextId == old(nextId)
      ensures task.id in old(rows) ==>
        r == Ok(task.(createdAt := old(rows)[task.id].createdAt)) && rows == old(rows)[task.id := r.value]
      ensures task.id !in old(rows) ==> r == Err(NotFound) && rows == old(rows)
    {
      if task.id in rows {
        var updated := task.(createdAt := rows[task.id].createdAt);
        rows := rows[task.id := updated];
        r := Ok(updated);
      } else {
        r := Err(NotFound);
      }
    }

    method UpdateStatus(id: int, status: TaskStatus, completedAt: Option<Time>) returns (r: Option<StoreError>)
      requires Valid()
      modifies this
      ensures Valid() && nextId == old(nextId)
      ensures id in old(rows) ==>
        r == None && rows == old(rows)[id := old(rows)[id].(status := status, completedAt := completedAt)]
      ensures id !in old(rows) ==> r == Some(NotFound) && rows == old(rows)
    {
      if id in rows {
        rows := rows[id := rows[id].(status := status, completedAt := completedAt)];
        r := None;
      } else {
        r := Some(NotFound);
      }
    }

    method Delete(id: int) returns (r: Option<StoreError>)
      requires Valid()
      modifies this
      ensures Valid() && nextId == old(nextId)
      ensures id in old(rows) ==> r == None && rows == old(rows) - {id}
      ensures id !in old(rows) ==> r == Some(NotFound) && rows == old(rows)
    {
      if id in rows {
        rows := rows - {id};
        r := None;
      } else {
        r := Some(NotFound);
      }
    }
  }
}
