/** The table registry: named tables, at most `MaxTables` of them, with distinct non-empty names. */
module TableRegistry {
  import opened Models
  import opened Stores

  const MaxTables := 4

  datatype TableError =
    | EmptyTableName     // "table name cannot be empty"
    | TableNameExists    // "table name already exists"
    | MaxTablesReached   // "maximum number of tables reached"
    | UnknownTable       // "failed to find table" / "failed to update table"

  /** No more than `MaxTables` tables, every name non-empty, no name used twice. */
  ghost predicate RegistryOk(rows: map<int, Table>)
  {
    && |rows| <= MaxTables
    && (forall id :: id in rows ==> rows[id].tableName != "")
    && (forall i, j :: i in rows && j in rows && rows[i].tableName == rows[j].tableName ==> i == j)
  }

  class TableService {
    const tableRepo: TableRepository

    ghost predicate Valid()
      reads this, tableRepo
    {
      tableRepo.Valid() && RegistryOk(tableRepo.rows)
    }

    constructor (tableRepo: TableRepository)
      requires tableRepo.Valid() && RegistryOk(tableRepo.rows)
      ensures Valid() && this.tableRepo == tableRepo
    {
      this.tableRepo := tableRepo;
    }

    /** Checks, in order: the name is not empty, no table has it, fewer than `MaxTables` tables
        exist; then stores the table. */
    method CreateTable(table: Table, now: Time) returns (r: Result<Table, TableError>)
      requires Valid()
      modifies tableRepo
      ensures Valid()
      ensures table.tableName == "" ==> r == Err(EmptyTableName)
      ensures table.tableName != "" && TableNameInUse(old(tableRepo.rows), table.tableName) ==> r == Err(TableNameExists)
      ensures table.tableName != "" && !TableNameInUse(old(tableRepo.rows), table.tableName) && |old(tableRepo.rows)| >= MaxTables
        ==> r == Err(MaxTablesReached)
      ensures r.Err? ==> tableRepo.rows == old(tableRepo.rows) && tableRepo.nextId == old(tableRepo.nextId)
      ensures r.Ok? ==>
        && table.tableName != "" && !TableNameInUse(old(tableRepo.rows), table.tableName)
        && |old(tableRepo.rows)| < MaxTables
        && r.value == Table(old(tableRepo.nextId), table.tableName, now)
        && tableRepo.rows == old(tableRepo.rows)[r.value.id := r.value]
    ensures table.tableName != "" && !TableNameInUse(old(tableRepo.rows), table.tableName)
      && |old(tableRepo.rows)| < MaxTables
      ==> r.Ok?
    {
      if table.tableName == "" {
        return Err(EmptyTableName);
      }
      var existing := tableRepo.FindByName(table.tableName);
      if existing.Ok? {
        return Err(TableNameExists);
      }
      if tableRepo.Count() >= MaxTables {
        return Err(MaxTablesReached);
      }
      var created := tableRepo.Create(table, now);
      r := Ok(created);
    }

    /** Checks, in order: the name is not empty, the table exists, and, only when the name
        changes, no table has the new name; then renames the table. */
    method UpdateTable(table: Table) returns (r: Result<Table, TableError>)
      requires Valid()
      modifies tableRepo
      ensures Valid()
      ensures table.tableName == "" ==> r == Err(EmptyTableName)
      ensures table.tableName != "" && table.id !in old(tableRepo.rows) ==> r == Err(UnknownTable)
      ensures r.Err? ==> tableRepo.rows == old(tableRepo.rows)
      ensures r == Err(TableNameExists) ==>
        table.id in old(tableRepo.rows) && old(tableRepo.rows)[table.id].tableName != table.tableName
      ensures r.Ok? ==>
        && table.tableName != "" && table.id in old(tableRepo.rows)
        && r.value == old(tableRepo.rows)[table.id].(tableName := table.tableName)
        && tableRepo.rows == old(tableRepo.rows)[table.id := r.value]
      ensures table.tableName != "" && table.id in old(tableRepo.rows) && old(tableRepo.rows)[table.id].tableName == table.tableName
        ==> r.Ok?
      // A rename is refused exactly when another table has the new name.
      ensures table.tableName != "" && table.id in old(tableRepo.rows) && old(tableRepo.rows)[table.id].tableName != table.tableName
        ==> && (r == Err(TableNameExists) <==> TableNameInUse(old(tableRepo.rows), table.tableName))
            && (!TableNameInUse(old(tableRepo.rows), table.tableName) ==> r.Ok?)
    {
      if table.tableName == "" {
        return Err(EmptyTableName);
      }
      var current := tableRepo.FindByID(table.id);
      if current.Err? {
        return Err(UnknownTable);
      }
      if table.tableName != current.value.tableName {
        var existing := tableRepo.FindByName(table.tableName);
        if existing.Ok? {
          return Err(TableNameExists);
        }
      }
      var updated := tableRepo.Update(table);
      r := if updated.Ok? then Ok(updated.value) else Err(UnknownTable);
    }
  }
}
