/** The customer-orders table: insert, lookups by id and by table, and the status update. */
module CustomerOrderStore {
  import opened Models

  /** Every order is stored under its own id, and every id is below the next fresh one. */
  ghost predicate OrdersKeyed(rows: map<int, CustomerOrder>, nextId: int)
  {
    1 <= nextId && forall id :: id in rows ==> 1 <= id < nextId && rows[id].id == id
  }

  /** The order stored under `id` belongs to the table and is pending. */
  predicate IsPendingFor(rows: map<int, CustomerOrder>, id: int, tableId: int)
    requires id in rows
  {
    rows[id].tableId == tableId && rows[id].status == Pending
  }

  /** The order stored under `id` belongs to the table and is completed. */
  predicate IsCompletedFor(rows: map<int, CustomerOrder>, id: int, tableId: int)
    requires id in rows
  {
    rows[id].tableId == tableId && rows[id].status == Completed
  }

  /** Some order of this table is still pending. */
  predicate HasPendingOrder(rows: map<int, CustomerOrder>, tableId: int)
  {
    exists id :: id in rows && IsPendingFor(rows, id, tableId)
  }

  class CustomerOrderRepository {
    var rows: map<int, CustomerOrder>
    var nextId: int

    ghost predicate Valid()
      reads this
    {
      OrdersKeyed(rows, nextId)
    }

    constructor ()
      ensures Valid() && rows == map[]
    {
      rows, nextId := map[], 1;
    }

    /** Inserts the order under a fresh id and returns the stored row. */
    method Create(order: CustomerOrder) returns (created: CustomerOrder)
      requires Valid()
      modifies this
      ensures Valid() && nextId == old(nextId) + 1
      ensures created == order.(id := old(nextId)) && created.id !in old(rows)
      ensures rows == old(rows)[created.id := created]
    {
      created := order.(id := nextId);
      rows, nextId := rows[created.id := created], nextId + 1;
    }

    function FindByID(id: int): (r: Result<CustomerOrder, StoreError>)
      requires Valid()
      reads this
      ensures r.Ok? <==> id in rows
      ensures r.Ok? ==> r.value == rows[id] && r.value.id == id
      ensures r.Err? ==> r.error == NotFound
    {
      if id in rows then Ok(rows[id]) else Err(NotFound)
    }

    /** Some pending order of the table, if there is one. The query has no ordering, so which
        one is returned when several match is left open. */
    method FindPendingByTableID(tableId: int) returns (r: Result<CustomerOrder, StoreError>)
      requires Valid()
      ensures r.Ok? ==> r.value.id in rows && rows[r.value.id] == r.value && IsPendingFor(rows, r.value.id, tableId)
      ensures r.Err? <==> !HasPendingOrder(rows, tableId)
      ensures r.Err? ==> r.error == NoPendingForTable
    {
      if id :| id in rows && IsPendingFor(rows, id, tableId) {
        r := Ok(rows[id]);
      } else {
        r := Err(NoPendingForTable);
      }
    }

    /** The most recently created completed order of the table (ties broken arbitrarily). */
    method FindCompletedByTableID(tableId: int) returns (r: Result<CustomerOrder, StoreError>)
      requires Valid()
      ensures r.Ok? ==> r.value.id in rows && rows[r.value.id] == r.value && IsCompletedFor(rows, r.value.id, tableId)
      ensures r.Ok? ==> forall id :: id in rows && IsCompletedFor(rows, id, tableId) ==> rows[id].createdAt <= r.value.createdAt
      ensures r.Err? <==> forall id :: id in rows ==> !IsCompletedFor(rows, id, tableId)
      ensures r.Err? ==> r.error == NoCompletedForTable
    {
      var todo := rows.Keys;
      ghost var done: set<int> := {};
      var latest: Option<CustomerOrder> := None;
      while exists id :: id in todo
        invariant todo + done == rows.Keys && todo !! done
        invariant latest.Some? ==>
          latest.value.id in rows && rows[latest.value.id] == latest.value && IsCompletedFor(rows, latest.value.id, tableId)
        invariant forall id :: id in done && IsCompletedFor(rows, id, tableId) ==>
          latest.Some? && rows[id].createdAt <= latest.value.createdAt
        decreases todo
      {
        var k :| k in todo;
        if IsCompletedFor(rows, k, tableId) && (latest.None? || latest.value.createdAt < rows[k].createdAt) {
          latest := Some(rows[k]);
        }
        todo, done := todo - {k}, done + {k};
      }
      r := if latest.Some? then Ok(latest.value) else Err(NoCompletedForTable);
    }

    /** Sets the status of the order with that id; nothing else changes. */
    method UpdateStatus(id: int, status: OrderStatus) returns (r: Result<CustomerOrder, StoreError>)
      requires Valid()
      modifies this
      ensures Valid() && nextId == old(nextId)
      ensures id in old(rows) ==> r == Ok(old(rows)[id].(status := status)) && rows == old(rows)[id := r.value]
      ensures id !in old(rows) ==> r == Err(NotFound) && rows == old(rows)
    {
      if id in rows {
        var updated := rows[id].(status := status);
        rows := rows[id := updated];
        r := Ok(updated);
      } else {
        r := Err(NotFound);
      }
    }
  }
}
