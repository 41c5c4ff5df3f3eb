/** The order-details table: insert, lookup by id, the join of an order's line items with their
    menu items, update and delete. */
module OrderDetailStore {
  import opened Models

  /** Every line item is stored under its own id, and every id is below the next fresh one. A
      stored row has no menu item attached: only the answers of a lookup carry one. */
  ghost predicate DetailsKeyed(rows: map<int, OrderDetail>, nextId: int)
  {
    1 <= nextId && forall id :: id in rows ==> 1 <= id < nextId && rows[id].id == id && rows[id].menuItem == NoMenuItem
  }

  /** The line item stored under `id` is on the order and its menu item exists (the inner join). */
  predicate InJoin(rows: map<int, OrderDetail>, menu: map<int, MenuItem>, orderId: int, id: int)
  {
    id in rows && rows[id].orderId == orderId && rows[id].menuItemId in menu
  }

  /** A joined row: the line item with its menu item attached. The join writes the menu item's
      id into the attached item only, so the row's own `menuItemId` is left at zero. */
  function JoinRow(d: OrderDetail, item: MenuItem): OrderDetail
  {
    OrderDetail(d.id, d.orderId, 0, item, d.quantity, d.createdAt)
  }

  /** `result` lists each joined line item of the order exactly once, in some order. */
  ghost predicate IsJoinOf(rows: map<int, OrderDetail>, menu: map<int, MenuItem>, orderId: int, result: seq<OrderDetail>)
  {
    && (forall i :: 0 <= i < |result| ==>
          InJoin(rows, menu, orderId, result[i].id) &&
          result[i] == JoinRow(rows[result[i].id], menu[rows[result[i].id].menuItemId]))
    && (forall id :: InJoin(rows, menu, orderId, id) ==> exists i :: 0 <= i < |result| && result[i].id == id)
    && (forall i, j :: 0 <= i < j < |result| ==> result[i].id != result[j].id)
  }

  class OrderDetailRepository {
    var rows: map<int, OrderDetail>
    var nextId: int

    ghost predicate Valid()
      reads this
    {
      DetailsKeyed(rows, nextId)
    }

    constructor ()
      ensures Valid() && rows == map[]
    {
      rows, nextId := map[], 1;
    }

    /** Inserts order id, menu item id and quantity under a fresh id, stamped `now`. */
    method Create(detail: OrderDetail, now: Time) returns (created: OrderDetail)
      requires Valid()
      modifies this
      ensures Valid() && nextId == old(nextId) + 1
      ensures created == OrderDetail(old(nextId), detail.orderId, detail.menuItemId, NoMenuItem, detail.quantity, now)
      ensures created.id !in old(rows) && rows == old(rows)[created.id := created]
    {
      created := OrderDetail(nextId, detail.orderId, detail.menuItemId, NoMenuItem, detail.quantity, now);
      rows, nextId := rows[created.id := created], nextId + 1;
    }

    function FindByID(id: int): (r: Result<OrderDetail, StoreError>)
      requires Valid()
      reads this
      ensures r.Ok? <==> id in rows
      ensures r.Ok? ==> r.value == rows[id] && r.value.id == id
      ensures r.Err? ==> r.error == NotFound
    {
      if id in rows then Ok(rows[id]) else Err(NotFound)
    }

    /** The line items of the order joined with the menu items table; a line item whose menu item
        no longer exists is dropped by the inner join. */
    method FindByOrderID(orderId: int, menu: map<int, MenuItem>) returns (result: seq<OrderDetail>)
      requires Valid()
      ensures IsJoinOf(rows, menu, orderId, result)
    {
      var todo := rows.Keys;
      ghost var done: set<int> := {};
      result := [];
      while exists id :: id in todo
        invariant todo + done == rows.Keys && todo !! done
        invariant forall i :: 0 <= i < |result| ==>
          result[i].id in done && InJoin(rows, menu, orderId, result[i].id) &&
          result[i] == JoinRow(rows[result[i].id], menu[rows[result[i].id].menuItemId])
        invariant forall id :: id in done && InJoin(rows, menu, orderId, id) ==>
          exists i :: 0 <= i < |result| && result[i].id == id
        invariant forall i, j :: 0 <= i < j < |result| ==> result[i].id != result[j].id
        decreases todo
      {
        var k :| k in todo;
        if InJoin(rows, menu, orderId, k) {
          ghost var before := result;
          result := result + [JoinRow(rows[k], menu[rows[k].menuItemId])];
          assert result[|before|].id == k;
          assert forall i :: 0 <= i < |before| ==> result[i] == before[i];
        }
        todo, done := todo - {k}, done + {k};
      }
    }

    /** Overwrites order id, menu item id and quantity of the row with that id; the creation
        instant is kept. */
    method Update(detail: OrderDetail) returns (r: Result<OrderDetail, StoreError>)
      requires Valid()
      modifies this
      ensures Valid() && nextId == old(nextId)
      ensures detail.id in old(rows) ==>
        r == Ok(OrderDetail(detail.id, detail.orderId, detail.menuItemId, NoMenuItem, detail.quantity,
                            old(rows)[detail.id].createdAt)) &&
        rows == old(rows)[detail.id := r.value]
      ensures detail.id !in old(rows) ==> r == Err(NotFound) && rows == old(rows)
    {
      if detail.id in rows {
        var updated := OrderDetail(detail.id, detail.orderId, detail.menuItemId, NoMenuItem, detail.quantity,
                                   rows[detail.id].createdAt);
        rows := rows[detail.id := updated];
        r := Ok(updated);
      } else {
        r := Err(NotFound);
      }
    }

    /** Removes the row with that id; no row affected is an error. */
    method Delete(id: int) returns (r: Option<StoreError>)
      requires Valid()
      modifies this
      ensures Valid() && nextId == old(nextId)
      ensures id in old(rows) ==> r == None && rows == old(rows) - {id}
      ensures id !in old(rows) ==> r == Some(NotFound) && rows == old(rows)
    {
      if id in rows {
        rows := rows - {id};
        r := None;
      } else {
        r := Some(NotFound);
      }
    }
  }
}
