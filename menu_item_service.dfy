/** The menu catalog: items with distinct non-empty names, a description, a positive price and a
    stock that is never negative. */
module MenuCatalog {
  import opened Models
  import opened Stores

  datatype MenuError =
    | EmptyItemName     // "item name cannot be empty"
    | ItemNameExists    // "item name already exists"
    | EmptyDescription  // "description cannot be empty"
    | NonPositivePrice  // "price must be greater than 0"
    | NegativeStock     // "stock cannot be negative"
    | ItemNotFound      // "… item not found"

  /** The checks after the name checks, in order: description, price, stock. */
  function FieldProblem(item: MenuItem): (r: Option<MenuError>)
    ensures r.None? <==> item.description != "" && item.price > 0 && item.stock >= 0
    ensures item.description == "" ==> r == Some(EmptyDescription)
    ensures item.description != "" && item.price <= 0 ==> r == Some(NonPositivePrice)
    ensures item.description != "" && item.price > 0 && item.stock < 0 ==> r == Some(NegativeStock)
  {
    if item.description == "" then Some(EmptyDescription)
    else if item.price <= 0 then Some(NonPositivePrice)
    else if item.stock < 0 then Some(NegativeStock)
    else None
  }

  /** What every stored item satisfies. */
  predicate WellFormedItem(item: MenuItem)
  {
    item.itemName != "" && item.description != "" && item.price > 0 && item.stock >= 0
  }

  ghost predicate CatalogOk(rows: map<int, MenuItem>)
  {
    && (forall id :: id in rows ==> WellFormedItem(rows[id]))
    && (forall i, j :: i in rows && j in rows && rows[i].itemName == rows[j].itemName ==> i == j)
  }

  class MenuItemService {
    const menuItemRepo: MenuItemRepository

    ghost predicate Valid()
      reads this, menuItemRepo
    {
      menuItemRepo.Valid() && CatalogOk(menuItemRepo.rows)
    }

    constructor (menuItemRepo: MenuItemRepository)
      requires menuItemRepo.Valid() && CatalogOk(menuItemRepo.rows)
      ensures Valid() && this.menuItemRepo == menuItemRepo
    {
      this.menuItemRepo := menuItemRepo;
    }

    /** Checks, in order: the name is not empty, no item has it, then the other fields; then
        stores the item. */
    method CreateMenuItem(item: MenuItem, now: Time) returns (r: Result<MenuItem, MenuError>)
      requires Valid()
      modifies menuItemRepo
      ensures Valid()
      ensures item.itemName == "" ==> r == Err(EmptyItemName)
      ensures item.itemName != "" && ItemNameInUse(old(menuItemRepo.rows), item.itemName) ==> r == Err(ItemNameExists)
      ensures item.itemName != "" && !ItemNameInUse(old(menuItemRepo.rows), item.itemName) && FieldProblem(item).Some?
        ==> r == Err(FieldProblem(item).value)
      ensures r.Err? ==> menuItemRepo.rows == old(menuItemRepo.rows) && menuItemRepo.nextId == old(menuItemRepo.nextId)
      ensures r.Ok? ==>
        && WellFormedItem(item) && !ItemNameInUse(old(menuItemRepo.rows), item.itemName)
        && r.value == item.(id := old(menuItemRepo.nextId), createdAt := now)
        && menuItemRepo.rows == old(menuItemRepo.rows)[r.value.id := r.value]
      ensures item.itemName != "" && !ItemNameInUse(old(menuItemRepo.rows), item.itemName) && FieldProblem(item).None?
        ==> r.Ok?
    {
      if item.itemName == "" {
        return Err(EmptyItemName);
      }
      var existing := menuItemRepo.FindByName(item.itemName);
      if existing.Ok? {
        return Err(ItemNameExists);
      }
      var problem := FieldProblem(item);
      if problem.Some? {
        return Err(problem.value);
      }
      var created := menuItemRepo.Create(item, now);
      r := Ok(created);
    }

    /** Checks, in order: the name is not empty, the item exists, and, only when the name
        changes, no item has the new name; then the other fields; then overwrites the item. */
    method UpdateMenuItem(item: MenuItem) returns (r: Result<MenuItem, MenuError>)
      requires Valid()
      modifies menuItemRepo
      ensures Valid()
      ensures item.itemName == "" ==> r == Err(EmptyItemName)
      ensures item.itemName != "" && item.id !in old(menuItemRepo.rows) ==> r == Err(ItemNotFound)
      ensures r == Err(ItemNameExists) ==>
        item.id in old(menuItemRepo.rows) && old(menuItemRepo.rows)[item.id].itemName != item.itemName
      ensures r.Err? ==> menuItemRepo.rows == old(menuItemRepo.rows)
      ensures r.Ok? ==>
        && WellFormedItem(item) && item.id in old(menuItemRepo.rows)
        && r.value == item.(createdAt := old(menuItemRepo.rows)[item.id].createdAt)
        && menuItemRepo.rows == old(menuItemRepo.rows)[item.id := r.value]
      ensures WellFormedItem(item) && item.id in old(menuItemRepo.rows) && old(menuItemRepo.rows)[item.id].itemName == item.itemName
        ==> r.Ok?
      // A rename is refused exactly when another item has the new name.
      ensures item.itemName != "" && item.id in old(menuItemRepo.rows) && old(menuItemRepo.rows)[item.id].itemName != item.itemName
        ==> (r == Err(ItemNameExists) <==> ItemNameInUse(old(menuItemRepo.rows), item.itemName))
      // Past the name checks, the field checks decide.
      ensures item.itemName != "" && item.id in old(menuItemRepo.rows)
        && (old(menuItemRepo.rows)[item.id].itemName == item.itemName || !ItemNameInUse(old(menuItemRepo.rows), item.itemName))
        ==> if FieldProblem(item).Some? then r == Err(FieldProblem(item).value) else r.Ok?
    {
      if item.itemName == "" {
        return Err(EmptyItemName);
      }
      var current := menuItemRepo.FindByID(item.id);
      if current.Err? {
        return Err(ItemNotFound);
      }
      if item.itemName != current.value.itemName {
        var existing := menuItemRepo.FindByName(item.itemName);
        if existing.Ok? {
          return Err(ItemNameExists);
        }
      }
      var problem := FieldProblem(item);
      if problem.Some? {
        return Err(problem.value);
      }
      var updated := menuItemRepo.Update(item);
      r := if updated.Ok? then Ok(updated.value) else Err(ItemNotFound);
    }

    method DeleteMenuItem(id: int) returns (r: Option<MenuError>)
      requires Valid()
      modifies menuItemRepo
      ensures Valid()
      ensures id in old(menuItemRepo.rows) ==> r == None && menuItemRepo.rows == old(menuItemRepo.rows) - {id}
      ensures id !in old(menuItemRepo.rows) ==> r == Some(ItemNotFound) && menuItemRepo.rows == old(menuItemRepo.rows)
    {
      var deleted := menuItemRepo.Delete(id);
      r := if deleted.None? then None else Some(ItemNotFound);
    }
  }
}
