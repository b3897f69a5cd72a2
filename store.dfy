/**
  The InventoryManagementSystem class: the store as an object whose methods
  update its map fields and counter in place. Each mutating method keeps the
  object invariant Valid() and states its new state as the corresponding
  function of module Inventory applied to the old state.
 */
module Store {
  import opened Wrappers
  import opened Ids
  import opened Inventory
  import opened InventoryProperties
  import opened Ranking

  class InventoryManagementSystem {
    var inventoryById: map<string, Item>
    var inventoryByCategory: map<string, seq<string>>
    var idCounter: nat
    const restockThreshold: int

    /** The store's abstract value. */
    ghost function Model(): State
      reads this
    {
      State(inventoryById, inventoryByCategory, idCounter, restockThreshold)
    }

    ghost predicate Valid()
      reads this
    {
      Inv(Model())
    }

    constructor (restockThreshold: int)
      ensures Valid() && Model() == Empty(restockThreshold)
    {
      inventoryById := map[];
      inventoryByCategory := map[];
      idCounter := 1;
      this.restockThreshold := restockThreshold;
    }

    /**
      generateUniqueId: the identifier of the current counter value; the
      counter advances by one, so every key stays minted below it.
     */
    method GenerateUniqueId() returns (id: string)
      requires Valid()
      modifies this`idCounter
      ensures Valid()
      ensures id == FormatId(old(idCounter)) && ParseId(id) == Some(old(idCounter))
      ensures idCounter == old(idCounter) + 1
    {
      id := FormatId(idCounter);
      ParseIdOfFormatId(idCounter);
      idCounter := idCounter + 1;
    }

    /** checkRestocking: a notification exactly when the item's quantity is strictly below the threshold. */
    method CheckRestocking(item: Item) returns (notice: Option<Notification>)
      ensures notice.Some? <==> item.quantity < restockThreshold
      ensures notice.Some? ==> notice.value == Restock(item.name, item.id)
      ensures notice == Inventory.CheckRestocking(restockThreshold, item)
    {
      if item.quantity < restockThreshold {
        notice := Some(Restock(item.name, item.id));
      } else {
        notice := None;
      }
    }

    /**
      addOrUpdateItem: a category outside CATEGORIES is rejected before the
      counter moves; otherwise a new item gets a fresh identifier, enters
      both views, and is checked for restocking.
     */
    method AddOrUpdateItem(name: string, category: string, quantity: int) returns (result: AddResult)
      requires Valid()
      modifies this
      ensures Valid()
      ensures (Model(), result) == Add(old(Model()), name, category, quantity)
      ensures category !in CATEGORIES ==>
        result == InvalidCategory(CATEGORIES) && Model() == old(Model())
      ensures category in CATEGORIES ==>
        && result.Added?
        && result.item == Item(FormatId(old(idCounter)), name, category, quantity)
        && result.item.id !in old(inventoryById)
        && idCounter == old(idCounter) + 1
        && inventoryById == old(inventoryById)[result.item.id := result.item]
        && (result.notice.Some? <==> quantity < restockThreshold)
    {
      if category !in CATEGORIES {
        return InvalidCategory(CATEGORIES);
      }
      ghost var before := Model();
      var id := GenerateUniqueId();
      var item := Item(id, name, category, quantity);
      inventoryById := inventoryById[id := item];
      var view := if category in inventoryByCategory then inventoryByCategory[category] else [];
      inventoryByCategory := inventoryByCategory[category := view + [id]];
      var notice := CheckRestocking(item);
      result := Added(item, notice);
      assert Model() == Add(before, name, category, quantity).0;
      AddPreservesInv(before, name, category, quantity);
      AddEffect(before, name, category, quantity);
    }

    /**
      removeItemById: an absent identifier reports NotFound and changes
      nothing; a present one leaves both views and its item is reported.
     */
    method RemoveItemById(id: string) returns (result: RemoveResult)
      requires Valid()
      modifies this
      ensures Valid()
      ensures (Model(), result) == Remove(old(Model()), id)
      ensures id !in old(inventoryById) ==> result == NotFound(id) && Model() == old(Model())
      ensures id in old(inventoryById) ==>
        && result == Removed(old(inventoryById)[id])
        && inventoryById == old(inventoryById) - {id}
        && (forall c :: c in inventoryByCategory ==> id !in inventoryByCategory[c])
        && idCounter == old(idCounter)
    {
      ghost var before := Model();
      if id !in inventoryById {
        return NotFound(id);
      }
      var item := inventoryById[id];
      inventoryById := inventoryById - {id};
      if item.category in inventoryByCategory {
        inventoryByCategory := inventoryByCategory[item.category :=
          RemoveFirst(inventoryByCategory[item.category], id)];
      }
      result := Removed(item);
      assert Model() == Remove(before, id).0;
      RemoveEffect(before, id);
      RemoveLeavesViews(before, id);
    }

    /** getItemById: the item stored under `id`, or None when there is none. */
    method GetItemById(id: string) returns (item: Option<Item>)
      requires Valid()
      ensures item.Some? <==> id in inventoryById
      ensures item.Some? ==> item.value == inventoryById[id] && item.value.id == id
      ensures item == GetItem(Model(), id)
    {
      item := if id in inventoryById then Some(inventoryById[id]) else None;
    }

    /**
      getItemsByCategory: a fresh sequence holding exactly the items of
      `category`, each once, in the view's order (not sorted); empty for an
      unknown category. The store is not changed.
     */
    method GetItemsByCategory(category: string) returns (items: seq<Item>)
      requires Valid()
      ensures forall it :: it in items <==>
        it.id in inventoryById && inventoryById[it.id] == it && it.category == category
      ensures NoDuplicates(items)
      ensures items == ItemsInCategory(Model(), category)
    {
      items := ItemsInCategory(State(inventoryById, inventoryByCategory, idCounter, restockThreshold), category);
    }

    /**
      The items of `inventoryById.values()`, each exactly once, in an order
      the model leaves open (the hash map's). displayInventory prints this
      sequence; getTopKItems and mergeInventories iterate it.
     */
    method Values() returns (items: seq<Item>)
      requires forall k :: k in inventoryById ==> inventoryById[k].id == k
      ensures Enumerates(items, inventoryById)
    {
      var keys := inventoryById.Keys;
      items := [];
      while keys != {}
        invariant keys <= inventoryById.Keys
        invariant |items| + |keys| == |inventoryById|
        invariant forall i :: 0 <= i < |items| ==>
          items[i].id in inventoryById && inventoryById[items[i].id] == items[i] && items[i].id !in keys
        invariant forall i, j :: 0 <= i < j < |items| ==> items[i].id != items[j].id
        invariant forall k :: k in inventoryById && k !in keys ==>
          exists i :: 0 <= i < |items| && items[i].id == k
        decreases keys
      {
        var k :| k in keys;
        ghost var seen := items;
        items := items + [inventoryById[k]];
        keys := keys - {k};
        assert items[|seen|].id == k;
        assert forall i :: 0 <= i < |seen| ==> items[i] == seen[i];
      }
    }

    /**
      mergeInventories: for each item of `other`, in `other`'s iteration
      order, raise the quantity of the item with the same identifier to the
      larger of the two, or add it as a new item under a fresh identifier.
      Returns the restock notifications raised by the adds.
     */
    method MergeInventories(other: InventoryManagementSystem) returns (notices: seq<Notification>, ghost order: seq<Item>)
      requires Valid() && other.Valid()
      modifies this
      ensures Valid()
      ensures Enumerates(order, old(other.inventoryById))
      ensures (Model(), notices) == MergeAll(old(Model()), order)
      ensures other == this ==> Model() == old(Model()) && notices == []
    {
      var incoming := other.Values();
      order := incoming;
      notices := [];
      for i := 0 to |incoming|
        invariant Valid()
        invariant (Model(), notices) == MergeAll(old(Model()), incoming[..i])
      {
        assert incoming[..i + 1][..i] == incoming[..i];
        var raised := MergeItemInto(incoming[i]);
        notices := notices + raised;
      }
      assert incoming[..|incoming|] == incoming;
      if other == this {
        MergeSelfIsNoop(old(Model()), incoming);
      }
    }

    /** One iteration of mergeInventories' loop, for one item of the other store. */
    method MergeItemInto(item: Item) returns (notices: seq<Notification>)
      requires Valid()
      modifies this
      ensures Valid()
      ensures (Model(), notices) == MergeItem(old(Model()), item)
    {
      ghost var before := Model();
      if item.id in inventoryById {
        var existing := inventoryById[item.id];
        inventoryById := inventoryById[item.id := existing.(quantity := Max(existing.quantity, item.quantity))];
        notices := [];
      } else {
        var r := AddOrUpdateItem(item.name, item.category, item.quantity);
        notices := if r.Added? && r.notice.Some? then [r.notice.value] else [];
      }
      MergeItemPreservesInv(before, item);
    }

    /**
      getTopKItems: for k >= 0, min(k, N) items drawn from the store without
      repetition, largest quantity first, none of them smaller than any item
      left out. A negative k makes the source's subList throw, modelled as None.
     */
    method GetTopKItems(k: int) returns (top: Option<seq<Item>>)
      requires Valid()
      ensures top.None? <==> k < 0
      ensures top.Some? ==> IsTopK(top.value, inventoryById, k)
    {
      if k < 0 {
        return None;
      }
      var all := Values();
      var sorted := SortedCopy(all);
      var n := if k < |sorted| then k else |sorted|;
      SortedPrefixIsTopK(all, sorted, inventoryById, k);
      top := Some(sorted[..n]);
    }
  }

  /**
    A client of the class: a new store with threshold 10 receives one low and
    one well-stocked item; the top-1 query returns the well-stocked one.
   */
  method ScenarioTopOne()
  {
    var store := new InventoryManagementSystem(10);
    var phone := store.AddOrUpdateItem("Phone", "Electronics", 5);
    var novel := store.AddOrUpdateItem("Novel", "Books", 20);
    assert phone.Added? && phone.notice.Some?;
    assert novel.Added? && novel.notice.None?;
    var top := store.GetTopKItems(1);
    assert phone.item.id in store.inventoryById;
    assert top.Some? && top.value == [novel.item];
  }

  /**
    A client of the class: identifiers come from the counter, a rejected
    category mints none, and a removed item can no longer be looked up.
   */
  method ScenarioAddRemove()
  {
    var store := new InventoryManagementSystem(10);
    var phone := store.AddOrUpdateItem("Phone", "Electronics", 5);
    var rejected := store.AddOrUpdateItem("Lamp", "Garden", 3);
    assert phone.Added? && phone.item.id == FormatId(1);
    assert rejected.InvalidCategory? && store.idCounter == 2;
    var removed := store.RemoveItemById(FormatId(1));
    assert removed == Removed(phone.item);
    var gone := store.GetItemById(FormatId(1));
    assert gone == None;
  }
}
