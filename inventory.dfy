/**
  The inventory store as values: its items, its two views of them, and each of
  its operations as a function from the old state to the new state and the
  caller's result. The class in module Store implements these operations by
  updating fields; these functions are its specification.
 */
module Inventory {
  import opened Wrappers
  import opened Ids

  /** An inventory record. The source compares two records by `id` alone. */
  datatype Item = Item(id: string, name: string, category: string, quantity: int)

  /** The six categories an item may belong to. */
  const CATEGORIES: set<string> :=
    {"Electronics", "Home Appliances", "Furniture", "Clothing", "Books", "Toys"}

  /** The restock notification the store raises for a low item. */
  datatype Notification = Restock(name: string, id: string)

  /** What an add reports: a rejected category (with the allowed ones), or the new item. */
  datatype AddResult =
    | InvalidCategory(allowed: set<string>)
    | Added(item: Item, notice: Option<Notification>)

  /** What a removal reports: the removed item, or that no item had the identifier. */
  datatype RemoveResult = Removed(item: Item) | NotFound(id: string)

  /**
    The store. `byId` is the authoritative record per identifier; `byCategory`
    holds, per category, the identifiers of the same records (the source keeps
    the same objects in a priority queue; sharing is captured by keeping ids).
    `idCounter` is the next counter value to mint an identifier from.
   */
  datatype State = State(
    byId: map<string, Item>,
    byCategory: map<string, seq<string>>,
    idCounter: nat,
    restockThreshold: int)

  function Max(a: int, b: int): (m: int)
    ensures m >= a && m >= b && (m == a || m == b)
  {
    if a >= b then a else b
  }

  predicate NoDuplicates<T(==)>(s: seq<T>)
  {
    forall i, j :: 0 <= i < j < |s| ==> s[i] != s[j]
  }

  /** Every key of `byId` is its item's identifier. */
  ghost predicate KeysAreIds(s: State)
  {
    forall k :: k in s.byId ==> s.byId[k].id == k
  }

  /** Every key of `byId` was minted from a counter value below `idCounter`, which starts at 1. */
  ghost predicate IdsMinted(s: State)
  {
    && s.idCounter >= 1
    && forall k :: k in s.byId ==> ParseId(k).Some? && ParseId(k).value < s.idCounter
  }

  /**
    An identifier is in category c's view exactly when `byId` holds an item
    with that identifier and category c; a view holds no identifier twice and
    exists only for an allowed category.
   */
  ghost predicate ViewsAgree(s: State)
  {
    && (forall k :: k in s.byId ==>
          s.byId[k].category in s.byCategory && k in s.byCategory[s.byId[k].category])
    && (forall c :: c in s.byCategory ==> c in CATEGORIES && NoDuplicates(s.byCategory[c]))
    && (forall c, i :: c in s.byCategory && 0 <= i < |s.byCategory[c]| ==>
          s.byCategory[c][i] in s.byId && s.byId[s.byCategory[c][i]].category == c)
  }

  /** The store's invariant: the two views agree and identifiers are fresh-mintable. */
  ghost predicate Inv(s: State)
  {
    KeysAreIds(s) && IdsMinted(s) && ViewsAgree(s)
  }

  /** A new store: no items, counter at 1. */
  function Empty(restockThreshold: int): (s: State)
    ensures Inv(s) && s.byId == map[] && s.idCounter == 1
  {
    State(map[], map[], 1, restockThreshold)
  }

  /** The identifiers of category `c`, empty for a category with no view yet. */
  function View(s: State, c: string): (v: seq<string>)
    ensures ViewsAgree(s) ==> NoDuplicates(v)
    ensures ViewsAgree(s) ==> forall id :: id in v <==> id in s.byId && s.byId[id].category == c
  {
    if c in s.byCategory then s.byCategory[c] else []
  }

  /** The restock check: a notification naming the item exactly when its quantity is strictly below the threshold. */
  function CheckRestocking(threshold: int, item: Item): (n: Option<Notification>)
    ensures n.Some? <==> item.quantity < threshold
    ensures n.Some? ==> n.value.name == item.name && n.value.id == item.id
  {
    if item.quantity < threshold then Some(Restock(item.name, item.id)) else None
  }

  /**
    addOrUpdateItem: rejects a category outside CATEGORIES without any change;
    otherwise mints a new identifier from the counter, advances the counter,
    records the item under that identifier, appends it to its category's view
    (creating the view if absent) and runs the restock check on it.
   */
  function Add(s: State, name: string, category: string, quantity: int): (r: (State, AddResult))
    ensures r.1.InvalidCategory? <==> category !in CATEGORIES
    ensures r.1.InvalidCategory? ==> r.0 == s
    ensures r.1.Added? ==> r.0.idCounter == s.idCounter + 1 && r.0.byId.Keys == s.byId.Keys + {r.1.item.id}
    ensures r.0.restockThreshold == s.restockThreshold
  {
    if category !in CATEGORIES then (s, InvalidCategory(CATEGORIES))
    else
      var id := FormatId(s.idCounter);
      var item := Item(id, name, category, quantity);
      var s' := s.(byId := s.byId[id := item],
                   byCategory := s.byCategory[category := View(s, category) + [id]],
                   idCounter := s.idCounter + 1);
      (s', Added(item, CheckRestocking(s.restockThreshold, item)))
  }

  /** Removes the first occurrence of `id` (the source's `PriorityQueue.remove`, matching by identifier). */
  function RemoveFirst(ids: seq<string>, id: string): (r: seq<string>)
    ensures multiset(r) == multiset(ids) - multiset{id}
    ensures id !in ids ==> r == ids
  {
    if ids == [] then []
    else
      assert ids == [ids[0]] + ids[1..];
      if ids[0] == id then ids[1..] else [ids[0]] + RemoveFirst(ids[1..], id)
  }

  /** Removal only takes identifiers out of a view. */
  lemma {:induction false} RemoveFirstShrinks(ids: seq<string>, id: string)
    ensures forall x :: x in RemoveFirst(ids, id) ==> x in ids
  {
    if ids != [] && ids[0] != id {
      RemoveFirstShrinks(ids[1..], id);
      assert RemoveFirst(ids, id) == [ids[0]] + RemoveFirst(ids[1..], id);
    }
  }

  /** On a view without duplicates, removal takes out every occurrence and keeps the rest distinct. */
  lemma {:induction false} RemoveFirstNoDuplicates(ids: seq<string>, id: string)
    requires NoDuplicates(ids)
    ensures NoDuplicates(RemoveFirst(ids, id)) && id !in RemoveFirst(ids, id)
  {
    if ids != [] && ids[0] != id {
      var rest := RemoveFirst(ids[1..], id);
      RemoveFirstNoDuplicates(ids[1..], id);
      RemoveFirstShrinks(ids[1..], id);
      assert ids[0] !in ids[1..];
      var r := [ids[0]] + rest;
      assert RemoveFirst(ids, id) == r;
      forall i, j | 0 <= i < j < |r| ensures r[i] != r[j] {
        assert r[j] == rest[j - 1];
        if i > 0 {
          assert r[i] == rest[i - 1];
        }
      }
    }
  }

  /** On a view without duplicates, exactly `id` leaves the view. */
  lemma RemoveFirstMembers(ids: seq<string>, id: string)
    requires NoDuplicates(ids)
    ensures forall x :: x in RemoveFirst(ids, id) <==> x in ids && x != id
  {
    var r := RemoveFirst(ids, id);
    RemoveFirstNoDuplicates(ids, id);
    forall x | x != id
      ensures x in r <==> x in ids
    {
      assert multiset(r)[x] == multiset(ids)[x];
    }
  }

  /**
    removeItemById: reports NotFound and changes nothing for an absent
    identifier; otherwise deletes the item from `byId` and its identifier
    from its category's view.
   */
  function Remove(s: State, id: string): (r: (State, RemoveResult))
    ensures r.1.NotFound? <==> id !in s.byId
    ensures r.0.byId.Keys == s.byId.Keys - {id}
    ensures r.0.idCounter == s.idCounter && r.0.restockThreshold == s.restockThreshold
  {
    if id !in s.byId then (s, NotFound(id))
    else
      var item := s.byId[id];
      var byCategory :=
        if item.category in s.byCategory
        then s.byCategory[item.category := RemoveFirst(s.byCategory[item.category], id)]
        else s.byCategory;
      (s.(byId := s.byId - {id}, byCategory := byCategory), Removed(item))
  }

  /** getItemById: the item under `id`, or None. */
  function GetItem(s: State, id: string): (r: Option<Item>)
    ensures r.Some? <==> id in s.byId
    ensures r.Some? ==> r.value == s.byId[id]
  {
    if id in s.byId then Some(s.byId[id]) else None
  }

  /** getItemsByCategory: the items of category `c`, in the view's order, or empty for an unknown category. */
  function ItemsInCategory(s: State, c: string): (r: seq<Item>)
    requires Inv(s)
    ensures forall it :: it in r <==> it.id in s.byId && s.byId[it.id] == it && it.category == c
    ensures NoDuplicates(r)
    ensures c !in s.byCategory ==> r == []
  {
    var ids := View(s, c);
    var r := seq(|ids|, i requires 0 <= i < |ids| => s.byId[ids[i]]);
    assert forall i :: 0 <= i < |ids| ==> r[i].id == ids[i] && r[i].category == c;
    assert forall it: Item :: it.id in s.byId && s.byId[it.id] == it && it.category == c ==> it in r by {
      forall it: Item | it.id in s.byId && s.byId[it.id] == it && it.category == c
        ensures it in r
      {
        var i :| 0 <= i < |ids| && ids[i] == it.id;
        assert r[i] == it;
      }
    }
    r
  }

  /**
    One step of mergeInventories for an item of the other store: an item whose
    identifier this store already holds gets the larger of the two quantities
    in place (no restock check, no change to the views); any other item goes
    through Add under a newly minted identifier.
   */
  function MergeItem(s: State, item: Item): (r: (State, seq<Notification>))
    ensures item.id in s.byId ==> r.1 == [] && r.0.byId.Keys == s.byId.Keys && r.0.idCounter == s.idCounter
    ensures item.id !in s.byId && item.category !in CATEGORIES ==> r == (s, [])
    ensures |r.1| <= 1
    ensures s.idCounter <= r.0.idCounter <= s.idCounter + 1
  {
    if item.id in s.byId then
      var existing := s.byId[item.id];
      (s.(byId := s.byId[item.id := existing.(quantity := Max(existing.quantity, item.quantity))]), [])
    else
      var (s', r) := Add(s, item.name, item.category, item.quantity);
      (s', if r.Added? && r.notice.Some? then [r.notice.value] else [])
  }

  /** mergeInventories over the other store's items in iteration order `items`, with the notifications raised. */
  function MergeAll(s: State, items: seq<Item>): (r: (State, seq<Notification>))
    ensures |r.1| <= |items|
    ensures s.idCounter <= r.0.idCounter <= s.idCounter + |items|
    ensures s.byId.Keys <= r.0.byId.Keys
    ensures r.0.restockThreshold == s.restockThreshold
    decreases |items|
  {
    if items == [] then (s, [])
    else
      var (s1, n1) := MergeAll(s, items[..|items| - 1]);
      var (s2, n2) := MergeItem(s1, items[|items| - 1]);
      (s2, n1 + n2)
  }

  /** `items` lists every item of `byId` exactly once (the source's iteration over `values()`). */
  ghost predicate Enumerates(items: seq<Item>, byId: map<string, Item>)
  {
    && |items| == |byId|
    && (forall i :: 0 <= i < |items| ==> items[i].id in byId && byId[items[i].id] == items[i])
    && (forall i, j :: 0 <= i < j < |items| ==> items[i].id != items[j].id)
    && (forall k :: k in byId ==> exists i :: 0 <= i < |items| && items[i].id == k)
  }
}
