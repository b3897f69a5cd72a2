# Inventory management store, modelled in Dafny

This project models the in-memory inventory store of `src/Main.java`: the
`InventoryItem` record and the `InventoryManagementSystem` class. The store
keeps each item in two places: a map from identifier to item, and one
priority queue of items per category. The model covers these operations:

- addOrUpdateItem, which always creates a new item;
- removeItemById;
- getItemById;
- getItemsByCategory;
- checkRestocking;
- mergeInventories;
- getTopKItems;
- generateUniqueId;
- the item iteration that displayInventory prints.

The model has six modules. The first, `Wrappers` (`wrappers.dfy`), only holds
the `Option` type. The other five are:

- `Ids` (`ids.dfy`): an identifier is `"ID"` followed by the decimal digits of
  a counter value. A parser is the formatter's partner. The round-trip lemma
  shows that distinct counter values give distinct identifiers.
- `Inventory` (`inventory.dfy`): the store as a value, `State`. Every
  operation is a function from the old state to the new state plus what the
  caller observes: a rejection, the item added or removed, the restock
  notices. The invariant `Inv` has three parts:
  - every key is its item's identifier;
  - every key was minted from a counter value below the current counter;
  - the two views agree: an identifier is in category c's view exactly when
    its item has category c, and no view lists an identifier twice.
- `InventoryProperties` (`inventory_properties.dfy`): lemmas about those
  functions. They cover:
  - preservation of `Inv`;
  - the exact effect of add and remove;
  - identifiers are never reused across any sequence of adds, removes and
    merges;
  - merge facts: merging a store into itself does nothing; merging shared
    identifiers sets each quantity to the larger of the two and is
    idempotent; foreign items are each re-added under a new identifier, with
    their notices, and are duplicated when merged twice; the store's own
    items are kept. An identifier is *foreign* to a store (the predicate
    `Foreign`) when the store does not hold it and it is not of the form
    `ID<n>` with n at or above the store's counter. The second condition
    matters: such an identifier can collide with one the same merge mints
    (see below).
- `Ranking` (`ranking.dfy`): getTopKItems' copy-and-sort. It is an
  insertion sort in place on an `array`, proved sorted and a permutation. A
  lemma shows that the first `min(k, N)` entries are a top-k answer.
- `Store` (`store.dfy`): the class `InventoryManagementSystem`. Its `map`
  fields and counter are updated in place by its methods. Every mutating
  method, the private `GenerateUniqueId` included, keeps `Valid()`. Every
  public one also states its new state as the matching
  `Inventory` function applied to the old state.

Each category's priority queue is modelled as the sequence of identifiers in
that category. Because it holds identifiers, the queue shares the same items
as the by-identifier map: a quantity changed by a merge is seen through both.

Behaviour of the code worth knowing:

- For a negative `k`, getTopKItems calls `subList(0, k)` with a negative end,
  which throws (src/Main.java:133). The model returns `None`; it does not
  return an empty list.
- getItemsByCategory copies the priority queue's internal heap array
  (src/Main.java:110), which is not sorted by quantity. The model promises the
  category's items, each once, and no order.
- Every store's counter starts at 1 (src/Main.java:65). So two stores built
  independently both mint `ID1`, and a merge between them matches unrelated
  items by identifier. The interactive merge (src/Main.java:195-197) merges a
  fresh store holding `ID1` into the main store. If the main store holds `ID1`,
  the new item is not added: the quantity of the main store's own `ID1` item
  is raised to at least 50 instead (`DemoMergeCollides`).
- An incoming identifier `ID<n>` with n at or above the receiving store's
  counter can collide with an identifier that the same merge mints for an
  earlier item (src/Main.java:121-126). Merging `ID9` then `ID1` into a new
  store adds the first as `ID1`; the second then finds `ID1` held and only
  raises its quantity (`MergeMintedCollision`). In the same way, merging the
  demo store twice into a new store adds its item only once
  (`DemoMergeTwiceAddsOnce`). Merged items are duplicated by a second merge
  only when their identifiers are foreign in the sense above.

## Model

| member | source | states |
|---|---|---|
| Ids.Decimal | src/Main.java:137 | The decimal rendering of the counter is non-empty, contains only digits, and starts with '0' exactly when the value is 0 |
| Ids.FormatId | src/Main.java:137 | A minted identifier is "ID" followed by at least one character, the decimal rendering of the counter value; ParseIdOfFormatId and FormatIdInjective give its round trip and injectivity |
| Ids.ParseDecimalOfDecimal | src/Main.java:137 | Parsing the decimal rendering of n gives back n |
| Ids.ParseIdOfFormatId | src/Main.java:136-138 | A minted identifier "ID"+n parses back to the counter value n |
| Ids.FormatIdInjective | src/Main.java:136-138 | Distinct counter values mint distinct identifiers |
| Inventory.Max | src/Main.java:123 | Math.max: the result is at least both arguments and is one of them |
| Inventory.Empty | src/Main.java:62-73 | A new store has no items, a counter at 1, and satisfies the invariant |
| Inventory.View | src/Main.java:109-110 | A category's queue, empty when none exists yet (as also used by the add at line 84). When the views agree with the map, it lists exactly the stored identifiers whose item has that category, each once |
| Inventory.CheckRestocking | src/Main.java:113-117 | A notice is raised exactly when the quantity is strictly below the threshold, and it names the item's name and identifier |
| Inventory.RemoveFirst | src/Main.java:94-97 | Removing from a category queue takes out one occurrence of the identifier and keeps every other entry; an absent identifier leaves the queue unchanged |
| Inventory.RemoveFirstShrinks | src/Main.java:96 | Removal from a queue adds no entry |
| Inventory.RemoveFirstNoDuplicates | src/Main.java:96 | On a queue without duplicates, removal leaves no duplicates and the identifier is gone |
| Inventory.RemoveFirstMembers | src/Main.java:96 | On a queue without duplicates, the entries after removal are exactly the old entries other than the identifier |
| Inventory.ItemsInCategory | src/Main.java:108-111 | An item is listed exactly when the store holds it under its identifier and it has the category; no item is listed twice; an unknown category lists nothing |
| Inventory.Add | src/Main.java:75-89 | A category outside the allowed six is rejected and changes nothing; otherwise the counter advances by one and the map gains exactly the new identifier; the threshold never changes. AddEffect and AddPreservesInv state the rest |
| Inventory.Remove | src/Main.java:91-102 | Reports not-found exactly when the identifier is absent; the map loses exactly that key; counter and threshold are unchanged. RemoveEffect, RemoveLeavesViews and RemovePreservesInv state the rest |
| Inventory.GetItem | src/Main.java:104-106 | Returns an item exactly when the identifier is held, and then the item held under it |
| Inventory.MergeItem | src/Main.java:120-127 | A held identifier raises no notice and keeps the keys and the counter; an absent one with a rejected category changes nothing; at most one notice; the counter advances by at most one. MergeItemOwnQuantity and MergeForeignStep give the exact effect |
| Inventory.MergeAll | src/Main.java:119-128 | At most one notice per merged item; the counter advances by at most the number merged; no key is lost; the threshold is unchanged. The merge lemmas below state the exact effect |
| InventoryProperties.FreshIdAbsent | src/Main.java:136-138 | The identifier the counter mints next is held by no item |
| InventoryProperties.AddPreservesInv | src/Main.java:75-89 | Adding keeps the invariant: keys are identifiers, every key was minted below the counter, and the two views agree |
| InventoryProperties.AddKeepsViewsAgree | src/Main.java:82-85 | The new identifier enters its category's queue once, which is created if missing, and the views keep agreeing with the map |
| InventoryProperties.AddEffect | src/Main.java:75-89 | A category outside the six allowed ones changes nothing and is rejected with the allowed set. Otherwise the new item takes the identifier minted from the old counter, which is fresh; the counter advances by one; the map gains exactly that entry; the item is appended to its category's queue and no other queue changes; a notice is raised exactly when the quantity is below the threshold |
| InventoryProperties.AddThenGet | src/Main.java:80-82 | After an add, the new item is retrievable by its identifier and every earlier item still is |
| InventoryProperties.RemovePreservesInv | src/Main.java:91-102 | Removing keeps the invariant |
| InventoryProperties.RemoveEffect | src/Main.java:91-102 | An absent identifier reports not-found and changes nothing. A present one reports its item, after which the identifier is not retrievable; every other identifier retrieves what it did before; the counter does not move |
| InventoryProperties.RemoveLeavesViews | src/Main.java:94-97 | After a removal the identifier is in no category's queue, so its former category no longer lists it |
| InventoryProperties.RunNeverLowersCounter | src/Main.java:65 | No sequence of adds, removes and merges moves the counter back |
| InventoryProperties.IdsNeverReused | src/Main.java:136-138 | Two accepted adds separated by any sequence of adds, removes and merges get different identifiers, even when the first item was removed |
| InventoryProperties.MergeItemPreservesInv | src/Main.java:120-127 | One merge step, whether it raises a quantity or adds a new item, keeps the invariant |
| InventoryProperties.MergeAllPreservesInv | src/Main.java:119-128 | A whole merge keeps the invariant |
| InventoryProperties.MergeAllKeepsIdsMinted | src/Main.java:119-128 | After a merge, every key still parses to a counter value below the counter |
| InventoryProperties.MergeDominatedIsNoop | src/Main.java:121-123 | Merging items whose identifiers are held with at least their quantities changes nothing and raises no notice |
| InventoryProperties.MergeSelfIsNoop | src/Main.java:119-128 | Merging a store's own items, in any iteration order, changes nothing and raises no notice |
| InventoryProperties.MergeSharedOnlyRaises | src/Main.java:121-123 | When every merged identifier is held, the merge raises no notice, adds and removes no identifier, and leaves the views and the counter alone. Each item keeps its identifier, name and category and loses no quantity. Afterwards each merged item's quantity is matched or exceeded |
| InventoryProperties.MergeItemOwnQuantity | src/Main.java:121-123 | One merge step keeps every held identifier; its quantity becomes the larger of the old one and the merged item's when the step names it, and is unchanged otherwise |
| InventoryProperties.MergeOwnQuantity | src/Main.java:119-128 | After any merge, a held item's quantity is at least its old one and at least that of every merged item with its identifier, and it equals the old one or one of those merged quantities |
| InventoryProperties.MergeSharedExact | src/Main.java:121-123 | When every merged identifier is held and no two merged items share one, each named item ends with exactly the larger of its old quantity and the merged quantity, keeping its identifier, name and category; every other item is unchanged |
| InventoryProperties.MergeSharedIdempotent | src/Main.java:119-128 | Repeating a merge of shared identifiers changes nothing more |
| InventoryProperties.MergeForeignAddsAll | src/Main.java:124-126 | Merging foreign items (absent, and not `ID<n>` with n at or above the counter) with allowed categories adds every one under a new identifier. The counter and the item count both grow by the number merged; the store's own items are unchanged; the new keys were minted from the old counter or later |
| InventoryProperties.MergeForeignStep | src/Main.java:124-126 | Merging one item with an absent identifier and an allowed category stores it under the identifier minted from the counter, with its name, category and quantity; the counter advances by one; a notice naming it is raised exactly when its quantity is below the threshold |
| InventoryProperties.ForeignReaddsCleanly | src/Main.java:120-126 | Foreign items (absent, and not `ID<n>` with n at or above the counter) with allowed categories each find their identifier absent when their turn in the merge comes, since the merge mints only from the counter up |
| InventoryProperties.MergeReaddsCounter | src/Main.java:119-128 | A merge in which every item finds its identifier absent and its category allowed advances the counter by the number merged |
| InventoryProperties.MergeForeignReadds | src/Main.java:119-128 | Such a merge leaves exactly the old items plus the re-added ones |
| InventoryProperties.MergeReaddsNotices | src/Main.java:119-128 | Such a merge raises exactly the re-add notices, in the order of the items |
| InventoryProperties.ReaddedEntries | src/Main.java:124-126 | The i-th re-added item is stored under the identifier minted from the counter plus i, with its own name, category and quantity |
| InventoryProperties.ReaddedNoticesMembers | src/Main.java:113-117 | A re-add notice exists exactly for each re-added item below the threshold, naming it and its new identifier |
| InventoryProperties.MergeReaddedEntries | src/Main.java:119-128 | A merge that re-adds the items stores each under its minted identifier and raises exactly the notices of the items below the threshold |
| InventoryProperties.MergeForeignEntries | src/Main.java:119-128 | Merging foreign items (absent, and not `ID<n>` with n at or above the counter) with allowed categories stores the i-th under the identifier minted from the old counter plus i, with its own name, category and quantity; the notices are exactly one per item below the threshold, naming the item and its new identifier |
| InventoryProperties.TwiceStoresBoth | src/Main.java:119-128 | A combining step over arbitrary states, used by MergeForeignTwiceDuplicates: when a second merge keeps the first merge's entries and adds the same items from where the first stopped, both copies are stored and the store grows by twice the number merged |
| InventoryProperties.MergeForeignTwiceDuplicates | src/Main.java:119-128 | Merging the same foreign items (absent, and not `ID<n>` with n at or above the counter) twice stores each of them twice: under the identifier minted from the old counter plus i and under the one minted the number of items later; the store grows by twice the number merged |
| InventoryProperties.MergeKeepsOwnItems | src/Main.java:119-128 | After any merge, the store's own items keep their identifier, name and category and lose no quantity; an item no merged identifier names is unchanged |
| InventoryProperties.DemoStore | src/Main.java:195-196 | The interactive merge's second store holds exactly "New Item" under ID1 and satisfies the invariant |
| InventoryProperties.DemoMergeCollides | src/Main.java:193-198 | Merging that store into a store holding ID1 adds nothing and raises no notice; the store's ID1 item gets quantity max(old, 50) and keeps its name and category |
| InventoryProperties.DemoMergeTwiceAddsOnce | src/Main.java:119-128 | Merging the demo store's item twice into a new store leaves exactly one item, under ID1: the second merge finds the identifier the first one minted |
| InventoryProperties.MergeMintedCollision | src/Main.java:121-126 | Merging ID9 then ID1 into a new store leaves exactly ID1, holding the first item's name and category with the second's quantity, and raises only the first item's notice |
| Ranking.SortedPrefixDominates | src/Main.java:132-133 | In a sequence sorted by descending quantity, an entry beyond the first n is no larger than any of the first n |
| Ranking.PermutationSameMembers | src/Main.java:131-132 | Any two sequences with equal multisets have the same length and the same members; used to show that the sorted copy holds exactly the stored items |
| Ranking.SortedPrefixIsTopK | src/Main.java:130-134 | The first min(k, N) entries of a sorted copy of all items are a top-k answer: min(k, N) stored items, each once, sorted by descending quantity, none smaller than an item left out |
| Ranking.PrefixEntriesStored | src/Main.java:131-133 | Every entry of the returned prefix is a stored item under its own identifier |
| Ranking.PrefixDistinct | src/Main.java:131-133 | The returned prefix holds no identifier twice |
| Ranking.PrefixDominatesRest | src/Main.java:132-133 | The returned prefix is sorted, and no entry is smaller than a stored item left out |
| Ranking.SortedCopy | src/Main.java:131-132 | The new list is sorted by descending quantity and is a permutation of the items |
| Ranking.SortByQuantityDesc | src/Main.java:132 | Sorting in place leaves the array sorted by descending quantity and a permutation of its old contents |
| Ranking.Insert | src/Main.java:132 | One insertion step extends the sorted prefix by one element, permutes the array and leaves the entries after it untouched |
| Ranking.Swap | src/Main.java:132 | Exchanges two entries and leaves the rest in place |
| Ranking.DistinctCountsAtMostOne | src/Main.java:131 | In a sequence without duplicates, every value occurs at most once |
| Ranking.PermutationKeepsDistinct | src/Main.java:131-132 | A permutation of a sequence without duplicates has none either |
| Store.InventoryManagementSystem.constructor | src/Main.java:71-73 | A new store is the empty state with the given threshold and is valid |
| Store.InventoryManagementSystem.GenerateUniqueId | src/Main.java:136-138 | Keeps the invariant. Returns the identifier minted from the old counter, which parses back to it, and advances the counter by one |
| Store.InventoryManagementSystem.CheckRestocking | src/Main.java:113-117 | Notifies exactly when the quantity is strictly below the threshold, naming the item |
| Store.InventoryManagementSystem.AddOrUpdateItem | src/Main.java:75-89 | Keeps the invariant and its new state is Add of the old one. A rejected category changes nothing. Otherwise the new item gets the old counter's identifier, which is fresh; the counter advances; the map gains exactly that entry; a notice is raised exactly when the quantity is below the threshold |
| Store.InventoryManagementSystem.RemoveItemById | src/Main.java:91-102 | Keeps the invariant and its new state is Remove of the old one. An absent identifier changes nothing. A present one is reported; the map loses exactly that key; no category queue lists it; the counter does not move |
| Store.InventoryManagementSystem.GetItemById | src/Main.java:104-106 | Returns the item stored under the identifier, or None exactly when there is none |
| Store.InventoryManagementSystem.GetItemsByCategory | src/Main.java:108-111 | Returns exactly the stored items of the category, each once, without changing the store |
| Store.InventoryManagementSystem.Values | src/Main.java:140-142 | Lists every stored item exactly once |
| Store.InventoryManagementSystem.MergeItemInto | src/Main.java:120-127 | One iteration of the merge loop: the new state and notices are MergeItem of the old state, and the invariant is kept |
| Store.InventoryManagementSystem.MergeInventories | src/Main.java:119-128 | Keeps the invariant. The new state and notices are MergeAll over the other store's items, each taken once in some iteration order. Merging a store into itself changes nothing |
| Store.InventoryManagementSystem.GetTopKItems | src/Main.java:130-134 | For k >= 0, returns a top-k answer over the stored items; a negative k is the error case |

## Left out

- The interactive loop, console prompts and `Integer.parseInt` of input (src/Main.java:144-215) are left out. The one exception is the merge demo's second store, which is modelled as `DemoStore`.
- Printed messages are left out: the item-added, item-removed, not-found and invalid-category messages, and the text of the restock notification. Instead, the operation's result reports what was printed: `InvalidCategory`, `Added` with its optional notice, `Removed`, `NotFound`. `toString` and `hashCode` are left out. The id-only `equals` (src/Main.java:38-43) is what the category queue's `remove` uses; the model's queues hold identifiers, so that removal matches by identifier too. Elsewhere the model compares whole items, for instance in `ItemsInCategory` (no item listed twice) and in the top-k answer (an item left out). Under the invariant every key is its item's identifier, so on stored items whole-item equality and the id-only `equals` agree.
- The source hands out the store's own live objects. getItemById returns the stored `InventoryItem` itself (src/Main.java:104-106). getItemsByCategory and getTopKItems return new lists holding the same objects (src/Main.java:110, 131-133). `setQuantity` is public (src/Main.java:33-35). So a caller can change a stored quantity without going through the store: no restock check runs and the category heap is not re-sifted. The model returns `Item` values, which act as copies, and its state changes only through the store's operations. Such outside changes are not modelled.
- The AtomicInteger is modelled as an unbounded counter. Its 32-bit wrap-around after 2^31 - 1 identifiers is not modelled, and neither is thread safety, since the store is single-threaded.
- Quantities are unbounded integers, which is faithful because the source never adds or subtracts them. Negative quantities are accepted, as in the source.
- The heap order inside each category's priority queue is not modelled. The queue is a sequence of identifiers, and its order is not promised. The source's heap also becomes stale after a merge raises a quantity in place, because the heap is not re-sifted. Since the model promises no order, it does not show that staleness.
- The iteration order of `HashMap.values()` is not modelled. `Values` and `MergeInventories` return or take an order that the model leaves open.
- Store.InventoryManagementSystem.GetTopKItems: when quantities tie, the order is not promised. `List.sort` is stable, but the input order is the hash map's, so no particular tie order follows from it.
- The `ConcurrentModificationException` of a self-merge that would add items is not modelled. It cannot happen: every item of a self-merge is found, so nothing is added (`MergeSelfIsNoop`).
