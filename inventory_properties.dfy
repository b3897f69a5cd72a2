/**
  What the store's operations promise, proved about the functions of module
  Inventory: each operation keeps the two views in agreement, the effect of
  add and remove on the entries, that identifiers are never reused, and how
  merge behaves on shared and on foreign identifiers.
 */
module InventoryProperties {
  import opened Wrappers
  import opened Ids
  import opened Inventory

  // ---------------------------------------------------------------- add

  /** The identifier the counter mints next is not taken. */
  lemma FreshIdAbsent(s: State)
    requires IdsMinted(s)
    ensures FormatId(s.idCounter) !in s.byId
  {
    ParseIdOfFormatId(s.idCounter);
  }

  lemma AddPreservesInv(s: State, name: string, category: string, quantity: int)
    requires Inv(s)
    ensures Inv(Add(s, name, category, quantity).0)
  {
    if category in CATEGORIES {
      FreshIdAbsent(s);
      ParseIdOfFormatId(s.idCounter);
      var s' := Add(s, name, category, quantity).0;
      assert KeysAreIds(s');
      assert IdsMinted(s');
      AddKeepsViewsAgree(s, name, category, quantity);
    }
  }

  /** The new identifier enters exactly its category's view, once. */
  lemma AddKeepsViewsAgree(s: State, name: string, category: string, quantity: int)
    requires ViewsAgree(s) && category in CATEGORIES && FormatId(s.idCounter) !in s.byId
    ensures ViewsAgree(Add(s, name, category, quantity).0)
  {
    var id := FormatId(s.idCounter);
    var s' := Add(s, name, category, quantity).0;
    var view := View(s, category);
    assert s'.byCategory == s.byCategory[category := view + [id]];
    assert forall k :: k in s'.byId ==>
      s'.byId[k].category in s'.byCategory && k in s'.byCategory[s'.byId[k].category]
    by {
      forall k | k in s'.byId
        ensures s'.byId[k].category in s'.byCategory && k in s'.byCategory[s'.byId[k].category]
      {
        if k == id {
          assert (view + [id])[|view|] == id;
        } else if s.byId[k].category == category {
          assert k in view;
        }
      }
    }
    assert forall c :: c in s'.byCategory ==> c in CATEGORIES && NoDuplicates(s'.byCategory[c]) by {
      assert forall i :: 0 <= i < |view| ==> view[i] in s.byId;
    }
    forall c, i | c in s'.byCategory && 0 <= i < |s'.byCategory[c]|
      ensures s'.byCategory[c][i] in s'.byId && s'.byId[s'.byCategory[c][i]].category == c
    {
      if c == category && i < |view| {
        assert s'.byCategory[c][i] == view[i];
      }
    }
  }


  /**
    A rejected category changes nothing; an accepted one mints the identifier
    from the current counter, which no stored item has, advances the counter
    by one, stores the new item under it, appends it to its category's view
    and leaves every other view alone; the add notifies exactly when the
    quantity is strictly below the threshold.
   */
  lemma AddEffect(s: State, name: string, category: string, quantity: int)
    requires Inv(s)
    ensures var (s', r) := Add(s, name, category, quantity);
      && (category !in CATEGORIES ==> s' == s && r == InvalidCategory(CATEGORIES))
      && (category in CATEGORIES ==>
            && r == Added(Item(FormatId(s.idCounter), name, category, quantity), r.notice)
            && ParseId(r.item.id) == Some(s.idCounter)
            && r.item.id !in s.byId
            && s'.idCounter == s.idCounter + 1
            && s'.byId == s.byId[r.item.id := r.item]
            && |s'.byId| == |s.byId| + 1
            && View(s', category) == View(s, category) + [r.item.id]
            && (forall c :: c != category ==> View(s', c) == View(s, c))
            && (r.notice.Some? <==> quantity < s.restockThreshold))
  {
    ParseIdOfFormatId(s.idCounter);
  }

  /** Every added item is retrievable by its identifier, and every item already there still is. */
  lemma AddThenGet(s: State, name: string, category: string, quantity: int)
    requires Inv(s) && category in CATEGORIES
    ensures var (s', r) := Add(s, name, category, quantity);
      && r.Added?
      && GetItem(s', r.item.id) == Some(r.item)
      && (forall k :: k in s.byId ==> GetItem(s', k) == GetItem(s, k))
  {
    ParseIdOfFormatId(s.idCounter);
  }

  // ---------------------------------------------------------------- remove

  lemma RemovePreservesInv(s: State, id: string)
    requires Inv(s)
    ensures Inv(Remove(s, id).0)
  {
    if id in s.byId {
      var c := s.byId[id].category;
      RemoveFirstNoDuplicates(s.byCategory[c], id);
      RemoveFirstMembers(s.byCategory[c], id);
      var s' := Remove(s, id).0;
      assert forall c' :: c' in s'.byCategory ==> NoDuplicates(s'.byCategory[c']);
      assert forall k :: k in s'.byId ==>
        s'.byId[k].category in s'.byCategory && k in s'.byCategory[s'.byId[k].category];
      forall c', i | c' in s'.byCategory && 0 <= i < |s'.byCategory[c']|
        ensures s'.byCategory[c'][i] in s'.byId && s'.byId[s'.byCategory[c'][i]].category == c'
      {
        if c' == c {
          assert s'.byCategory[c'][i] in s.byCategory[c];
        }
      }
    }
  }

  /**
    Removing a present identifier reports its item, after which the
    identifier is not retrievable, while every other item is; the counter
    does not move. Removing an absent identifier reports NotFound and changes
    nothing.
   */
  lemma RemoveEffect(s: State, id: string)
    ensures var (s', r) := Remove(s, id);
      && (id !in s.byId ==> s' == s && r == NotFound(id))
      && (id in s.byId ==>
            && r == Removed(s.byId[id])
            && GetItem(s', id) == None
            && (forall k :: k != id ==> GetItem(s', k) == GetItem(s, k))
            && s'.idCounter == s.idCounter)
  {
  }

  /**
    After a removal the identifier is in no category's view, so in
    particular not among the items its former category lists.
   */
  lemma RemoveLeavesViews(s: State, id: string)
    requires Inv(s) && id in s.byId
    ensures var s' := Remove(s, id).0;
      && (forall c :: id !in View(s', c))
      && Inv(s')
      && (forall it :: it in ItemsInCategory(s', s.byId[id].category) ==> it.id != id)
  {
    RemovePreservesInv(s, id);
    var c := s.byId[id].category;
    RemoveFirstMembers(s.byCategory[c], id);
    var s' := Remove(s, id).0;
    forall c' ensures id !in View(s', c') {
      if c' != c && c' in s'.byCategory {
        assert View(s', c') == s.byCategory[c'];
      }
    }
  }


  // ---------------------------------------------------------------- identifiers

  /** A caller's request to the store, for stating properties of call sequences. */
  datatype Op =
    | AddOp(name: string, category: string, quantity: int)
    | RemoveOp(id: string)
    | MergeOp(items: seq<Item>)

  function Apply(s: State, op: Op): (s': State)
  {
    match op
    case AddOp(n, c, q) => Add(s, n, c, q).0
    case RemoveOp(id) => Remove(s, id).0
    case MergeOp(items) => MergeAll(s, items).0
  }

  function Run(s: State, ops: seq<Op>): (s': State)
    decreases |ops|
  {
    if ops == [] then s else Run(Apply(s, ops[0]), ops[1..])
  }

  lemma {:induction false} RunNeverLowersCounter(s: State, ops: seq<Op>)
    ensures Run(s, ops).idCounter >= s.idCounter
    decreases |ops|
  {
    if ops != [] {
      RunNeverLowersCounter(Apply(s, ops[0]), ops[1..]);
    }
  }

  /**
    Identifiers are never reused: an item added after any further adds,
    removals and merges gets an identifier different from one added earlier,
    even when the earlier item has since been removed.
   */
  lemma IdsNeverReused(s: State, first: Op, later: seq<Op>, second: Op)
    requires first.AddOp? && first.category in CATEGORIES
    requires second.AddOp? && second.category in CATEGORIES
    ensures var (s1, r1) := Add(s, first.name, first.category, first.quantity);
      var (_, r2) := Add(Run(s1, later), second.name, second.category, second.quantity);
      r1.Added? && r2.Added? && r1.item.id != r2.item.id
  {
    var s1 := Add(s, first.name, first.category, first.quantity).0;
    RunNeverLowersCounter(s1, later);
    FormatIdInjective(s.idCounter, Run(s1, later).idCounter);
  }

  // ---------------------------------------------------------------- merge

  lemma MergeItemPreservesInv(s: State, item: Item)
    requires Inv(s)
    ensures Inv(MergeItem(s, item).0)
  {
    if item.id !in s.byId {
      AddPreservesInv(s, item.name, item.category, item.quantity);
    }
  }

  lemma {:induction false} MergeAllPreservesInv(s: State, items: seq<Item>)
    requires Inv(s)
    ensures Inv(MergeAll(s, items).0)
    decreases |items|
  {
    if items != [] {
      var prefix := items[..|items| - 1];
      MergeAllPreservesInv(s, prefix);
      MergeItemPreservesInv(MergeAll(s, prefix).0, items[|items| - 1]);
    }
  }

  lemma {:induction false} MergeAllKeepsIdsMinted(s: State, items: seq<Item>)
    requires IdsMinted(s)
    ensures IdsMinted(MergeAll(s, items).0)
    decreases |items|
  {
    if items != [] {
      var prefix := items[..|items| - 1];
      MergeAllKeepsIdsMinted(s, prefix);
      ParseIdOfFormatId(MergeAll(s, prefix).0.idCounter);
    }
  }

  /**
    Merging items whose identifiers the store holds with at least their
    quantities changes nothing and notifies nobody.
   */
  lemma {:induction false} MergeDominatedIsNoop(s: State, items: seq<Item>)
    requires forall i :: 0 <= i < |items| ==>
      items[i].id in s.byId && s.byId[items[i].id].quantity >= items[i].quantity
    ensures MergeAll(s, items) == (s, [])
    decreases |items|
  {
    if items != [] {
      var prefix := items[..|items| - 1];
      MergeDominatedIsNoop(s, prefix);
      var x := items[|items| - 1];
      assert s.byId[x.id].(quantity := Max(s.byId[x.id].quantity, x.quantity)) == s.byId[x.id];
      assert s.byId[x.id := s.byId[x.id]] == s.byId;
      assert MergeItem(s, x) == (s, []);
      var none: seq<Notification> := [];
      assert MergeAll(s, items) == (s, none + none);
      assert none + none == none;
    }
  }

  /** Merging a store into itself (its own items, in any iteration order) is a no-op. */
  lemma MergeSelfIsNoop(s: State, items: seq<Item>)
    requires Enumerates(items, s.byId)
    ensures MergeAll(s, items) == (s, [])
  {
    assert forall i :: 0 <= i < |items| ==>
      items[i].id in s.byId && s.byId[items[i].id].quantity >= items[i].quantity;
    MergeDominatedIsNoop(s, items);
  }

  /**
    When every merged identifier is already held, merge only raises
    quantities: no identifier is added or removed, the views and the counter
    are untouched, nobody is notified, every item keeps its identifier, name
    and category and does not lose quantity, and afterwards every merged
    item's quantity is matched or exceeded by the store.
   */
  lemma {:induction false} MergeSharedOnlyRaises(s: State, items: seq<Item>)
    requires forall i :: 0 <= i < |items| ==> items[i].id in s.byId
    ensures var (s', n) := MergeAll(s, items);
      && n == []
      && s' == s.(byId := s'.byId)
      && s'.byId.Keys == s.byId.Keys
      && (forall k :: k in s.byId ==>
            && s'.byId[k] == s.byId[k].(quantity := s'.byId[k].quantity)
            && s'.byId[k].quantity >= s.byId[k].quantity)
      && (forall i :: 0 <= i < |items| ==> s'.byId[items[i].id].quantity >= items[i].quantity)
    decreases |items|
  {
    if items != [] {
      var prefix := items[..|items| - 1];
      var x := items[|items| - 1];
      MergeSharedOnlyRaises(s, prefix);
      var (s1, n1) := MergeAll(s, prefix);
      var s' := MergeAll(s, items).0;
      assert x.id in s1.byId;
      assert s'.byId == s1.byId[x.id := s1.byId[x.id].(quantity := Max(s1.byId[x.id].quantity, x.quantity))];
      var none: seq<Notification> := [];
      assert MergeAll(s, items).1 == none + none;
      forall i | 0 <= i < |items|
        ensures s'.byId[items[i].id].quantity >= items[i].quantity
      {
        if i < |prefix| {
          assert prefix[i] == items[i];
        }
      }
    }
  }


  /** One merge step changes a held item's quantity only when the merged item carries its identifier. */
  lemma MergeItemOwnQuantity(s: State, x: Item, k: string)
    requires IdsMinted(s) && k in s.byId
    ensures var s' := MergeItem(s, x).0;
      && k in s'.byId
      && s'.byId[k].quantity == (if x.id == k then Max(s.byId[k].quantity, x.quantity) else s.byId[k].quantity)
  {
    if x.id !in s.byId {
      FreshIdAbsent(s);
    }
  }

  /**
    After any merge, each of the store's own items has the largest of its old
    quantity and the quantities of the merged items carrying its identifier:
    it is at least each of them and equal to one of them.
   */
  lemma {:induction false} MergeOwnQuantity(s: State, items: seq<Item>)
    requires IdsMinted(s)
    ensures var s' := MergeAll(s, items).0;
      forall k :: k in s.byId ==>
        && s'.byId[k].quantity >= s.byId[k].quantity
        && (forall i :: 0 <= i < |items| && items[i].id == k ==> s'.byId[k].quantity >= items[i].quantity)
        && (|| s'.byId[k].quantity == s.byId[k].quantity
            || exists i :: 0 <= i < |items| && items[i].id == k && s'.byId[k].quantity == items[i].quantity)
    decreases |items|
  {
    if items != [] {
      var prefix := items[..|items| - 1];
      var x := items[|items| - 1];
      MergeOwnQuantity(s, prefix);
      MergeAllKeepsIdsMinted(s, prefix);
      assert items == prefix + [x];
      var s1 := MergeAll(s, prefix).0;
      var s' := MergeAll(s, items).0;
      assert s' == MergeItem(s1, x).0;
      forall k | k in s.byId
        ensures s'.byId[k].quantity >= s.byId[k].quantity
        ensures forall i :: 0 <= i < |items| && items[i].id == k ==> s'.byId[k].quantity >= items[i].quantity
        ensures || s'.byId[k].quantity == s.byId[k].quantity
                || exists i :: 0 <= i < |items| && items[i].id == k && s'.byId[k].quantity == items[i].quantity
      {
        MergeItemOwnQuantity(s1, x, k);
        MergeOwnStep(s.byId[k].quantity, s1.byId[k].quantity, s'.byId[k].quantity, prefix, x, k);
      }
    }
  }

  /** The induction step of MergeOwnQuantity, on the quantities alone. */
  lemma MergeOwnStep(q0: int, q1: int, q2: int, prefix: seq<Item>, x: Item, k: string)
    requires q1 >= q0
    requires forall i :: 0 <= i < |prefix| && prefix[i].id == k ==> q1 >= prefix[i].quantity
    requires q1 == q0 || exists i :: 0 <= i < |prefix| && prefix[i].id == k && q1 == prefix[i].quantity
    requires q2 == (if x.id == k then Max(q1, x.quantity) else q1)
    ensures var items := prefix + [x];
      && q2 >= q0
      && (forall i :: 0 <= i < |items| && items[i].id == k ==> q2 >= items[i].quantity)
      && (q2 == q0 || exists i :: 0 <= i < |items| && items[i].id == k && q2 == items[i].quantity)
  {
    var items := prefix + [x];
    forall i | 0 <= i < |items| && items[i].id == k
      ensures q2 >= items[i].quantity
    {
      if i < |prefix| {
        assert items[i] == prefix[i];
      }
    }
    if q2 != q0 {
      if x.id == k && q2 == x.quantity {
        assert items[|prefix|] == x;
      } else {
        var j :| 0 <= j < |prefix| && prefix[j].id == k && q1 == prefix[j].quantity;
        assert items[j] == prefix[j];
      }
    }
  }

  /**
    When every merged identifier is held and no identifier is merged twice,
    each of those items ends with exactly the larger of the store's quantity
    and the merged quantity, and every item no merged identifier names is
    unchanged.
   */
  lemma MergeSharedExact(s: State, items: seq<Item>)
    requires IdsMinted(s)
    requires forall i :: 0 <= i < |items| ==> items[i].id in s.byId
    requires forall i, j :: 0 <= i < j < |items| ==> items[i].id != items[j].id
    ensures var s' := MergeAll(s, items).0;
      && (forall i :: 0 <= i < |items| ==>
            s'.byId[items[i].id] == s.byId[items[i].id].(quantity := Max(s.byId[items[i].id].quantity, items[i].quantity)))
      && (forall k :: k in s.byId && (forall i :: 0 <= i < |items| ==> items[i].id != k) ==> s'.byId[k] == s.byId[k])
  {
    var s' := MergeAll(s, items).0;
    MergeOwnQuantity(s, items);
    MergeSharedOnlyRaises(s, items);
    MergeKeepsOwnItems(s, items);
    forall i | 0 <= i < |items|
      ensures s'.byId[items[i].id] == s.byId[items[i].id].(quantity := Max(s.byId[items[i].id].quantity, items[i].quantity))
    {
      var k := items[i].id;
      if s'.byId[k].quantity != s.byId[k].quantity {
        var j :| 0 <= j < |items| && items[j].id == k && s'.byId[k].quantity == items[j].quantity;
        assert i == j;
      }
    }
  }

  /** Repeating a merge whose identifiers are all shared changes nothing more. */
  lemma MergeSharedIdempotent(s: State, items: seq<Item>)
    requires forall i :: 0 <= i < |items| ==> items[i].id in s.byId
    ensures var once := MergeAll(s, items).0;
      MergeAll(once, items) == (once, [])
  {
    MergeSharedOnlyRaises(s, items);
    MergeDominatedIsNoop(MergeAll(s, items).0, items);
  }

  /** An identifier merge can never match: absent, and not one the counter can mint from now on. */
  ghost predicate Foreign(s: State, id: string)
  {
    id !in s.byId && (ParseId(id).None? || ParseId(id).value < s.idCounter)
  }

  /**
    Merging items with allowed categories whose identifiers are foreign adds
    every one of them under a new identifier: the counter and the number of
    items both grow by the number merged, the store's own items are
    unchanged, and the merged identifiers are still foreign afterwards.
   */
  lemma {:induction false} MergeForeignAddsAll(s: State, items: seq<Item>)
    requires Inv(s)
    requires forall i :: 0 <= i < |items| ==>
      items[i].category in CATEGORIES && Foreign(s, items[i].id)
    ensures var s' := MergeAll(s, items).0;
      && s'.idCounter == s.idCounter + |items|
      && |s'.byId| == |s.byId| + |items|
      && (forall k :: k in s.byId ==> k in s'.byId && s'.byId[k] == s.byId[k])
      && (forall k :: k in s'.byId && k !in s.byId ==>
            ParseId(k).Some? && ParseId(k).value >= s.idCounter)
      && (forall i :: 0 <= i < |items| ==> Foreign(s', items[i].id))
    decreases |items|
  {
    if items != [] {
      var prefix := items[..|items| - 1];
      var x := items[|items| - 1];
      MergeForeignAddsAll(s, prefix);
      var s1 := MergeAll(s, prefix).0;
      MergeAllPreservesInv(s, prefix);
      assert x.id !in s1.byId;
      ParseIdOfFormatId(s1.idCounter);
      AddEffect(s1, x.name, x.category, x.quantity);
    }
  }

  /** One merge step for an item whose identifier is absent: the ordinary add, with its notice. */
  lemma MergeForeignStep(s: State, x: Item)
    requires x.id !in s.byId && x.category in CATEGORIES
    ensures var (s', n) := MergeItem(s, x);
      var id := FormatId(s.idCounter);
      && s'.byId == s.byId[id := Item(id, x.name, x.category, x.quantity)]
      && s'.idCounter == s.idCounter + 1
      && n == (if x.quantity < s.restockThreshold then [Restock(x.name, id)] else [])
  {
  }

  /** The entries that re-adding `items` creates, the i-th under the identifier minted from `c + i`. */
  function Readded(c: nat, items: seq<Item>): (m: map<string, Item>)
    decreases |items|
  {
    if items == [] then map[]
    else
      var id := FormatId(c + |items| - 1);
      var x := items[|items| - 1];
      Readded(c, items[..|items| - 1])[id := Item(id, x.name, x.category, x.quantity)]
  }

  /** The notices that re-adding `items` raises, in order. */
  function ReaddedNotices(c: nat, threshold: int, items: seq<Item>): (notices: seq<Notification>)
    decreases |items|
  {
    if items == [] then []
    else
      var x := items[|items| - 1];
      ReaddedNotices(c, threshold, items[..|items| - 1]) +
        (if x.quantity < threshold then [Restock(x.name, FormatId(c + |items| - 1))] else [])
  }

  /** Updating a map union at a key is updating its right-hand operand there. */
  lemma UpdateAfterUnion<K, V>(a: map<K, V>, b: map<K, V>, k: K, v: V)
    ensures (a + b)[k := v] == a + b[k := v]
  {
  }

  /** Every item, merged after the ones before it, finds its identifier absent and its category allowed. */
  ghost predicate ReaddsCleanly(s: State, items: seq<Item>)
    decreases |items|
  {
    items == [] ||
    (var x := items[|items| - 1];
     && ReaddsCleanly(s, items[..|items| - 1])
     && x.category in CATEGORIES
     && x.id !in MergeAll(s, items[..|items| - 1]).0.byId)
  }

  /** Foreign items with allowed categories are merged cleanly one after another. */
  lemma {:induction false} ForeignReaddsCleanly(s: State, items: seq<Item>)
    requires Inv(s)
    requires forall i :: 0 <= i < |items| ==>
      items[i].category in CATEGORIES && Foreign(s, items[i].id)
    ensures ReaddsCleanly(s, items)
    decreases |items|
  {
    if items != [] {
      var prefix := items[..|items| - 1];
      ForeignReaddsCleanly(s, prefix);
      MergeForeignAddsAll(s, prefix);
      assert items[|items| - 1].id !in MergeAll(s, prefix).0.byId;
    }
  }

  /** MergeAll's last step: the merge of the prefix, then one merge step for the last item. */
  lemma MergeAllLast(s: State, items: seq<Item>)
    requires items != []
    ensures var (s1, n1) := MergeAll(s, items[..|items| - 1]);
      var (s2, n2) := MergeItem(s1, items[|items| - 1]);
      MergeAll(s, items).0 == s2 && MergeAll(s, items).1 == n1 + n2
  {
  }

  /** Readded's last step: the entries of the prefix, then the last item's entry. */
  lemma ReaddedLast(c: nat, items: seq<Item>)
    requires items != []
    ensures var x := items[|items| - 1];
      var id := FormatId(c + |items| - 1);
      Readded(c, items) == Readded(c, items[..|items| - 1])[id := Item(id, x.name, x.category, x.quantity)]
  {
  }

  /** Merging items that go in cleanly advances the counter by the number merged. */
  lemma {:induction false} MergeReaddsCounter(s: State, items: seq<Item>)
    requires ReaddsCleanly(s, items)
    ensures MergeAll(s, items).0.idCounter == s.idCounter + |items|
    decreases |items|
  {
    if items != [] {
      var prefix := items[..|items| - 1];
      MergeReaddsCounter(s, prefix);
      MergeForeignStep(MergeAll(s, prefix).0, items[|items| - 1]);
    }
  }

  /** The induction step of MergeForeignReadds, on states: one clean merge step adds the next re-added entry. */
  lemma ReaddsMapStep(base: map<string, Item>, c: nat, items: seq<Item>, s1: State)
    requires items != []
    requires s1.byId == base + Readded(c, items[..|items| - 1])
    requires s1.idCounter == c + |items| - 1
    requires items[|items| - 1].id !in s1.byId && items[|items| - 1].category in CATEGORIES
    ensures MergeItem(s1, items[|items| - 1]).0.byId == base + Readded(c, items)
  {
    var x := items[|items| - 1];
    MergeForeignStep(s1, x);
    var id := FormatId(c + |items| - 1);
    ReaddedLast(c, items);
    UpdateAfterUnion(base, Readded(c, items[..|items| - 1]), id, Item(id, x.name, x.category, x.quantity));
  }

  /** Merging items that go in cleanly leaves the old items plus the re-added ones. */
  lemma {:induction false} MergeForeignReadds(s: State, items: seq<Item>)
    requires ReaddsCleanly(s, items)
    ensures MergeAll(s, items).0.byId == s.byId + Readded(s.idCounter, items)
    decreases |items|
  {
    if items != [] {
      var prefix := items[..|items| - 1];
      MergeForeignReadds(s, prefix);
      MergeReaddsCounter(s, prefix);
      ReaddsMapStep(s.byId, s.idCounter, items, MergeAll(s, prefix).0);
      MergeAllLast(s, items);
    }
  }

  /** The induction step of MergeReaddsNotices, on states: one clean merge step raises the next re-add notice. */
  lemma ReaddsNoticesStep(c: nat, items: seq<Item>, s1: State)
    requires items != []
    requires s1.idCounter == c + |items| - 1
    requires items[|items| - 1].id !in s1.byId && items[|items| - 1].category in CATEGORIES
    ensures ReaddedNotices(c, s1.restockThreshold, items) ==
      ReaddedNotices(c, s1.restockThreshold, items[..|items| - 1]) + MergeItem(s1, items[|items| - 1]).1
  {
    MergeForeignStep(s1, items[|items| - 1]);
  }

  /** Merging items that go in cleanly raises the re-add notices, in order. */
  lemma {:induction false} MergeReaddsNotices(s: State, items: seq<Item>)
    requires ReaddsCleanly(s, items)
    ensures MergeAll(s, items).1 == ReaddedNotices(s.idCounter, s.restockThreshold, items)
    decreases |items|
  {
    if items != [] {
      var prefix := items[..|items| - 1];
      MergeReaddsNotices(s, prefix);
      MergeReaddsCounter(s, prefix);
      ReaddsNoticesStep(s.idCounter, items, MergeAll(s, prefix).0);
      MergeAllLast(s, items);
    }
  }

  /** `byId` holds the i-th of `items` under the identifier minted from `c + i`, with its own name, category and quantity. */
  ghost predicate StoresReadded(byId: map<string, Item>, c: nat, items: seq<Item>)
  {
    forall n :: c <= n < c + |items| ==>
      && FormatId(n) in byId
      && byId[FormatId(n)] == Item(FormatId(n), items[n - c].name, items[n - c].category, items[n - c].quantity)
  }

  /** The induction step of ReaddedEntries. */
  lemma ReaddedEntriesStep(m: map<string, Item>, c: nat, prefix: seq<Item>, x: Item, items: seq<Item>)
    requires forall n :: c <= n < c + |prefix| ==>
      FormatId(n) in m && m[FormatId(n)] == Item(FormatId(n), prefix[n - c].name, prefix[n - c].category, prefix[n - c].quantity)
    requires items == prefix + [x]
    ensures var m' := m[FormatId(c + |prefix|) := Item(FormatId(c + |prefix|), x.name, x.category, x.quantity)];
      forall n :: c <= n < c + |items| ==>
        FormatId(n) in m' && m'[FormatId(n)] == Item(FormatId(n), items[n - c].name, items[n - c].category, items[n - c].quantity)
  {
    var m' := m[FormatId(c + |prefix|) := Item(FormatId(c + |prefix|), x.name, x.category, x.quantity)];
    forall n | c <= n < c + |items|
      ensures FormatId(n) in m'
      ensures m'[FormatId(n)] == Item(FormatId(n), items[n - c].name, items[n - c].category, items[n - c].quantity)
    {
      if n < c + |prefix| {
        FormatIdInjective(n, c + |prefix|);
        assert items[n - c] == prefix[n - c];
      } else {
        assert items[n - c] == x;
      }
    }
  }

  /** The i-th re-added item is stored under the identifier minted from `c + i`, with its own name, category and quantity. */
  lemma {:induction false} ReaddedEntries(c: nat, items: seq<Item>)
    ensures forall n :: c <= n < c + |items| ==>
      && FormatId(n) in Readded(c, items)
      && Readded(c, items)[FormatId(n)] == Item(FormatId(n), items[n - c].name, items[n - c].category, items[n - c].quantity)
    decreases |items|
  {
    if items != [] {
      var prefix := items[..|items| - 1];
      ReaddedEntries(c, prefix);
      ReaddedEntriesStep(Readded(c, prefix), c, prefix, items[|items| - 1], items);
    }
  }

  /** The notices re-adding raises: one per item below the threshold, naming it and its new identifier. */
  lemma {:induction false} ReaddedNoticesMembers(c: nat, threshold: int, items: seq<Item>)
    ensures forall nt :: nt in ReaddedNotices(c, threshold, items) <==>
      (exists i :: 0 <= i < |items| && items[i].quantity < threshold && nt == Restock(items[i].name, FormatId(c + i)))
    decreases |items|
  {
    if items != [] {
      var prefix := items[..|items| - 1];
      var x := items[|items| - 1];
      ReaddedNoticesMembers(c, threshold, prefix);
      var last := if x.quantity < threshold then [Restock(x.name, FormatId(c + |prefix|))] else [];
      assert ReaddedNotices(c, threshold, items) == ReaddedNotices(c, threshold, prefix) + last;
      NoticesStep(ReaddedNotices(c, threshold, prefix), last, c, threshold, prefix, x, items);
    }
  }

  /** The induction step of ReaddedNoticesMembers. */
  lemma NoticesStep(before: seq<Notification>, last: seq<Notification>, c: nat, threshold: int,
                    prefix: seq<Item>, x: Item, items: seq<Item>)
    requires items == prefix + [x]
    requires last == if x.quantity < threshold then [Restock(x.name, FormatId(c + |prefix|))] else []
    requires forall nt :: nt in before <==>
      (exists i :: 0 <= i < |prefix| && prefix[i].quantity < threshold && nt == Restock(prefix[i].name, FormatId(c + i)))
    ensures forall nt :: nt in before + last <==>
      (exists i :: 0 <= i < |items| && items[i].quantity < threshold && nt == Restock(items[i].name, FormatId(c + i)))
  {
    forall nt
      ensures nt in before + last <==>
        (exists i :: 0 <= i < |items| && items[i].quantity < threshold && nt == Restock(items[i].name, FormatId(c + i)))
    {
      if nt in before {
        var i :| 0 <= i < |prefix| && prefix[i].quantity < threshold && nt == Restock(prefix[i].name, FormatId(c + i));
        assert items[i] == prefix[i];
      } else if nt in last {
        assert items[|prefix|] == x;
      }
      if (exists i :: 0 <= i < |items| && items[i].quantity < threshold && nt == Restock(items[i].name, FormatId(c + i))) {
        var i :| 0 <= i < |items| && items[i].quantity < threshold && nt == Restock(items[i].name, FormatId(c + i));
        if i < |prefix| {
          assert items[i] == prefix[i];
        }
      }
    }
  }

  /** A merge that re-adds `items` stores and announces each of them as ReaddedEntries and ReaddedNoticesMembers say. */
  lemma MergeReaddedEntries(s: State, items: seq<Item>)
    requires MergeAll(s, items).0.byId == s.byId + Readded(s.idCounter, items)
    requires MergeAll(s, items).1 == ReaddedNotices(s.idCounter, s.restockThreshold, items)
    ensures var (s', notices) := MergeAll(s, items);
      && StoresReadded(s'.byId, s.idCounter, items)
      && (forall nt :: nt in notices <==>
            (exists i :: 0 <= i < |items| && items[i].quantity < s.restockThreshold &&
               nt == Restock(items[i].name, FormatId(s.idCounter + i))))
  {
    ReaddedEntries(s.idCounter, items);
    ReaddedNoticesMembers(s.idCounter, s.restockThreshold, items);
  }

  /**
    Merging foreign items re-adds each through the ordinary add: the i-th
    is stored under the identifier minted from the old counter plus i, with
    its own name, category and quantity, and the notices raised are exactly
    one per item below the threshold, naming it and its new identifier.
   */
  lemma MergeForeignEntries(s: State, items: seq<Item>)
    requires Inv(s)
    requires forall i :: 0 <= i < |items| ==>
      items[i].category in CATEGORIES && Foreign(s, items[i].id)
    ensures var (s', notices) := MergeAll(s, items);
      && StoresReadded(s'.byId, s.idCounter, items)
      && (forall nt :: nt in notices <==>
            (exists i :: 0 <= i < |items| && items[i].quantity < s.restockThreshold &&
               nt == Restock(items[i].name, FormatId(s.idCounter + i))))
  {
    ForeignReaddsCleanly(s, items);
    MergeForeignReadds(s, items);
    MergeReaddsNotices(s, items);
    MergeReaddedEntries(s, items);
  }

  /** Entries a second merge keeps stay where the first merge stored them. */
  lemma KeptStoresReadded(once: map<string, Item>, twice: map<string, Item>, c: nat, items: seq<Item>)
    requires StoresReadded(once, c, items)
    requires forall k :: k in once ==> k in twice && twice[k] == once[k]
    ensures StoresReadded(twice, c, items)
  {
  }

  /** Two merges that each add `items` after the other leave both copies in the store. */
  lemma TwiceStoresBoth(s: State, once: State, twice: State, items: seq<Item>)
    requires once.idCounter == s.idCounter + |items|
    requires |once.byId| == |s.byId| + |items| && |twice.byId| == |once.byId| + |items|
    requires StoresReadded(once.byId, s.idCounter, items)
    requires forall k :: k in once.byId ==> k in twice.byId && twice.byId[k] == once.byId[k]
    requires StoresReadded(twice.byId, once.idCounter, items)
    ensures |twice.byId| == |s.byId| + 2 * |items|
    ensures StoresReadded(twice.byId, s.idCounter, items)
    ensures StoresReadded(twice.byId, s.idCounter + |items|, items)
  {
    KeptStoresReadded(once.byId, twice.byId, s.idCounter, items);
  }

  /**
    Merging the same foreign items twice adds them twice: after both merges
    the i-th item is stored both under the identifier minted from the old
    counter plus i and under the one minted `|items|` later, and the store
    holds `2 * |items|` more items than before.
   */
  lemma MergeForeignTwiceDuplicates(s: State, items: seq<Item>)
    requires Inv(s)
    requires forall i :: 0 <= i < |items| ==>
      items[i].category in CATEGORIES && Foreign(s, items[i].id)
    ensures var twice := MergeAll(MergeAll(s, items).0, items).0;
      && |twice.byId| == |s.byId| + 2 * |items|
      && StoresReadded(twice.byId, s.idCounter, items)
      && StoresReadded(twice.byId, s.idCounter + |items|, items)
  {
    var once := MergeAll(s, items).0;
    var twice := MergeAll(once, items).0;
    assert StoresReadded(once.byId, s.idCounter, items) by {
      MergeForeignEntries(s, items);
    }
    assert once.idCounter == s.idCounter + |items| && |once.byId| == |s.byId| + |items| && Inv(once)
      && forall i :: 0 <= i < |items| ==> items[i].category in CATEGORIES && Foreign(once, items[i].id)
    by {
      MergeForeignAddsAll(s, items);
      MergeAllPreservesInv(s, items);
    }
    assert |twice.byId| == |once.byId| + |items| && forall k :: k in once.byId ==> k in twice.byId && twice.byId[k] == once.byId[k]
    by {
      MergeForeignAddsAll(once, items);
    }
    assert StoresReadded(twice.byId, once.idCounter, items) by {
      MergeForeignEntries(once, items);
    }
    TwiceStoresBoth(s, once, twice, items);
  }

  /**
    The store's own items survive any merge with their identifier, name and
    category, never lose quantity, and are unchanged when no merged item
    carries their identifier.
   */
  lemma {:induction false} MergeKeepsOwnItems(s: State, items: seq<Item>)
    requires IdsMinted(s)
    ensures var s' := MergeAll(s, items).0;
      forall k :: k in s.byId ==>
        && k in s'.byId
        && s'.byId[k] == s.byId[k].(quantity := s'.byId[k].quantity)
        && s'.byId[k].quantity >= s.byId[k].quantity
        && ((forall i :: 0 <= i < |items| ==> items[i].id != k) ==> s'.byId[k] == s.byId[k])
    decreases |items|
  {
    if items != [] {
      var prefix := items[..|items| - 1];
      var x := items[|items| - 1];
      MergeKeepsOwnItems(s, prefix);
      var s1 := MergeAll(s, prefix).0;
      var s' := MergeAll(s, items).0;
      assert s' == MergeItem(s1, x).0;
      if x.id !in s1.byId {
        MergeAllKeepsIdsMinted(s, prefix);
        FreshIdAbsent(s1);
      }
      forall k | k in s.byId
        ensures k in s'.byId
        ensures s'.byId[k] == s.byId[k].(quantity := s'.byId[k].quantity)
        ensures s'.byId[k].quantity >= s.byId[k].quantity
        ensures (forall i :: 0 <= i < |items| ==> items[i].id != k) ==> s'.byId[k] == s.byId[k]
      {
        assert k in s1.byId;
        if forall i :: 0 <= i < |items| ==> items[i].id != k {
          assert forall i :: 0 <= i < |prefix| ==> prefix[i].id != k;
          assert x.id != k;
        }
      }
    }
  }

  /** The store that the interactive merge builds: threshold 10, one item "New Item" in Electronics with quantity 50. */
  function DemoStore(): (s: State)
    ensures Inv(s) && s.byId == map[FormatId(1) := Item(FormatId(1), "New Item", "Electronics", 50)]
  {
    AddPreservesInv(Empty(10), "New Item", "Electronics", 50);
    Add(Empty(10), "New Item", "Electronics", 50).0
  }

  /**
    Two stores mint identifiers from counters that both start at 1, so their
    identifiers collide: merging the demo store into any store that holds
    ID1 adds nothing and instead raises that unrelated item's quantity to at
    least 50, keeping its name and category.
   */
  lemma DemoMergeCollides(s: State, order: seq<Item>)
    requires FormatId(1) in s.byId
    requires Enumerates(order, DemoStore().byId)
    ensures var (s', n) := MergeAll(s, order);
      && n == []
      && s'.byId.Keys == s.byId.Keys
      && s'.byId[FormatId(1)] == s.byId[FormatId(1)].(quantity := Max(s.byId[FormatId(1)].quantity, 50))
  {
    var other := DemoStore().byId;
    assert |order| == 1;
    assert order[0] == other[FormatId(1)];
    assert order[..0] == [];
    var none: seq<Notification> := [];
    assert MergeAll(s, order) == (MergeItem(s, order[0]).0, none + none);
  }

  /**
    Merging the demo store's item twice into a new store adds it only once:
    the first merge mints ID1 for it, and the second finds ID1 held and
    keeps the larger quantity.
   */
  lemma DemoMergeTwiceAddsOnce()
    ensures var x := Item(FormatId(1), "New Item", "Electronics", 50);
      MergeAll(MergeAll(Empty(10), [x]).0, [x]).0.byId == map[FormatId(1) := x]
  {
    var x := Item(FormatId(1), "New Item", "Electronics", 50);
    assert [x][..0] == [];
    var once := MergeItem(Empty(10), x).0;
    assert MergeAll(Empty(10), [x]).0 == once;
    assert once.byId == map[FormatId(1) := x];
    assert MergeAll(once, [x]).0 == MergeItem(once, x).0;
  }

  /**
    An incoming identifier at or above the counter can collide with one the
    same merge mints: "ID9" is added as ID1, and the next item, which
    carries ID1, only raises that entry's quantity.
   */
  lemma MergeMintedCollision()
    ensures var (s', n) := MergeAll(Empty(10), [Item("ID9", "a", "Books", 1), Item(FormatId(1), "b", "Toys", 5)]);
      && s'.byId == map[FormatId(1) := Item(FormatId(1), "a", "Books", 5)]
      && n == [Restock("a", FormatId(1))]
  {
    var x := Item("ID9", "a", "Books", 1);
    var y := Item(FormatId(1), "b", "Toys", 5);
    var items := [x, y];
    assert items[..1] == [x] && items[..0] == [] && [x][..0] == [];
    assert x.id !in Empty(10).byId;
    var (s1, n1) := MergeItem(Empty(10), x);
    assert s1.byId == map[FormatId(1) := Item(FormatId(1), "a", "Books", 1)];
    assert n1 == [Restock("a", FormatId(1))];
    assert MergeAll(Empty(10), [x]) == (s1, [] + n1);
    assert MergeAll(Empty(10), items) == (MergeItem(s1, y).0, ([] + n1) + MergeItem(s1, y).1);
  }
}
