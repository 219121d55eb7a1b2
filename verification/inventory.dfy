/** The inventory store: items keyed by their lower-cased description, in
    insertion order, with the unsaved-changes flag and the current file. */
module InventoryStore {
  import opened Wrappers
  import opened Text
  import opened Items

  /** `make_key`'s tuple: (name, container, food_group, weight). */
  datatype Key = Key(name: string, container: string, foodGroup: string, weight: string)

  /** The key's four fields are lower-case. */
  predicate IsNormalizedKey(k: Key) {
    IsLower(k.name) && IsLower(k.container) && IsLower(k.foodGroup) && IsLower(k.weight)
  }

  /** `make_key`: the four descriptive fields, lower-cased. */
  function MakeKey(name: string, container: string, foodGroup: string, weight: string): (k: Key)
    ensures IsNormalizedKey(k)
    ensures IsNormalizedKey(Key(name, container, foodGroup, weight)) ==> k == Key(name, container, foodGroup, weight)
  {
    LowerIsLower(name);
    LowerIsLower(container);
    LowerIsLower(foodGroup);
    LowerIsLower(weight);
    Key(Lower(name), Lower(container), Lower(foodGroup), Lower(weight))
  }

  /** The key an item is filed under. */
  function KeyOf(it: Item): Key {
    Key(it.name, it.container, it.foodGroup, it.weight)
  }

  /** An item built from a description is filed under that description's key. */
  lemma KeyOfMakeItem(name: string, container: string, foodGroup: string, weight: string, quantity: int)
    ensures KeyOf(MakeItem(name, container, foodGroup, weight, quantity)) == MakeKey(name, container, foodGroup, weight)
  {
  }

  /** Keys ignore letter case. */
  lemma MakeKeyIgnoresCase(name: string, container: string, foodGroup: string, weight: string)
    ensures MakeKey(Lower(name), Lower(container), Lower(foodGroup), Lower(weight))
            == MakeKey(name, container, foodGroup, weight)
  {
    LowerIdempotent(name);
    LowerIdempotent(container);
    LowerIdempotent(foodGroup);
    LowerIdempotent(weight);
  }

  /** The store. Python's dict is a map that remembers insertion order, so
      it is a sequence of distinct keys beside a map from key to item. */
  datatype Inventory = Inventory(order: seq<Key>, items: map<Key, Item>, currentFile: Option<string>, changed: bool)

  predicate Distinct(s: seq<Key>) {
    forall i, j :: 0 <= i < j < |s| ==> s[i] != s[j]
  }

  /** What the dict guarantees: the order lists each stored key once, and
      every item sits under the key of its own lower-cased fields. */
  ghost predicate Valid(inv: Inventory) {
    && Distinct(inv.order)
    && (forall k :: k in inv.items <==> k in inv.order)
    && (forall k :: k in inv.items ==> KeyOf(inv.items[k]) == k && IsNormalizedKey(k))
  }

  /** `Inventory()`: no items, no file, nothing unsaved. */
  function EmptyInventory(): (inv: Inventory)
    ensures Valid(inv) && inv.items == map[] && inv.order == []
    ensures inv.currentFile == None && !inv.changed
  {
    Inventory([], map[], None, false)
  }

  function SetCurrentFile(inv: Inventory, filename: string): (r: Inventory)
    ensures r.currentFile == Some(filename)
    ensures r.order == inv.order && r.items == inv.items && r.changed == inv.changed
  {
    inv.(currentFile := Some(filename))
  }

  function CurrentFile(inv: Inventory): Option<string> {
    inv.currentFile
  }

  function SetChanged(inv: Inventory, value: bool): (r: Inventory)
    ensures r.changed == value
    ensures r.order == inv.order && r.items == inv.items && r.currentFile == inv.currentFile
  {
    inv.(changed := value)
  }

  function Changed(inv: Inventory): bool {
    inv.changed
  }

  /** Setting a field and reading it back gives what was set, and each
      setter leaves the other field alone. */
  lemma GetSetFlags(inv: Inventory, filename: string, value: bool)
    ensures CurrentFile(SetCurrentFile(inv, filename)) == Some(filename)
    ensures Changed(SetCurrentFile(inv, filename)) == Changed(inv)
    ensures Changed(SetChanged(inv, value)) == value
    ensures CurrentFile(SetChanged(inv, value)) == CurrentFile(inv)
  {
  }

  /** `add_item`: an item already stocked gains `quantity` and keeps its
      place; a new one is appended with exactly `quantity`. Either way the
      store is marked changed. */
  function AddItem(inv: Inventory, name: string, container: string, foodGroup: string, weight: string, quantity: int): (r: Inventory)
    ensures var k := MakeKey(name, container, foodGroup, weight);
            && k in r.items
            && r.items[k].quantity == (if k in inv.items then inv.items[k].quantity else 0) + quantity
            && (k in inv.items ==> r.order == inv.order && KeyOf(r.items[k]) == KeyOf(inv.items[k]))
            && (k !in inv.items ==> r.order == inv.order + [k] && KeyOf(r.items[k]) == k)
            && (forall k' :: k' != k ==> (k' in r.items <==> k' in inv.items))
            && (forall k' :: k' != k && k' in inv.items ==> r.items[k'] == inv.items[k'])
    ensures r.changed && r.currentFile == inv.currentFile
  {
    var k := MakeKey(name, container, foodGroup, weight);
    if k in inv.items then
      var it := inv.items[k];
      inv.(items := inv.items[k := it.(quantity := it.quantity + quantity)], changed := true)
    else
      KeyOfMakeItem(name, container, foodGroup, weight, quantity);
      inv.(order := inv.order + [k],
           items := inv.items[k := MakeItem(name, container, foodGroup, weight, quantity)],
           changed := true)
  }

  /** The three ways `remove_item` ends. */
  datatype RemoveOutcome =
    | Removed            // stock reduced, and the entry dropped once it reaches 0
    | NotStocked         // no such item: nothing happens
    | Insufficient       // more requested than stocked: nothing happens

  /** `s` without the key `k`, order otherwise kept. */
  function Without(s: seq<Key>, k: Key): (r: seq<Key>)
    ensures forall x :: x in r <==> x in s && x != k
    ensures Distinct(s) ==> Distinct(r)
    ensures k !in s ==> r == s
    ensures |r| <= |s|
  {
    if s == [] then []
    else if s[0] == k then Without(s[1..], k)
    else
      var t := Without(s[1..], k);
      assert s[0] !in t || (s[0] in s[1..] && s[0] != k);
      [s[0]] + t
  }

  /** `remove_item`: an unknown item or a request for more than is stocked
      changes nothing. Otherwise the stock goes down by `quantity`; an entry
      left at 0 or below is deleted; the store is marked changed. */
  function RemoveItem(inv: Inventory, name: string, container: string, foodGroup: string, weight: string, quantity: int): (r: (Inventory, RemoveOutcome))
    ensures var k := MakeKey(name, container, foodGroup, weight);
            && (r.1 == NotStocked <==> k !in inv.items)
            && (r.1 == Insufficient <==> k in inv.items && quantity > inv.items[k].quantity)
            && (r.1 != Removed ==> r.0 == inv)
            && (r.1 == Removed ==>
                  && r.0.changed && r.0.currentFile == inv.currentFile
                  && (forall k' :: k' != k ==> (k' in r.0.items <==> k' in inv.items))
                  && (forall k' :: k' != k && k' in inv.items ==> r.0.items[k'] == inv.items[k'])
                  && (k in r.0.items <==> inv.items[k].quantity - quantity > 0)
                  && (k in r.0.items ==> r.0.items[k] == inv.items[k].(quantity := inv.items[k].quantity - quantity)
                                         && r.0.order == inv.order)
                  && (k !in r.0.items ==> r.0.order == Without(inv.order, k)))
  {
    var k := MakeKey(name, container, foodGroup, weight);
    if k !in inv.items then (inv, NotStocked)
    else
      var it := inv.items[k];
      if quantity > it.quantity then (inv, Insufficient)
      else
        var left := it.quantity - quantity;
        if left <= 0 then
          (inv.(order := Without(inv.order, k), items := inv.items - {k}, changed := true), Removed)
        else
          (inv.(items := inv.items[k := it.(quantity := left)], changed := true), Removed)
  }

  /** `add_item` keeps the dict's guarantees. */
  lemma AddItemValid(inv: Inventory, name: string, container: string, foodGroup: string, weight: string, quantity: int)
    requires Valid(inv)
    ensures Valid(AddItem(inv, name, container, foodGroup, weight, quantity))
  {
    var k := MakeKey(name, container, foodGroup, weight);
    if k in inv.items {
      AddStockedForm(inv, name, container, foodGroup, weight, quantity);
    } else {
      AddNewForm(inv, name, container, foodGroup, weight, quantity);
      KeyOfMakeItem(name, container, foodGroup, weight, quantity);
      assert k !in inv.order;
    }
  }

  /** `remove_item` keeps the dict's guarantees. */
  lemma RemoveItemValid(inv: Inventory, name: string, container: string, foodGroup: string, weight: string, quantity: int)
    requires Valid(inv)
    ensures Valid(RemoveItem(inv, name, container, foodGroup, weight, quantity).0)
  {
  }

  lemma AddStockedForm(inv: Inventory, name: string, container: string, foodGroup: string, weight: string, quantity: int)
    requires MakeKey(name, container, foodGroup, weight) in inv.items
    ensures var k := MakeKey(name, container, foodGroup, weight);
            var it := inv.items[k];
            AddItem(inv, name, container, foodGroup, weight, quantity)
            == inv.(items := inv.items[k := it.(quantity := it.quantity + quantity)], changed := true)
  {
  }

  lemma AddNewForm(inv: Inventory, name: string, container: string, foodGroup: string, weight: string, quantity: int)
    requires MakeKey(name, container, foodGroup, weight) !in inv.items
    ensures var k := MakeKey(name, container, foodGroup, weight);
            AddItem(inv, name, container, foodGroup, weight, quantity)
            == inv.(order := inv.order + [k],
                    items := inv.items[k := MakeItem(name, container, foodGroup, weight, quantity)],
                    changed := true)
  {
  }

  /** The items in the order of `order`; keys without an item are passed
      over. */
  function ItemsOf(order: seq<Key>, items: map<Key, Item>): (r: seq<Item>)
    ensures |r| <= |order|
    ensures (forall k :: k in order ==> k in items) ==> |r| == |order|
    ensures (forall k :: k in order ==> k in items) ==> forall i :: 0 <= i < |r| ==> r[i] == items[order[i]]
  {
    if order == [] then []
    else
      var rest := ItemsOf(order[1..], items);
      if order[0] in items then [items[order[0]]] + rest else rest
  }

  /** `get_all_items`: the stored items in insertion order. */
  function AllItems(inv: Inventory): seq<Item> {
    ItemsOf(inv.order, inv.items)
  }

  function SumQuantities(s: seq<Item>): int {
    if s == [] then 0 else s[0].quantity + SumQuantities(s[1..])
  }

  /** `get_total_quantity`: the sum of every stocked quantity, 0 when empty. */
  function TotalQuantity(inv: Inventory): int {
    SumQuantities(AllItems(inv))
  }

  /** `get_total_unique_items`: the number of stored keys. */
  function UniqueCount(inv: Inventory): nat {
    |inv.items|
  }

  lemma {:induction false} SumAppend(a: seq<Item>, b: seq<Item>)
    ensures SumQuantities(a + b) == SumQuantities(a) + SumQuantities(b)
    decreases |a|
  {
    if a == [] {
      assert a + b == b;
    } else {
      assert (a + b)[1..] == a[1..] + b;
      SumAppend(a[1..], b);
    }
  }

  /** The tail of a repetition-free order is repetition-free and lacks the
      head. */
  lemma DistinctTail(s: seq<Key>)
    requires Distinct(s) && s != []
    ensures Distinct(s[1..]) && s[0] !in s[1..]
  {
    var t := s[1..];
    forall i, j | 0 <= i < j < |t| ensures t[i] != t[j] {
      assert t[i] == s[i + 1] && t[j] == s[j + 1];
    }
    forall i | 0 <= i < |t| ensures t[i] != s[0] {
      assert t[i] == s[i + 1];
    }
  }

  lemma {:induction false} DistinctCard(s: seq<Key>)
    requires Distinct(s)
    ensures |set k | k in s| == |s|
    decreases |s|
  {
    if s != [] {
      var t := s[1..];
      DistinctTail(s);
      DistinctCard(t);
      assert (set k | k in s) == (set k | k in t) + {s[0]};
    }
  }

  /** A valid store has as many keys as its order has entries. */
  lemma OrderCount(inv: Inventory)
    requires Valid(inv)
    ensures |inv.items| == |inv.order|
  {
    DistinctCard(inv.order);
    assert inv.items.Keys == set k | k in inv.order;
  }

  /** Every stored item appears in `get_all_items` exactly once, so its length
      is the unique-item count. */
  lemma AllItemsSize(inv: Inventory)
    requires Valid(inv)
    ensures |AllItems(inv)| == |inv.order| == UniqueCount(inv)
    ensures forall it :: it in AllItems(inv) ==> it in inv.items.Values
    ensures forall k :: k in inv.items ==> inv.items[k] in AllItems(inv)
  {
    OrderCount(inv);
    ListedAreStored(inv);
    StoredAreListed(inv);
  }

  /** `get_all_items` lists the stored items in insertion order: entry `i`
      is the item stored under the `i`-th key of the order. */
  lemma AllItemsInOrder(inv: Inventory)
    requires Valid(inv)
    ensures |AllItems(inv)| == |inv.order|
    ensures forall i :: 0 <= i < |inv.order| ==> AllItems(inv)[i] == inv.items[inv.order[i]]
  {
  }

  /** With no negative stock, a sum of stocks is at least each one of them. */
  lemma {:induction false} SumBoundsEach(s: seq<Item>)
    requires forall i :: 0 <= i < |s| ==> s[i].quantity >= 0
    ensures SumQuantities(s) >= 0
    ensures forall i :: 0 <= i < |s| ==> s[i].quantity <= SumQuantities(s)
    decreases |s|
  {
    if s != [] {
      SumBoundsEach(s[1..]);
      assert forall i :: 1 <= i < |s| ==> s[i] == s[1..][i - 1];
    }
  }

  /** `get_total_quantity` adds up every stored item: with no negative stock
      the total is not negative and no item holds more than the total. */
  lemma TotalBoundsEachStock(inv: Inventory)
    requires Valid(inv)
    requires forall k :: k in inv.items ==> inv.items[k].quantity >= 0
    ensures TotalQuantity(inv) >= 0
    ensures forall k :: k in inv.items ==> inv.items[k].quantity <= TotalQuantity(inv)
  {
    var r := AllItems(inv);
    AllItemsInOrder(inv);
    assert forall i :: 0 <= i < |r| ==> r[i].quantity >= 0 by {
      forall i | 0 <= i < |r|
        ensures r[i].quantity >= 0
      {
        assert inv.order[i] in inv.items;
      }
    }
    SumBoundsEach(r);
    forall k | k in inv.items
      ensures inv.items[k].quantity <= TotalQuantity(inv)
    {
      var i :| 0 <= i < |inv.order| && inv.order[i] == k;
      assert r[i] == inv.items[k];
    }
  }

  lemma ListedAreStored(inv: Inventory)
    requires Valid(inv)
    ensures forall it :: it in AllItems(inv) ==> it in inv.items.Values
  {
    var r := AllItems(inv);
    forall it | it in r
      ensures it in inv.items.Values
    {
      var i :| 0 <= i < |r| && r[i] == it;
      assert inv.order[i] in inv.items;
    }
  }

  lemma StoredAreListed(inv: Inventory)
    requires Valid(inv)
    ensures forall k :: k in inv.items ==> inv.items[k] in AllItems(inv)
  {
    var r := AllItems(inv);
    forall k | k in inv.items
      ensures inv.items[k] in r
    {
      var i :| 0 <= i < |inv.order| && inv.order[i] == k;
      assert r[i] == inv.items[k];
    }
  }

  /** Every item the store lists is lower-cased. */
  lemma AllItemsNormalized(inv: Inventory)
    requires Valid(inv)
    ensures forall it :: it in AllItems(inv) ==> IsNormalized(it)
  {
    AllItemsSize(inv);
  }

  /** Items listed from a key order, with one key's item replaced. */
  lemma {:induction false} SumUpdate(order: seq<Key>, items: map<Key, Item>, k: Key, it: Item)
    requires Distinct(order) && k in order
    requires forall x :: x in order ==> x in items
    ensures SumQuantities(ItemsOf(order, items[k := it]))
            == SumQuantities(ItemsOf(order, items)) - items[k].quantity + it.quantity
    decreases |order|
  {
    var t := order[1..];
    DistinctTail(order);
    if order[0] == k {
      SameItemsOf(t, items, items[k := it]);
    } else {
      SumUpdate(t, items, k, it);
    }
  }

  /** Two maps that agree on the listed keys list the same items. */
  lemma {:induction false} SameItemsOf(order: seq<Key>, a: map<Key, Item>, b: map<Key, Item>)
    requires forall x :: x in order ==> (x in a <==> x in b) && (x in a ==> a[x] == b[x])
    ensures ItemsOf(order, a) == ItemsOf(order, b)
    decreases |order|
  {
    if order != [] {
      SameItemsOf(order[1..], a, b);
    }
  }

  /** Listing a key order without `k`, from a map without `k`. */
  lemma {:induction false} SumWithout(order: seq<Key>, items: map<Key, Item>, k: Key)
    requires Distinct(order) && k in order
    requires forall x :: x in order ==> x in items
    ensures SumQuantities(ItemsOf(Without(order, k), items - {k}))
            == SumQuantities(ItemsOf(order, items)) - items[k].quantity
    decreases |order|
  {
    var t := order[1..];
    DistinctTail(order);
    if order[0] == k {
      assert Without(t, k) == t;
      SameItemsOf(t, items - {k}, items);
    } else {
      SumWithout(t, items, k);
    }
  }

  /** `ItemsOf` of an order with a key appended. */
  lemma {:induction false} ItemsOfAppend(order: seq<Key>, items: map<Key, Item>, k: Key)
    requires k in items
    ensures ItemsOf(order + [k], items) == ItemsOf(order, items) + [items[k]]
    decreases |order|
  {
    if order == [] {
      assert order + [k] == [k];
    } else {
      assert (order + [k])[1..] == order[1..] + [k];
      ItemsOfAppend(order[1..], items, k);
    }
  }

  /** `add_item` on a stocked item: one more lot of `quantity` in the total,
      the same number of distinct items. */
  lemma AddExistingTotals(inv: Inventory, name: string, container: string, foodGroup: string, weight: string, quantity: int)
    requires Valid(inv) && MakeKey(name, container, foodGroup, weight) in inv.items
    ensures var r := AddItem(inv, name, container, foodGroup, weight, quantity);
            && TotalQuantity(r) == TotalQuantity(inv) + quantity
            && UniqueCount(r) == UniqueCount(inv)
  {
    var k := MakeKey(name, container, foodGroup, weight);
    var it := inv.items[k];
    var r' := inv.(items := inv.items[k := it.(quantity := it.quantity + quantity)], changed := true);
    assert AddItem(inv, name, container, foodGroup, weight, quantity) == r' by {
      AddStockedForm(inv, name, container, foodGroup, weight, quantity);
    }
    assert TotalQuantity(r') == TotalQuantity(inv) + quantity && UniqueCount(r') == UniqueCount(inv) by {
      UpdateTotals(inv, k, it.(quantity := it.quantity + quantity));
    }
  }

  /** `add_item` on a new item: it is listed last, the total grows by
      `quantity` and the count by one. */
  lemma AddNewTotals(inv: Inventory, name: string, container: string, foodGroup: string, weight: string, quantity: int)
    requires Valid(inv) && MakeKey(name, container, foodGroup, weight) !in inv.items
    ensures var r := AddItem(inv, name, container, foodGroup, weight, quantity);
            && AllItems(r) == AllItems(inv) + [MakeItem(name, container, foodGroup, weight, quantity)]
            && TotalQuantity(r) == TotalQuantity(inv) + quantity
            && UniqueCount(r) == UniqueCount(inv) + 1
  {
    var k := MakeKey(name, container, foodGroup, weight);
    AddNewForm(inv, name, container, foodGroup, weight, quantity);
    AppendTotals(inv, k, MakeItem(name, container, foodGroup, weight, quantity));
  }

  /** Filing an item under a new key lists it last and adds its stock to
      the total and one to the count. */
  lemma AppendTotals(inv: Inventory, k: Key, it: Item)
    requires Valid(inv) && k !in inv.items
    ensures var r := inv.(order := inv.order + [k], items := inv.items[k := it], changed := true);
            && AllItems(r) == AllItems(inv) + [it]
            && TotalQuantity(r) == TotalQuantity(inv) + it.quantity
            && UniqueCount(r) == UniqueCount(inv) + 1
  {
    var items' := inv.items[k := it];
    assert AllItems(inv) == ItemsOf(inv.order, items') by {
      SameItemsOf(inv.order, inv.items, items');
    }
    ItemsOfAppend(inv.order, items', k);
    SumAppend(AllItems(inv), [it]);
    MapAddCard(inv.items, k, it);
  }

  lemma MapAddCard(m: map<Key, Item>, k: Key, it: Item)
    requires k !in m
    ensures |m[k := it]| == |m| + 1
  {
    assert m[k := it].Keys == m.Keys + {k};
  }

  /** A successful `remove_item` takes exactly `quantity` off the total, and
      removes the entry from the count exactly when its stock was
      `quantity`. */
  lemma RemoveTotals(inv: Inventory, name: string, container: string, foodGroup: string, weight: string, quantity: int)
    requires Valid(inv)
    ensures var res := RemoveItem(inv, name, container, foodGroup, weight, quantity);
            var k := MakeKey(name, container, foodGroup, weight);
            && (res.1 == Removed ==> TotalQuantity(res.0) == TotalQuantity(inv) - quantity)
            && (res.1 == Removed ==> UniqueCount(res.0) == if inv.items[k].quantity == quantity then UniqueCount(inv) - 1 else UniqueCount(inv))
            && (res.1 != Removed ==> res.0 == inv)
  {
    var k := MakeKey(name, container, foodGroup, weight);
    if k in inv.items && quantity <= inv.items[k].quantity {
      if inv.items[k].quantity - quantity <= 0 {
        RemoveDeletesTotals(inv, name, container, foodGroup, weight, quantity);
      } else {
        RemoveReducesTotals(inv, name, container, foodGroup, weight, quantity);
      }
    }
  }

  lemma RemoveDeletesTotals(inv: Inventory, name: string, container: string, foodGroup: string, weight: string, quantity: int)
    requires Valid(inv)
    requires var k := MakeKey(name, container, foodGroup, weight);
             k in inv.items && quantity <= inv.items[k].quantity && inv.items[k].quantity - quantity <= 0
    ensures var r := RemoveItem(inv, name, container, foodGroup, weight, quantity).0;
            TotalQuantity(r) == TotalQuantity(inv) - quantity && UniqueCount(r) == UniqueCount(inv) - 1
  {
    RemoveDeleteForm(inv, name, container, foodGroup, weight, quantity);
    DeleteTotals(inv, MakeKey(name, container, foodGroup, weight));
  }

  lemma RemoveReducesTotals(inv: Inventory, name: string, container: string, foodGroup: string, weight: string, quantity: int)
    requires Valid(inv)
    requires var k := MakeKey(name, container, foodGroup, weight);
             k in inv.items && quantity <= inv.items[k].quantity && inv.items[k].quantity - quantity > 0
    ensures var r := RemoveItem(inv, name, container, foodGroup, weight, quantity).0;
            TotalQuantity(r) == TotalQuantity(inv) - quantity && UniqueCount(r) == UniqueCount(inv)
  {
    var k := MakeKey(name, container, foodGroup, weight);
    var it := inv.items[k];
    var r := inv.(items := inv.items[k := it.(quantity := it.quantity - quantity)], changed := true);
    assert RemoveItem(inv, name, container, foodGroup, weight, quantity).0 == r by {
      RemoveUpdateForm(inv, name, container, foodGroup, weight, quantity);
    }
    assert TotalQuantity(r) == TotalQuantity(inv) - quantity && UniqueCount(r) == UniqueCount(inv) by {
      UpdateTotals(inv, k, it.(quantity := it.quantity - quantity));
    }
  }

  lemma RemoveDeleteForm(inv: Inventory, name: string, container: string, foodGroup: string, weight: string, quantity: int)
    requires var k := MakeKey(name, container, foodGroup, weight);
             k in inv.items && quantity <= inv.items[k].quantity && inv.items[k].quantity - quantity <= 0
    ensures var k := MakeKey(name, container, foodGroup, weight);
            RemoveItem(inv, name, container, foodGroup, weight, quantity)
            == (inv.(order := Without(inv.order, k), items := inv.items - {k}, changed := true), Removed)
  {
  }

  lemma RemoveUpdateForm(inv: Inventory, name: string, container: string, foodGroup: string, weight: string, quantity: int)
    requires var k := MakeKey(name, container, foodGroup, weight);
             k in inv.items && quantity <= inv.items[k].quantity && inv.items[k].quantity - quantity > 0
    ensures var k := MakeKey(name, container, foodGroup, weight);
            var it := inv.items[k];
            RemoveItem(inv, name, container, foodGroup, weight, quantity)
            == (inv.(items := inv.items[k := it.(quantity := it.quantity - quantity)], changed := true), Removed)
  {
  }

  /** Deleting an entry takes its stock off the total and one off the count. */
  lemma DeleteTotals(inv: Inventory, k: Key)
    requires Valid(inv) && k in inv.items
    ensures var r := inv.(order := Without(inv.order, k), items := inv.items - {k}, changed := true);
            && TotalQuantity(r) == TotalQuantity(inv) - inv.items[k].quantity
            && UniqueCount(r) == UniqueCount(inv) - 1
  {
    SumWithout(inv.order, inv.items, k);
    MapRemoveCard(inv.items, k);
  }

  lemma MapRemoveCard(m: map<Key, Item>, k: Key)
    requires k in m
    ensures |m - {k}| == |m| - 1
  {
    assert (m - {k}).Keys == m.Keys - {k};
  }

  /** Replacing an entry's item changes the total by the difference and
      leaves the count. */
  lemma UpdateTotals(inv: Inventory, k: Key, it: Item)
    requires Valid(inv) && k in inv.items
    ensures var r := inv.(items := inv.items[k := it], changed := true);
            && TotalQuantity(r) == TotalQuantity(inv) - inv.items[k].quantity + it.quantity
            && UniqueCount(r) == UniqueCount(inv)
  {
    SumUpdate(inv.order, inv.items, k, it);
    MapUpdateCard(inv.items, k, it);
  }

  lemma MapUpdateCard(m: map<Key, Item>, k: Key, it: Item)
    requires k in m
    ensures |m[k := it]| == |m|
  {
    assert m[k := it].Keys == m.Keys;
  }

  /** Adding a lot and removing the same lot again restores the total, and
      the count too unless the item was already stocked at 0 (the removal
      then deletes it). A stocked quantity below 0 makes the removal ask for
      more than is there. */
  lemma AddThenRemove(inv: Inventory, name: string, container: string, foodGroup: string, weight: string, quantity: int)
    requires Valid(inv)
    requires var k := MakeKey(name, container, foodGroup, weight);
             k in inv.items ==> inv.items[k].quantity >= 0
    ensures var k := MakeKey(name, container, foodGroup, weight);
            var res := RemoveItem(AddItem(inv, name, container, foodGroup, weight, quantity),
                                  name, container, foodGroup, weight, quantity);
            && res.1 == Removed
            && TotalQuantity(res.0) == TotalQuantity(inv)
            && (k !in inv.items || inv.items[k].quantity > 0 ==> UniqueCount(res.0) == UniqueCount(inv))
            && (k !in inv.items ==> res.0.order == inv.order && res.0.items == inv.items)
  {
    var k := MakeKey(name, container, foodGroup, weight);
    if k in inv.items {
      AddThenRemoveStocked(inv, name, container, foodGroup, weight, quantity);
    } else {
      AddThenRemoveNew(inv, name, container, foodGroup, weight, quantity);
    }
  }

  /** A negative stock (a CSV row can load one) is the exception: after
      adding `quantity`, taking the same amount off asks for more than is
      stocked, so the removal is refused and the addition stays. */
  lemma AddThenRemoveNegative(inv: Inventory, name: string, container: string, foodGroup: string, weight: string, quantity: int)
    requires var k := MakeKey(name, container, foodGroup, weight);
             k in inv.items && inv.items[k].quantity < 0
    ensures var a := AddItem(inv, name, container, foodGroup, weight, quantity);
            RemoveItem(a, name, container, foodGroup, weight, quantity) == (a, Insufficient)
  {
  }

  lemma AddThenRemoveStocked(inv: Inventory, name: string, container: string, foodGroup: string, weight: string, quantity: int)
    requires Valid(inv)
    requires var k := MakeKey(name, container, foodGroup, weight);
             k in inv.items && inv.items[k].quantity >= 0
    ensures var k := MakeKey(name, container, foodGroup, weight);
            var res := RemoveItem(AddItem(inv, name, container, foodGroup, weight, quantity),
                                  name, container, foodGroup, weight, quantity);
            && res.1 == Removed
            && TotalQuantity(res.0) == TotalQuantity(inv)
            && (inv.items[k].quantity > 0 ==> UniqueCount(res.0) == UniqueCount(inv))
  {
    var k := MakeKey(name, container, foodGroup, weight);
    AddStockedForm(inv, name, container, foodGroup, weight, quantity);
    if inv.items[k].quantity > 0 {
      RemoveRestocked(inv, name, container, foodGroup, weight, quantity);
    } else {
      RemoveRestockedEmpty(inv, name, container, foodGroup, weight, quantity);
      DeleteTotals(inv, k);
    }
  }

  /** Taking `quantity` back off a stock raised by `quantity` restores it. */
  lemma RemoveRestocked(inv: Inventory, name: string, container: string, foodGroup: string, weight: string, quantity: int)
    requires var k := MakeKey(name, container, foodGroup, weight);
             k in inv.items && inv.items[k].quantity > 0
    ensures var k := MakeKey(name, container, foodGroup, weight);
            var it := inv.items[k];
            var a := inv.(items := inv.items[k := it.(quantity := it.quantity + quantity)], changed := true);
            RemoveItem(a, name, container, foodGroup, weight, quantity) == (inv.(changed := true), Removed)
  {
    var k := MakeKey(name, container, foodGroup, weight);
    var it := inv.items[k];
    var a := inv.(items := inv.items[k := it.(quantity := it.quantity + quantity)], changed := true);
    RemoveUpdateForm(a, name, container, foodGroup, weight, quantity);
    UpdateThenRestore(inv.items, k, it.(quantity := it.quantity + quantity));
  }

  lemma UpdateThenRestore(m: map<Key, Item>, k: Key, v: Item)
    requires k in m
    ensures m[k := v][k := m[k]] == m
  {
  }

  /** The same for a stock of 0: the entry goes. */
  lemma RemoveRestockedEmpty(inv: Inventory, name: string, container: string, foodGroup: string, weight: string, quantity: int)
    requires var k := MakeKey(name, container, foodGroup, weight);
             k in inv.items && inv.items[k].quantity == 0
    ensures var k := MakeKey(name, container, foodGroup, weight);
            var it := inv.items[k];
            var a := inv.(items := inv.items[k := it.(quantity := it.quantity + quantity)], changed := true);
            RemoveItem(a, name, container, foodGroup, weight, quantity)
            == (inv.(order := Without(inv.order, k), items := inv.items - {k}, changed := true), Removed)
  {
    var k := MakeKey(name, container, foodGroup, weight);
    var it := inv.items[k];
    var a := inv.(items := inv.items[k := it.(quantity := it.quantity + quantity)], changed := true);
    RemoveDeleteForm(a, name, container, foodGroup, weight, quantity);
    UpdateThenRemove(inv.items, k, it.(quantity := it.quantity + quantity));
  }

  lemma UpdateThenRemove(m: map<Key, Item>, k: Key, v: Item)
    ensures m[k := v] - {k} == m - {k}
  {
  }

  lemma AddThenRemoveNew(inv: Inventory, name: string, container: string, foodGroup: string, weight: string, quantity: int)
    requires Valid(inv)
    requires MakeKey(name, container, foodGroup, weight) !in inv.items
    ensures var res := RemoveItem(AddItem(inv, name, container, foodGroup, weight, quantity),
                                  name, container, foodGroup, weight, quantity);
            && res.1 == Removed
            && res.0.order == inv.order && res.0.items == inv.items
            && res.0.changed && res.0.currentFile == inv.currentFile
  {
    var k := MakeKey(name, container, foodGroup, weight);
    var a := AddItem(inv, name, container, foodGroup, weight, quantity);
    AddNewForm(inv, name, container, foodGroup, weight, quantity);
    RemoveDeleteForm(a, name, container, foodGroup, weight, quantity);
    WithoutLast(inv.order, k);
    assert a.items - {k} == inv.items;
  }

  lemma {:induction false} WithoutLast(s: seq<Key>, k: Key)
    requires k !in s
    ensures Without(s + [k], k) == s
    decreases |s|
  {
    if s == [] {
      assert [] + [k] == [k];
    } else {
      assert (s + [k])[1..] == s[1..] + [k];
      WithoutLast(s[1..], k);
    }
  }

  /** An item that runs out and is stocked again moves to the end of the
      listing. */
  lemma RestockedGoesLast(inv: Inventory, name: string, container: string, foodGroup: string, weight: string, quantity: int, again: int)
    requires Valid(inv)
    requires var k := MakeKey(name, container, foodGroup, weight);
             k in inv.items && inv.items[k].quantity == quantity
    ensures var k := MakeKey(name, container, foodGroup, weight);
            var res := RemoveItem(inv, name, container, foodGroup, weight, quantity);
            var a := AddItem(res.0, name, container, foodGroup, weight, again);
            && res.1 == Removed
            && a.order == Without(inv.order, k) + [k]
            && AllItems(a) == AllItems(res.0) + [MakeItem(name, container, foodGroup, weight, again)]
  {
    var k := MakeKey(name, container, foodGroup, weight);
    var res := RemoveItem(inv, name, container, foodGroup, weight, quantity);
    assert res.0.order == Without(inv.order, k) && k !in res.0.items;
    AddNewTotals(res.0, name, container, foodGroup, weight, again);
  }
}
