/** `get_sorted_items`: the store's items ordered by one attribute, text
    compared as Python compares strings and the quantity as a number, with
    ties kept in insertion order in both directions. */
module InventorySort {
  import opened Text
  import opened Items
  import opened InventoryStore

  /** The attributes `get_sorted_items` accepts. */
  datatype SortField = ByName | ByContainer | ByFoodGroup | ByWeight | ByQuantity

  /** The `sort_by` argument; anything outside the accepted names falls back
      to the name. */
  function ParseSortField(sortBy: string): (f: SortField)
    ensures sortBy == "name" ==> f == ByName
    ensures f == ByContainer <==> sortBy == "container"
    ensures f == ByFoodGroup <==> sortBy == "food_group"
    ensures f == ByWeight <==> sortBy == "weight"
    ensures f == ByQuantity <==> sortBy == "quantity"
  {
    if sortBy == "container" then ByContainer
    else if sortBy == "food_group" then ByFoodGroup
    else if sortBy == "weight" then ByWeight
    else if sortBy == "quantity" then ByQuantity
    else ByName
  }

  /** What an item is compared by. */
  datatype SortValue = TextValue(text: string) | NumberValue(number: int)

  function SortKey(it: Item, f: SortField): (v: SortValue)
    ensures v.NumberValue? <==> f == ByQuantity
  {
    match f
    case ByName => TextValue(it.name)
    case ByContainer => TextValue(it.container)
    case ByFoodGroup => TextValue(it.foodGroup)
    case ByWeight => TextValue(it.weight)
    case ByQuantity => NumberValue(it.quantity)
  }

  /** `<` on the compared values: strings lexicographically, numbers
      numerically. */
  predicate ValueLess(a: SortValue, b: SortValue) {
    match (a, b)
    case (TextValue(x), TextValue(y)) => LexLess(x, y)
    case (NumberValue(x), NumberValue(y)) => x < y
    case _ => false
  }

  /** `a` must come before `b`: its value is smaller, or larger when
      sorting in reverse. */
  predicate Precedes(a: Item, b: Item, f: SortField, reverse: bool) {
    if reverse then ValueLess(SortKey(b, f), SortKey(a, f))
    else ValueLess(SortKey(a, f), SortKey(b, f))
  }

  lemma PrecedesIrreflexive(a: Item, b: Item, f: SortField, reverse: bool)
    requires SortKey(a, f) == SortKey(b, f)
    ensures !Precedes(a, b, f, reverse)
  {
    if f != ByQuantity {
      LexLessIrreflexive(SortKey(a, f).text);
    }
  }

  lemma PrecedesTransitive(a: Item, b: Item, c: Item, f: SortField, reverse: bool)
    requires Precedes(a, b, f, reverse) && Precedes(b, c, f, reverse)
    ensures Precedes(a, c, f, reverse)
  {
    if f != ByQuantity {
      var x, y, z := SortKey(a, f).text, SortKey(b, f).text, SortKey(c, f).text;
      if reverse {
        LexLessTransitive(z, y, x);
      } else {
        LexLessTransitive(x, y, z);
      }
    }
  }

  /** Items with the same value are the same to `Precedes`. */
  lemma PrecedesBySortKey(a: Item, a': Item, b: Item, f: SortField, reverse: bool)
    requires SortKey(a, f) == SortKey(a', f)
    ensures Precedes(a, b, f, reverse) == Precedes(a', b, f, reverse)
    ensures Precedes(b, a, f, reverse) == Precedes(b, a', f, reverse)
  {
  }

  /** No element is required to come before an earlier one. */
  predicate Sorted(s: seq<Item>, f: SortField, reverse: bool) {
    forall i, j :: 0 <= i < j < |s| ==> !Precedes(s[j], s[i], f, reverse)
  }

  /** The elements whose value is `v`, in their order in `s`. */
  function WithValue(s: seq<Item>, f: SortField, v: SortValue): seq<Item> {
    if s == [] then []
    else (if SortKey(s[0], f) == v then [s[0]] else []) + WithValue(s[1..], f, v)
  }

  lemma {:induction false} WithValueAppend(a: seq<Item>, b: seq<Item>, f: SortField, v: SortValue)
    ensures WithValue(a + b, f, v) == WithValue(a, f, v) + WithValue(b, f, v)
    decreases |a|
  {
    if a == [] {
      assert a + b == b;
    } else {
      assert (a + b)[1..] == a[1..] + b;
      WithValueAppend(a[1..], b, f, v);
    }
  }

  /** Puts `x` before the first element it must precede, so after every
      element with the same value. */
  function Insert(x: Item, s: seq<Item>, f: SortField, reverse: bool): seq<Item> {
    if s == [] then [x]
    else if Precedes(x, s[0], f, reverse) then [x] + s
    else [s[0]] + Insert(x, s[1..], f, reverse)
  }

  /** Insertion sort: each element is inserted, in input order, into the
      sorted result of the ones before it. */
  function Sort(s: seq<Item>, f: SortField, reverse: bool): seq<Item>
    decreases |s|
  {
    if s == [] then []
    else Insert(s[|s| - 1], Sort(s[..|s| - 1], f, reverse), f, reverse)
  }

  lemma {:induction false} InsertPermutes(x: Item, s: seq<Item>, f: SortField, reverse: bool)
    ensures multiset(Insert(x, s, f, reverse)) == multiset(s) + multiset{x}
    decreases |s|
  {
    if s != [] && !Precedes(x, s[0], f, reverse) {
      InsertPermutes(x, s[1..], f, reverse);
      assert s == [s[0]] + s[1..];
    }
  }

  /** A sorted sequence of elements none of which must precede `x` stays
      sorted with `x` in front. */
  lemma SortedCons(x: Item, s: seq<Item>, f: SortField, reverse: bool)
    requires Sorted(s, f, reverse)
    requires forall j :: 0 <= j < |s| ==> !Precedes(s[j], x, f, reverse)
    ensures Sorted([x] + s, f, reverse)
  {
    var r := [x] + s;
    forall i, j | 0 <= i < j < |r|
      ensures !Precedes(r[j], r[i], f, reverse)
    {
      assert r[j] == s[j - 1];
      if i > 0 {
        assert r[i] == s[i - 1];
      }
    }
  }

  lemma SortedTail(s: seq<Item>, f: SortField, reverse: bool)
    requires Sorted(s, f, reverse) && s != []
    ensures Sorted(s[1..], f, reverse)
  {
    var t := s[1..];
    forall i, j | 0 <= i < j < |t| ensures !Precedes(t[j], t[i], f, reverse) {
      assert t[i] == s[i + 1] && t[j] == s[j + 1];
    }
  }

  lemma {:induction false} InsertSorted(x: Item, s: seq<Item>, f: SortField, reverse: bool)
    requires Sorted(s, f, reverse)
    ensures Sorted(Insert(x, s, f, reverse), f, reverse)
    decreases |s|
  {
    if s == [] {
    } else if Precedes(x, s[0], f, reverse) {
      // Were some s[j] to precede x, it would precede s[0].
      forall j | 0 <= j < |s|
        ensures !Precedes(s[j], x, f, reverse)
      {
        if Precedes(s[j], x, f, reverse) {
          PrecedesTransitive(s[j], x, s[0], f, reverse);
          if j == 0 {
            PrecedesIrreflexive(s[0], s[0], f, reverse);
          }
        }
      }
      SortedCons(x, s, f, reverse);
    } else {
      var t := s[1..];
      SortedTail(s, f, reverse);
      InsertSorted(x, t, f, reverse);
      InsertPermutes(x, t, f, reverse);
      var u := Insert(x, t, f, reverse);
      // Everything in u is x, or an element of s after its head.
      forall j | 0 <= j < |u|
        ensures !Precedes(u[j], s[0], f, reverse)
      {
        assert u[j] in multiset(u);
        if u[j] != x {
          assert u[j] in multiset(t);
          var k :| 0 <= k < |t| && t[k] == u[j];
          assert s[k + 1] == u[j];
        }
      }
      SortedCons(s[0], u, f, reverse);
    }
  }

  /** `WithValue` of a sequence with an element in front. */
  lemma WithValueCons(x: Item, u: seq<Item>, f: SortField, v: SortValue)
    ensures WithValue([x] + u, f, v) == (if SortKey(x, f) == v then [x] else []) + WithValue(u, f, v)
  {
    assert ([x] + u)[1..] == u;
  }

  lemma ConcatAssoc(a: seq<Item>, b: seq<Item>, c: seq<Item>)
    ensures (a + b) + c == a + (b + c)
  {
  }

  /** `x` joins the elements of its own value at the end. */
  lemma {:induction false} InsertStable(x: Item, s: seq<Item>, f: SortField, reverse: bool, v: SortValue)
    requires Sorted(s, f, reverse)
    ensures WithValue(Insert(x, s, f, reverse), f, v) == WithValue(s, f, v) + WithValue([x], f, v)
    decreases |s|
  {
    if s == [] {
      assert WithValue([], f, v) == [];
    } else if Precedes(x, s[0], f, reverse) {
      InsertFrontStable(x, s, f, reverse, v);
    } else {
      var t := s[1..];
      SortedTail(s, f, reverse);
      var u := Insert(x, t, f, reverse);
      assert WithValue(u, f, v) == WithValue(t, f, v) + WithValue([x], f, v) by {
        InsertStable(x, t, f, reverse, v);
      }
      var h := if SortKey(s[0], f) == v then [s[0]] else [];
      assert Insert(x, s, f, reverse) == [s[0]] + u;
      assert WithValue(s, f, v) == h + WithValue(t, f, v);
      WithValueCons(s[0], u, f, v);
      ConcatAssoc(h, WithValue(t, f, v), WithValue([x], f, v));
    }
  }

  lemma InsertFrontStable(x: Item, s: seq<Item>, f: SortField, reverse: bool, v: SortValue)
    requires Sorted(s, f, reverse) && s != [] && Precedes(x, s[0], f, reverse)
    ensures WithValue(Insert(x, s, f, reverse), f, v) == WithValue(s, f, v) + WithValue([x], f, v)
  {
    assert Insert(x, s, f, reverse) == [x] + s;
    WithValueAppend([x], s, f, v);
    if SortKey(x, f) == v {
      NoneWithValue(x, s, f, reverse);
    }
  }

  /** When `x` must precede the head of a sorted sequence, nothing in it
      shares `x`'s value. */
  lemma NoneWithValue(x: Item, s: seq<Item>, f: SortField, reverse: bool)
    requires Sorted(s, f, reverse) && s != [] && Precedes(x, s[0], f, reverse)
    ensures WithValue(s, f, SortKey(x, f)) == []
  {
    forall j | 0 <= j < |s|
      ensures SortKey(s[j], f) != SortKey(x, f)
    {
      if SortKey(s[j], f) == SortKey(x, f) {
        PrecedesBySortKey(x, s[j], s[0], f, reverse);
        if j == 0 {
          PrecedesIrreflexive(s[0], s[0], f, reverse);
        }
      }
    }
    NoValueEmpty(s, f, SortKey(x, f));
  }

  lemma {:induction false} NoValueEmpty(s: seq<Item>, f: SortField, v: SortValue)
    requires forall j :: 0 <= j < |s| ==> SortKey(s[j], f) != v
    ensures WithValue(s, f, v) == []
    decreases |s|
  {
    if s != [] {
      NoValueEmpty(s[1..], f, v);
    }
  }

  /** The sort is a stable permutation into order: same elements, sorted,
      and the elements of each value keep their input order. */
  lemma {:induction false} SortCorrect(s: seq<Item>, f: SortField, reverse: bool)
    ensures multiset(Sort(s, f, reverse)) == multiset(s)
    ensures Sorted(Sort(s, f, reverse), f, reverse)
    ensures forall v :: WithValue(Sort(s, f, reverse), f, v) == WithValue(s, f, v)
    decreases |s|
  {
    if s != [] {
      var p, x := s[..|s| - 1], s[|s| - 1];
      assert s == p + [x];
      SortCorrect(p, f, reverse);
      InsertPermutes(x, Sort(p, f, reverse), f, reverse);
      InsertSorted(x, Sort(p, f, reverse), f, reverse);
      forall v
        ensures WithValue(Sort(s, f, reverse), f, v) == WithValue(s, f, v)
      {
        InsertStable(x, Sort(p, f, reverse), f, reverse, v);
        WithValueAppend(p, [x], f, v);
      }
    }
  }

  /** `get_sorted_items(sort_by, reverse)`: the store's items, rearranged
      into order by the chosen attribute. */
  function SortedItems(inv: Inventory, sortBy: string, reverse: bool): (r: seq<Item>)
    ensures multiset(r) == multiset(AllItems(inv))
    ensures Sorted(r, ParseSortField(sortBy), reverse)
  {
    SortCorrect(AllItems(inv), ParseSortField(sortBy), reverse);
    Sort(AllItems(inv), ParseSortField(sortBy), reverse)
  }

  /** The sorted listing holds exactly the store's items, ordered by the
      chosen attribute (the name for an unknown one), ties in insertion
      order whichever the direction. */
  lemma SortedItemsCorrect(inv: Inventory, sortBy: string, reverse: bool)
    ensures var f := ParseSortField(sortBy);
            && multiset(SortedItems(inv, sortBy, reverse)) == multiset(AllItems(inv))
            && Sorted(SortedItems(inv, sortBy, reverse), f, reverse)
            && forall v :: WithValue(SortedItems(inv, sortBy, reverse), f, v) == WithValue(AllItems(inv), f, v)
  {
    SortCorrect(AllItems(inv), ParseSortField(sortBy), reverse);
  }

  /** Weights are text, so "12 oz" sorts before "2 lb". */
  lemma WeightsCompareAsText(a: Item, b: Item)
    requires a.weight == "12 oz" && b.weight == "2 lb"
    ensures Precedes(a, b, ByWeight, false)
  {
  }

  /** Quantities are numbers, so 2 sorts before 12. */
  lemma QuantitiesCompareAsNumbers(a: Item, b: Item)
    requires a.quantity == 2 && b.quantity == 12
    ensures Precedes(a, b, ByQuantity, false)
    ensures Precedes(b, a, ByQuantity, true)
  {
  }
}
