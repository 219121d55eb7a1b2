/** One stocked product: four descriptive fields, stored lower-cased, and a
    count. */
module Items {
  import opened Text

  datatype Item = Item(name: string, container: string, foodGroup: string, weight: string, quantity: int)

  /** All four descriptive fields are already lower-case. */
  predicate IsNormalized(it: Item) {
    IsLower(it.name) && IsLower(it.container) && IsLower(it.foodGroup) && IsLower(it.weight)
  }

  /** `Item(name, container, food_group, weight, quantity)`: the four text
      fields are lower-cased, with nothing trimmed or checked, and the
      quantity is kept as given. */
  function MakeItem(name: string, container: string, foodGroup: string, weight: string, quantity: int): (it: Item)
    ensures IsNormalized(it)
    ensures it.quantity == quantity
    ensures |it.name| == |name| && |it.container| == |container|
    ensures |it.foodGroup| == |foodGroup| && |it.weight| == |weight|
    ensures IsLower(name) ==> it.name == name
    ensures IsLower(container) ==> it.container == container
    ensures IsLower(foodGroup) ==> it.foodGroup == foodGroup
    ensures IsLower(weight) ==> it.weight == weight
  {
    LowerIsLower(name);
    LowerIsLower(container);
    LowerIsLower(foodGroup);
    LowerIsLower(weight);
    Item(Lower(name), Lower(container), Lower(foodGroup), Lower(weight), quantity)
  }

  /** Building an item from an item's own fields gives the same item. */
  lemma RebuildItem(it: Item)
    requires IsNormalized(it)
    ensures MakeItem(it.name, it.container, it.foodGroup, it.weight, it.quantity) == it
  {
  }

  /** Rebuilding is idempotent: the second build changes nothing. */
  lemma MakeItemIdempotent(name: string, container: string, foodGroup: string, weight: string, quantity: int)
    ensures var it := MakeItem(name, container, foodGroup, weight, quantity);
            MakeItem(it.name, it.container, it.foodGroup, it.weight, it.quantity) == it
  {
    RebuildItem(MakeItem(name, container, foodGroup, weight, quantity));
  }

  /** `stored` is `given` with at most its letters' case changed: same
      length, whitespace exactly where it was, every other non-capital
      character kept. */
  predicate KeepsText(stored: string, given: string) {
    && |stored| == |given|
    && (forall i :: 0 <= i < |given| ==> (IsSpace(stored[i]) <==> IsSpace(given[i])))
    && (forall i :: 0 <= i < |given| && !IsUpper(given[i]) ==> stored[i] == given[i])
  }

  lemma LowerKeepsText(s: string)
    ensures KeepsText(Lower(s), s)
  {
    LowerKeepsSpace(s);
  }

  /** Only letter case is normalised: in each of the four fields
      whitespace and every other character stay where they were, so padded
      or empty text is stored as given. */
  lemma MakeItemKeepsText(name: string, container: string, foodGroup: string, weight: string, quantity: int)
    ensures var it := MakeItem(name, container, foodGroup, weight, quantity);
            && KeepsText(it.name, name) && KeepsText(it.container, container)
            && KeepsText(it.foodGroup, foodGroup) && KeepsText(it.weight, weight)
  {
    LowerKeepsText(name);
    LowerKeepsText(container);
    LowerKeepsText(foodGroup);
    LowerKeepsText(weight);
  }
}
