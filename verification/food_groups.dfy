/** The food-group normaliser: free-form group names ("veggies", " Oil ")
    are mapped to one of eight canonical labels through a closed table. */
module FoodGroups {
  import opened Wrappers
  import opened Text

  /** Every accepted spelling (trimmed, lower-case) and its canonical label. */
  const VariationMap: map<string, string> := map[
    "grains" := "Grains", "grain" := "Grains",
    "cereal" := "Grains", "bread" := "Grains",
    "vegetables" := "Vegetables", "vegetable" := "Vegetables",
    "veg" := "Vegetables", "veggie" := "Vegetables", "veggies" := "Vegetables",
    "fruits" := "Fruits", "fruit" := "Fruits",
    "protein" := "Protein", "proteins" := "Protein",
    "dairy" := "Dairy", "dairies" := "Dairy",
    "fats/oils" := "Fats/Oils", "fat/oil" := "Fats/Oils", "fats" := "Fats/Oils",
    "fat" := "Fats/Oils", "oils" := "Fats/Oils", "oil" := "Fats/Oils",
    "beverages" := "Beverages", "beverage" := "Beverages",
    "bev" := "Beverages", "bevs" := "Beverages",
    "snacks/other" := "Snacks/Other", "snacks/others" := "Snacks/Other",
    "snacks" := "Snacks/Other", "snack" := "Snacks/Other",
    "other" := "Snacks/Other", "others" := "Snacks/Other"
  ]

  /** The distinct labels of the table in ascending order (`sorted(set(...))`). */
  const CanonicalFoodGroups: seq<string> := [
    "Beverages", "Dairy", "Fats/Oils", "Fruits",
    "Grains", "Protein", "Snacks/Other", "Vegetables"
  ]

  /** Strictly ascending in Python's string order, hence without duplicates. */
  predicate StrictlySorted(s: seq<string>) {
    forall i, j :: 0 <= i < j < |s| ==> LexLess(s[i], s[j])
  }

  /** Every label of the table is canonical. */
  lemma VariationValuesCanonical()
    ensures forall k :: k in VariationMap ==> VariationMap[k] in CanonicalFoodGroups
  {
  }

  /** `normalize_food_group`: the label for a recognised spelling, compared
      after trimming and lower-casing; `None` for the empty string and for
      anything not in the table. */
  function NormalizeFoodGroup(value: string): (r: Option<string>)
    ensures value == "" ==> r == None
    ensures r.Some? <==> value != "" && Lower(Strip(value)) in VariationMap
    ensures r.Some? ==> r.value in CanonicalFoodGroups
  {
    if value == "" then None
    else
      var key := Lower(Strip(value));
      if key in VariationMap then
        VariationValuesCanonical();
        Some(VariationMap[key])
      else None
  }

  /** Text made only of whitespace is not a food group. */
  lemma NormalizeBlank(value: string)
    requires forall i :: 0 <= i < |value| ==> IsSpace(value[i])
    ensures NormalizeFoodGroup(value) == None
  {
    StripAllSpace(value);
    assert Lower("") == "";
  }

  /** The lookup ignores letter case. */
  lemma NormalizeIgnoresCase(value: string)
    ensures NormalizeFoodGroup(Lower(value)) == NormalizeFoodGroup(value)
  {
    StripLower(value);
    LowerIdempotent(Strip(value));
  }

  /** The lookup ignores surrounding whitespace. */
  lemma NormalizeIgnoresPadding(value: string)
    ensures NormalizeFoodGroup(Strip(value)) == NormalizeFoodGroup(value)
  {
    StripIdempotent(value);
    if value != "" && Strip(value) == "" {
      assert Lower("") == "";
    }
  }

  /** Looking a spelling up is the same as normalising any padding or
      capitalisation of it. */
  lemma NormalizeVariant(value: string, key: string)
    requires key in VariationMap && Lower(Strip(value)) == key
    ensures NormalizeFoodGroup(value) == Some(VariationMap[key])
  {
  }

  // Each canonical label, and its lower-case spelling, normalises to itself.

  /** What a canonical label needs: no surrounding whitespace, and its
      lower-case spelling is a key of the table that maps back to it. */
  predicate SelfNormalizing(c: string) {
    c != "" && IsStripped(c) && Lower(c) in VariationMap && VariationMap[Lower(c)] == c
  }

  /** The table maps `l` to `c`. */
  predicate MapsTo(l: string, c: string) {
    l in VariationMap && VariationMap[l] == c
  }

  /** The pieces of `SelfNormalizing`, given the lower-case spelling. */
  lemma SelfNormalizingOf(c: string, l: string)
    requires c != "" && IsStripped(c) && Lower(c) == l && MapsTo(l, c)
    ensures SelfNormalizing(c)
  {
  }

  lemma BeveragesKey() ensures MapsTo("beverages", "Beverages") { }
  lemma BeveragesLower() ensures Lower("Beverages") == "beverages" { LowerPointwise("Beverages", "beverages"); }
  lemma BeveragesSelf() ensures SelfNormalizing("Beverages") {
    assert IsStripped("Beverages");
    BeveragesLower();
    BeveragesKey();
    SelfNormalizingOf("Beverages", "beverages");
  }

  lemma DairyKey() ensures MapsTo("dairy", "Dairy") { }
  lemma DairyLower() ensures Lower("Dairy") == "dairy" { LowerPointwise("Dairy", "dairy"); }
  lemma DairySelf() ensures SelfNormalizing("Dairy") {
    assert IsStripped("Dairy");
    DairyLower();
    DairyKey();
    SelfNormalizingOf("Dairy", "dairy");
  }

  lemma FatsOilsKey() ensures MapsTo("fats/oils", "Fats/Oils") { }
  lemma FatsOilsLower() ensures Lower("Fats/Oils") == "fats/oils" { LowerPointwise("Fats/Oils", "fats/oils"); }
  lemma FatsOilsSelf() ensures SelfNormalizing("Fats/Oils") {
    assert IsStripped("Fats/Oils");
    FatsOilsLower();
    FatsOilsKey();
    SelfNormalizingOf("Fats/Oils", "fats/oils");
  }

  lemma FruitsKey() ensures MapsTo("fruits", "Fruits") { }
  lemma FruitsLower() ensures Lower("Fruits") == "fruits" { LowerPointwise("Fruits", "fruits"); }
  lemma FruitsSelf() ensures SelfNormalizing("Fruits") {
    assert IsStripped("Fruits");
    FruitsLower();
    FruitsKey();
    SelfNormalizingOf("Fruits", "fruits");
  }

  lemma GrainsKey() ensures MapsTo("grains", "Grains") { }
  lemma GrainsLower() ensures Lower("Grains") == "grains" { LowerPointwise("Grains", "grains"); }
  lemma GrainsSelf() ensures SelfNormalizing("Grains") {
    assert IsStripped("Grains");
    GrainsLower();
    GrainsKey();
    SelfNormalizingOf("Grains", "grains");
  }

  lemma ProteinKey() ensures MapsTo("protein", "Protein") { }
  lemma ProteinLower() ensures Lower("Protein") == "protein" { LowerPointwise("Protein", "protein"); }
  lemma ProteinSelf() ensures SelfNormalizing("Protein") {
    assert IsStripped("Protein");
    ProteinLower();
    ProteinKey();
    SelfNormalizingOf("Protein", "protein");
  }

  lemma SnacksOtherKey() ensures MapsTo("snacks/other", "Snacks/Other") { }
  lemma SnacksOtherLower() ensures Lower("Snacks/Other") == "snacks/other" { LowerPointwise("Snacks/Other", "snacks/other"); }
  lemma SnacksOtherSelf() ensures SelfNormalizing("Snacks/Other") {
    assert IsStripped("Snacks/Other");
    SnacksOtherLower();
    SnacksOtherKey();
    SelfNormalizingOf("Snacks/Other", "snacks/other");
  }

  lemma VegetablesKey() ensures MapsTo("vegetables", "Vegetables") { }
  lemma VegetablesLower() ensures Lower("Vegetables") == "vegetables" { LowerPointwise("Vegetables", "vegetables"); }
  lemma VegetablesSelf() ensures SelfNormalizing("Vegetables") {
    assert IsStripped("Vegetables");
    VegetablesLower();
    VegetablesKey();
    SelfNormalizingOf("Vegetables", "vegetables");
  }

  lemma CanonicalSelfNormalizing(c: string)
    requires c in CanonicalFoodGroups
    ensures SelfNormalizing(c)
  {
    if c == "Beverages" { BeveragesSelf(); }
    else if c == "Dairy" { DairySelf(); }
    else if c == "Fats/Oils" { FatsOilsSelf(); }
    else if c == "Fruits" { FruitsSelf(); }
    else if c == "Grains" { GrainsSelf(); }
    else if c == "Protein" { ProteinSelf(); }
    else if c == "Snacks/Other" { SnacksOtherSelf(); }
    else { assert c == "Vegetables"; VegetablesSelf(); }
  }

  /** A canonical label normalises to itself, written as listed or in lower
      case. */
  lemma CanonicalNormalizes(c: string)
    requires c in CanonicalFoodGroups
    ensures NormalizeFoodGroup(c) == Some(c)
    ensures NormalizeFoodGroup(Lower(c)) == Some(c)
  {
    CanonicalSelfNormalizing(c);
    StripOfStripped(c);
    LowerKeepsSpace(c);
    StripOfStripped(Lower(c));
    LowerIdempotent(c);
  }

  /** The canonical list holds exactly the labels of the table. */
  lemma CanonicalAreValues()
    ensures forall c :: c in CanonicalFoodGroups <==> c in VariationMap.Values
  {
    VariationValuesCanonical();
    forall c | c in CanonicalFoodGroups
      ensures c in VariationMap.Values
    {
      CanonicalSelfNormalizing(c);
    }
  }

  lemma AdjacentLabelsAscend()
    ensures forall i :: 0 <= i < |CanonicalFoodGroups| - 1 ==>
              LexLess(CanonicalFoodGroups[i], CanonicalFoodGroups[i + 1])
  {
    assert LexLess("Beverages", "Dairy");
    assert LexLess("Dairy", "Fats/Oils");
    assert LexLess("Fats/Oils", "Fruits");
    assert LexLess("Fruits", "Grains");
    assert LexLess("Grains", "Protein");
    assert LexLess("Protein", "Snacks/Other");
    assert LexLess("Snacks/Other", "Vegetables");
  }

  /** A sequence whose neighbours ascend is ascending throughout. */
  lemma {:induction false} ChainSorted(s: seq<string>)
    requires forall i :: 0 <= i < |s| - 1 ==> LexLess(s[i], s[i + 1])
    ensures StrictlySorted(s)
    decreases |s|
  {
    if |s| > 1 {
      var t := s[1..];
      ChainSorted(t);
      forall j | 1 < j < |s|
        ensures LexLess(s[0], s[j])
      {
        assert t[j - 1] == s[j];
        LexLessTransitive(s[0], s[1], s[j]);
      }
      forall i, j | 0 <= i < j < |s|
        ensures LexLess(s[i], s[j])
      {
        if 0 < i {
          assert s[i] == t[i - 1] && s[j] == t[j - 1];
        }
      }
    }
  }

  /** A strictly sorted sequence repeats nothing. */
  lemma SortedDistinct(s: seq<string>)
    requires StrictlySorted(s)
    ensures forall i, j :: 0 <= i < j < |s| ==> s[i] != s[j]
  {
    forall i, j | 0 <= i < j < |s|
      ensures s[i] != s[j]
    {
      LexLessIrreflexive(s[i]);
    }
  }

  /** Everything in a strictly sorted sequence is its head or after it. */
  lemma HeadIsLeast(s: seq<string>, x: string)
    requires StrictlySorted(s) && x in s
    ensures x == s[0] || LexLess(s[0], x)
  {
  }

  lemma SameElementsBothEmpty(a: seq<string>, b: seq<string>)
    requires forall x :: x in a <==> x in b
    ensures a == [] <==> b == []
  {
    if a != [] {
      assert a[0] in b;
    }
    if b != [] {
      assert b[0] in a;
    }
  }

  /** A strictly sorted sequence is fixed by its elements: `sorted(set(xs))`
      has only one possible value. */
  lemma {:induction false} SortedUnique(a: seq<string>, b: seq<string>)
    requires StrictlySorted(a) && StrictlySorted(b)
    requires forall x :: x in a <==> x in b
    ensures a == b
    decreases |a|
  {
    SameElementsBothEmpty(a, b);
    if a != [] {
      // Both heads are the least element, so they agree.
      HeadIsLeast(a, b[0]);
      HeadIsLeast(b, a[0]);
      LexLessAsymmetric(a[0], b[0]);
      SortedDistinct(a);
      SortedDistinct(b);
      forall x
        ensures x in a[1..] <==> x in b[1..]
      {
        if x in a[1..] {
          var i :| 0 <= i < |a| - 1 && a[1..][i] == x;
          assert x != a[0];
          assert x in b;
          var k :| 0 <= k < |b| && b[k] == x;
          assert k != 0 && b[1..][k - 1] == x;
        }
        if x in b[1..] {
          var i :| 0 <= i < |b| - 1 && b[1..][i] == x;
          assert x != b[0];
          assert x in a;
          var k :| 0 <= k < |a| && a[k] == x;
          assert k != 0 && a[1..][k - 1] == x;
        }
      }
      SortedUnique(a[1..], b[1..]);
      assert a == [a[0]] + a[1..] && b == [b[0]] + b[1..];
    }
  }

  /** The canonical list is `sorted(set(values))`: ascending, without
      repeats, holding exactly the table's labels. */
  lemma CanonicalFoodGroupsSorted()
    ensures StrictlySorted(CanonicalFoodGroups)
    ensures forall i, j :: 0 <= i < j < |CanonicalFoodGroups| ==>
              CanonicalFoodGroups[i] != CanonicalFoodGroups[j]
    ensures forall c :: c in CanonicalFoodGroups <==> c in VariationMap.Values
    ensures forall s :: StrictlySorted(s) && (forall c :: c in s <==> c in VariationMap.Values)
              ==> s == CanonicalFoodGroups
  {
    AdjacentLabelsAscend();
    ChainSorted(CanonicalFoodGroups);
    SortedDistinct(CanonicalFoodGroups);
    CanonicalAreValues();
    forall s | StrictlySorted(s) && (forall c :: c in s <==> c in VariationMap.Values)
      ensures s == CanonicalFoodGroups
    {
      SortedUnique(s, CanonicalFoodGroups);
    }
  }

  // A spelling from the table.

  lemma VeggiesExample()
    ensures NormalizeFoodGroup("veggies") == Some("Vegetables")
  {
    assert IsStripped("veggies") && IsLower("veggies");
    assert MapsTo("veggies", "Vegetables");
    StripOfStripped("veggies");
    LowerIsLower("veggies");
    NormalizeVariant("veggies", "veggies");
  }
}
