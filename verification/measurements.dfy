/** The weight/volume normaliser: a free-form weight such as "2 lbs" becomes
    the canonical "<number as written> <unit>" string, here "2 lb". */
module Measurements {
  import opened Wrappers
  import opened Text

  /** Every accepted spelling of a unit, mapped to its canonical label. */
  const UnitMap: map<string, string> := map[
    "oz" := "oz", "ounce" := "oz", "ounces" := "oz",
    "fl oz" := "fl oz", "floz" := "fl oz", "fl. oz" := "fl oz",
    "lb" := "lb", "lbs" := "lb", "pound" := "lb", "pounds" := "lb",
    "kg" := "kg", "kilogram" := "kg", "kilograms" := "kg",
    "ml" := "mL", "milliliter" := "mL", "milliliters" := "mL",
    "millilitre" := "mL", "millilitres" := "mL",
    "l" := "L", "liter" := "L", "liters" := "L", "litre" := "L", "litres" := "L"
  ]

  /** The canonical unit labels. */
  const CanonicalUnits: set<string> := {"oz", "fl oz", "lb", "kg", "mL", "L"}

  /** The two ways normalisation fails (both a `ValueError` in the program). */
  datatype UnitError = InvalidFormat | UnknownUnit

  /** A parsed weight: the empty input, or a number kept as written with a
      canonical unit. */
  datatype Weight = Blank | Measured(number: string, unit: string)

  /** Surrounding whitespace trimmed first, then every comma dropped. */
  function Clean(value: string): string {
    RemoveChar(Strip(value), ',')
  }

  /** Stripped text without commas is already clean. */
  lemma CleanOfClean(s: string)
    requires IsStripped(s) && ',' !in s
    ensures Clean(s) == s
  {
    StripOfStripped(s);
  }

  /** One comma inside otherwise clean text is dropped. */
  lemma CleanOneComma(a: string, b: string)
    requires a != [] && b != [] && !IsSpace(a[0]) && !IsSpace(b[|b| - 1])
    requires ',' !in a && ',' !in b
    ensures Clean(a + "," + b) == a + b
  {
    var s := a + "," + b;
    AppendAssoc(a, ",", b);
    assert IsStripped(s);
    StripOfStripped(s);
    RemoveCharAppend(a, "," + b, ',');
    RemoveCharAppend(",", b, ',');
    assert RemoveChar(",", ',') == "";
  }

  /** The text the pattern `\d+(?:\.\d+)?` matches in full: a digit run,
      optionally followed by a point and a second digit run. */
  predicate IsNumber(n: string) {
    match IndexOf(n, '.')
    case None => n != [] && AllDigits(n)
    case Some(i) => 0 < i < |n| - 1 && AllDigits(n[..i]) && AllDigits(n[i + 1..])
  }

  /** Number of leading ASCII digits of `s`. */
  function DigitRun(s: string): (n: nat)
    ensures n <= |s|
    ensures AllDigits(s[..n])
    ensures n < |s| ==> !IsDigit(s[n])
  {
    if s == [] || !IsDigit(s[0]) then 0
    else
      var k := DigitRun(s[1..]);
      assert s[..k + 1] == [s[0]] + s[1..][..k];
      1 + k
  }

  lemma {:induction false} DigitRunOfDigits(d: string, rest: string)
    requires AllDigits(d)
    requires rest == [] || !IsDigit(rest[0])
    ensures DigitRun(d + rest) == |d|
    decreases |d|
  {
    if d == [] {
      assert d + rest == rest;
    } else {
      assert (d + rest)[1..] == d[1..] + rest;
      DigitRunOfDigits(d[1..], rest);
    }
  }

  /** The part of `s` the pattern's `$` can close on: Python's `$` matches
      at the very end and also just before a final line feed, so one
      trailing line feed is set aside. */
  function LineBody(s: string): (b: string)
    ensures b == s || (s != [] && s[|s| - 1] == '\n' && b == s[..|s| - 1])
    ensures s != [] && IsDigit(s[0]) ==> b != [] && b[0] == s[0]
  {
    if s != [] && s[|s| - 1] == '\n' then s[..|s| - 1] else s
  }

  /** The regular expression `^(\d+(?:\.\d+)?)(.*)$` applied to cleaned
      text: the greedy number and the remainder. `.` does not match a line
      feed, so text with a line feed anywhere but at its very end does not
      match, and a final line feed is not part of the remainder. */
  function MatchNumber(s: string): (m: Option<(string, string)>)
    ensures m.None? <==> s == [] || !IsDigit(s[0]) || '\n' in LineBody(s)
    ensures m.Some? ==> m.value.0 + m.value.1 == LineBody(s) && IsNumber(m.value.0)
    ensures m.Some? ==> m.value.1 == [] || !IsDigit(m.value.1[0])
    ensures m.Some? && '.' !in m.value.0 ==>
              !(|m.value.1| >= 2 && m.value.1[0] == '.' && IsDigit(m.value.1[1]))
  {
    MatchLine(LineBody(s))
  }

  /** The same pattern on text the final-line-feed rule no longer affects. */
  function MatchLine(s: string): (m: Option<(string, string)>)
    ensures m.None? <==> s == [] || !IsDigit(s[0]) || '\n' in s
    ensures m.Some? ==> m.value.0 + m.value.1 == s && IsNumber(m.value.0)
    ensures m.Some? ==> m.value.1 == [] || !IsDigit(m.value.1[0])
    ensures m.Some? && '.' !in m.value.0 ==>
              !(|m.value.1| >= 2 && m.value.1[0] == '.' && IsDigit(m.value.1[1]))
  {
    var d := DigitRun(s);
    if d == 0 || '\n' in s then None
    else if d + 1 < |s| && s[d] == '.' && IsDigit(s[d + 1]) then
      var f := DigitRun(s[d + 1..]);
      MatchDecimal(s, d, f);
      Some((s[..d + 1 + f], s[d + 1 + f..]))
    else
      MatchWhole(s, d);
      Some((s[..d], s[d..]))
  }

  /** A digit run, a point and a second digit run form a number, and the
      text after them does not start with a digit. */
  lemma MatchDecimal(s: string, d: nat, f: nat)
    requires d == DigitRun(s) && 0 < d && d + 1 < |s| && s[d] == '.' && IsDigit(s[d + 1])
    requires f == DigitRun(s[d + 1..])
    ensures var e := d + 1 + f;
            && e <= |s| && IsNumber(s[..e]) && s[..e][d] == '.'
            && s[..e] + s[e..] == s
            && (s[e..] == [] || !IsDigit(s[e..][0]))
  {
    var e := d + 1 + f;
    assert s[d + 1..][0] == s[d + 1];
    TakeTake(s, d, e);
    TakeDrop(s, d + 1, e);
    NumberOfParts(s[..e], d);
    DropDrop(s, d + 1, f);
    SplitAt(s, e);
  }

  /** Digits, a point, digits. */
  lemma NumberOfParts(x: string, d: nat)
    requires 0 < d < |x| - 1 && x[d] == '.'
    requires AllDigits(x[..d]) && AllDigits(x[d + 1..])
    ensures IsNumber(x)
  {
    assert IndexOf(x, '.') == Some(d);
  }

  /** A digit run on its own is a number without a point, and the text
      after it does not start with a digit. */
  lemma MatchWhole(s: string, d: nat)
    requires d == DigitRun(s) && 0 < d
    ensures IsNumber(s[..d]) && '.' !in s[..d]
    ensures s[..d] + s[d..] == s
    ensures s[d..] == [] || !IsDigit(s[d..][0])
  {
    assert IndexOf(s[..d], '.') == None;
    SplitAt(s, d);
  }

  /** The unit part as looked up: trimmed, lower-cased, whitespace runs
      collapsed to single spaces. */
  function UnitKey(rest: string): string {
    Collapse(Lower(Strip(rest)))
  }

  /** The parsing half of `format_unit`. */
  function ParseWeight(value: string): (r: Result<Weight, UnitError>)
    ensures r == Success(Blank) <==> Clean(value) == ""
    ensures r == Failure(InvalidFormat) <==>
              Clean(value) != "" && (!IsDigit(Clean(value)[0]) || '\n' in LineBody(Clean(value)))
    ensures r == Failure(UnknownUnit) ==>
              MatchNumber(Clean(value)).Some? && UnitKey(MatchNumber(Clean(value)).value.1) !in UnitMap
    ensures r.Success? && r.value.Measured? ==>
              var n := r.value.number;
              var c := LineBody(Clean(value));
              && IsNumber(n) && ',' !in n
              && StartsWith(c, n)
              && UnitKey(c[|n|..]) in UnitMap
              && r.value.unit == UnitMap[UnitKey(c[|n|..])]
              && r.value.unit in CanonicalUnits
  {
    var c := Clean(value);
    if c == [] then Success(Blank)
    else match MatchNumber(c)
      case None => Failure(InvalidFormat)
      case Some((number, rest)) =>
        var key := UnitKey(rest);
        if key in UnitMap then
          MatchedParts(c, number, rest);
          UnitMapValuesCanonical();
          Success(Measured(number, UnitMap[key]))
        else Failure(UnknownUnit)
  }

  /** The matched number is a prefix of the matched text, and the remainder
      is what follows it. */
  lemma MatchedParts(c: string, number: string, rest: string)
    requires MatchNumber(c) == Some((number, rest))
    ensures var b := LineBody(c);
            IsNumber(number) && StartsWith(b, number) && b[|number|..] == rest
  {
    var b := LineBody(c);
    assert b[..|number|] == number && b[|number|..] == rest;
  }

  /** How a parsed weight is written back: the number, one space, the unit. */
  function Render(w: Weight): string {
    match w
    case Blank => ""
    case Measured(number, unit) => number + " " + unit
  }

  /** `format_unit`: normalise a weight string or report why it is invalid. */
  function FormatUnit(value: string): (r: Result<string, UnitError>)
    ensures r == Success("") <==> Clean(value) == ""
    ensures r == Failure(InvalidFormat) <==>
              Clean(value) != "" && (!IsDigit(Clean(value)[0]) || '\n' in LineBody(Clean(value)))
    ensures r.Success? <==> ParseWeight(value).Success?
    ensures r.Success? && ParseWeight(value).value.Measured? ==>
              r.value == ParseWeight(value).value.number + " " + ParseWeight(value).value.unit
  {
    match ParseWeight(value)
    case Failure(e) => Failure(e)
    case Success(w) =>
      assert w.Measured? ==> |Render(w)| > 0;
      Success(Render(w))
  }

  /** Every value of the table is a canonical label. */
  lemma UnitMapValuesCanonical()
    ensures forall k :: k in UnitMap ==> UnitMap[k] in CanonicalUnits
  {
  }

  /** The lower-case spelling of `u` is a key of the table that maps back
      to `u`. */
  predicate MapsBack(u: string) {
    Lower(u) in UnitMap && UnitMap[Lower(u)] == u
  }

  lemma OzSpelling() ensures MapsBack("oz") {
    assert "oz" in UnitMap && UnitMap["oz"] == "oz";
    LowerPointwise("oz", "oz");
  }
  lemma FlOzSpelling() ensures MapsBack("fl oz") {
    assert "fl oz" in UnitMap && UnitMap["fl oz"] == "fl oz";
    LowerPointwise("fl oz", "fl oz");
  }
  lemma LbSpelling() ensures MapsBack("lb") {
    assert "lb" in UnitMap && UnitMap["lb"] == "lb";
    LowerPointwise("lb", "lb");
  }
  lemma KgSpelling() ensures MapsBack("kg") {
    assert "kg" in UnitMap && UnitMap["kg"] == "kg";
    LowerPointwise("kg", "kg");
  }
  lemma MlSpelling() ensures MapsBack("mL") {
    assert "ml" in UnitMap && UnitMap["ml"] == "mL";
    LowerPointwise("mL", "ml");
  }
  lemma LSpelling() ensures MapsBack("L") {
    assert "l" in UnitMap && UnitMap["l"] == "L";
    LowerPointwise("L", "l");
  }

  /** Each canonical label's lower-case spelling is a key that maps back to it. */
  lemma CanonicalUnitsMapBack()
    ensures forall u :: u in CanonicalUnits ==> MapsBack(u)
  {
    OzSpelling();
    FlOzSpelling();
    LbSpelling();
    KgSpelling();
    MlSpelling();
    LSpelling();
  }

  /** Every value of the table is canonical, every canonical unit occurs, and
      each canonical label and its lower-case spelling are keys that map
      back to it. */
  lemma UnitMapValues()
    ensures UnitMap.Values == CanonicalUnits
    ensures forall u :: u in CanonicalUnits ==> Lower(u) in UnitMap && UnitMap[Lower(u)] == u
  {
    UnitMapValuesCanonical();
    CanonicalUnitsMapBack();
    forall u | u in CanonicalUnits
      ensures u in UnitMap.Values
    {
      assert UnitMap[Lower(u)] == u;
    }
  }

  /** A number contains only digits and at most one point. */
  lemma NumberChars(n: string)
    requires IsNumber(n)
    ensures forall i :: 0 <= i < |n| ==> IsDigit(n[i]) || n[i] == '.'
    ensures ',' !in n && '\n' !in n && n != [] && IsDigit(n[0])
    ensures IsLower(n) && IsStripped(n)
  {
    match IndexOf(n, '.')
    case None =>
    case Some(i) =>
      assert forall j :: 0 <= j < i ==> n[j] == n[..i][j];
      assert forall j :: i < j < |n| ==> n[j] == n[i + 1..][j - i - 1];
  }

  /** The pattern takes a whole number and stops where the unit begins. */
  lemma MatchNumberOfNumber(n: string, rest: string)
    requires IsNumber(n)
    requires rest == [] || (!IsDigit(rest[0]) && rest[0] != '.')
    requires '\n' !in rest
    ensures MatchNumber(n + rest) == Some((n, rest))
  {
    NumberChars(n);
    AppendParts(n, rest);
    assert LineBody(n + rest) == n + rest by {
      assert '\n' !in n + rest;
    }
    match IndexOf(n, '.')
    case None => MatchIntegerThen(n, rest);
    case Some(i) => MatchDecimalThen(n, i, rest);
  }

  lemma MatchIntegerThen(n: string, rest: string)
    requires n != [] && AllDigits(n) && '\n' !in n
    requires rest == [] || (!IsDigit(rest[0]) && rest[0] != '.')
    requires '\n' !in rest
    ensures MatchLine(n + rest) == Some((n, rest))
  {
    var s := n + rest;
    DigitRunOfDigits(n, rest);
    AppendParts(n, rest);
    assert DigitRun(s) == |n| && '\n' !in s;
    assert |n| < |s| ==> s[|n|] == rest[0];
  }

  lemma MatchDecimalThen(n: string, i: nat, rest: string)
    requires 0 < i < |n| - 1 && n[i] == '.' && AllDigits(n[..i]) && AllDigits(n[i + 1..]) && '\n' !in n
    requires rest == [] || !IsDigit(rest[0])
    requires '\n' !in rest
    ensures MatchLine(n + rest) == Some((n, rest))
  {
    var s := n + rest;
    var d, f := n[..i], n[i + 1..];
    assert DigitRun(s) == i by {
      SplitAt(n, i);
      AppendAssoc(d, n[i..], rest);
      DigitRunOfDigits(d, n[i..] + rest);
    }
    assert DigitRun(s[i + 1..]) == |f| by {
      DropAppend(n, rest, i + 1);
      DigitRunOfDigits(f, rest);
    }
    assert s[..|n|] == n && s[|n|..] == rest by {
      AppendParts(n, rest);
    }
    assert s[i] == '.' && IsDigit(s[i + 1]) && '\n' !in s;
  }

  /** Leading whitespace before a unit written with single spaces does not
      change the lookup key. */
  lemma UnitKeyOfGapThenUnit(gap: string, t: string)
    requires forall i :: 0 <= i < |gap| ==> IsSpace(gap[i])
    requires IsCollapsed(t)
    ensures UnitKey(gap + t) == Lower(t)
  {
    StripLeadingSpace(gap, t);
    StripOfStripped(t);
    LowerKeepsCollapsed(t);
    CollapseOfCollapsed(Lower(t));
  }

  /** Once the number is matched, the outcome depends only on the unit key. */
  lemma ParseOfMatched(value: string, n: string, rest: string)
    requires MatchNumber(Clean(value)) == Some((n, rest))
    ensures ParseWeight(value) ==
              if UnitKey(rest) in UnitMap then Success(Measured(n, UnitMap[UnitKey(rest)]))
              else Failure(UnknownUnit)
  {
  }

  /** Cleaned text made of a number, optional whitespace and a unit written
      with single spaces parses to that number and the unit's canonical
      label, or fails with an unknown unit. */
  lemma ParseNumberThenUnit(value: string, n: string, gap: string, t: string)
    requires Clean(value) == n + gap + t
    requires IsNumber(n)
    requires forall i :: 0 <= i < |gap| ==> IsSpace(gap[i]) && gap[i] != '\n'
    requires gap == [] ==> t == [] || (!IsDigit(t[0]) && t[0] != '.')
    requires IsCollapsed(t) && '\n' !in t
    ensures ParseWeight(value) ==
              if Lower(t) in UnitMap then Success(Measured(n, UnitMap[Lower(t)]))
              else Failure(UnknownUnit)
  {
    var rest := gap + t;
    AppendAssoc(n, gap, t);
    assert rest == [] || (!IsDigit(rest[0]) && rest[0] != '.') by {
      if gap != [] {
        assert rest[0] == gap[0];
      } else {
        assert rest == t;
      }
    }
    assert MatchNumber(Clean(value)) == Some((n, rest)) by {
      assert '\n' !in rest;
      MatchNumberOfNumber(n, rest);
    }
    UnitKeyOfGapThenUnit(gap, t);
    ParseOfMatched(value, n, rest);
  }

  /** What `RenderReparses` needs to know about one canonical unit: written
      with single spaces, no comma or line feed, and its lower-case spelling
      (also a fixed point of `Lower`) is a key that maps back to it. */
  predicate Reparsable(u: string) {
    && u != [] && IsCollapsed(u) && ',' !in u && '\n' !in u
    && IsCollapsed(Lower(u)) && ',' !in Lower(u) && '\n' !in Lower(u)
    && Lower(Lower(u)) == Lower(u)
    && MapsBack(u)
  }

  /** A unit written with single spaces, without comma or line feed, whose
      lower-case spelling maps back to it. */
  lemma ReparsableOf(u: string)
    requires u != [] && IsCollapsed(u) && ',' !in u && '\n' !in u
    requires MapsBack(u)
    ensures Reparsable(u)
  {
    LowerIdempotent(u);
    LowerKeepsCollapsed(u);
    LowerKeepsAbsent(u, ',');
    LowerKeepsAbsent(u, '\n');
  }

  lemma OzReparsable() ensures Reparsable("oz") { OzSpelling(); ReparsableOf("oz"); }
  lemma FlOzReparsable() ensures Reparsable("fl oz") { FlOzSpelling(); FlOzCollapsed(); ReparsableOf("fl oz"); }

  lemma FlOzCollapsed()
    ensures IsCollapsed("fl oz")
  {
    var s := "fl oz";
    assert s[0] == 'f' && s[1] == 'l' && s[2] == ' ' && s[3] == 'o' && s[4] == 'z';
  }
  lemma LbReparsable() ensures Reparsable("lb") { LbSpelling(); ReparsableOf("lb"); }
  lemma KgReparsable() ensures Reparsable("kg") { KgSpelling(); ReparsableOf("kg"); }
  lemma MlReparsable() ensures Reparsable("mL") { MlSpelling(); ReparsableOf("mL"); }
  lemma LReparsable() ensures Reparsable("L") { LSpelling(); ReparsableOf("L"); }

  lemma CanonicalUnitReparsable(u: string)
    requires u in CanonicalUnits
    ensures Reparsable(u)
  {
    if u == "oz" { OzReparsable(); }
    else if u == "fl oz" { FlOzReparsable(); }
    else if u == "lb" { LbReparsable(); }
    else if u == "kg" { KgReparsable(); }
    else if u == "mL" { MlReparsable(); }
    else { assert u == "L"; LReparsable(); }
  }

  /** A number, one space and a unit written with single spaces is already
      clean, and parses as `ParseNumberThenUnit` describes. */
  lemma ParseSpacedUnit(n: string, t: string)
    requires IsNumber(n)
    requires t != [] && IsCollapsed(t) && ',' !in t && '\n' !in t
    ensures ParseWeight(n + " " + t) ==
              if Lower(t) in UnitMap then Success(Measured(n, UnitMap[Lower(t)]))
              else Failure(UnknownUnit)
  {
    NumberChars(n);
    var w := n + " " + t;
    assert IsStripped(w);
    assert ',' !in w;
    StripOfStripped(w);
    ParseNumberThenUnit(w, n, " ", t);
  }

  /** Lower-casing a rendered weight only lower-cases its unit. */
  lemma LowerRendered(n: string, u: string)
    requires IsNumber(n)
    ensures Lower(n + " " + u) == n + " " + Lower(u)
  {
    NumberChars(n);
    LowerAppend(n + " ", u);
    LowerAppend(n, " ");
    LowerIsLower(n);
  }

  /** A rendered weight parses back to itself, also once lower-cased (the
      store keeps weights lower-cased). */
  lemma RenderReparses(n: string, u: string)
    requires IsNumber(n) && u in CanonicalUnits
    ensures ParseWeight(n + " " + u) == Success(Measured(n, u))
    ensures ParseWeight(Lower(n + " " + u)) == Success(Measured(n, u))
  {
    CanonicalUnitReparsable(u);
    ParseSpacedUnit(n, u);
    ParseSpacedUnit(n, Lower(u));
    LowerRendered(n, u);
  }

  /** Normalising is idempotent and insensitive to the case of its own
      output: a normalised weight, as written or lower-cased, normalises to
      itself. */
  lemma {:induction false} FormatUnitIdempotent(value: string)
    requires FormatUnit(value).Success?
    ensures FormatUnit(FormatUnit(value).value) == FormatUnit(value)
    ensures FormatUnit(Lower(FormatUnit(value).value)) == FormatUnit(value)
  {
    match ParseWeight(value).value
    case Blank =>
      assert FormatUnit(value).value == "";
      assert Clean("") == "";
    case Measured(n, u) =>
      RenderReparses(n, u);
  }

  /** `ParseNumberThenUnit`, stated for the rendered string. */
  lemma FormatNumberThenUnit(value: string, n: string, gap: string, t: string)
    requires IsStripped(value) && ',' !in value && value == n + gap + t
    requires IsNumber(n)
    requires forall i :: 0 <= i < |gap| ==> IsSpace(gap[i]) && gap[i] != '\n'
    requires gap == [] ==> t == [] || (!IsDigit(t[0]) && t[0] != '.')
    requires IsCollapsed(t) && '\n' !in t
    ensures FormatUnit(value) ==
              if Lower(t) in UnitMap then Success(n + " " + UnitMap[Lower(t)])
              else Failure(UnknownUnit)
  {
    StripOfStripped(value);
    ParseNumberThenUnit(value, n, gap, t);
  }

  /** A successful parse renders as number, space, unit. */
  lemma FormatOfParsed(value: string, p: Weight, w: string)
    requires ParseWeight(value) == Success(p)
    requires Render(p) == w
    ensures FormatUnit(value) == Success(w)
  {
  }
}
