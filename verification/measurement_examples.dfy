/** Worked examples of the weight normaliser. Each step on a concrete string
    is its own lemma, so that the solver evaluates one piece at a time. */
module MeasurementExamples {
  import opened Wrappers
  import opened Text
  import opened Measurements

  // "1l" -> "1 L"

  lemma MatchLitre()
    ensures MatchNumber("1l") == Some(("1", "l"))
  {
    assert "1" + "l" == "1l";
    MatchNumberOfNumber("1", "l");
  }

  lemma KeyLitre()
    ensures UnitKey("l") == "l"
  {
    assert "" + "l" == "l";
    UnitKeyOfGapThenUnit("", "l");
  }

  lemma CleanLitre()
    ensures Clean("1l") == "1l"
  {
    CleanOfClean("1l");
  }

  lemma LookupLitre()
    ensures "l" in UnitMap && UnitMap["l"] == "L"
  {
  }

  lemma ParseLitre()
    ensures ParseWeight("1l") == Success(Measured("1", "L"))
  {
    CleanLitre();
    MatchLitre();
    KeyLitre();
    LookupLitre();
    ParseOfMatched("1l", "1", "l");
  }

  // "500 ml" -> "500 mL"

  lemma MatchMillilitres()
    ensures MatchNumber("500 ml") == Some(("500", " ml"))
  {
    assert "500" + " ml" == "500 ml";
    MatchNumberOfNumber("500", " ml");
  }

  lemma KeyMillilitres()
    ensures UnitKey(" ml") == "ml"
  {
    assert " " + "ml" == " ml";
    UnitKeyOfGapThenUnit(" ", "ml");
  }

  lemma CleanMillilitres()
    ensures Clean("500 ml") == "500 ml"
  {
    CleanOfClean("500 ml");
  }

  lemma LookupMillilitres()
    ensures "ml" in UnitMap && UnitMap["ml"] == "mL"
  {
  }

  lemma ParseMillilitres()
    ensures ParseWeight("500 ml") == Success(Measured("500", "mL"))
  {
    CleanMillilitres();
    MatchMillilitres();
    KeyMillilitres();
    LookupMillilitres();
    ParseOfMatched("500 ml", "500", " ml");
  }

  // "2 lbs" -> "2 lb"

  lemma MatchPounds()
    ensures MatchNumber("2 lbs") == Some(("2", " lbs"))
  {
    assert "2" + " lbs" == "2 lbs";
    MatchNumberOfNumber("2", " lbs");
  }

  lemma KeyPounds()
    ensures UnitKey(" lbs") == "lbs"
  {
    assert " " + "lbs" == " lbs";
    UnitKeyOfGapThenUnit(" ", "lbs");
  }

  lemma CleanPounds()
    ensures Clean("2 lbs") == "2 lbs"
  {
    CleanOfClean("2 lbs");
  }

  lemma LookupPounds()
    ensures "lbs" in UnitMap && UnitMap["lbs"] == "lb"
  {
  }

  lemma ParsePounds()
    ensures ParseWeight("2 lbs") == Success(Measured("2", "lb"))
  {
    CleanPounds();
    MatchPounds();
    KeyPounds();
    LookupPounds();
    ParseOfMatched("2 lbs", "2", " lbs");
  }

  // "8   fl oz" -> "8 fl oz"

  lemma MatchFluidOunces()
    ensures MatchNumber("8   fl oz") == Some(("8", "   fl oz"))
  {
    assert "8" + "   fl oz" == "8   fl oz";
    MatchNumberOfNumber("8", "   fl oz");
  }

  lemma KeyFluidOunces()
    ensures UnitKey("   fl oz") == "fl oz"
  {
    assert IsCollapsed("fl oz");
    assert "   " + "fl oz" == "   fl oz";
    UnitKeyOfGapThenUnit("   ", "fl oz");
  }

  lemma CleanFluidOunces()
    ensures Clean("8   fl oz") == "8   fl oz"
  {
    CleanOfClean("8   fl oz");
  }

  lemma LookupFluidOunces()
    ensures "fl oz" in UnitMap && UnitMap["fl oz"] == "fl oz"
  {
  }

  lemma ParseFluidOunces()
    ensures ParseWeight("8   fl oz") == Success(Measured("8", "fl oz"))
  {
    CleanFluidOunces();
    MatchFluidOunces();
    KeyFluidOunces();
    LookupFluidOunces();
    ParseOfMatched("8   fl oz", "8", "   fl oz");
  }

  // The four examples in the normaliser's documentation, one lemma each.

  lemma RenderLitre()
    ensures Render(Measured("1", "L")) == "1 L"
  {
  }

  lemma LitreExample()
    ensures FormatUnit("1l") == Success("1 L")
  {
    ParseLitre();
    RenderLitre();
    FormatOfParsed("1l", Measured("1", "L"), "1 L");
  }

  lemma RenderMillilitres()
    ensures Render(Measured("500", "mL")) == "500 mL"
  {
  }

  lemma MillilitresExample()
    ensures FormatUnit("500 ml") == Success("500 mL")
  {
    ParseMillilitres();
    RenderMillilitres();
    FormatOfParsed("500 ml", Measured("500", "mL"), "500 mL");
  }

  lemma RenderPounds()
    ensures Render(Measured("2", "lb")) == "2 lb"
  {
  }

  lemma PoundsExample()
    ensures FormatUnit("2 lbs") == Success("2 lb")
  {
    ParsePounds();
    RenderPounds();
    FormatOfParsed("2 lbs", Measured("2", "lb"), "2 lb");
  }

  lemma RenderFluidOunces()
    ensures Render(Measured("8", "fl oz")) == "8 fl oz"
  {
  }

  lemma FluidOuncesExample()
    ensures FormatUnit("8   fl oz") == Success("8 fl oz")
  {
    ParseFluidOunces();
    RenderFluidOunces();
    FormatOfParsed("8   fl oz", Measured("8", "fl oz"), "8 fl oz");
  }

  // "1,000 lb" -> "1000 lb"

  lemma CleanThousands()
    ensures Clean("1,000 lb") == "1000 lb"
  {
    assert "1" + "," + "000 lb" == "1,000 lb";
    assert "1" + "000 lb" == "1000 lb";
    CleanOneComma("1", "000 lb");
  }

  lemma MatchThousands()
    ensures MatchNumber("1000 lb") == Some(("1000", " lb"))
  {
    assert "1000" + " lb" == "1000 lb";
    MatchNumberOfNumber("1000", " lb");
  }

  lemma KeyThousands()
    ensures UnitKey(" lb") == "lb"
  {
    assert " " + "lb" == " lb";
    UnitKeyOfGapThenUnit(" ", "lb");
  }

  lemma LookupThousands()
    ensures "lb" in UnitMap && UnitMap["lb"] == "lb"
  {
  }

  lemma ParseThousands()
    ensures ParseWeight("1,000 lb") == Success(Measured("1000", "lb"))
  {
    CleanThousands();
    MatchThousands();
    KeyThousands();
    LookupThousands();
    ParseOfMatched("1,000 lb", "1000", " lb");
  }

  lemma RenderThousands()
    ensures Render(Measured("1000", "lb")) == "1000 lb"
  {
  }

  /** Thousands separators are dropped; the digits are otherwise kept as
      written. */
  lemma ThousandsExample()
    ensures FormatUnit("1,000 lb") == Success("1000 lb")
  {
    ParseThousands();
    RenderThousands();
    FormatOfParsed("1,000 lb", Measured("1000", "lb"), "1000 lb");
  }

  // "5 lb\n," -> "5 lb": once the comma is dropped the text ends in a line
  // feed, and `$` closes the match just before it.

  lemma CleanTrailingFeed()
    ensures Clean("5 lb\n,") == "5 lb\n"
  {
    var s := "5 lb\n,";
    assert IsStripped(s);
    StripOfStripped(s);
    assert s == "5 lb\n" + ",";
    RemoveCharAppend("5 lb\n", ",", ',');
    assert RemoveChar(",", ',') == "";
  }

  lemma MatchTrailingFeed()
    ensures MatchNumber("5 lb\n") == Some(("5", " lb"))
  {
    assert LineBody("5 lb\n") == "5 lb";
    assert "5" + " lb" == "5 lb";
    MatchNumberOfNumber("5", " lb");
  }

  lemma ParseTrailingFeed()
    ensures ParseWeight("5 lb\n,") == Success(Measured("5", "lb"))
  {
    CleanTrailingFeed();
    MatchTrailingFeed();
    KeyThousands();
    LookupThousands();
    ParseOfMatched("5 lb\n,", "5", " lb");
  }

  lemma RenderTrailingFeed()
    ensures Render(Measured("5", "lb")) == "5 lb"
  {
  }

  /** A line feed that ends the cleaned text does not make it invalid. */
  lemma TrailingFeedExample()
    ensures FormatUnit("5 lb\n,") == Success("5 lb")
  {
    ParseTrailingFeed();
    RenderTrailingFeed();
    FormatOfParsed("5 lb\n,", Measured("5", "lb"), "5 lb");
  }

  // "5\n," -> unknown unit: the number matches and the unit is empty.

  lemma CleanBareFeed()
    ensures Clean("5\n,") == "5\n"
  {
    var s := "5\n,";
    assert IsStripped(s);
    StripOfStripped(s);
    assert s == "5\n" + ",";
    RemoveCharAppend("5\n", ",", ',');
    assert RemoveChar(",", ',') == "";
  }

  lemma MatchBareFeed()
    ensures MatchNumber("5\n") == Some(("5", ""))
  {
    assert LineBody("5\n") == "5";
    assert "5" + "" == "5";
    MatchNumberOfNumber("5", "");
  }

  lemma KeyEmpty()
    ensures UnitKey("") == "" && "" !in UnitMap
  {
    assert "" + "" == "";
    UnitKeyOfGapThenUnit("", "");
  }

  lemma ParseBareFeed()
    ensures ParseWeight("5\n,") == Failure(UnknownUnit)
  {
    CleanBareFeed();
    MatchBareFeed();
    KeyEmpty();
    ParseOfMatched("5\n,", "5", "");
  }

  /** A number followed only by a final line feed has an empty unit, which
      is not a known spelling. */
  lemma BareFeedExample()
    ensures FormatUnit("5\n,") == Failure(UnknownUnit)
  {
    ParseBareFeed();
  }
}
