/** The worked examples of tests/test_extractor.py and of the pattern
    comments in src/dimension_parser.py. Each is stated for every spelling
    with the given digit groups (any whitespace, either mark character), and
    follows from the general re-parsing lemmas; the arithmetic is done apart,
    in the `...Value` lemmas. */
module DimensionExamples {
  import opened Wrappers
  import opened Chars
  import opened DimensionGrammar
  import opened DimensionParser

  /** `25"` is 25 inches. */
  lemma SimpleInchesExample(d: Derivation)
    requires d.SimpleInches? && WellFormed(d) && d.amount == Decimal("25", [])
    ensures ParseDimension(Render(d)) == Some(25.0)
  {
    ReparseSimple(d);
    SimpleInchesValue(d);
  }

  lemma SimpleInchesValue(d: Derivation)
    requires d.SimpleInches? && WellFormed(d) && d.amount == Decimal("25", [])
    ensures Value(d) == 25.0
  {
    assert DigitsValue("2") == 2;
  }

  /** `2' 6"` is 30 inches. */
  lemma FeetInchesExample(d: Derivation)
    requires d.FeetInches? && WellFormed(d) && d.feet == "2" && d.inches == Decimal("6", [])
    ensures ParseDimension(Render(d)) == Some(30.0)
  {
    ReparseFeet(d);
    FeetInchesValue(d);
  }

  lemma FeetInchesValue(d: Derivation)
    requires d.FeetInches? && WellFormed(d) && d.feet == "2" && d.inches == Decimal("6", [])
    ensures Value(d) == 30.0
  {
  }

  /** `3' 4.5"` is 40.5 inches. */
  lemma FeetDecimalInchesExample(d: Derivation)
    requires d.FeetInches? && WellFormed(d) && d.feet == "3" && d.inches == Decimal("4", "5")
    ensures ParseDimension(Render(d)) == Some(40.5)
  {
    ReparseFeet(d);
    FeetDecimalInchesValue(d);
  }

  lemma FeetDecimalInchesValue(d: Derivation)
    requires d.FeetInches? && WellFormed(d) && d.feet == "3" && d.inches == Decimal("4", "5")
    ensures Value(d) == 40.5
  {
    assert DecimalsValue("5") == 0.5;
  }

  /** `34 (1/2)"` is 34.5 inches. */
  lemma ParenthesisedFractionExample(d: Derivation)
    requires d.MixedFraction? && WellFormed(d) && (d.sp1 != [] || d.open || d.sp2 != [])
    requires d.whole == "34" && d.num == "1" && d.tail.den == "2"
    ensures ParseDimension(Render(d)) == Some(34.5)
  {
    ReparseFraction(d);
    FractionValueOf(d, "34", "1", "2", 34.5);
  }

  /** `25 3/4"` is 25.75 inches. */
  lemma SpacedFractionExample(d: Derivation)
    requires d.MixedFraction? && WellFormed(d) && (d.sp1 != [] || d.open || d.sp2 != [])
    requires d.whole == "25" && d.num == "3" && d.tail.den == "4"
    ensures ParseDimension(Render(d)) == Some(25.75)
  {
    ReparseFraction(d);
    FractionValueOf(d, "25", "3", "4", 25.75);
  }

  /** The value of a mixed fraction with the given groups. */
  lemma FractionValueOf(d: Derivation, whole: string, num: string, den: string, v: real)
    requires d.MixedFraction? && WellFormed(d)
    requires d.whole == whole && d.num == num && d.tail.den == den
    requires (whole, num, den, v) in {("34", "1", "2", 34.5), ("25", "3", "4", 25.75), ("12", "3", "4", 12.75)}
    ensures Value(d) == v
  {
    assert DigitsValue("1") == 1 && DigitsValue("2") == 2 && DigitsValue("3") == 3 && DigitsValue("4") == 4;
  }

  /** `123/4"`: nothing separates the whole part from the numerator, so the
      engine takes all digits but the last as the whole part: 12 and 3/4. */
  lemma JoinedFractionExample(d: Derivation)
    requires d.MixedFraction? && WellFormed(d) && d.sp1 == [] && !d.open && d.sp2 == []
    requires d.whole + d.num == "123" && d.tail.den == "4"
    ensures ParseDimension(Render(d)) == Some(12.75)
  {
    var e := MixedFraction("12", [], false, [], "3", d.tail);
    SameJoinedText(d, e);
    ReparseFraction(e);
    FractionValueOf(e, "12", "3", "4", 12.75);
  }

  /** Two mixed fractions without separators whose whole part and numerator
      spell the same digits, with the same tail, spell the same text. */
  lemma SameJoinedText(d: Derivation, e: Derivation)
    requires d.MixedFraction? && e.MixedFraction?
    requires d.sp1 == [] && !d.open && d.sp2 == [] && e.sp1 == [] && !e.open && e.sp2 == []
    requires d.whole + d.num == e.whole + e.num && d.tail == e.tail
    ensures Render(d) == Render(e)
  {
    var tail := TailWith(d.tail, []);
    assert Render(d) == (d.whole + d.num) + tail;
    assert Render(e) == (e.whole + e.num) + tail;
  }

  /** A zero denominator makes the whole fraction worth 0, as in `5 1/0"`. */
  lemma ZeroDenominatorExample(d: Derivation)
    requires d.MixedFraction? && WellFormed(d) && (d.sp1 != [] || d.open || d.sp2 != [] || |d.num| == 1)
    requires d.tail.den == "0"
    ensures ParseDimension(Render(d)) == Some(0.0)
  {
    ReparseFraction(d);
    ZeroDenominatorValue(d);
  }

  lemma ZeroDenominatorValue(d: Derivation)
    requires d.MixedFraction? && WellFormed(d) && d.tail.den == "0"
    ensures Value(d) == 0.0
  {
    assert DigitsValue(d.tail.den) == 0;
  }
}
