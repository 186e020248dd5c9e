/** The repository's table of expected conversions, and how the converters
    fare against it. The table expects `"X"` for 10; the code, whose
    substitutions replace only the leftmost occurrence, yields `"VIIIII"`.
 */
module OracleTable {
  import opened RomanNumerals

  /** Decimal input and expected numeral, in table order. */
  const TestCases: seq<(nat, string)> := [
    (0, ""), (1, "I"), (2, "II"), (3, "III"), (4, "IIII"),
    (5, "V"), (6, "VI"), (7, "VII"), (8, "VIII"), (9, "VIIII"),
    (10, "X")
  ]

  /** The expansion of a small count, as a literal. */
  lemma {:induction false} SmallExpansions()
    ensures ReplicateIs(0) == "" && ReplicateIs(1) == "I" && ReplicateIs(2) == "II"
    ensures ReplicateIs(3) == "III" && ReplicateIs(4) == "IIII"
  {
  }

  /** The converter gives the table's numeral for every entry from 0 to 9. */
  lemma {:induction false} ConverterMatchesTableBelowTen()
    ensures forall k :: 0 <= k < 10 ==>
      DecimalToRomanNumeral(TestCases[k].0) == TestCases[k].1
  {
    SmallExpansions();
    forall k | 0 <= k < 10
      ensures DecimalToRomanNumeral(TestCases[k].0) == TestCases[k].1
    {
      assert TestCases[k].0 == k;
      if k < 5 {
        assert TestCases[k].1 == ReplicateIs(k);
      } else {
        assert TestCases[k].1 == "V" + ReplicateIs(k - 5);
      }
    }
  }

  /** The composed and piped converters give the same verdicts: they match
      the table from 0 to 9. */
  lemma {:induction false} VariantsMatchTableBelowTen()
    ensures forall k :: 0 <= k < 10 ==>
      && DecimalToRomanNumeral2(TestCases[k].0) == TestCases[k].1
      && DecimalToRomanNumeral3(TestCases[k].0) == TestCases[k].1
  {
    ConverterMatchesTableBelowTen();
  }

  /** For 10 the code yields `"VIIIII"`: the `IIIII -> V` rule fires only on
      the first five `I`s, so `VV -> X` never finds two `V`s. The table's
      `"X"` is therefore not what any of the three converters returns. */
  lemma {:induction false} ConvertersMissTen()
    ensures TestCases[10] == (10, "X")
    ensures DecimalToRomanNumeral(10) == "VIIIII"
    ensures DecimalToRomanNumeral2(10) == "VIIIII"
    ensures DecimalToRomanNumeral3(10) == "VIIIII"
    ensures DecimalToRomanNumeral(10) != TestCases[10].1
  {
  }
}
