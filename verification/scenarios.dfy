/** Lemmas classifying concrete descriptions. */
module Scenarios {
  import opened Text
  import opened Classifier

  /** Keywords match whole words only: "gas" does not occur in "gasoline". */
  lemma GasolineIsNotGas()
    ensures !Occurs("gasoline", "gas")
  {
    var s := "gasoline";
    forall i | 0 <= i && i + 3 <= |s| ensures !OccursAt(s, "gas", i) {
      if i == 0 {
        assert s[3] == 'o';
      } else {
        assert s[i..i + 3][0] == s[i] != 'g';
      }
    }
  }

  lemma LowerGasStation()
    ensures Lower("Gas Station") == "gas station"
  {
  }

  /** No Groceries keyword occurs in "gas station": each has a letter the phrase lacks. */
  lemma GasStationHasNoGroceryWord()
    ensures !Matches("gas station", Rules[0].keywords)
  {
    var s := "gas station";
    var kws := Rules[0].keywords;
    assert kws == ["supermarket", "grocery", "market", "food"];
    MissingCharRulesOut(s, kws[0], 'u');
    MissingCharRulesOut(s, kws[1], 'r');
    MissingCharRulesOut(s, kws[2], 'm');
    MissingCharRulesOut(s, kws[3], 'f');
  }

  /** The Utilities keyword "gas" opens "gas station". */
  lemma GasStationHasUtilityWord()
    ensures Matches("gas station", Rules[1].keywords)
  {
    assert OccursAt("gas station", "gas", 0);
    assert Rules[1].keywords[2] == "gas";
  }

  /** "Gas Station" is filed under Utilities, through its word "gas", and not
      under Transport, whose keyword "gas station" it spells out in full. */
  lemma GasStationIsUtilities()
    ensures Classify("Gas Station") == Utilities
  {
    LowerGasStation();
    GasStationHasNoGroceryWord();
    GasStationHasUtilityWord();
    FirstMatchWins("Gas Station", 1);
  }
}
