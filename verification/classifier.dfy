/** The keyword classifier: the ordered category table and the first-match
    walk over it that `categorize_transaction` performs. */
module Classifier {
  import opened Text

  /** The eight labels of the category table. */
  datatype Category =
    | Groceries
    | Utilities
    | Subscriptions
    | Restaurants
    | Transport
    | Entertainment
    | Healthcare
    | Others

  /** The label string the tracker shows for a category. */
  function Name(c: Category): string {
    match c
    case Groceries => "Groceries"
    case Utilities => "Utilities"
    case Subscriptions => "Subscriptions"
    case Restaurants => "Restaurants"
    case Transport => "Transport"
    case Entertainment => "Entertainment"
    case Healthcare => "Healthcare"
    case Others => "Others"
  }

  /** One entry of the table: a category and its keywords, in list order. */
  datatype Rule = Rule(category: Category, keywords: seq<string>)

  /** The category table in its iteration order; the fallback `Others` comes last with no keywords. */
  const Rules: seq<Rule> := [
    Rule(Groceries, ["supermarket", "grocery", "market", "food"]),
    Rule(Utilities, ["electricity", "water", "gas", "utility", "internet", "phone"]),
    Rule(Subscriptions, ["netflix", "spotify", "subscription", "hulu", "amazon prime"]),
    Rule(Restaurants, ["restaurant", "cafe", "bar", "diner", "food delivery"]),
    Rule(Transport, ["uber", "lyft", "bus", "metro", "train", "taxi", "fuel", "gas station"]),
    Rule(Entertainment, ["cinema", "movie", "concert", "theater", "ticket"]),
    Rule(Healthcare, ["pharmacy", "doctor", "hospital", "clinic", "dental"]),
    Rule(Others, [])
  ]

  /** Some keyword of the list occurs in `s` as a whole word. */
  ghost predicate Matches(s: string, keywords: seq<string>) {
    exists k :: 0 <= k < |keywords| && Occurs(s, keywords[k])
  }

  /** Rule `j` is the first rule of the table whose keywords match `s`. */
  ghost predicate FirstMatchAt(s: string, j: int) {
    && 0 <= j < |Rules|
    && Matches(s, Rules[j].keywords)
    && forall j' :: 0 <= j' < j ==> !Matches(s, Rules[j'].keywords)
  }

  /** The inner loop over one category's keywords, in list order. */
  function AnyKeyword(s: string, keywords: seq<string>): (found: bool)
    ensures found <==> Matches(s, keywords)
  {
    if |keywords| == 0 then false
    else if ContainsWord(s, keywords[0]) then true
    else
      var rest := AnyKeyword(s, keywords[1..]);
      assert Matches(s, keywords[1..]) ==> Matches(s, keywords) by {
        if Matches(s, keywords[1..]) {
          var k :| 0 <= k < |keywords[1..]| && Occurs(s, keywords[1..][k]);
          assert Occurs(s, keywords[k + 1]);
        }
      }
      assert Matches(s, keywords) ==> Matches(s, keywords[1..]) by {
        if Matches(s, keywords) {
          var k :| 0 <= k < |keywords| && Occurs(s, keywords[k]);
          assert k != 0;
          assert Occurs(s, keywords[1..][k - 1]);
        }
      }
      rest
  }

  /** The shape of the table the classifier relies on: `Others` labels the
      last rule and no other, and that rule has no keywords. */
  lemma RulesShape()
    ensures forall j :: 0 <= j < |Rules| ==> (Rules[j].category == Others <==> j == |Rules| - 1)
    ensures Rules[|Rules| - 1].keywords == []
  {
    forall j | 0 <= j < |Rules|
      ensures Rules[j].category == Others <==> j == |Rules| - 1
    {
      if j == 0 {} else if j == 1 {} else if j == 2 {} else if j == 3 {}
      else if j == 4 {} else if j == 5 {} else if j == 6 {} else {}
    }
  }

  /** A keyword that starts and ends with a small letter. */
  predicate LetterBounded(kw: string) {
    |kw| > 0 && IsSmallLetter(kw[0]) && IsSmallLetter(kw[|kw| - 1])
  }

  /** Every keyword of the table starts and ends with a letter, so the
      whole-word search agrees with the `\b` pattern on it. */
  lemma KeywordsAreLetterBounded()
    ensures forall j, k :: 0 <= j < |Rules| && 0 <= k < |Rules[j].keywords| ==> LetterBounded(Rules[j].keywords[k])
  {
    forall j, k | 0 <= j < |Rules| && 0 <= k < |Rules[j].keywords|
      ensures LetterBounded(Rules[j].keywords[k])
    {
      if j == 0 {} else if j == 1 {} else if j == 2 {} else if j == 3 {}
      else if j == 4 {} else if j == 5 {} else if j == 6 {} else {}
    }
  }

  /** The outer loop over the table from rule `i` on, on an already lowered description. */
  function FirstMatchFrom(s: string, i: nat): (r: Category)
    requires i <= |Rules|
    requires forall j :: 0 <= j < i ==> !Matches(s, Rules[j].keywords)
    ensures r == Others ==> forall j :: 0 <= j < |Rules| ==> !Matches(s, Rules[j].keywords)
    ensures r != Others ==> exists j :: FirstMatchAt(s, j) && Rules[j].category == r
    decreases |Rules| - i
  {
    RulesShape();
    if i == |Rules| then Others
    else if AnyKeyword(s, Rules[i].keywords) then
      assert FirstMatchAt(s, i);
      Rules[i].category
    else FirstMatchFrom(s, i + 1)
  }

  /** `categorize_transaction`: the category of the first rule, in table
      order, with a keyword occurring as a whole word in the lowered
      description, and `Others` exactly when there is none. */
  function Classify(description: string): (r: Category)
    ensures r == Others <==> forall j :: 0 <= j < |Rules| ==> !Matches(Lower(description), Rules[j].keywords)
    ensures r != Others ==> exists j :: FirstMatchAt(Lower(description), j) && Rules[j].category == r
  {
    FirstMatchFrom(Lower(description), 0)
  }

  /** First match wins: when rule `i` matches and no earlier rule does, the
      description lands in rule `i`'s category whatever later rules would match. */
  lemma FirstMatchWins(description: string, i: int)
    requires FirstMatchAt(Lower(description), i)
    ensures Classify(description) == Rules[i].category
  {
    var s := Lower(description);
    assert Matches(s, Rules[i].keywords);
    assert Classify(description) != Others;
    var j :| FirstMatchAt(s, j) && Rules[j].category == Classify(description);
  }

  /** A rule that matches decides the category unless an earlier rule does:
      the result is the category of that rule or of a rule before it. */
  lemma MatchBoundsCategory(description: string, i: int)
    requires 0 <= i < |Rules| && Matches(Lower(description), Rules[i].keywords)
    ensures Classify(description) != Others
    ensures exists j :: 0 <= j <= i && Rules[j].category == Classify(description)
  {
    var s := Lower(description);
    assert Classify(description) != Others;
    var j :| FirstMatchAt(s, j) && Rules[j].category == Classify(description);
  }

  /** A keyword standing as a word of its own in the lowered description,
      whatever the letter case of the original, puts the description in that
      keyword's category or in an earlier one. */
  lemma StandaloneKeywordMatches(description: string, pre: string, post: string, i: int, k: int)
    requires 0 <= i < |Rules| && 0 <= k < |Rules[i].keywords|
    requires Lower(description) == pre + Rules[i].keywords[k] + post
    requires |pre| == 0 || !IsWordChar(pre[|pre| - 1])
    requires |post| == 0 || !IsWordChar(post[0])
    ensures Classify(description) != Others
    ensures exists j :: 0 <= j <= i && Rules[j].category == Classify(description)
  {
    var s := Lower(description);
    var kw := Rules[i].keywords[k];
    assert s[|pre|..|pre| + |kw|] == kw;
    assert |pre| > 0 ==> s[|pre| - 1] == pre[|pre| - 1];
    assert |pre| + |kw| < |s| ==> s[|pre| + |kw|] == post[0];
    assert OccursAt(s, kw, |pre|);
    assert Matches(s, Rules[i].keywords);
    MatchBoundsCategory(description, i);
  }

  /** Whole-word matching: a keyword that only appears as the head of a longer
      word does not occur there. */
  lemma PrefixOfLongerWordIsNoOccurrence(s: string, kw: string, i: int)
    requires 0 <= i && i + |kw| < |s| && s[i..i + |kw|] == kw
    requires IsWordChar(s[i + |kw|])
    ensures !OccursAt(s, kw, i)
  {
  }

  /** Classification ignores letter case: a description in capitals lands
      where the description itself lands. */
  lemma ClassifyIgnoresCase(description: string)
    ensures Classify(Upper(description)) == Classify(description)
  {
    LowerOfUpper(description);
  }

  /** A whole-word occurrence of a phrase whose first word is `head` is a
      whole-word occurrence of `head`. */
  lemma HeadOfPhraseOccurs(s: string, head: string, tail: string, i: int)
    requires OccursAt(s, head + tail, i)
    requires |tail| > 0 && !IsWordChar(tail[0])
    ensures OccursAt(s, head, i)
  {
    var phrase := head + tail;
    assert s[i..i + |head|] == s[i..i + |phrase|][..|head|];
    assert s[i + |head|] == s[i..i + |phrase|][|head|];
  }

  /** "gas station" (Transport) can never decide a category: wherever it
      occurs as a word, "gas" (Utilities) does too, so the result is
      Utilities or Groceries. */
  lemma GasStationIsShadowed(description: string)
    requires Occurs(Lower(description), "gas station")
    ensures Classify(description) == Groceries || Classify(description) == Utilities
  {
    var s := Lower(description);
    var i :| OccursAt(s, "gas station", i);
    assert "gas station" == "gas" + " station";
    HeadOfPhraseOccurs(s, "gas", " station", i);
    assert Rules[1].keywords[2] == "gas";
    assert Matches(s, Rules[1].keywords);
    MatchBoundsCategory(description, 1);
    var j :| 0 <= j <= 1 && Rules[j].category == Classify(description);
  }

  /** "food delivery" (Restaurants) can never decide a category: wherever it
      occurs as a word, "food" (Groceries) does too, so the result is Groceries. */
  lemma FoodDeliveryIsShadowed(description: string)
    requires Occurs(Lower(description), "food delivery")
    ensures Classify(description) == Groceries
  {
    var s := Lower(description);
    var i :| OccursAt(s, "food delivery", i);
    assert "food delivery" == "food" + " delivery";
    HeadOfPhraseOccurs(s, "food", " delivery", i);
    assert Rules[0].keywords[3] == "food";
    assert Matches(s, Rules[0].keywords);
    MatchBoundsCategory(description, 0);
  }
}
