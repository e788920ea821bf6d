/** The month x category grid of `monthly_trends` and `overspending_alert`:
    `groupby(['Month', 'Category'])['Amount'].sum().unstack(fill_value=0)`.
    Rows are the months that occur, oldest first; columns are the categories
    that occur, in name order; a cell holds the signed total of its month and
    category, 0 when there is none. */
module Trends {
  import opened Text
  import opened Grouping
  import opened Classifier
  import opened Ledger
  import opened Summaries

  /** A monthly period (`to_period('M')`). */
  datatype YearMonth = YearMonth(year: nat, month: nat)

  function MonthOf(d: Date): YearMonth {
    YearMonth(d.year, d.month)
  }

  /** Chronological order of periods. */
  predicate Before(a: YearMonth, b: YearMonth) {
    a.year < b.year || (a.year == b.year && a.month < b.month)
  }

  /** Strictly ascending in time, hence without repeats. */
  predicate Chronological(ms: seq<YearMonth>) {
    forall i, j :: 0 <= i < j < |ms| ==> Before(ms[i], ms[j])
  }

  /** The months in which some transaction falls. */
  function PresentMonths(txs: seq<Transaction>): set<YearMonth> {
    set t | t in txs :: MonthOf(t.date)
  }

  /** Adds `m` to an ascending list of months, unless it is already there. */
  function InsertMonth(ms: seq<YearMonth>, m: YearMonth): (r: seq<YearMonth>)
    requires Chronological(ms)
    ensures Chronological(r)
    ensures forall x :: x in r <==> x in ms || x == m
    ensures |r| > 0 && (r[0] == m || (|ms| > 0 && r[0] == ms[0]))
  {
    if |ms| == 0 then [m]
    else if ms[0] == m then ms
    else if Before(m, ms[0]) then [m] + ms
    else
      var rest := InsertMonth(ms[1..], m);
      assert ms == [ms[0]] + ms[1..];
      assert Before(ms[0], rest[0]);
      [ms[0]] + rest
  }

  /** The row index of the grid: each month that occurs, once, oldest first. */
  function Months(txs: seq<Transaction>): (r: seq<YearMonth>)
    ensures Chronological(r)
    ensures forall m :: m in r <==> m in PresentMonths(txs)
  {
    if |txs| == 0 then []
    else
      assert txs == [txs[0]] + txs[1..];
      assert PresentMonths(txs) == {MonthOf(txs[0].date)} + PresentMonths(txs[1..]);
      InsertMonth(Months(txs[1..]), MonthOf(txs[0].date))
  }

  /** `a`'s label sorts before `b`'s. */
  predicate NameBefore(a: Category, b: Category) {
    StrLess(Name(a), Name(b))
  }

  predicate SortedByName(cs: seq<Category>) {
    forall i, j :: 0 <= i < j < |cs| ==> NameBefore(cs[i], cs[j])
  }

  /** Every category, in the order of its label. */
  const ByName: seq<Category> :=
    [Entertainment, Groceries, Healthcare, Others, Restaurants, Subscriptions, Transport, Utilities]

  /** A list whose neighbours are in label order is in label order. */
  lemma {:induction false} SortedFromAdjacent(cs: seq<Category>)
    requires forall k :: 0 <= k < |cs| - 1 ==> NameBefore(cs[k], cs[k + 1])
    ensures SortedByName(cs)
  {
    if |cs| > 1 {
      SortedFromAdjacent(cs[1..]);
      forall j | 1 < j < |cs| ensures NameBefore(cs[0], cs[j]) {
        assert NameBefore(cs[1..][0], cs[1..][j - 1]);
        StrLessTransitive(Name(cs[0]), Name(cs[1]), Name(cs[j]));
      }
    }
  }

  /** `ByName` lists every category, in label order. */
  lemma ByNameSortedAndComplete()
    ensures SortedByName(ByName)
    ensures forall c :: c in ByName
  {
    assert NameBefore(Entertainment, Groceries) && NameBefore(Groceries, Healthcare)
      && NameBefore(Healthcare, Others) && NameBefore(Others, Restaurants)
      && NameBefore(Restaurants, Subscriptions) && NameBefore(Subscriptions, Transport)
      && NameBefore(Transport, Utilities);
    SortedFromAdjacent(ByName);
    ByNameComplete();
  }

  lemma ByNameComplete()
    ensures forall c :: c in ByName
  {
    forall c | true ensures c in ByName {
      match c
      case Entertainment => assert ByName[0] == c;
      case Groceries => assert ByName[1] == c;
      case Healthcare => assert ByName[2] == c;
      case Others => assert ByName[3] == c;
      case Restaurants => assert ByName[4] == c;
      case Subscriptions => assert ByName[5] == c;
      case Transport => assert ByName[6] == c;
      case Utilities => assert ByName[7] == c;
    }
  }

  /** The entries of `cs` that are in `wanted`, in their order in `cs`. */
  function Keep(cs: seq<Category>, wanted: set<Category>): (r: seq<Category>)
    ensures forall c :: c in r <==> c in cs && c in wanted
  {
    if |cs| == 0 then []
    else if cs[0] in wanted then [cs[0]] + Keep(cs[1..], wanted)
    else Keep(cs[1..], wanted)
  }

  /** Filtering keeps the order: a name-sorted list stays name-sorted. */
  lemma {:induction false} KeepKeepsOrder(cs: seq<Category>, wanted: set<Category>)
    requires SortedByName(cs)
    ensures SortedByName(Keep(cs, wanted))
  {
    if |cs| > 0 {
      KeepKeepsOrder(cs[1..], wanted);
      assert forall c :: c in Keep(cs[1..], wanted) ==> NameBefore(cs[0], c);
    }
  }

  /** The column index of the grid: each category that occurs, once, in label order. */
  function Columns(txs: seq<Transaction>): (r: seq<Category>)
    ensures SortedByName(r)
    ensures forall c :: c in r <==> c in PresentCategories(txs)
  {
    ByNameSortedAndComplete();
    KeepKeepsOrder(ByName, PresentCategories(txs));
    Keep(ByName, PresentCategories(txs))
  }

  /** A two-dimensional table: `cells[i][j]` belongs to `months[i]` and `columns[j]`. */
  datatype Grid = Grid(months: seq<YearMonth>, columns: seq<Category>, cells: seq<seq<int>>)

  predicate WellFormed(g: Grid) {
    |g.cells| == |g.months| && forall i :: 0 <= i < |g.cells| ==> |g.cells[i]| == |g.columns|
  }

  /** The ((month, category), amount) pairs the two-key grouping runs over. */
  function CellPairs(txs: seq<Transaction>): (r: seq<((YearMonth, Category), int)>)
    ensures |r| == |txs|
  {
    if |txs| == 0 then []
    else [((MonthOf(txs[0].date), txs[0].category), txs[0].amount)] + CellPairs(txs[1..])
  }

  /** Signed sum of the amounts of the transactions of month `m` in category `c`. */
  function CellTotal(txs: seq<Transaction>, m: YearMonth, c: Category): int {
    KeySum(CellPairs(txs), (m, c))
  }

  /** The dense month x category grid: every month that occurs by every
      category that occurs, months oldest first, categories in label order,
      each cell the signed total of its month and category. */
  function MonthlyGrid(txs: seq<Transaction>): (g: Grid)
    ensures WellFormed(g)
    ensures Chronological(g.months)
    ensures SortedByName(g.columns)
    ensures forall m :: m in g.months <==> m in PresentMonths(txs)
    ensures forall c :: c in g.columns <==> c in PresentCategories(txs)
    ensures forall i, j :: 0 <= i < |g.months| && 0 <= j < |g.columns| ==> g.cells[i][j] == CellTotal(txs, g.months[i], g.columns[j])
  {
    var sums := Group(CellPairs(txs));
    var ms := Months(txs);
    var cs := Columns(txs);
    Grid(ms, cs, seq(|ms|, i requires 0 <= i < |ms| =>
                   seq(|cs|, j requires 0 <= j < |cs| => Lookup(sums, (ms[i], cs[j])))))
  }

  /** The `i`-th pair is the month and category of the `i`-th transaction, with its amount. */
  lemma {:induction false} CellPairAt(txs: seq<Transaction>, i: nat)
    requires i < |txs|
    ensures CellPairs(txs)[i] == ((MonthOf(txs[i].date), txs[i].category), txs[i].amount)
  {
    if i > 0 {
      CellPairAt(txs[1..], i - 1);
    }
  }

  /** A month and category with no transaction between them hold 0 (`fill_value=0`):
      the pair is not a key of the grouping, and an absent key sums to zero. */
  lemma EmptyCellIsZero(txs: seq<Transaction>, m: YearMonth, c: Category)
    requires forall t :: t in txs ==> MonthOf(t.date) != m || t.category != c
    ensures CellTotal(txs, m, c) == 0
  {
    forall i | 0 <= i < |CellPairs(txs)| ensures CellPairs(txs)[i].0 != (m, c) {
      CellPairAt(txs, i);
      assert txs[i] in txs;
    }
    AbsentKeySumsToZero(CellPairs(txs), (m, c));
  }

  /** Sum of column `j` over the rows of a table. */
  function ColumnSum(cells: seq<seq<int>>, j: nat): int
    requires forall i :: 0 <= i < |cells| ==> j < |cells[i]|
  {
    if |cells| == 0 then 0 else cells[0][j] + ColumnSum(cells[1..], j)
  }

  /** Sum, over the months `ms`, of the cell totals of category `c`. */
  function MonthsSum(txs: seq<Transaction>, ms: seq<YearMonth>, c: Category): int {
    if |ms| == 0 then 0 else CellTotal(txs, ms[0], c) + MonthsSum(txs, ms[1..], c)
  }

  lemma {:induction false} ColumnSumIsMonthsSum(txs: seq<Transaction>, cells: seq<seq<int>>, ms: seq<YearMonth>, c: Category, j: nat)
    requires |cells| == |ms|
    requires forall i :: 0 <= i < |cells| ==> j < |cells[i]| && cells[i][j] == CellTotal(txs, ms[i], c)
    ensures ColumnSum(cells, j) == MonthsSum(txs, ms, c)
  {
    if |cells| > 0 {
      ColumnSumIsMonthsSum(txs, cells[1..], ms[1..], c, j);
    }
  }

  /** Peeling the first transaction off every cell of a column of distinct months. */
  lemma {:induction false} MonthsSumStep(txs: seq<Transaction>, ms: seq<YearMonth>, c: Category)
    requires |txs| > 0 && Chronological(ms)
    ensures MonthsSum(txs, ms, c)
            == MonthsSum(txs[1..], ms, c)
               + (if txs[0].category == c && MonthOf(txs[0].date) in ms then txs[0].amount else 0)
  {
    if |ms| > 0 {
      assert CellPairs(txs)[1..] == CellPairs(txs[1..]);
      MonthsSumStep(txs, ms[1..], c);
      assert ms == [ms[0]] + ms[1..];
      assert MonthOf(txs[0].date) == ms[0] ==> MonthOf(txs[0].date) !in ms[1..];
    }
  }

  /** Summed over months that cover the ledger without repeats, a category's
      cells add up to the category's total. */
  lemma {:induction false} MonthsSumIsCategoryTotal(txs: seq<Transaction>, ms: seq<YearMonth>, c: Category)
    requires Chronological(ms)
    requires forall t :: t in txs ==> MonthOf(t.date) in ms
    ensures MonthsSum(txs, ms, c) == CategoryTotal(txs, c)
  {
    if |txs| == 0 {
      assert forall m :: CellTotal(txs, m, c) == 0;
      ZeroMonthsSum(txs, ms, c);
    } else {
      assert txs[0] in txs;
      assert forall t :: t in txs[1..] ==> t in txs;
      MonthsSumIsCategoryTotal(txs[1..], ms, c);
      MonthsSumStep(txs, ms, c);
      assert CategoryPairs(txs)[1..] == CategoryPairs(txs[1..]);
    }
  }

  lemma {:induction false} ZeroMonthsSum(txs: seq<Transaction>, ms: seq<YearMonth>, c: Category)
    requires forall m :: CellTotal(txs, m, c) == 0
    ensures MonthsSum(txs, ms, c) == 0
  {
    if |ms| > 0 {
      ZeroMonthsSum(txs, ms[1..], c);
    }
  }

  /** Each column of the grid sums to its category's total. */
  lemma ColumnSumIsCategoryTotal(txs: seq<Transaction>, j: nat)
    requires j < |MonthlyGrid(txs).columns|
    ensures ColumnSum(MonthlyGrid(txs).cells, j) == CategoryTotal(txs, MonthlyGrid(txs).columns[j])
  {
    var g := MonthlyGrid(txs);
    var c := g.columns[j];
    ColumnSumIsMonthsSum(txs, g.cells, g.months, c, j);
    MonthsSumIsCategoryTotal(txs, g.months, c);
  }

  /** The grid is dense: every month that occurs meets every category that
      occurs in a cell, and the cell is 0 when no transaction of that month
      has that category. */
  lemma GridIsDense(txs: seq<Transaction>, m: YearMonth, c: Category)
    requires m in PresentMonths(txs) && c in PresentCategories(txs)
    ensures exists i, j :: 0 <= i < |MonthlyGrid(txs).months| && 0 <= j < |MonthlyGrid(txs).columns|
              && MonthlyGrid(txs).months[i] == m && MonthlyGrid(txs).columns[j] == c
              && MonthlyGrid(txs).cells[i][j] == CellTotal(txs, m, c)
    ensures (forall t :: t in txs ==> MonthOf(t.date) != m || t.category != c) ==> CellTotal(txs, m, c) == 0
  {
    var g := MonthlyGrid(txs);
    assert m in g.months && c in g.columns;
    var i :| 0 <= i < |g.months| && g.months[i] == m;
    var j :| 0 <= j < |g.columns| && g.columns[j] == c;
    if forall t :: t in txs ==> MonthOf(t.date) != m || t.category != c {
      EmptyCellIsZero(txs, m, c);
    }
  }
}
