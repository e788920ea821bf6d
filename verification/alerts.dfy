/** The overspending alerts of `overspending_alert`: the month-over-month
    change of every grid cell, `pct_change().fillna(0)`, flagged where it
    exceeds 0.2, and one message per month after the first with at least one
    flagged category. */
module Alerts {
  import opened Text
  import opened Classifier
  import opened Ledger
  import opened Trends
  import opened Summaries

  /** A floating-point result of the change computation: a finite value, an
      infinity from dividing a non-zero amount by zero, or NaN from 0 / 0. */
  datatype Change = Finite(value: real) | PosInf | NegInf | NaN

  /** `cur / prev - 1` with IEEE division by zero, on exact values: over a
      non-zero baseline the change times the baseline is the difference; over
      a zero baseline the sign of the current total picks +inf, -inf or NaN. */
  function PctChange(prev: int, cur: int): (r: Change)
    ensures r.Finite? <==> prev != 0
    ensures r.Finite? ==> r.value * prev as real == (cur - prev) as real
    ensures r.PosInf? <==> prev == 0 && cur > 0
    ensures r.NegInf? <==> prev == 0 && cur < 0
    ensures r.NaN? <==> prev == 0 && cur == 0
  {
    if prev != 0 then Finite(cur as real / prev as real - 1.0)
    else if cur > 0 then PosInf
    else if cur < 0 then NegInf
    else NaN
  }

  /** `fillna(0)`: NaN becomes 0, the infinities stay. */
  function FillNa(c: Change): (r: Change)
    ensures !r.NaN?
    ensures c.NaN? ==> r == Finite(0.0)
    ensures !c.NaN? ==> r == c
  {
    if c.NaN? then Finite(0.0) else c
  }

  /** The overspending threshold: a 20% rise. */
  const Threshold: real := 0.2

  /** `x > 0.2` on a change: +inf exceeds every threshold, -inf none. */
  predicate Exceeds(c: Change) {
    match c
    case Finite(v) => v > Threshold
    case PosInf => true
    case NegInf => false
    case NaN => false
  }

  /** A cell alerts against the previous month's cell. */
  predicate AlertsAgainst(prev: int, cur: int) {
    Exceeds(FillNa(PctChange(prev, cur)))
  }

  /** The sign of a product of reals. */
  lemma ProductSign(x: real, y: real)
    ensures x > 0.0 && y > 0.0 ==> x * y > 0.0
    ensures x <= 0.0 && y > 0.0 ==> x * y <= 0.0
    ensures x > 0.0 && y < 0.0 ==> x * y < 0.0
    ensures x <= 0.0 && y < 0.0 ==> x * y >= 0.0
  {
  }

  /** The alert rule in integer terms: against a positive baseline a cell
      alerts exactly when it is more than 6/5 of it; against a negative one
      exactly when it is below 6/5 of it (the ratio flips with the sign); and
      against a zero baseline exactly when it is positive. A rise of exactly
      20% does not alert. */
  lemma AlertInCents(prev: int, cur: int)
    ensures prev > 0 ==> (AlertsAgainst(prev, cur) <==> 5 * cur > 6 * prev)
    ensures prev < 0 ==> (AlertsAgainst(prev, cur) <==> 5 * cur < 6 * prev)
    ensures prev == 0 ==> (AlertsAgainst(prev, cur) <==> cur > 0)
  {
    if prev != 0 {
      var p := prev as real;
      var c := cur as real;
      var q := c / p;
      assert q * p == c;
      assert AlertsAgainst(prev, cur) <==> q > 1.2;
      assert (q - 1.2) * p == c - 1.2 * p;
      ProductSign(q - 1.2, p);
      if prev > 0 {
        assert q > 1.2 <==> c > 1.2 * p;
      } else {
        assert q > 1.2 <==> c < 1.2 * p;
      }
    }
  }

  /** A chronological month index holds each month once. */
  lemma MonthIndexDistinct(ms: seq<YearMonth>)
    requires Chronological(ms)
    ensures forall a, b :: 0 <= a < |ms| && 0 <= b < |ms| && ms[a] == ms[b] ==> a == b
  {
  }

  /** `pct_change().fillna(0)` at row `i`, column `j` of the grid: the first
      row has no previous row, so its change is NaN, filled to 0. */
  function CellChange(g: Grid, i: nat, j: nat): Change
    requires WellFormed(g) && i < |g.months| && j < |g.columns|
  {
    FillNa(if i == 0 then NaN else PctChange(g.cells[i - 1][j], g.cells[i][j]))
  }

  /** The first month of the grid never alerts; every later cell alerts
      exactly when it does against the cell of the previous row. */
  lemma CellChangeAlerts(g: Grid, i: nat, j: nat)
    requires WellFormed(g) && i < |g.months| && j < |g.columns|
    ensures i == 0 ==> !Exceeds(CellChange(g, i, j))
    ensures i > 0 ==> (Exceeds(CellChange(g, i, j)) <==> AlertsAgainst(g.cells[i - 1][j], g.cells[i][j]))
  {
  }

  /** The categories of the cells of row `i` whose change exceeds the threshold. */
  function Flagged(g: Grid, i: nat): set<Category>
    requires WellFormed(g) && i < |g.months|
  {
    set j | 0 <= j < |g.columns| && Exceeds(CellChange(g, i, j)) :: g.columns[j]
  }

  /** The categories flagged in row `i`: `alerts.loc[month]` filtered to its true entries. */
  function Triggered(g: Grid, i: nat): seq<Category>
    requires WellFormed(g) && i < |g.months|
  {
    Keep(g.columns, Flagged(g, i))
  }

  /** A category is flagged in row `i` exactly when its cell's change exceeds
      the threshold, and the flagged categories keep the column order. */
  lemma TriggeredContents(g: Grid, i: nat)
    requires WellFormed(g) && i < |g.months|
    ensures forall c :: c in Triggered(g, i) <==> exists j :: 0 <= j < |g.columns| && g.columns[j] == c && Exceeds(CellChange(g, i, j))
    ensures SortedByName(g.columns) ==> SortedByName(Triggered(g, i))
  {
    if SortedByName(g.columns) {
      KeepKeepsOrder(g.columns, Flagged(g, i));
    }
  }

  /** The flagged categories of one month. */
  datatype MonthAlert = MonthAlert(month: YearMonth, categories: seq<Category>)

  /** The rows among 1 .. n - 1 with a flagged category, ascending. */
  function AlertRows(g: Grid, n: nat): (rows: seq<nat>)
    requires WellFormed(g) && n <= |g.months|
    ensures forall k :: 0 <= k < |rows| ==> 1 <= rows[k] < n && Triggered(g, rows[k]) != []
    ensures forall a, b :: 0 <= a < b < |rows| ==> rows[a] < rows[b]
    ensures forall i :: 1 <= i < n && Triggered(g, i) != [] ==> i in rows
    ensures |rows| == 0 || |rows| < n
  {
    if n <= 1 then []
    else if Triggered(g, n - 1) == [] then AlertRows(g, n - 1)
    else AlertRows(g, n - 1) + [n - 1]
  }

  /** The alert of row `i`: its month and its flagged categories. */
  function RowAlert(g: Grid, i: nat): MonthAlert
    requires WellFormed(g) && i < |g.months|
  {
    MonthAlert(g.months[i], Triggered(g, i))
  }

  /** The loop over `alerts.index[1:]`: the alert of every row with a flagged
      category, in row order. */
  function MonthlyAlerts(g: Grid): (r: seq<MonthAlert>)
    requires WellFormed(g)
    ensures |r| == 0 || |r| < |g.months|
    ensures forall k :: 0 <= k < |r| ==> r[k].categories != []
  {
    var rows := AlertRows(g, |g.months|);
    seq(|rows|, k requires 0 <= k < |rows| => RowAlert(g, rows[k]))
  }

  lemma AlertOfRow(g: Grid, rows: seq<nat>, k: int)
    requires WellFormed(g) && rows == AlertRows(g, |g.months|) && 0 <= k < |MonthlyAlerts(g)|
    ensures 1 <= rows[k] < |g.months| && MonthlyAlerts(g)[k] == RowAlert(g, rows[k])
  {
  }

  /** `a` is the alert of some row after the first. */
  ghost predicate IsLaterRowAlert(g: Grid, a: MonthAlert)
    requires WellFormed(g)
  {
    exists i: nat :: 1 <= i < |g.months| && a == RowAlert(g, i)
  }

  /** Every alert is the alert of a row after the first, and lists at least one category. */
  lemma MonthlyAlertsSound(g: Grid)
    requires WellFormed(g)
    ensures forall k :: 0 <= k < |MonthlyAlerts(g)| ==> IsLaterRowAlert(g, MonthlyAlerts(g)[k])
    ensures forall k :: 0 <= k < |MonthlyAlerts(g)| ==> MonthlyAlerts(g)[k].categories != []
  {
    var rows := AlertRows(g, |g.months|);
    forall k | 0 <= k < |MonthlyAlerts(g)|
      ensures IsLaterRowAlert(g, MonthlyAlerts(g)[k])
      ensures MonthlyAlerts(g)[k].categories != []
    {
      AlertOfRow(g, rows, k);
    }
  }

  /** Every row after the first with a flagged category has an alert. */
  lemma MonthlyAlertsComplete(g: Grid)
    requires WellFormed(g)
    ensures forall i :: 1 <= i < |g.months| && Triggered(g, i) != [] ==> RowAlert(g, i) in MonthlyAlerts(g)
  {
    var rows := AlertRows(g, |g.months|);
    forall i | 1 <= i < |g.months| && Triggered(g, i) != []
      ensures RowAlert(g, i) in MonthlyAlerts(g)
    {
      var k :| 0 <= k < |rows| && rows[k] == i;
      AlertOfRow(g, rows, k);
    }
  }

  /** There is no alert exactly when no row after the first flags a category. */
  lemma NoAlertsIff(g: Grid)
    requires WellFormed(g)
    ensures |MonthlyAlerts(g)| == 0 <==> forall i :: 1 <= i < |g.months| ==> Triggered(g, i) == []
  {
    MonthlyAlertsSound(g);
    MonthlyAlertsComplete(g);
    if |MonthlyAlerts(g)| > 0 {
      assert IsLaterRowAlert(g, MonthlyAlerts(g)[0]);
      var i :| 1 <= i < |g.months| && MonthlyAlerts(g)[0] == RowAlert(g, i);
      assert Triggered(g, i) != [];
    }
  }

  /** Over a chronological month index the alerts come in ascending month
      order, and the first month never has one. */
  lemma MonthlyAlertsChronological(g: Grid)
    requires WellFormed(g) && Chronological(g.months)
    ensures forall a, b :: 0 <= a < b < |MonthlyAlerts(g)| ==> Before(MonthlyAlerts(g)[a].month, MonthlyAlerts(g)[b].month)
    ensures forall k :: 0 <= k < |MonthlyAlerts(g)| ==> MonthlyAlerts(g)[k].month != g.months[0]
  {
    var rows := AlertRows(g, |g.months|);
    var r := MonthlyAlerts(g);
    assert |r| == |rows|;
    forall k | 0 <= k < |r| ensures r[k].month == g.months[rows[k]] && r[k].month != g.months[0] {
      assert Before(g.months[0], g.months[rows[k]]);
    }
    forall a, b | 0 <= a < b < |r| ensures Before(r[a].month, r[b].month) {
      assert rows[a] < rows[b];
    }
  }

  /** Each category at most once. */
  predicate DistinctColumns(cs: seq<Category>) {
    forall a, b :: 0 <= a < b < |cs| ==> cs[a] != cs[b]
  }

  /** Name-sorted columns hold each category at most once. */
  lemma SortedColumnsDistinct(cs: seq<Category>)
    requires SortedByName(cs)
    ensures DistinctColumns(cs)
  {
    forall a, b | 0 <= a < b < |cs| ensures cs[a] != cs[b] {
      StrLessIrreflexive(Name(cs[a]));
      assert NameBefore(cs[a], cs[b]);
    }
  }

  /** The cell of row `i`, column `j` alerts against the cell above it. */
  predicate CellAlerts(g: Grid, i: nat, j: nat)
    requires WellFormed(g) && 1 <= i < |g.months| && j < |g.columns|
  {
    AlertsAgainst(g.cells[i - 1][j], g.cells[i][j])
  }

  /** Over distinct columns, the category of column `j` is flagged in a
      later row exactly when its cell alerts against the previous row's cell. */
  lemma TriggeredIff(g: Grid, i: nat, j: nat)
    requires WellFormed(g) && DistinctColumns(g.columns) && 1 <= i < |g.months| && j < |g.columns|
    ensures g.columns[j] in Triggered(g, i) <==> CellAlerts(g, i, j)
  {
    TriggeredContents(g, i);
    CellChangeAlerts(g, i, j);
    if g.columns[j] in Triggered(g, i) {
      var j' :| 0 <= j' < |g.columns| && g.columns[j'] == g.columns[j] && Exceeds(CellChange(g, i, j'));
      assert j' == j;
    }
  }

  /** The alert of one row, found by its month. */
  lemma RowAlertIff(g: Grid, a: MonthAlert, i0: nat, j: nat)
    requires WellFormed(g) && Chronological(g.months) && DistinctColumns(g.columns)
    requires 1 <= i0 < |g.months| && j < |g.columns| && a == RowAlert(g, i0)
    ensures forall i :: 1 <= i < |g.months| && g.months[i] == a.month ==> (g.columns[j] in a.categories <==> CellAlerts(g, i, j))
  {
    TriggeredIff(g, i0, j);
    MonthIndexDistinct(g.months);
  }

  /** A category appears in the alert of a month exactly when its cell rose
      by more than 20% over the previous month's cell, or rose from zero to a
      positive total. */
  lemma AlertedIff(g: Grid, k: nat, j: nat)
    requires WellFormed(g) && Chronological(g.months) && DistinctColumns(g.columns)
    requires k < |MonthlyAlerts(g)| && j < |g.columns|
    ensures forall i :: 1 <= i < |g.months| && g.months[i] == MonthlyAlerts(g)[k].month ==>
              (g.columns[j] in MonthlyAlerts(g)[k].categories <==> CellAlerts(g, i, j))
  {
    MonthlyAlertsSound(g);
    var r := MonthlyAlerts(g);
    assert IsLaterRowAlert(g, r[k]);
    var i0 :| 1 <= i0 < |g.months| && r[k] == RowAlert(g, i0);
    RowAlertIff(g, r[k], i0, j);
  }

  /** Every flagged category is a column of the grid. */
  lemma AlertCategoriesAreColumns(g: Grid, k: nat)
    requires WellFormed(g) && k < |MonthlyAlerts(g)|
    ensures forall c :: c in MonthlyAlerts(g)[k].categories ==> c in g.columns
  {
    MonthlyAlertsSound(g);
    assert IsLaterRowAlert(g, MonthlyAlerts(g)[k]);
    var i :| 1 <= i < |g.months| && MonthlyAlerts(g)[k] == RowAlert(g, i);
    TriggeredContents(g, i);
  }

  /** End to end over a cleaned ledger: a category is named in the alert of a
      month exactly when it has transactions and its total in that month is
      more than 20% above its total in the previous month of the grid (the
      closest earlier month with any transaction), or positive after a zero total. */
  lemma AlertedCategoryIff(txs: seq<Transaction>, k: nat, c: Category)
    requires k < |MonthlyAlerts(MonthlyGrid(txs))|
    ensures forall i :: 1 <= i < |MonthlyGrid(txs).months| && MonthlyGrid(txs).months[i] == MonthlyAlerts(MonthlyGrid(txs))[k].month ==>
              (c in MonthlyAlerts(MonthlyGrid(txs))[k].categories <==>
                 c in PresentCategories(txs)
                 && AlertsAgainst(CellTotal(txs, MonthlyGrid(txs).months[i - 1], c), CellTotal(txs, MonthlyGrid(txs).months[i], c)))
  {
    var g := MonthlyGrid(txs);
    SortedColumnsDistinct(g.columns);
    GridAlertIff(txs, g, k, c);
  }

  /** The alert of month `k` of a grid holding the ledger's cell totals. */
  lemma GridAlertIff(txs: seq<Transaction>, g: Grid, k: nat, c: Category)
    requires WellFormed(g) && Chronological(g.months) && DistinctColumns(g.columns)
    requires forall c :: c in g.columns <==> c in PresentCategories(txs)
    requires forall i, j :: 0 <= i < |g.months| && 0 <= j < |g.columns| ==> g.cells[i][j] == CellTotal(txs, g.months[i], g.columns[j])
    requires k < |MonthlyAlerts(g)|
    ensures forall i :: 1 <= i < |g.months| && g.months[i] == MonthlyAlerts(g)[k].month ==>
              (c in MonthlyAlerts(g)[k].categories <==>
                 c in PresentCategories(txs) && AlertsAgainst(CellTotal(txs, g.months[i - 1], c), CellTotal(txs, g.months[i], c)))
  {
    var a := MonthlyAlerts(g)[k];
    AlertCategoriesAreColumns(g, k);
    if c in g.columns {
      var j :| 0 <= j < |g.columns| && g.columns[j] == c;
      AlertedIff(g, k, j);
      forall i | 1 <= i < |g.months| && g.months[i] == a.month
        ensures c in a.categories <==> AlertsAgainst(CellTotal(txs, g.months[i - 1], c), CellTotal(txs, g.months[i], c))
      {
        assert g.cells[i - 1][j] == CellTotal(txs, g.months[i - 1], c);
        assert g.cells[i][j] == CellTotal(txs, g.months[i], c);
      }
    }
  }

  /** `str(period)` for a monthly period: `YYYY-MM`. */
  function MonthLabel(m: YearMonth): string {
    ZeroPad(NatToString(m.year), 4) + "-" + ZeroPad(NatToString(m.month), 2)
  }

  lemma DashJoinParts(y: string, mo: string)
    requires |y| == 4 && |mo| == 2
    ensures |y + "-" + mo| == 7 && (y + "-" + mo)[4] == '-'
    ensures (y + "-" + mo)[..4] == y && (y + "-" + mo)[5..] == mo
  {
  }

  /** A month label is four year digits, a dash and two month digits, and
      reading the digit groups back gives the year and the month. */
  lemma MonthLabelRoundTrip(m: YearMonth)
    requires m.year < 10000 && m.month < 100
    ensures |MonthLabel(m)| == 7 && MonthLabel(m)[4] == '-'
    ensures AllDigits(MonthLabel(m)[..4]) && DigitsValue(MonthLabel(m)[..4]) == m.year
    ensures AllDigits(MonthLabel(m)[5..]) && DigitsValue(MonthLabel(m)[5..]) == m.month
  {
    assert Pow10(4) == 10000 && Pow10(2) == 100;
    PaddedDigits(m.year, 4);
    PaddedDigits(m.month, 2);
    DashJoinParts(ZeroPad(NatToString(m.year), 4), ZeroPad(NatToString(m.month), 2));
  }

  function Names(cs: seq<Category>): seq<string> {
    if |cs| == 0 then [] else [Name(cs[0])] + Names(cs[1..])
  }

  /** The message line of one alerting month. */
  function Message(a: MonthAlert): string {
    "In " + MonthLabel(a.month) + ": spending increased >20% in " + Join(Names(a.categories), ", ")
  }

  /** The `messages` list: one line per alert, in alert order. */
  function Messages(alerts: seq<MonthAlert>): (r: seq<string>)
    ensures |r| == |alerts|
    ensures forall k :: 0 <= k < |r| ==> r[k] == Message(alerts[k])
  {
    if |alerts| == 0 then [] else [Message(alerts[0])] + Messages(alerts[1..])
  }

  /** What the page shows: the alert block, or the notice that nothing was detected. */
  datatype Report = Warning(text: string) | NoOverspending

  /** `overspending_alert` on a cleaned ledger: a warning listing one line
      per alerting month, or the no-overspending notice exactly when no month
      after the first has a flagged category. */
  function OverspendingReport(txs: seq<Transaction>): (r: Report)
    ensures r.NoOverspending? <==> forall i :: 1 <= i < |MonthlyGrid(txs).months| ==> Triggered(MonthlyGrid(txs), i) == []
  {
    var alerts := MonthlyAlerts(MonthlyGrid(txs));
    NoAlertsIff(MonthlyGrid(txs));
    if |alerts| == 0 then NoOverspending
    else Warning("Overspending Alerts:\n" + Join(Messages(alerts), "\n"))
  }

  /** A rise from 100.00 to 130.00 alerts. */
  lemma ThirtyPercentRiseAlerts()
    ensures AlertsAgainst(10000, 13000)
  {
    AlertInCents(10000, 13000);
  }

  /** A rise of exactly 20% does not alert: the comparison is strict. */
  lemma TwentyPercentRiseDoesNotAlert()
    ensures !AlertsAgainst(10000, 12000)
  {
    AlertInCents(10000, 12000);
  }

  /** Spending where there was none alerts (the change is +inf); a zero after
      zero (NaN, filled to 0) and a refund after zero (-inf) do not. */
  lemma ZeroBaseline(cur: int)
    ensures AlertsAgainst(0, cur) <==> cur > 0
  {
  }

  /** With expenses negative, a bill growing from -100.00 to -130.00 is a
      +30% change and alerts, while a refund turning -100.00 into +50.00 does not. */
  lemma NegativeBaselines()
    ensures AlertsAgainst(-10000, -13000)
    ensures !AlertsAgainst(-10000, 5000)
  {
    AlertInCents(-10000, -13000);
    AlertInCents(-10000, 5000);
  }
}
