# Bankplot spending pipeline in Dafny

Bankplot is a one-page spending tracker. A user uploads a bank CSV. The
program keeps three columns, files every transaction under a category by
keyword, and shows four views: totals per category, the ten vendors with the
largest totals, a month × category table of totals, and overspending alerts
for categories whose monthly total rose by more than 20%.

This project models that pipeline as pure Dafny functions and proves what each
step promises:

- `text.dfy` (module `Text`): ASCII lower-casing, the whole-word search behind
  `re.search(r'\b' + re.escape(kw) + r'\b', desc)`, the string order pandas
  uses for category labels, and the decimal formatting of a month label.
- `classifier.dfy` (module `Classifier`): the ordered category table and the
  first-match walk of `categorize_transaction`.
- `ledger.dfy` (module `Ledger`): `load_and_process_csv` from the column
  selection onwards. Rows arrive with their date and amount already parsed or
  absent.
- `grouping.dfy` (module `Grouping`): the `groupby(...).sum()` and
  `sort_values(ascending=False)` steps shared by every view.
- `summaries.dfy` (module `Summaries`): the two tables of `display_summaries`.
- `trends.dfy` (module `Trends`): the dense month × category table built by
  `groupby(['Month', 'Category']).sum().unstack(fill_value=0)`.
- `alerts.dfy` (module `Alerts`): `pct_change().fillna(0)`, the `> 0.2`
  test, the per-month messages and the final warning or notice.
- `scenarios.dfy` (module `Scenarios`): lemmas classifying concrete
  descriptions.

Amounts are integer cents. Each row of the month table is a month in which
some transaction falls, in calendar order. Each column is a category that
occurs, in label order, which is how pandas sorts group keys. The change of a
cell follows the cases of floating-point division on exact totals: a finite
value over a non-zero total, +inf or -inf from a non-zero total over a zero
total, or NaN from 0 / 0. `fillna(0)` turns only the NaN into 0. In the
program these cases depend on the float totals, which need not be exact; see
"## Left out".

Three behaviours of the code matter for reading the contracts:

- A category whose total goes from 0 to a positive amount alerts. The change
  is +inf, which is greater than 0.2. A policy of never alerting over a zero
  baseline is not what `main.py` does, and the model follows the code
  (`Alerts.ZeroBaseline`). In the program this needs the float total to be
  exactly zero (see "## Left out").
- The change is taken against the previous row of the month table. That is
  the closest earlier month with any transaction at all, not necessarily the
  calendar month before (`Alerts.AlertedCategoryIff`).
- Totals are signed and sorted in descending order. Refunds come first and
  the largest expenses come last.

Two keywords of the table can never decide a category. "gas station"
(Transport) always co-occurs with the Utilities keyword "gas", and "food
delivery" (Restaurants) always co-occurs with the Groceries keyword "food". The
earlier category wins in both cases (`Classifier.GasStationIsShadowed`,
`Classifier.FoodDeliveryIsShadowed`). This is the stated first-match order at
work, not a defect.

## Model

| member | source | states |
|---|---|---|
| `Text.SearchFrom` | main.py:23 | the search from position `i` succeeds exactly when the keyword occurs at some position `j >= i` with a non-word character or the string's edge on both sides |
| `Text.ContainsWord` | main.py:23 | `re.search` with `\b` on both sides finds the keyword exactly when it occurs as a whole word somewhere in the text |
| `Text.LowerOfUpper` | main.py:20 | lower-casing forgets case: the lower-cased upper-case text is the lower-cased text |
| `Text.Lower` | main.py:20 | no contract of its own; `Text.LowerFoldsCapitals` and `Text.LowerOfUpper` state what it does |
| `Text.LowerFoldsCapitals` | main.py:20 | lowering keeps the length, leaves no capital letter, turns each capital into its small letter and keeps every other character |
| `Text.LowerKeepsWordChars` | main.py:20-23 | lower-casing does not move word boundaries: a character is a word character exactly when its lower-case form is |
| `Text.MissingCharRulesOut` | main.py:23 | a keyword containing a letter that the text lacks never matches the text |
| `Text.NatToStringRoundTrip` | main.py:80 | printing a number gives decimal digits that read back as the number, at most `k` of them below `10^k`, with no redundant leading zero |
| `Text.ZeroPad` | main.py:80 | padding reaches the requested width (or keeps a longer string), keeps the original digits at the end and adds only zeros in front |
| `Text.ZeroPadValue` | main.py:80 | zero-padding a digit string does not change the number it reads as |
| `Text.StrLess` | main.py:60 | no contract of its own; the string order pandas sorts the group keys by, and `Trends.ByNameSortedAndComplete` and `Text.StrLessTransitive` state the column order built on it |
| `Text.Join` | main.py:80-82 | no contract of its own; `str.join` as the message lines use it (see `Alerts.Message` under "## Left out") |
| `Classifier.RulesShape` | main.py:8-17 | `Others` is the last rule of the table, the only rule for `Others`, and has no keywords |
| `Classifier.KeywordsAreLetterBounded` | main.py:8-17 | every keyword of the table is non-empty and starts and ends with a small letter, so the whole-word search agrees with the `\b` pattern of main.py:23 on it |
| `Classifier.AnyKeyword` | main.py:22-24 | the keyword loop of one category succeeds exactly when some keyword of its list occurs as a whole word |
| `Classifier.FirstMatchFrom` | main.py:21-25 | when no earlier rule matches, the result is `Others` only if no rule matches, and otherwise the category of the first matching rule |
| `Classifier.Classify` | main.py:19-25 | the category is `Others` exactly when no keyword of any category occurs as a word in the lower-cased description; otherwise it is the category of the first rule in table order that matches |
| `Classifier.FirstMatchWins` | main.py:21-24 | if rule `i` is the first rule that matches, the description gets rule `i`'s category |
| `Classifier.MatchBoundsCategory` | main.py:21-24 | if rule `i` matches, the category comes from rule `i` or from an earlier rule, and is never `Others` |
| `Classifier.StandaloneKeywordMatches` | main.py:23 | a keyword of some rule, set off in the lower-cased description by non-word characters or the description's ends, gives a category other than `Others`, taken from that rule or an earlier one |
| `Classifier.PrefixOfLongerWordIsNoOccurrence` | main.py:23 | a keyword followed directly by a word character does not occur at that position, so "gas" does not match inside "gasoline" |
| `Classifier.ClassifyIgnoresCase` | main.py:20 | a description and its upper-cased form get the same category |
| `Classifier.HeadOfPhraseOccurs` | main.py:23 | where a phrase occurs as a whole word and the part after its head starts with a non-word character, the head occurs as a whole word at the same position |
| `Classifier.GasStationIsShadowed` | main.py:10-13 | a description containing the word "gas station" is filed under Groceries or Utilities, never under Transport |
| `Classifier.FoodDeliveryIsShadowed` | main.py:9-12 | a description containing the word "food delivery" is filed under Groceries, never under Restaurants |
| `Ledger.KeptIndices` | main.py:32 | the positions of the surviving rows are ascending and valid, and they are exactly the rows that have both a date and an amount |
| `Ledger.Clean` | main.py:30-32 | the k-th transaction is the k-th row with both a date and an amount, keeps its date, description and amount, and has the category of its own description |
| `Ledger.Missing` | main.py:29 | a name is reported missing exactly when it is required and absent from the header |
| `Ledger.Kept` | main.py:32 | no contract of its own; the `dropna(subset=['Date', 'Amount'])` test, and `Ledger.KeptIndices` and `Ledger.CleanKeepsExactlyValidRows` state which rows it keeps |
| `Ledger.Load` | main.py:27-33 | loading fails exactly when one of Date, Description or Amount is absent, and then names exactly the absent ones; otherwise it yields the cleaned rows |
| `Ledger.CleanKeepsExactlyValidRows` | main.py:30-32 | a transaction is in the cleaned ledger exactly when some row with a date and an amount becomes it, so no valid row is lost and no invalid row is kept |
| `Ledger.CleanPreservesKeptAmount` | main.py:32 | the cleaned ledger sums to the amounts of exactly the rows that carry both a date and an amount |
| `Grouping.Accumulate` | main.py:36 | adding one (key, amount) pair keeps the keys distinct, adds its key, adds its amount to that key's total only, and adds it to the overall sum |
| `Grouping.Group` | main.py:36-37 | the grouping has one entry per key that occurs, each entry holding the sum of that key's amounts, and the same overall sum |
| `Grouping.GroupEntriesAreKeySums` | main.py:36 | every entry of a grouping holds the total of its key over the input pairs |
| `Grouping.AbsentKeySumsToZero` | main.py:60 | a key with no entry sums to zero, which is what makes a (month, category) cell without transactions the `fill_value=0` cell (`Trends.EmptyCellIsZero` is proved from it) |
| `Grouping.Insert` | main.py:36 | inserting into a non-increasing sequence keeps it non-increasing and adds exactly the inserted entry |
| `Grouping.SortDesc` | main.py:36-37 | the descending sort is a rearrangement of its input, non-increasing in total |
| `Grouping.SortDescKeeps` | main.py:36-37 | sorting keeps the number of entries, the set of keys, their distinctness and the overall sum |
| `Summaries.ByCategory` | main.py:36 | one entry per category that occurs, each with that category's signed total, in non-increasing order of total, summing to the ledger's total |
| `Summaries.ByCategoryListsEveryCategory` | main.py:36 | a category is listed with its total exactly when it occurs in the ledger |
| `Summaries.SortedVendorTotals` | main.py:37 | before truncation, the vendor table has one entry per distinct description, each holding that description's signed total |
| `Summaries.PrefixDominates` | main.py:37 | cutting a sorted table with distinct keys keeps it sorted and distinct, and every entry kept is at least every entry cut off |
| `Summaries.TopVendors` | main.py:37 | the top-vendor table has `min(10, number of distinct descriptions)` entries, sorted and distinct, each an exact description with its total, and no vendor left out has a larger total than any vendor listed |
| `Trends.InsertMonth` | main.py:59-60 | inserting a month into a chronological list without repeats keeps it chronological and adds exactly that month |
| `Trends.Months` | main.py:59-60 | the month index is in strict calendar order and holds exactly the months of the transactions |
| `Trends.ByNameSortedAndComplete` | main.py:60 | the reference list of categories holds every category, in label order |
| `Trends.Keep` | main.py:60 | filtering the reference list keeps exactly the wanted categories that it lists |
| `Trends.KeepKeepsOrder` | main.py:60 | filtering a label-ordered list leaves it label-ordered |
| `Trends.Columns` | main.py:60 | the column index holds exactly the categories that occur, in label order |
| `Trends.MonthlyGrid` | main.py:59-60 | the table is rectangular, its rows are the present months in order, its columns are the present categories in label order, and each cell is the total of its month and category |
| `Trends.EmptyCellIsZero` | main.py:60 | a month and category without transactions total zero, which is the `fill_value=0` cell |
| `Trends.MonthsSumIsCategoryTotal` | main.py:59-60 | over any chronological list of months that covers every transaction, a category's month totals add up to its overall total |
| `Trends.ColumnSumIsCategoryTotal` | main.py:60 | each column of the table adds up to the category's total in the category table |
| `Trends.GridIsDense` | main.py:60 | every present (month, category) pair has a cell holding its total, with zero for pairs without transactions |
| `Alerts.AlertInCents` | main.py:72-73 | over a positive total, a cell alerts exactly when it exceeds 6/5 of it; over a negative total, exactly when it is below 6/5 of it; over a zero total, exactly when it is positive |
| `Alerts.PctChange` | main.py:72 | over a non-zero total the change is finite and, times that total, gives the difference of the two totals; over a zero total it is +inf, -inf or NaN as the current total is positive, negative or zero |
| `Alerts.FillNa` | main.py:72 | the filled change is never NaN: a NaN becomes 0 and every other change is kept |
| `Alerts.CellChange` | main.py:72 | no contract of its own; `Alerts.CellChangeAlerts` states that the first row never alerts and every later cell alerts exactly as its totals against the cell above |
| `Alerts.Exceeds` | main.py:73 | no contract of its own; `Alerts.AlertInCents` states in integers which changes exceed 0.2, and `Alerts.ZeroBaseline` the infinite ones |
| `Alerts.AlertsAgainst` | main.py:72-73 | no contract of its own; `Alerts.AlertInCents` and `Alerts.ZeroBaseline` state exactly when a pair of totals alerts |
| `Alerts.CellChangeAlerts` | main.py:72-73 | the first month never alerts, because its NaN change is filled with 0; every later cell alerts exactly as its pair with the cell above does |
| `Alerts.TriggeredContents` | main.py:77-78 | a month flags a category exactly when some column of that category exceeds the threshold, and the flagged categories keep the column order |
| `Alerts.Triggered` | main.py:77-78 | no contract of its own; `Alerts.TriggeredContents` and `Alerts.TriggeredIff` state which categories it lists and in what order |
| `Alerts.AlertRows` | main.py:76-79 | the rows that produce a message are ascending, lie after the first row, have a flagged category, and include every such row; so there are fewer of them than months |
| `Alerts.MonthlyAlerts` | main.py:75-80 | at most one alert per month after the first, and every alert names at least one category; `Alerts.MonthlyAlertsSound`, `Alerts.MonthlyAlertsComplete` and `Alerts.MonthlyAlertsChronological` state which alerts there are and their order |
| `Alerts.MonthlyAlertsSound` | main.py:76-80 | every alert is the alert of a month after the first, and names at least one category |
| `Alerts.MonthlyAlertsComplete` | main.py:76-80 | every month after the first that flags a category has its alert |
| `Alerts.MonthlyAlertsChronological` | main.py:76 | the alerts come in calendar order, and the first month never has one |
| `Alerts.NoAlertsIff` | main.py:79-81 | there is no alert exactly when no month after the first flags a category |
| `Alerts.TriggeredIff` | main.py:72-78 | over distinct columns, a category is flagged in a later month exactly when its cell alerts against the cell above it |
| `Alerts.AlertedIff` | main.py:72-80 | a category appears in a month's alert exactly when its cell in that month alerts against the previous month's cell |
| `Alerts.AlertedCategoryIff` | main.py:69-80 | for any ledger, a category is named in a month's alert exactly when it has transactions and its total in that month alerts against its total in the previous month of the table |
| `Alerts.MonthLabel` | main.py:80 | no contract of its own; `Alerts.MonthLabelRoundTrip` states its layout and that it reads back as the month |
| `Alerts.Message` | main.py:80 | no contract of its own; the line is built as at main.py:80 (see "## Left out") |
| `Alerts.Messages` | main.py:75-80 | one message line per alert, in alert order, each the line of its own alert |
| `Alerts.MonthLabelRoundTrip` | main.py:80 | for a year below 10000, a month label is four year digits, a dash and two month digits, which read back as the year and the month |
| `Alerts.OverspendingReport` | main.py:81-84 | the page shows the no-overspending notice exactly when no month after the first flags a category, and the warning otherwise |
| `Alerts.ThirtyPercentRiseAlerts` | main.py:73 | a rise from 100.00 to 130.00 alerts |
| `Alerts.TwentyPercentRiseDoesNotAlert` | main.py:73 | a rise of exactly 20% does not alert, because the comparison is strict |
| `Alerts.ZeroBaseline` | main.py:72-73 | after a zero total, a cell alerts exactly when it is positive |
| `Alerts.NegativeBaselines` | main.py:72-73 | with expenses negative, a bill growing from -100.00 to -130.00 alerts, and a refund that turns -100.00 into +50.00 does not |
| `Scenarios.GasolineIsNotGas` | main.py:23 | "gas" does not occur as a word in "gasoline" |
| `Scenarios.GasStationIsUtilities` | main.py:19-25 | "Gas Station" is filed under Utilities, not Transport |

## Left out

- The Streamlit page is not modelled: title, uploader, tables, and how `st.warning` and `st.info` render. `Alerts.Report` stands for what is shown.
- The plots of `plot_summary` and `monthly_trends` (main.py:44-67) are not modelled. When rows survive cleaning, they only draw the modelled tables.
- With no surviving row, the month table has no columns, and pandas' `monthly_cat.plot` (main.py:62) raises on a table with no numeric data. The program then stops before `overspending_alert` (main.py:96). `Alerts.OverspendingReport([])` is `NoOverspending`, a notice the program never shows for such an upload; the model does not treat that failure.
- CSV parsing and `pd.to_datetime(..., errors='coerce')` are not modelled. A row arrives with its date and amount already parsed. A `None` date is a cell that is missing or does not parse as a date, since `errors='coerce'` turns both into NaT. A `None` amount is only a missing or NA-marked cell: `pd.read_csv` does not turn other text into NaN.
- Amounts are exact integer cents, not floats, so sums and changes are exact. The program sums floats. Besides a change within rounding error of 20% being decided differently, a month total that is exactly 0 in cents can be a tiny non-zero float in the program. For example, 0.30, -0.10 and -0.20 add up to about -2.8e-17 when added in that order. The +inf, -inf and NaN cases of `Alerts.PctChange` (and so `Alerts.ZeroBaseline`) then apply in the program only when the float total is exactly zero. Over such a tiny total, the program's change is a huge finite number whose sign comes from rounding, and a rise to a positive total need not alert.
- Lower-casing and the `\w` character class cover ASCII only, not Unicode.
- A description that is not a string (an empty cell read as NaN) makes `.lower()` raise in the code. The model assumes every description is a string.
- An `Amount` column that is not numeric is not modelled. A single cell such as "abc" makes `pd.read_csv` read the whole column as text, and `dropna` then keeps that row.
- `Grouping.SortDesc`: the order of entries with equal totals is left open. The code's `sort_values` is not a stable sort, so no particular tie order is promised.
- `Summaries.ByCategory`: the order of categories with equal totals is left open, for the same reason.
- `Summaries.TopVendors`: which of several vendors tied at the tenth place is kept is left open, for the same reason.
- The code keeps no count of dropped rows, so the model has none.
- `Alerts.MonthLabelRoundTrip`: only years below 10000 are covered. `MonthLabel` pads the year to four digits and prints longer years in full.
- `Alerts.Message`: no contract describes the text of a message line; `Alerts.MonthLabelRoundTrip` covers only the month label inside it.
- `Alerts.OverspendingReport`: states when the warning appears, not the layout of its text. The text is built from `Alerts.Message` per alert and joined with newlines, as at main.py:80-82, but no contract describes it.
- The `Month` column that `monthly_trends` and `overspending_alert` add to the frame is not modelled. Both build the same table, modelled once as `Trends.MonthlyGrid`.
