/** The ledger loader of `load_and_process_csv`: selecting the three
    columns, classifying every description, and dropping the rows whose date
    is missing or did not parse, or whose amount is missing. CSV parsing and
    date inference are outside the model: a row arrives with its date and
    amount already parsed or absent. */
module Ledger {
  import opened Classifier

  datatype Option<T> = None | Some(value: T)

  /** A calendar date as the date parser yields it. */
  datatype Date = Date(year: nat, month: nat, day: nat)

  /** One row of the uploaded table. A `None` date is an empty cell or one the
      date parser could not read; a `None` amount is an empty or NA cell. */
  datatype Row = Row(date: Option<Date>, description: string, amount: Option<int>)

  /** A cleaned transaction; the amount is in integer cents. */
  datatype Transaction = Transaction(date: Date, description: string, amount: int, category: Category)

  /** Outcome of loading: the cleaned transactions, or the required column
      names absent from the header (the selection of the three columns fails). */
  datatype LoadResult =
    | Loaded(transactions: seq<Transaction>)
    | MissingColumns(names: seq<string>)

  /** The columns the loader selects, in selection order. */
  const RequiredColumns: seq<string> := ["Date", "Description", "Amount"]

  /** A row survives `dropna(subset=['Date', 'Amount'])`. */
  predicate Kept(row: Row) {
    row.date.Some? && row.amount.Some?
  }

  /** The transaction a surviving row becomes, categorised from its description. */
  function ToTransaction(row: Row): Transaction
    requires Kept(row)
  {
    Transaction(row.date.value, row.description, row.amount.value, Classify(row.description))
  }

  /** The positions of the surviving rows: ascending, and exactly the rows
      with both a date and an amount. */
  function KeptIndices(rows: seq<Row>): (idx: seq<nat>)
    ensures forall k :: 0 <= k < |idx| ==> idx[k] < |rows| && Kept(rows[idx[k]])
    ensures forall k, l :: 0 <= k < l < |idx| ==> idx[k] < idx[l]
    ensures forall i :: 0 <= i < |rows| && Kept(rows[i]) ==> i in idx
  {
    if |rows| == 0 then []
    else
      var n := |rows| - 1;
      var prefix := KeptIndices(rows[..n]);
      if Kept(rows[n]) then prefix + [n] else prefix
  }

  /** The classified rows minus the dropped ones, in input order: the `k`-th
      transaction is the `k`-th surviving row, categorised from its own description. */
  function Clean(rows: seq<Row>): (txs: seq<Transaction>)
    ensures |txs| == |KeptIndices(rows)|
    ensures forall k :: 0 <= k < |txs| ==> txs[k] == ToTransaction(rows[KeptIndices(rows)[k]])
    ensures forall k :: 0 <= k < |txs| ==> txs[k].category == Classify(txs[k].description)
  {
    if |rows| == 0 then []
    else
      var n := |rows| - 1;
      assert rows[..n][..n] == rows[..n];
      var prefix := Clean(rows[..n]);
      if Kept(rows[n]) then prefix + [ToTransaction(rows[n])] else prefix
  }

  /** The required columns absent from `columns`, in selection order. */
  function Missing(columns: seq<string>, required: seq<string>): (absent: seq<string>)
    ensures forall name :: name in absent <==> name in required && name !in columns
  {
    if |required| == 0 then []
    else (if required[0] in columns then [] else [required[0]]) + Missing(columns, required[1..])
  }

  /** `load_and_process_csv` on a header and its parsed rows: a fatal error
      naming the absent columns when the header lacks one of the three, else
      the cleaned transactions. */
  function Load(columns: seq<string>, rows: seq<Row>): (r: LoadResult)
    ensures r.MissingColumns? <==> exists name :: name in RequiredColumns && name !in columns
    ensures r.MissingColumns? ==> forall name :: name in r.names <==> name in RequiredColumns && name !in columns
    ensures r.Loaded? ==> r.transactions == Clean(rows)
  {
    var absent := Missing(columns, RequiredColumns);
    if |absent| > 0 then
      assert absent[0] in RequiredColumns && absent[0] !in columns;
      MissingColumns(absent)
    else
      Loaded(Clean(rows))
  }

  /** The loader loses no valid row and keeps no invalid one: a transaction
      is in the result exactly when some row with a date and an amount turns into it. */
  lemma CleanKeepsExactlyValidRows(rows: seq<Row>, t: Transaction)
    ensures t in Clean(rows) <==> exists i :: 0 <= i < |rows| && Kept(rows[i]) && ToTransaction(rows[i]) == t
  {
    if t in Clean(rows) {
      var k :| 0 <= k < |Clean(rows)| && Clean(rows)[k] == t;
      CleanedFromValidRow(rows, k);
    } else {
      forall i | 0 <= i < |rows| && Kept(rows[i]) ensures ToTransaction(rows[i]) != t {
        ValidRowIsCleaned(rows, i);
      }
    }
  }

  lemma CleanedFromValidRow(rows: seq<Row>, k: int)
    requires 0 <= k < |Clean(rows)|
    ensures exists i :: 0 <= i < |rows| && Kept(rows[i]) && ToTransaction(rows[i]) == Clean(rows)[k]
  {
    var idx := KeptIndices(rows);
    assert Kept(rows[idx[k]]);
  }

  lemma ValidRowIsCleaned(rows: seq<Row>, i: int)
    requires 0 <= i < |rows| && Kept(rows[i])
    ensures ToTransaction(rows[i]) in Clean(rows)
  {
    var idx := KeptIndices(rows);
    var k :| 0 <= k < |idx| && idx[k] == i;
    assert Clean(rows)[k] == ToTransaction(rows[i]);
  }

  /** Sum of the amounts of a sequence of transactions. */
  function TotalAmount(txs: seq<Transaction>): int {
    if |txs| == 0 then 0 else txs[0].amount + TotalAmount(txs[1..])
  }

  /** Sum of the amounts of the rows that survive cleaning. */
  function KeptAmount(rows: seq<Row>): int {
    if |rows| == 0 then 0
    else (if Kept(rows[0]) then rows[0].amount.value else 0) + KeptAmount(rows[1..])
  }

  lemma TotalAmountAppend(txs: seq<Transaction>, t: Transaction)
    ensures TotalAmount(txs + [t]) == TotalAmount(txs) + t.amount
  {
    if |txs| > 0 {
      assert (txs + [t])[1..] == txs[1..] + [t];
      TotalAmountAppend(txs[1..], t);
    }
  }

  lemma KeptAmountAppend(rows: seq<Row>, row: Row)
    ensures KeptAmount(rows + [row]) == KeptAmount(rows) + (if Kept(row) then row.amount.value else 0)
  {
    if |rows| > 0 {
      assert (rows + [row])[1..] == rows[1..] + [row];
      KeptAmountAppend(rows[1..], row);
    }
  }

  /** Cleaning drops amounts only with their rows: the cleaned ledger sums to
      the amounts of exactly the rows that carry both a date and an amount. */
  lemma {:induction false} CleanPreservesKeptAmount(rows: seq<Row>)
    ensures TotalAmount(Clean(rows)) == KeptAmount(rows)
  {
    if |rows| > 0 {
      var n := |rows| - 1;
      assert rows == rows[..n] + [rows[n]];
      CleanPreservesKeptAmount(rows[..n]);
      KeptAmountAppend(rows[..n], rows[n]);
      if Kept(rows[n]) {
        TotalAmountAppend(Clean(rows[..n]), ToTransaction(rows[n]));
      }
    }
  }
}
