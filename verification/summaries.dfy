/** The two tables of `display_summaries`: the signed total per category and
    the ten vendors (exact description strings) with the largest signed totals. */
module Summaries {
  import opened Grouping
  import opened Classifier
  import opened Ledger

  /** How many vendors the top-vendor table keeps (`head(10)`). */
  const TopVendorCount: nat := 10

  /** The (category, amount) column pair the category grouping runs over. */
  function CategoryPairs(txs: seq<Transaction>): seq<(Category, int)> {
    if |txs| == 0 then [] else [(txs[0].category, txs[0].amount)] + CategoryPairs(txs[1..])
  }

  /** The (description, amount) column pair the vendor grouping runs over. */
  function VendorPairs(txs: seq<Transaction>): seq<(string, int)> {
    if |txs| == 0 then [] else [(txs[0].description, txs[0].amount)] + VendorPairs(txs[1..])
  }

  /** Signed sum of the amounts of the transactions in category `c`. */
  function CategoryTotal(txs: seq<Transaction>, c: Category): int {
    KeySum(CategoryPairs(txs), c)
  }

  /** Signed sum of the amounts of the transactions whose description is exactly `v`. */
  function VendorTotal(txs: seq<Transaction>, v: string): int {
    KeySum(VendorPairs(txs), v)
  }

  /** The categories that occur. */
  function PresentCategories(txs: seq<Transaction>): set<Category> {
    set t | t in txs :: t.category
  }

  /** The distinct description strings that occur. */
  function Vendors(txs: seq<Transaction>): set<string> {
    set t | t in txs :: t.description
  }

  lemma {:induction false} CategoryPairsFacts(txs: seq<Transaction>)
    ensures KeySet(CategoryPairs(txs)) == PresentCategories(txs)
    ensures Sum(CategoryPairs(txs)) == TotalAmount(txs)
  {
    if |txs| > 0 {
      CategoryPairsFacts(txs[1..]);
      KeySetCons(CategoryPairs(txs));
      assert CategoryPairs(txs)[1..] == CategoryPairs(txs[1..]);
      assert txs == [txs[0]] + txs[1..];
      assert PresentCategories(txs) == {txs[0].category} + PresentCategories(txs[1..]);
    }
  }

  lemma {:induction false} VendorPairsKeys(txs: seq<Transaction>)
    ensures KeySet(VendorPairs(txs)) == Vendors(txs)
  {
    if |txs| > 0 {
      VendorPairsKeys(txs[1..]);
      KeySetCons(VendorPairs(txs));
      assert VendorPairs(txs)[1..] == VendorPairs(txs[1..]);
      assert txs == [txs[0]] + txs[1..];
      assert Vendors(txs) == {txs[0].description} + Vendors(txs[1..]);
    }
  }

  /** An entry of a sorted grouping holds the grouped sum of its key. */
  lemma SortedGroupEntry<K(!new)>(ps: seq<(K, int)>, i: int)
    requires 0 <= i < |SortDesc(Group(ps))|
    ensures SortDesc(Group(ps))[i].1 == KeySum(ps, SortDesc(Group(ps))[i].0)
  {
    var g := Group(ps);
    var x := SortDesc(g)[i];
    assert x in multiset(g);
    var j :| 0 <= j < |g| && g[j] == x;
    GroupEntriesAreKeySums(ps, j);
  }

  /** `groupby('Category')['Amount'].sum().sort_values(ascending=False)`:
      one entry per category that occurs, each holding that category's signed
      total, in non-increasing order of total; together they sum to the
      ledger's total. */
  function ByCategory(txs: seq<Transaction>): (r: seq<(Category, int)>)
    ensures NonIncreasing(r)
    ensures DistinctKeys(r)
    ensures KeySet(r) == PresentCategories(txs)
    ensures forall i :: 0 <= i < |r| ==> r[i].1 == CategoryTotal(txs, r[i].0)
    ensures Sum(r) == TotalAmount(txs)
  {
    var ps := CategoryPairs(txs);
    var r := SortDesc(Group(ps));
    CategoryPairsFacts(txs);
    SortDescKeeps(Group(ps));
    forall i | 0 <= i < |r| ensures r[i].1 == CategoryTotal(txs, r[i].0) {
      SortedGroupEntry(ps, i);
    }
    r
  }

  function Min(a: int, b: int): int {
    if a <= b then a else b
  }

  /** The vendor totals before truncation, sorted: one entry per distinct
      description, each with its signed total, in non-increasing order. */
  lemma {:induction false} SortedVendorTotals(txs: seq<Transaction>)
    ensures |SortDesc(Group(VendorPairs(txs)))| == |Vendors(txs)|
    ensures DistinctKeys(SortDesc(Group(VendorPairs(txs))))
    ensures KeySet(SortDesc(Group(VendorPairs(txs)))) == Vendors(txs)
    ensures forall i :: 0 <= i < |SortDesc(Group(VendorPairs(txs)))| ==>
              SortDesc(Group(VendorPairs(txs)))[i].1 == VendorTotal(txs, SortDesc(Group(VendorPairs(txs)))[i].0)
  {
    var ps := VendorPairs(txs);
    var s := SortDesc(Group(ps));
    VendorPairsKeys(txs);
    SortDescKeeps(Group(ps));
    DistinctKeysCount(s);
    forall i | 0 <= i < |s| ensures s[i].1 == VendorTotal(txs, s[i].0) {
      SortedGroupEntry(ps, i);
    }
  }

  /** A prefix of a non-increasing grouping with distinct keys is one too,
      and every entry kept is at least every entry cut off. */
  lemma PrefixDominates<K>(s: seq<(K, int)>, n: int)
    requires NonIncreasing(s) && DistinctKeys(s) && 0 <= n <= |s|
    ensures NonIncreasing(s[..n]) && DistinctKeys(s[..n])
    ensures forall j, i :: 0 <= j < |s| && s[j].0 !in KeySet(s[..n]) && 0 <= i < n ==> s[i].1 >= s[j].1
  {
    forall j | 0 <= j < n ensures s[j].0 in KeySet(s[..n]) {
      assert s[..n][j].0 == s[j].0;
    }
  }

  /** `groupby('Description')['Amount'].sum().sort_values(ascending=False).head(10)`:
      as many entries as there are distinct descriptions, at most ten, each
      an exact description with its signed total, in non-increasing order,
      and no vendor left out has a larger total than any vendor listed. */
  function TopVendors(txs: seq<Transaction>): (r: seq<(string, int)>)
    ensures |r| == Min(TopVendorCount, |Vendors(txs)|)
    ensures NonIncreasing(r)
    ensures DistinctKeys(r)
    ensures forall i :: 0 <= i < |r| ==> r[i].0 in Vendors(txs) && r[i].1 == VendorTotal(txs, r[i].0)
    ensures forall v, i :: v in Vendors(txs) && v !in KeySet(r) && 0 <= i < |r| ==> r[i].1 >= VendorTotal(txs, v)
  {
    var s := SortDesc(Group(VendorPairs(txs)));
    SortedVendorTotals(txs);
    var n := Min(TopVendorCount, |s|);
    PrefixDominates(s, n);
    TopVendorsEntries(s, n, txs);
    s[..n]
  }

  /** The entries of the truncated table are sorted vendor totals. */
  lemma TopVendorsEntries(s: seq<(string, int)>, n: int, txs: seq<Transaction>)
    requires s == SortDesc(Group(VendorPairs(txs))) && 0 <= n <= |s|
    requires KeySet(s) == Vendors(txs)
    requires forall i :: 0 <= i < |s| ==> s[i].1 == VendorTotal(txs, s[i].0)
    requires forall j, i :: 0 <= j < |s| && s[j].0 !in KeySet(s[..n]) && 0 <= i < n ==> s[i].1 >= s[j].1
    ensures forall i :: 0 <= i < n ==> s[..n][i].0 in Vendors(txs) && s[..n][i].1 == VendorTotal(txs, s[..n][i].0)
    ensures forall v, i :: v in Vendors(txs) && v !in KeySet(s[..n]) && 0 <= i < n ==> s[..n][i].1 >= VendorTotal(txs, v)
  {
    forall i | 0 <= i < n ensures s[..n][i].0 in Vendors(txs) && s[..n][i].1 == VendorTotal(txs, s[..n][i].0) {
      assert s[..n][i] == s[i];
    }
    forall v, i | v in Vendors(txs) && v !in KeySet(s[..n]) && 0 <= i < n
      ensures s[..n][i].1 >= VendorTotal(txs, v)
    {
      var j :| 0 <= j < |s| && s[j].0 == v;
      assert s[..n][i] == s[i];
    }
  }

  /** The category totals are a rearrangement of the grouped sums: every
      category that occurs is listed with its total, and nothing else is. */
  lemma ByCategoryListsEveryCategory(txs: seq<Transaction>, c: Category)
    ensures c in PresentCategories(txs) <==> exists i :: 0 <= i < |ByCategory(txs)| && ByCategory(txs)[i] == (c, CategoryTotal(txs, c))
  {
    var r := ByCategory(txs);
    if c in PresentCategories(txs) {
      assert c in KeySet(r);
      var i :| 0 <= i < |r| && r[i].0 == c;
      assert r[i] == (c, CategoryTotal(txs, c));
    }
  }
}
