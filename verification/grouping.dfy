/** Keyed sums and the descending sort: the `groupby(key)[...].sum()` and
    `sort_values(ascending=False)` steps shared by every aggregate view. A
    grouping is a sequence of (key, total) pairs. */
module Grouping {

  /** Sum of all values. */
  function Sum<K>(ps: seq<(K, int)>): int {
    if |ps| == 0 then 0 else ps[0].1 + Sum(ps[1..])
  }

  /** Sum of the values paired with `k`: what a `groupby(...).sum()` reports for `k`. */
  function KeySum<K(==)>(ps: seq<(K, int)>, k: K): int {
    if |ps| == 0 then 0
    else (if ps[0].0 == k then ps[0].1 else 0) + KeySum(ps[1..], k)
  }

  /** The keys that occur. */
  function KeySet<K(==)>(ps: seq<(K, int)>): set<K> {
    set i | 0 <= i < |ps| :: ps[i].0
  }

  /** No key occurs twice. */
  predicate DistinctKeys<K(==)>(ps: seq<(K, int)>) {
    forall i, j :: 0 <= i < j < |ps| ==> ps[i].0 != ps[j].0
  }

  /** The value stored for `k`, or 0 when `k` has no entry (`fill_value=0`). */
  function Lookup<K(==)>(ps: seq<(K, int)>, k: K): int {
    if |ps| == 0 then 0
    else if ps[0].0 == k then ps[0].1
    else Lookup(ps[1..], k)
  }

  lemma KeySetCons<K>(ps: seq<(K, int)>)
    requires |ps| > 0
    ensures KeySet(ps) == {ps[0].0} + KeySet(ps[1..])
  {
    forall k | k in KeySet(ps) ensures k in {ps[0].0} + KeySet(ps[1..]) {
      var i :| 0 <= i < |ps| && ps[i].0 == k;
      if i > 0 { assert ps[1..][i - 1].0 == k; }
    }
    forall k | k in KeySet(ps[1..]) ensures k in KeySet(ps) {
      var i :| 0 <= i < |ps[1..]| && ps[1..][i].0 == k;
      assert ps[i + 1].0 == k;
    }
  }

  /** A key without an entry sums to zero. */
  lemma {:induction false} AbsentKeySumsToZero<K>(ps: seq<(K, int)>, k: K)
    requires k !in KeySet(ps)
    ensures KeySum(ps, k) == 0
  {
    if |ps| > 0 {
      KeySetCons(ps);
      AbsentKeySumsToZero(ps[1..], k);
    }
  }

  /** In a grouping with distinct keys, looking a present key up yields its entry. */
  lemma {:induction false} LookupFindsEntry<K>(ps: seq<(K, int)>, i: int)
    requires DistinctKeys(ps) && 0 <= i < |ps|
    ensures Lookup(ps, ps[i].0) == ps[i].1
  {
    if i > 0 {
      LookupFindsEntry(ps[1..], i - 1);
    }
  }

  /** In a grouping with distinct keys there are as many entries as keys. */
  lemma {:induction false} DistinctKeysCount<K>(ps: seq<(K, int)>)
    requires DistinctKeys(ps)
    ensures |KeySet(ps)| == |ps|
  {
    if |ps| > 0 {
      KeySetCons(ps);
      DistinctKeysCount(ps[1..]);
      assert ps[0].0 !in KeySet(ps[1..]);
    }
  }

  /** Putting an entry with a new key in front keeps the keys distinct. */
  lemma DistinctCons<K>(x: (K, int), s: seq<(K, int)>)
    requires DistinctKeys(s) && x.0 !in KeySet(s)
    ensures DistinctKeys([x] + s)
  {
    var r := [x] + s;
    forall i, j | 0 <= i < j < |r| ensures r[i].0 != r[j].0 {
      assert r[j] == s[j - 1];
      if i > 0 { assert r[i] == s[i - 1]; }
    }
  }

  /** Adds one (key, amount) pair into a grouping: into the entry of its key
      when there is one, else as a new last entry. */
  function Accumulate<K(==, !new)>(acc: seq<(K, int)>, p: (K, int)): (r: seq<(K, int)>)
    requires DistinctKeys(acc)
    ensures DistinctKeys(r)
    ensures KeySet(r) == KeySet(acc) + {p.0}
    ensures forall k :: Lookup(r, k) == Lookup(acc, k) + (if k == p.0 then p.1 else 0)
    ensures Sum(r) == Sum(acc) + p.1
  {
    if |acc| == 0 then
      KeySetCons([p]);
      [p]
    else
      KeySetCons(acc);
      if acc[0].0 == p.0 then
        var r := [(p.0, acc[0].1 + p.1)] + acc[1..];
        KeySetCons(r);
        assert r[1..] == acc[1..];
        DistinctCons(r[0], acc[1..]);
        r
      else
        var rest := Accumulate(acc[1..], p);
        var r := [acc[0]] + rest;
        KeySetCons(r);
        assert r[1..] == rest;
        DistinctCons(acc[0], rest);
        r
  }

  /** `groupby(key).sum()`: one entry per key that occurs, holding the sum of its values. */
  function Group<K(==, !new)>(ps: seq<(K, int)>): (g: seq<(K, int)>)
    ensures DistinctKeys(g)
    ensures KeySet(g) == KeySet(ps)
    ensures forall k :: Lookup(g, k) == KeySum(ps, k)
    ensures Sum(g) == Sum(ps)
  {
    if |ps| == 0 then []
    else
      KeySetCons(ps);
      Accumulate(Group(ps[1..]), ps[0])
  }

  /** Every entry of a grouping holds the sum of its key's values. */
  lemma GroupEntriesAreKeySums<K(!new)>(ps: seq<(K, int)>, i: int)
    requires 0 <= i < |Group(ps)|
    ensures Group(ps)[i].1 == KeySum(ps, Group(ps)[i].0)
  {
    LookupFindsEntry(Group(ps), i);
  }

  /** Totals never increase along the sequence. */
  predicate NonIncreasing<K>(ps: seq<(K, int)>) {
    forall i, j :: 0 <= i < j < |ps| ==> ps[i].1 >= ps[j].1
  }

  /** Inserts `p` into a non-increasing sequence in front of the first entry
      with a smaller-or-equal total. */
  function Insert<K>(s: seq<(K, int)>, p: (K, int)): (r: seq<(K, int)>)
    requires NonIncreasing(s)
    ensures |r| == |s| + 1
    ensures r[0] == p || (|s| > 0 && r[0] == s[0])
    ensures NonIncreasing(r)
    ensures multiset(r) == multiset(s) + multiset{p}
  {
    if |s| == 0 then [p]
    else if s[0].1 <= p.1 then
      [p] + s
    else
      var rest := Insert(s[1..], p);
      assert s == [s[0]] + s[1..];
      assert s[0].1 >= rest[0].1;
      [s[0]] + rest
  }

  /** Sequences that are rearrangements of each other have the same keys. */
  lemma SameMultisetSameKeys<K>(a: seq<(K, int)>, b: seq<(K, int)>)
    requires multiset(a) == multiset(b)
    ensures KeySet(a) == KeySet(b)
  {
    forall k | k in KeySet(a) ensures k in KeySet(b) {
      var i :| 0 <= i < |a| && a[i].0 == k;
      assert a[i] in multiset(b);
      var j :| 0 <= j < |b| && b[j] == a[i];
    }
    forall k | k in KeySet(b) ensures k in KeySet(a) {
      var j :| 0 <= j < |b| && b[j].0 == k;
      assert b[j] in multiset(a);
      var i :| 0 <= i < |a| && a[i] == b[j];
    }
  }

  /** Inserting adds the inserted total to the sum. */
  lemma {:induction false} InsertSum<K>(s: seq<(K, int)>, p: (K, int))
    requires NonIncreasing(s)
    ensures Sum(Insert(s, p)) == Sum(s) + p.1
  {
    if |s| > 0 && s[0].1 > p.1 {
      InsertSum(s[1..], p);
      assert ([s[0]] + Insert(s[1..], p))[1..] == Insert(s[1..], p);
    } else if |s| > 0 {
      assert ([p] + s)[1..] == s;
    }
  }

  lemma KeySetAppend<K>(s: seq<(K, int)>, p: (K, int))
    ensures KeySet(s + [p]) == KeySet(s) + {p.0}
  {
    var t := s + [p];
    forall k | k in KeySet(t) ensures k in KeySet(s) + {p.0} {
      var i :| 0 <= i < |t| && t[i].0 == k;
      if i < |s| { assert s[i].0 == k; }
    }
    forall k | k in KeySet(s) ensures k in KeySet(t) {
      var i :| 0 <= i < |s| && s[i].0 == k;
      assert t[i].0 == k;
    }
    assert t[|s|].0 == p.0;
  }

  /** Inserting a new key into a grouping with distinct keys keeps them distinct. */
  lemma {:induction false} InsertKeepsKeysDistinct<K>(s: seq<(K, int)>, p: (K, int))
    requires NonIncreasing(s) && DistinctKeys(s) && p.0 !in KeySet(s)
    ensures DistinctKeys(Insert(s, p))
  {
    if |s| == 0 {
    } else if s[0].1 <= p.1 {
      DistinctCons(p, s);
    } else {
      KeySetCons(s);
      InsertKeepsKeysDistinct(s[1..], p);
      var rest := Insert(s[1..], p);
      SameMultisetSameKeys(rest, s[1..] + [p]);
      KeySetAppend(s[1..], p);
      DistinctCons(s[0], rest);
    }
  }

  /** `sort_values(ascending=False)`: a non-increasing rearrangement of the entries. */
  function SortDesc<K>(s: seq<(K, int)>): (r: seq<(K, int)>)
    ensures NonIncreasing(r)
    ensures multiset(r) == multiset(s)
  {
    if |s| == 0 then []
    else
      assert s == [s[0]] + s[1..];
      Insert(SortDesc(s[1..]), s[0])
  }

  /** Sorting keeps the length and the keys. */
  lemma SortDescKeepsKeys<K>(s: seq<(K, int)>)
    ensures |SortDesc(s)| == |s|
    ensures KeySet(SortDesc(s)) == KeySet(s)
  {
    var r := SortDesc(s);
    assert |r| == |multiset(r)| == |multiset(s)| == |s|;
    SameMultisetSameKeys(r, s);
  }

  /** Sorting keeps the sum. */
  lemma {:induction false} SortDescKeepsSum<K>(s: seq<(K, int)>)
    ensures Sum(SortDesc(s)) == Sum(s)
  {
    if |s| > 0 {
      SortDescKeepsSum(s[1..]);
      InsertSum(SortDesc(s[1..]), s[0]);
    }
  }

  /** Sorting keeps the keys distinct. */
  lemma {:induction false} SortDescKeepsDistinct<K>(s: seq<(K, int)>)
    requires DistinctKeys(s)
    ensures DistinctKeys(SortDesc(s))
  {
    if |s| > 0 {
      KeySetCons(s);
      assert DistinctKeys(s[1..]);
      SortDescKeepsDistinct(s[1..]);
      SortDescKeepsKeys(s[1..]);
      InsertKeepsKeysDistinct(SortDesc(s[1..]), s[0]);
    }
  }

  /** Sorting keeps the length, the keys, their distinctness and the sum. */
  lemma SortDescKeeps<K>(s: seq<(K, int)>)
    ensures |SortDesc(s)| == |s|
    ensures KeySet(SortDesc(s)) == KeySet(s)
    ensures Sum(SortDesc(s)) == Sum(s)
    ensures DistinctKeys(s) ==> DistinctKeys(SortDesc(s))
  {
    SortDescKeepsKeys(s);
    SortDescKeepsSum(s);
    if DistinctKeys(s) {
      SortDescKeepsDistinct(s);
    }
  }
}
