/** Counting maps, as `*map.entry(k).or_insert(0) += 1` builds them, and sums over them. */
module Histograms {

  function CountIn<K>(m: map<K, nat>, k: K): nat { if k in m then m[k] else 0 }

  function Bump<K>(m: map<K, nat>, k: K): map<K, nat> { m[k := CountIn(m, k) + 1] }

  /** The map that one bump for each element, in order, makes of the empty map. */
  function Histogram<K>(s: seq<K>): map<K, nat> {
    if s == [] then map[] else Bump(Histogram(s[..|s| - 1]), s[|s| - 1])
  }

  lemma HistogramSnoc<K>(s: seq<K>, k: K)
    ensures Histogram(s + [k]) == Bump(Histogram(s), k)
  {
    assert (s + [k])[..|s|] == s;
  }

  /** A histogram has exactly the elements as keys, and their multiplicities as counts. */
  lemma {:induction false} HistogramCounts<K>(s: seq<K>, k: K)
    ensures CountIn(Histogram(s), k) == multiset(s)[k]
    ensures k in Histogram(s) <==> k in s
  {
    if s != [] {
      var front, last := s[..|s| - 1], s[|s| - 1];
      assert s == front + [last];
      HistogramCounts(front, k);
    }
  }

  /** No key of a histogram has count zero. */
  lemma HistogramPositive<K>(s: seq<K>)
    ensures forall k :: k in Histogram(s) ==> Histogram(s)[k] > 0
  {
    forall k | k in Histogram(s)
      ensures Histogram(s)[k] > 0
    {
      HistogramCounts(s, k);
    }
  }

  /** The sum over all keys of count times weight. */
  ghost function WeightedSum<K(!new)>(m: map<K, nat>, w: K -> nat): nat {
    if m == map[] then 0
    else
      var k :| k in m;
      m[k] * w(k) + WeightedSum(m - {k}, w)
  }

  /** The sum does not depend on the key that is taken out first. */
  lemma {:induction false} SumWithout<K(!new)>(m: map<K, nat>, w: K -> nat, k: K)
    requires k in m
    ensures WeightedSum(m, w) == m[k] * w(k) + WeightedSum(m - {k}, w)
    decreases |m|
  {
    var j :| j in m && WeightedSum(m, w) == m[j] * w(j) + WeightedSum(m - {j}, w);
    if j != k {
      SumWithout(m - {j}, w, k);
      SumWithout(m - {k}, w, j);
      assert m - {j} - {k} == m - {k} - {j};
    }
  }

  lemma SumBump<K(!new)>(m: map<K, nat>, w: K -> nat, k: K)
    ensures WeightedSum(Bump(m, k), w) == WeightedSum(m, w) + w(k)
  {
    var b := Bump(m, k);
    SumWithout(b, w, k);
    assert b - {k} == m - {k};
    if k in m {
      SumWithout(m, w, k);
      assert (m[k] + 1) * w(k) == m[k] * w(k) + w(k);
    } else {
      assert m - {k} == m;
    }
  }

  function SeqSum<K>(s: seq<K>, w: K -> nat): nat {
    if s == [] then 0 else SeqSum(s[..|s| - 1], w) + w(s[|s| - 1])
  }

  /** Summing over the keys of a histogram is summing over the elements it counted. */
  lemma {:induction false} SumHistogram<K(!new)>(s: seq<K>, w: K -> nat)
    ensures WeightedSum(Histogram(s), w) == SeqSum(s, w)
  {
    if s != [] {
      SumHistogram(s[..|s| - 1], w);
      SumBump(Histogram(s[..|s| - 1]), w, s[|s| - 1]);
    }
  }

  // ---------------------------------------------------------------- new entries

  /** Some entry from number `n` on occurs for the first time. */
  ghost predicate NewSince<T>(s: seq<T>, n: nat) {
    exists i :: n <= i < |s| && s[i] !in s[..i]
  }

  function Distinct<T>(s: seq<T>): set<T> { set x | x in s }

  /** A counter of distinct entries that was noted down after `n` entries is exceeded exactly by something new. */
  lemma NewSinceGrows<T>(s: seq<T>, n: nat)
    requires n <= |s|
    ensures |Distinct(s)| > |Distinct(s[..n])| <==> NewSince(s, n)
  {
    var before, all := Distinct(s[..n]), Distinct(s);
    assert before <= all;
    if NewSince(s, n) {
      var i :| n <= i < |s| && s[i] !in s[..i];
      assert s[i] in all && s[i] !in before;
      SmallerSet(before, all, s[i]);
    } else {
      forall k | 0 <= k < |s|
        ensures s[k] in s[..n]
      {
        NothingNew(s, n, k);
      }
      assert all == before;
    }
  }

  lemma SmallerSet<T>(a: set<T>, b: set<T>, x: T)
    requires a <= b && x in b && x !in a
    ensures |a| < |b|
  {
    assert a <= b - {x};
    SubsetSize(a, b - {x});
  }

  lemma {:induction false} SubsetSize<T>(a: set<T>, b: set<T>)
    requires a <= b
    ensures |a| <= |b|
  {
    if a != {} {
      var x :| x in a;
      SubsetSize(a - {x}, b - {x});
    }
  }

  lemma {:induction false} NothingNew<T>(s: seq<T>, n: nat, k: nat)
    requires n <= |s| && k < |s| && !NewSince(s, n)
    ensures s[k] in s[..n]
    decreases k
  {
    if k >= n {
      var j :| 0 <= j < k && s[..k][j] == s[k];
      NothingNew(s, n, j);
    }
  }

  /**
   * The counting loop of both collectors: every item is counted, and the flag tells whether some item had never
   * been counted before.
   */
  method CountAll<K(==)>(m: map<K, nat>, ghost known: seq<K>, items: seq<K>) returns (counted: map<K, nat>, found: bool)
    requires m == Histogram(known)
    ensures counted == Histogram(known + items)
    ensures found <==> exists k :: k in items && k !in known
  {
    counted, found := m, false;
    assert known + items[..0] == known;
    for i := 0 to |items|
      invariant counted == Histogram(known + items[..i])
      invariant found <==> exists k :: k in items[..i] && k !in known
    {
      hide Histogram, Bump;
      var item := items[i];
      HistogramCounts(known + items[..i], item);
      if CountIn(counted, item) == 0 {
        found := true;
      }
      HistogramSnoc(known + items[..i], item);
      assert known + items[..i] + [item] == known + items[..i + 1];
      counted := Bump(counted, item);
    }
    assert items[..|items|] == items;
  }
}
