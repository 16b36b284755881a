/**
 * Generic counting over sequences: occurrence counts, the distinct values in
 * first-seen order (what `Counter` keys and `Series.unique()` enumerate), the
 * (value, count) table built from them, and a stable sort of such a table by
 * descending count (what `Counter.most_common()` and `value_counts()` do).
 */
module Counting {

  /** Number of occurrences of `x` in `xs`. */
  function Count<T(==)>(xs: seq<T>, x: T): (n: nat)
    ensures n <= |xs|
    ensures n > 0 <==> x in xs
  {
    if xs == [] then 0
    else
      assert xs == [xs[0]] + xs[1..];
      (if xs[0] == x then 1 else 0) + Count(xs[1..], x)
  }

  /** No value occurs twice. */
  predicate NoDup<T(==)>(xs: seq<T>) {
    forall i, j :: 0 <= i < j < |xs| ==> xs[i] != xs[j]
  }

  /** A value of a duplicate-free sequence occurs in it exactly once. */
  lemma {:induction false} CountNoDup<T>(xs: seq<T>, x: T)
    requires NoDup(xs) && x in xs
    ensures Count(xs, x) == 1
  {
    if xs[0] != x {
      assert x in xs[1..] by {
        var k :| 0 <= k < |xs| && xs[k] == x;
        assert xs[1..][k - 1] == x;
      }
      CountNoDup(xs[1..], x);
    }
  }

  /** A duplicate-free sequence holds each value at most once, counted as a multiset. */
  lemma {:induction false} NoDupMultiplicity<T>(xs: seq<T>, x: T)
    requires NoDup(xs)
    ensures multiset(xs)[x] <= 1
  {
    if xs != [] {
      assert xs == [xs[0]] + xs[1..];
      assert NoDup(xs[1..]);
      NoDupMultiplicity(xs[1..], x);
    }
  }

  /** Reordering a duplicate-free sequence keeps it duplicate-free. */
  lemma NoDupPermutation<T>(a: seq<T>, b: seq<T>)
    requires multiset(a) == multiset(b) && NoDup(a)
    ensures NoDup(b)
  {
    forall i, j | 0 <= i < j < |b| ensures b[i] != b[j] {
      if b[i] == b[j] {
        var x := b[i];
        assert b == b[..j] + b[j..];
        assert x in b[..j] && x in b[j..];
        assert multiset(b)[x] == multiset(b[..j])[x] + multiset(b[j..])[x];
        NoDupMultiplicity(a, x);
        assert false;
      }
    }
  }

  /** Index of the first occurrence of `x` in `xs`. */
  function FirstIndex<T(==)>(xs: seq<T>, x: T): (i: nat)
    requires x in xs
    ensures i < |xs| && xs[i] == x && x !in xs[..i]
  {
    if xs[0] == x then 0
    else
      assert x in xs[1..] by {
        var k :| 0 <= k < |xs| && xs[k] == x;
        assert xs[1..][k - 1] == x;
      }
      var i := 1 + FirstIndex(xs[1..], x);
      assert xs[..i] == [xs[0]] + xs[1..][..i - 1];
      i
  }

  /** Extending a sequence does not move the first occurrence of a value it already holds. */
  lemma FirstIndexPrefix<T>(a: seq<T>, b: seq<T>, x: T)
    requires x in a
    ensures x in a + b && FirstIndex(a + b, x) == FirstIndex(a, x)
  {
    var i, k := FirstIndex(a, x), FirstIndex(a + b, x);
    assert (a + b)[i] == x;
  }

  /**
   * The distinct values of `xs`, each once, in order of first appearance.
   * Defined by extending the result as `xs` grows at its end.
   */
  function Distinct<T(==)>(xs: seq<T>): (d: seq<T>)
    ensures NoDup(d)
    ensures forall i :: 0 <= i < |d| ==> d[i] in xs
    ensures forall i :: 0 <= i < |xs| ==> xs[i] in d
    ensures |d| <= |xs|
  {
    if xs == [] then []
    else
      var init, last := xs[..|xs| - 1], xs[|xs| - 1];
      assert xs == init + [last];
      var d := Distinct(init);
      if last in d then d else d + [last]
  }

  /** The values of `Distinct(xs)` are listed in the order of their first occurrence in `xs`. */
  lemma {:induction false} DistinctFirstSeen<T>(xs: seq<T>)
    ensures forall i, j :: 0 <= i < j < |Distinct(xs)| ==>
      FirstIndex(xs, Distinct(xs)[i]) < FirstIndex(xs, Distinct(xs)[j])
  {
    if xs != [] {
      var init, last := xs[..|xs| - 1], xs[|xs| - 1];
      assert xs == init + [last];
      var d0, d := Distinct(init), Distinct(xs);
      DistinctFirstSeen(init);
      forall y | y in d0 ensures FirstIndex(xs, y) == FirstIndex(init, y) {
        FirstIndexPrefix(init, [last], y);
      }
      if last !in d0 {
        forall k | 0 <= k < |init| ensures xs[k] != last {
          assert xs[k] == init[k];
        }
      }
    }
  }

  /** The keys of a (key, count) table. */
  function Keys<K>(ps: seq<(K, nat)>): (ks: seq<K>)
    ensures |ks| == |ps|
    ensures forall i :: 0 <= i < |ps| ==> ks[i] == ps[i].0
  {
    if ps == [] then [] else [ps[0].0] + Keys(ps[1..])
  }

  /** Sum of the counts of a (key, count) table. */
  function SumCounts<K>(ps: seq<(K, nat)>): nat {
    if ps == [] then 0 else ps[0].1 + SumCounts(ps[1..])
  }

  /** Pairs each of `keys` with its number of occurrences in `xs`, in the order of `keys`. */
  function TallyOver<T(==)>(keys: seq<T>, xs: seq<T>): (ps: seq<(T, nat)>)
    ensures Keys(ps) == keys
    ensures forall i :: 0 <= i < |ps| ==> ps[i].1 == Count(xs, ps[i].0)
  {
    if keys == [] then [] else [(keys[0], Count(xs, keys[0]))] + TallyOver(keys[1..], xs)
  }

  /** Each entry of a count table is one of its keys with that key's count. */
  lemma TallyOverEntries<T>(keys: seq<T>, xs: seq<T>)
    ensures forall p :: p in TallyOver(keys, xs) ==> p.0 in keys && p.1 == Count(xs, p.0)
  {
    var ps := TallyOver(keys, xs);
    forall p | p in ps ensures p.0 in keys && p.1 == Count(xs, p.0) {
      var i :| 0 <= i < |ps| && ps[i] == p;
      assert Keys(ps)[i] == p.0;
    }
  }

  /** The occurrence table of `xs`, keyed by its distinct values in first-seen order. */
  function Tally<T(==)>(xs: seq<T>): seq<(T, nat)> {
    TallyOver(Distinct(xs), xs)
  }

  lemma {:induction false} SumTallyEmpty<T>(keys: seq<T>)
    ensures SumCounts(TallyOver(keys, [])) == 0
  {
    if keys != [] {
      SumTallyEmpty(keys[1..]);
    }
  }

  lemma {:induction false} SumTallyCons<T>(keys: seq<T>, a: T, xs: seq<T>)
    ensures SumCounts(TallyOver(keys, [a] + xs)) == Count(keys, a) + SumCounts(TallyOver(keys, xs))
  {
    if keys != [] {
      assert ([a] + xs)[1..] == xs;
      SumTallyCons(keys[1..], a, xs);
    }
  }

  /**
   * Counting `xs` against duplicate-free keys that cover all of its values
   * accounts for every element exactly once.
   */
  lemma {:induction false} SumTally<T>(keys: seq<T>, xs: seq<T>)
    requires NoDup(keys)
    requires forall x :: x in xs ==> x in keys
    ensures SumCounts(TallyOver(keys, xs)) == |xs|
  {
    if xs == [] {
      SumTallyEmpty(keys);
    } else {
      assert xs == [xs[0]] + xs[1..];
      SumTallyCons(keys, xs[0], xs[1..]);
      CountNoDup(keys, xs[0]);
      SumTally(keys, xs[1..]);
    }
  }

  /** What a `Tally` table holds: each distinct value once, with its exact count, all counts summing to `|xs|`. */
  lemma TallyFacts<T>(xs: seq<T>)
    ensures NoDup(Keys(Tally(xs)))
    ensures forall x :: x in Keys(Tally(xs)) <==> x in xs
    ensures forall p :: p in Tally(xs) ==> p.0 in xs && p.1 == Count(xs, p.0) && p.1 > 0
    ensures forall i, j :: 0 <= i < j < |Tally(xs)| ==>
      FirstIndex(xs, Tally(xs)[i].0) < FirstIndex(xs, Tally(xs)[j].0)
    ensures SumCounts(Tally(xs)) == |xs|
  {
    var d := Distinct(xs);
    var t := Tally(xs);
    assert Keys(t) == d;
    forall p | p in t ensures p.0 in xs && p.1 == Count(xs, p.0) && p.1 > 0 {
      var i :| 0 <= i < |t| && t[i] == p;
      assert Keys(t)[i] == p.0;
    }
    DistinctFirstSeen(xs);
    SumTally(d, xs);
  }

  /** Counts never increase along the table. */
  predicate NonIncreasing<K>(ps: seq<(K, nat)>) {
    forall i, j :: 0 <= i < j < |ps| ==> ps[i].1 >= ps[j].1
  }

  /** The entries of a table that carry count `c`, in table order. */
  function WithCount<K>(ps: seq<(K, nat)>, c: nat): seq<(K, nat)> {
    if ps == [] then []
    else (if ps[0].1 == c then [ps[0]] else []) + WithCount(ps[1..], c)
  }

  /**
   * Inserts `p` after every entry with a larger count and before the first
   * entry whose count is not larger.
   */
  function InsertByCount<K>(p: (K, nat), s: seq<(K, nat)>): (r: seq<(K, nat)>)
    ensures multiset(r) == multiset(s) + multiset{p}
  {
    if s == [] || s[0].1 <= p.1 then [p] + s
    else
      assert s == [s[0]] + s[1..];
      [s[0]] + InsertByCount(p, s[1..])
  }

  lemma {:induction false} InsertByCountKeys<K>(p: (K, nat), s: seq<(K, nat)>)
    ensures multiset(Keys(InsertByCount(p, s))) == multiset(Keys(s)) + multiset{p.0}
  {
    if s == [] || s[0].1 <= p.1 {
      assert ([p] + s)[1..] == s;
    } else {
      var t := InsertByCount(p, s[1..]);
      InsertByCountKeys(p, s[1..]);
      assert ([s[0]] + t)[1..] == t;
      assert Keys(s) == [s[0].0] + Keys(s[1..]);
    }
  }

  lemma {:induction false} InsertByCountSorted<K>(p: (K, nat), s: seq<(K, nat)>)
    requires NonIncreasing(s)
    ensures NonIncreasing(InsertByCount(p, s))
  {
    if s != [] && s[0].1 > p.1 {
      var t := InsertByCount(p, s[1..]);
      InsertByCountSorted(p, s[1..]);
      forall k | 0 <= k < |t| ensures s[0].1 >= t[k].1 {
        assert t[k] in multiset(t);
        assert t[k] in multiset(s[1..]) + multiset{p};
        if t[k] != p {
          var m :| 0 <= m < |s[1..]| && s[1..][m] == t[k];
          assert s[m + 1] == t[k];
        }
      }
    }
  }

  lemma {:induction false} InsertByCountStable<K>(p: (K, nat), s: seq<(K, nat)>, c: nat)
    ensures WithCount(InsertByCount(p, s), c) == (if p.1 == c then [p] else []) + WithCount(s, c)
  {
    if s == [] || s[0].1 <= p.1 {
      assert ([p] + s)[1..] == s;
    } else {
      var t := InsertByCount(p, s[1..]);
      InsertByCountStable(p, s[1..], c);
      assert ([s[0]] + t)[1..] == t;
    }
  }

  /**
   * Stable sort by descending count: the ordering `Counter.most_common()`
   * produces, where entries with equal counts keep their relative order.
   */
  function SortByCount<K>(ps: seq<(K, nat)>): (r: seq<(K, nat)>)
    ensures multiset(r) == multiset(ps)
  {
    if ps == [] then []
    else
      assert ps == [ps[0]] + ps[1..];
      InsertByCount(ps[0], SortByCount(ps[1..]))
  }

  /**
   * The sorted table is a reordering of `ps` (keys included) with counts
   * non-increasing, and entries of equal count in their original order.
   */
  lemma {:induction false} SortByCountFacts<K>(ps: seq<(K, nat)>)
    ensures multiset(Keys(SortByCount(ps))) == multiset(Keys(ps))
    ensures NonIncreasing(SortByCount(ps))
    ensures forall c :: WithCount(SortByCount(ps), c) == WithCount(ps, c)
  {
    if ps != [] {
      var t := SortByCount(ps[1..]);
      SortByCountFacts(ps[1..]);
      InsertByCountKeys(ps[0], t);
      InsertByCountSorted(ps[0], t);
      forall c ensures WithCount(SortByCount(ps), c) == WithCount(ps, c) {
        InsertByCountStable(ps[0], t, c);
      }
      assert Keys(ps) == [ps[0].0] + Keys(ps[1..]);
    }
  }

  /**
   * The first `n` entries of a table: drawn from the table, keys still unique,
   * and, when the table is sorted, no later entry has a larger count than any
   * of them.
   */
  lemma PrefixFacts<K>(r: seq<(K, nat)>, n: nat)
    requires n <= |r|
    ensures NoDup(Keys(r)) ==> NoDup(Keys(r[..n]))
    ensures forall p :: p in r[..n] ==> p in r
    ensures forall k :: k in Keys(r) && k !in Keys(r[..n]) ==> exists j :: n <= j < |r| && r[j].0 == k
    ensures NonIncreasing(r) ==> forall i, j :: 0 <= i < n <= j < |r| ==> r[i].1 >= r[j].1
  {
    var t := r[..n];
    assert Keys(t) == Keys(r)[..n];
    forall k | k in Keys(r) && k !in Keys(t) ensures exists j :: n <= j < |r| && r[j].0 == k {
      var j :| 0 <= j < |r| && Keys(r)[j] == k;
    }
  }

  /**
   * In a sorted occurrence table of `xs`, a value missing from the first `n`
   * entries occurs no more often than any value among them.
   */
  lemma PrefixDominates<K>(r: seq<(K, nat)>, n: nat, xs: seq<K>)
    requires n <= |r| && NonIncreasing(r)
    requires forall p :: p in r ==> p.1 == Count(xs, p.0)
    requires forall k :: k in xs ==> k in Keys(r)
    ensures forall k, i :: k in xs && k !in Keys(r[..n]) && 0 <= i < n ==> r[..n][i].1 >= Count(xs, k)
  {
    PrefixFacts(r, n);
    forall k, i | k in xs && k !in Keys(r[..n]) && 0 <= i < n
      ensures r[..n][i].1 >= Count(xs, k)
    {
      var j :| n <= j < |r| && r[j].0 == k;
      assert r[j] in r;
    }
  }

  /** Values never decrease along the sequence. */
  predicate Ascending(xs: seq<int>) {
    forall i, j :: 0 <= i < j < |xs| ==> xs[i] <= xs[j]
  }

  function InsertAscending(x: int, s: seq<int>): (r: seq<int>)
    ensures multiset(r) == multiset(s) + multiset{x}
  {
    if s == [] || x <= s[0] then [x] + s
    else
      assert s == [s[0]] + s[1..];
      [s[0]] + InsertAscending(x, s[1..])
  }

  lemma {:induction false} InsertAscendingSorted(x: int, s: seq<int>)
    requires Ascending(s)
    ensures Ascending(InsertAscending(x, s))
  {
    if s != [] && x > s[0] {
      var t := InsertAscending(x, s[1..]);
      InsertAscendingSorted(x, s[1..]);
      forall k | 0 <= k < |t| ensures s[0] <= t[k] {
        assert t[k] in multiset(t);
        assert t[k] in multiset(s[1..]) + multiset{x};
      }
    }
  }

  /** Sorts integers into ascending order. */
  function SortAscending(xs: seq<int>): (r: seq<int>)
    ensures multiset(r) == multiset(xs)
  {
    if xs == [] then []
    else
      assert xs == [xs[0]] + xs[1..];
      InsertAscending(xs[0], SortAscending(xs[1..]))
  }

  lemma {:induction false} SortAscendingSorted(xs: seq<int>)
    ensures Ascending(SortAscending(xs))
  {
    if xs != [] {
      SortAscendingSorted(xs[1..]);
      InsertAscendingSorted(xs[0], SortAscending(xs[1..]));
    }
  }

  /** The sorted distinct values of `xs` are unique keys covering `xs`, so their counts sum to `|xs|`. */
  lemma SumTallySorted(xs: seq<int>)
    ensures SumCounts(TallyOver(SortAscending(Distinct(xs)), xs)) == |xs|
  {
    var d := Distinct(xs);
    var keys := SortAscending(d);
    NoDupPermutation(d, keys);
    forall x | x in xs ensures x in keys {
      var i :| 0 <= i < |xs| && xs[i] == x;
      assert x in d && x in multiset(d);
    }
    SumTally(keys, xs);
  }
}
