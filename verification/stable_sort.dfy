/** A stable sort by key, standing for `Array.prototype.sort` with a three-way
    comparator that returns 0 on equal keys. The built-in sort is required to be
    stable, and the lemmas below show that stability together with sortedness
    determines the output completely, so the insertion sort used here yields
    exactly what any stable sort yields. */
module StableSort {
  import Seqs

  /** `less` is irreflexive. */
  ghost predicate Irreflexive<K(!new)>(less: (K, K) -> bool) {
    forall a :: !less(a, a)
  }

  /** `less` is a strict total order: irreflexive, transitive and connected. */
  ghost predicate StrictTotalOrder<K(!new)>(less: (K, K) -> bool) {
    && Irreflexive(less)
    && (forall a, b, c :: less(a, b) && less(b, c) ==> less(a, c))
    && (forall a, b :: a == b || less(a, b) || less(b, a))
  }

  /** The order with its arguments swapped: what a comparator with its signs
      flipped (a descending sort) asks for. */
  function Reversed<K>(less: (K, K) -> bool): (K, K) -> bool {
    (a, b) => less(b, a)
  }

  /** Reversing a strict total order gives a strict total order. */
  lemma ReversedStrictTotal<K(!new)>(less: (K, K) -> bool)
    requires StrictTotalOrder(less)
    ensures StrictTotalOrder(Reversed(less))
  {
    var rev := Reversed(less);
    forall a, b, c | rev(a, b) && rev(b, c)
      ensures rev(a, c)
    {
      assert less(c, b) && less(b, a);
    }
  }

  /** The selector of the elements whose key is `k`. */
  function HasKey<T, K(==)>(key: T -> K, k: K): T -> bool {
    x => key(x) == k
  }

  /** The elements of `s` whose key is `k`, in order: the run of ties for `k`. */
  function Ties<T(==,!new), K(==)>(s: seq<T>, key: T -> K, k: K): seq<T> {
    Seqs.Filter(s, HasKey(key, k))
  }

  /** No element has a key strictly below that of an element before it. */
  ghost predicate Sorted<T, K>(s: seq<T>, key: T -> K, less: (K, K) -> bool) {
    forall i, j :: 0 <= i < j < |s| ==> !less(key(s[j]), key(s[i]))
  }

  /** Inserts `x` in front of the first element whose key is not below `x`'s. */
  function Insert<T(==,!new), K>(x: T, t: seq<T>, key: T -> K, less: (K, K) -> bool): (r: seq<T>)
    ensures multiset(r) == multiset(t) + multiset{x}
    ensures |r| == |t| + 1
    decreases |t|
  {
    if |t| == 0 then [x]
    else if less(key(t[0]), key(x)) then
      assert t == [t[0]] + t[1..];
      [t[0]] + Insert(x, t[1..], key, less)
    else [x] + t
  }

  /** `[...s].sort(cmp)` for the comparator that orders by `less` on `key`. */
  function SortBy<T(==,!new), K>(s: seq<T>, key: T -> K, less: (K, K) -> bool): (r: seq<T>)
    ensures multiset(r) == multiset(s)
    ensures |r| == |s|
    decreases |s|
  {
    if |s| == 0 then []
    else
      assert s == [s[0]] + s[1..];
      Insert(s[0], SortBy(s[1..], key, less), key, less)
  }

  /** Inserting `x` adds it in front of the ties for its key and leaves every
      other run of ties alone. */
  lemma {:induction false} InsertTies<T(!new), K(!new)>(x: T, t: seq<T>, key: T -> K, less: (K, K) -> bool, k: K)
    requires Irreflexive(less)
    ensures Ties(Insert(x, t, key, less), key, k) ==
            (if key(x) == k then [x] else []) + Ties(t, key, k)
    decreases |t|
  {
    var p := HasKey(key, k);
    if |t| == 0 {
      Seqs.FilterCons(x, [], p);
      assert [x] == [x] + [];
    } else if less(key(t[0]), key(x)) {
      InsertTies(x, t[1..], key, less, k);
      Seqs.FilterCons(t[0], Insert(x, t[1..], key, less), p);
      Seqs.FilterCons(t[0], t[1..], p);
      assert t == [t[0]] + t[1..];
      if key(x) == k {
        assert key(t[0]) != k;
      }
    } else {
      Seqs.FilterCons(x, t, p);
    }
  }

  /** Sorting is stable: every run of ties comes out in its input order. */
  lemma {:induction false} SortByStable<T(!new), K(!new)>(s: seq<T>, key: T -> K, less: (K, K) -> bool, k: K)
    requires Irreflexive(less)
    ensures Ties(SortBy(s, key, less), key, k) == Ties(s, key, k)
    decreases |s|
  {
    if |s| > 0 {
      SortByStable(s[1..], key, less, k);
      InsertTies(s[0], SortBy(s[1..], key, less), key, less, k);
      Seqs.FilterCons(s[0], s[1..], HasKey(key, k));
      assert s == [s[0]] + s[1..];
    }
  }

  /** A sorted sequence stays sorted when an element no greater than all of its
      elements is put in front. */
  lemma SortedCons<T, K>(a: T, t: seq<T>, key: T -> K, less: (K, K) -> bool)
    requires Sorted(t, key, less)
    requires forall y :: y in t ==> !less(key(y), key(a))
    ensures Sorted([a] + t, key, less)
  {
    var r := [a] + t;
    forall i, j | 0 <= i < j < |r|
      ensures !less(key(r[j]), key(r[i]))
    {
      if i == 0 {
        assert r[j] == t[j - 1] && r[j] in t;
      } else {
        assert r[i] == t[i - 1] && r[j] == t[j - 1];
      }
    }
  }

  /** Inserting into a sorted sequence keeps it sorted. */
  lemma {:induction false} InsertSorted<T(!new), K(!new)>(x: T, t: seq<T>, key: T -> K, less: (K, K) -> bool)
    requires StrictTotalOrder(less)
    requires Sorted(t, key, less)
    ensures Sorted(Insert(x, t, key, less), key, less)
    decreases |t|
  {
    if |t| > 0 {
      if less(key(t[0]), key(x)) {
        var rest := Insert(x, t[1..], key, less);
        InsertSorted(x, t[1..], key, less);
        forall y | y in rest
          ensures !less(key(y), key(t[0]))
        {
          assert y in multiset(rest);
          if y != x {
            assert y in t[1..];
            var m :| 0 <= m < |t[1..]| && t[1..][m] == y;
            assert t[m + 1] == y;
          }
        }
        SortedCons(t[0], rest, key, less);
      } else {
        forall y | y in t
          ensures !less(key(y), key(x))
        {
          var m :| 0 <= m < |t| && t[m] == y;
          if m > 0 {
            assert !less(key(t[m]), key(t[0]));
          }
        }
        SortedCons(x, t, key, less);
      }
    }
  }

  /** The output of the sort is ordered by `less` on `key`. */
  lemma {:induction false} SortBySorted<T(!new), K(!new)>(s: seq<T>, key: T -> K, less: (K, K) -> bool)
    requires StrictTotalOrder(less)
    ensures Sorted(SortBy(s, key, less), key, less)
    decreases |s|
  {
    if |s| > 0 {
      SortBySorted(s[1..], key, less);
      InsertSorted(s[0], SortBy(s[1..], key, less), key, less);
    }
  }

  /** Two sorted sequences with the same runs of ties are equal. */
  lemma {:induction false} SortedTiesUnique<T(!new), K(!new)>(a: seq<T>, b: seq<T>, key: T -> K, less: (K, K) -> bool)
    requires StrictTotalOrder(less)
    requires Sorted(a, key, less) && Sorted(b, key, less)
    requires forall k :: Ties(a, key, k) == Ties(b, key, k)
    ensures a == b
    decreases |a| + |b|
  {
    if |a| == 0 || |b| == 0 {
      if |a| > 0 {
        InOwnTies(a, key);
      } else if |b| > 0 {
        InOwnTies(b, key);
      }
    } else {
      var ka, kb := key(a[0]), key(b[0]);
      assert a[0] in Ties(b, key, ka) by {
        assert a[0] in Ties(a, key, ka);
      }
      assert !less(ka, kb) by {
        var j :| 0 <= j < |b| && b[j] == a[0];
        if j > 0 {
          assert !less(key(b[j]), key(b[0]));
        }
      }
      assert b[0] in Ties(a, key, kb) by {
        assert b[0] in Ties(b, key, kb);
      }
      assert !less(kb, ka) by {
        var j :| 0 <= j < |a| && a[j] == b[0];
        if j > 0 {
          assert !less(key(a[j]), key(a[0]));
        }
      }
      assert ka == kb;
      assert a == [a[0]] + a[1..] && b == [b[0]] + b[1..];
      forall k
        ensures Ties(a[1..], key, k) == Ties(b[1..], key, k)
      {
        Seqs.FilterCons(a[0], a[1..], HasKey(key, k));
        Seqs.FilterCons(b[0], b[1..], HasKey(key, k));
        assert Ties(a, key, k) == Ties(b, key, k);
        if k == ka {
          assert Ties(a, key, k) == [a[0]] + Ties(a[1..], key, k);
          assert Ties(b, key, k) == [b[0]] + Ties(b[1..], key, k);
        }
      }
      FilterConsHead(a, b, key, ka);
      SortedTiesUnique(a[1..], b[1..], key, less);
    }
  }

  /** The leading element belongs to the run of ties for its own key. */
  lemma InOwnTies<T(!new), K(!new)>(s: seq<T>, key: T -> K)
    requires |s| > 0
    ensures |Ties(s, key, key(s[0]))| > 0
  {
    assert s[0] in Ties(s, key, key(s[0]));
  }

  /** When the runs of ties for the leading key of both sequences agree, the
      leading elements agree. */
  lemma FilterConsHead<T(!new), K(!new)>(a: seq<T>, b: seq<T>, key: T -> K, k: K)
    requires |a| > 0 && |b| > 0 && key(a[0]) == k && key(b[0]) == k
    requires Ties(a, key, k) == Ties(b, key, k)
    ensures a[0] == b[0]
  {
    Seqs.FilterCons(a[0], a[1..], HasKey(key, k));
    Seqs.FilterCons(b[0], b[1..], HasKey(key, k));
    assert a == [a[0]] + a[1..] && b == [b[0]] + b[1..];
  }

  /** The sort is the one and only sorted sequence that keeps every run of ties
      of `s` in order; any stable sort returns exactly this. */
  lemma SortByUnique<T(!new), K(!new)>(s: seq<T>, r: seq<T>, key: T -> K, less: (K, K) -> bool)
    requires StrictTotalOrder(less)
    requires Sorted(r, key, less)
    requires forall k :: Ties(r, key, k) == Ties(s, key, k)
    ensures r == SortBy(s, key, less)
  {
    SortBySorted(s, key, less);
    forall k
      ensures Ties(r, key, k) == Ties(SortBy(s, key, less), key, k)
    {
      SortByStable(s, key, less, k);
    }
    SortedTiesUnique(r, SortBy(s, key, less), key, less);
  }

  /** `before` holds between any two tied elements whose positions in `s` are in order. */
  ghost predicate TiesInOrder<T, K>(s: seq<T>, key: T -> K, before: (T, T) -> bool) {
    forall i, j :: 0 <= i < j < |s| && key(s[i]) == key(s[j]) ==> before(s[i], s[j])
  }

  /** Inserting an element that precedes everything under `before` keeps the
      tied elements in `before` order. */
  lemma {:induction false} InsertTiesInOrder<T(!new), K(!new)>(x: T, t: seq<T>, key: T -> K, less: (K, K) -> bool, before: (T, T) -> bool)
    requires Irreflexive(less)
    requires TiesInOrder(t, key, before)
    requires forall y :: y in t ==> before(x, y)
    ensures TiesInOrder(Insert(x, t, key, less), key, before)
    decreases |t|
  {
    var r := Insert(x, t, key, less);
    if |t| > 0 && less(key(t[0]), key(x)) {
      var rest := Insert(x, t[1..], key, less);
      assert TiesInOrder(t[1..], key, before) by {
        forall i, j | 0 <= i < j < |t[1..]| && key(t[1..][i]) == key(t[1..][j])
          ensures before(t[1..][i], t[1..][j])
        {
          assert t[1..][i] == t[i + 1] && t[1..][j] == t[j + 1];
        }
      }
      InsertTiesInOrder(x, t[1..], key, less, before);
      forall i, j | 0 <= i < j < |r| && key(r[i]) == key(r[j])
        ensures before(r[i], r[j])
      {
        if i == 0 {
          var y := rest[j - 1];
          assert y in multiset(rest);
          assert y != x;
          assert y in t[1..];
          var m :| 0 <= m < |t[1..]| && t[1..][m] == y;
          assert t[m + 1] == y;
        } else {
          assert r[i] == rest[i - 1] && r[j] == rest[j - 1];
        }
      }
    } else if |t| > 0 {
      forall i, j | 0 <= i < j < |r| && key(r[i]) == key(r[j])
        ensures before(r[i], r[j])
      {
        if i == 0 {
          assert r[j] == t[j - 1] && r[j] in t;
        } else {
          assert r[i] == t[i - 1] && r[j] == t[j - 1];
        }
      }
    }
  }

  /** If `before` orders the whole input, the sort keeps every pair of tied
      elements in `before` order (the stability of the sort, stated through any
      order the input follows). */
  lemma {:induction false} SortByTiesInOrder<T(!new), K(!new)>(s: seq<T>, key: T -> K, less: (K, K) -> bool, before: (T, T) -> bool)
    requires Irreflexive(less)
    requires Seqs.Pairwise(s, before)
    ensures TiesInOrder(SortBy(s, key, less), key, before)
    decreases |s|
  {
    if |s| > 0 {
      Seqs.PairwiseTail(s, before);
      SortByTiesInOrder(s[1..], key, less, before);
      var t := SortBy(s[1..], key, less);
      forall y | y in t
        ensures before(s[0], y)
      {
        assert y in multiset(t);
        assert y in s[1..];
        var m :| 0 <= m < |s[1..]| && s[1..][m] == y;
        assert s[m + 1] == y;
      }
      InsertTiesInOrder(s[0], t, key, less, before);
    }
  }

  /** Inserting an element related both ways to every element keeps a pairwise relation. */
  lemma {:induction false} InsertPairwise<T(!new), K(!new)>(x: T, t: seq<T>, key: T -> K, less: (K, K) -> bool, rel: (T, T) -> bool)
    requires Seqs.Pairwise(t, rel)
    requires forall y :: y in t ==> rel(x, y) && rel(y, x)
    ensures Seqs.Pairwise(Insert(x, t, key, less), rel)
    decreases |t|
  {
    if |t| > 0 && less(key(t[0]), key(x)) {
      Seqs.PairwiseTail(t, rel);
      InsertPairwise(x, t[1..], key, less, rel);
      var rest := Insert(x, t[1..], key, less);
      forall y | y in rest
        ensures rel(t[0], y)
      {
        assert y in multiset(rest);
        if y != x {
          assert y in t[1..];
          var m :| 0 <= m < |t[1..]| && t[1..][m] == y;
          assert t[m + 1] == y;
        }
      }
      Seqs.PairwiseCons(t[0], rest, rel);
    } else {
      Seqs.PairwiseCons(x, t, rel);
    }
  }

  /** Sorting keeps every symmetric pairwise relation of its input (distinct
      keys stay distinct, for one). */
  lemma {:induction false} SortByPairwise<T(!new), K(!new)>(s: seq<T>, key: T -> K, less: (K, K) -> bool, rel: (T, T) -> bool)
    requires Seqs.Pairwise(s, rel)
    requires forall a, b :: rel(a, b) ==> rel(b, a)
    ensures Seqs.Pairwise(SortBy(s, key, less), rel)
    decreases |s|
  {
    if |s| > 0 {
      Seqs.PairwiseTail(s, rel);
      SortByPairwise(s[1..], key, less, rel);
      var t := SortBy(s[1..], key, less);
      forall y | y in t
        ensures rel(s[0], y) && rel(y, s[0])
      {
        assert y in multiset(t);
        assert y in s[1..];
        var m :| 0 <= m < |s[1..]| && s[1..][m] == y;
        assert s[m + 1] == y;
      }
      InsertPairwise(s[0], t, key, less, rel);
    }
  }

  /** Inserting adds the inserted element's share to a sum. */
  lemma {:induction false} InsertSum<T(!new), K(!new)>(x: T, t: seq<T>, key: T -> K, less: (K, K) -> bool, f: T -> real)
    ensures Seqs.Sum(Insert(x, t, key, less), f) == f(x) + Seqs.Sum(t, f)
    decreases |t|
  {
    if |t| > 0 && less(key(t[0]), key(x)) {
      InsertSum(x, t[1..], key, less, f);
      var r := Insert(x, t, key, less);
      assert r[0] == t[0] && r[1..] == Insert(x, t[1..], key, less);
    } else {
      var r := Insert(x, t, key, less);
      assert r[0] == x && r[1..] == t;
    }
  }

  /** Sorting does not change a sum. */
  lemma {:induction false} SortBySum<T(!new), K(!new)>(s: seq<T>, key: T -> K, less: (K, K) -> bool, f: T -> real)
    ensures Seqs.Sum(SortBy(s, key, less), f) == Seqs.Sum(s, f)
    decreases |s|
  {
    if |s| > 0 {
      SortBySum(s[1..], key, less, f);
      InsertSum(s[0], SortBy(s[1..], key, less), key, less, f);
    }
  }
}
