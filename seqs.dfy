/** Sequence utilities shared by the analyzers: the first-appearance
    de-duplication that `Map` insertion order and `[...new Set(xs)]` give,
    occurrence counts, sums, and a stable insertion sort parameterised by a
    strict "less than". */
module Seqs {

  /** `[...new Set(s)]`: every distinct element, in order of first appearance. */
  function Dedup<T(==)>(s: seq<T>): (r: seq<T>)
    ensures |r| <= |s|
  {
    if s == [] then []
    else
      var p := Dedup(s[..|s| - 1]);
      if s[|s| - 1] in p then p else p + [s[|s| - 1]]
  }

  ghost predicate NoDuplicates<T>(s: seq<T>) {
    forall i, j :: 0 <= i < j < |s| ==> s[i] != s[j]
  }

  /** Dedup keeps each element exactly once and loses none. */
  lemma {:induction false} DedupSpec<T>(s: seq<T>)
    ensures NoDuplicates(Dedup(s))
    ensures forall x :: x in Dedup(s) <==> x in s
  {
    if s != [] {
      DedupSpec(s[..|s| - 1]);
      assert forall x :: x in s <==> x in s[..|s| - 1] || x == s[|s| - 1];
    }
  }

  /** Number of positions of `s` holding `x`. */
  function Occurrences<T(==)>(s: seq<T>, x: T): (r: nat)
    ensures r <= |s|
  {
    if s == [] then 0
    else Occurrences(s[..|s| - 1], x) + (if s[|s| - 1] == x then 1 else 0)
  }

  lemma {:induction false} OccurrencesPositive<T>(s: seq<T>, x: T)
    ensures x in s <==> Occurrences(s, x) > 0
  {
    if s != [] {
      OccurrencesPositive(s[..|s| - 1], x);
      assert x in s <==> x in s[..|s| - 1] || x == s[|s| - 1];
    }
  }

  function Sum(s: seq<nat>): nat {
    if s == [] then 0 else Sum(s[..|s| - 1]) + s[|s| - 1]
  }

  lemma {:induction false} SumAppend(s: seq<nat>, t: seq<nat>)
    ensures Sum(s + t) == Sum(s) + Sum(t)
  {
    if t != [] {
      assert (s + t)[..|s + t| - 1] == s + t[..|t| - 1];
      SumAppend(s, t[..|t| - 1]);
    } else {
      assert s + t == s;
    }
  }

  lemma AppendAssociative<T>(a: seq<T>, b: seq<T>, c: seq<T>)
    ensures (a + b) + c == a + (b + c)
  {
  }

  /** Appending an element extends the first-appearance list only when it is new. */
  lemma DedupAppend<T>(s: seq<T>, x: T)
    ensures Dedup(s + [x]) == if x in s then Dedup(s) else Dedup(s) + [x]
  {
    assert (s + [x])[..|s|] == s;
    DedupSpec(s);
  }

  lemma OccurrencesAppend<T>(s: seq<T>, x: T, y: T)
    ensures Occurrences(s + [x], y) == Occurrences(s, y) + if x == y then 1 else 0
  {
    assert (s + [x])[..|s|] == s;
  }

  /** Entries bounded by `b` sum to at most `b` per entry, and reach that
      bound exactly when every entry equals `b`. */
  lemma {:induction false} SumBounded(s: seq<nat>, b: nat)
    requires forall i :: 0 <= i < |s| ==> s[i] <= b
    ensures Sum(s) <= |s| * b
    ensures Sum(s) == |s| * b <==> forall i :: 0 <= i < |s| ==> s[i] == b
  {
    if s != [] {
      var n := |s| - 1;
      var p := s[..n];
      assert forall i :: 0 <= i < |p| ==> p[i] == s[i];
      SumBounded(p, b);
      assert |s| * b == |p| * b + b;
      if Sum(s) == |s| * b {
        assert Sum(p) == |p| * b && s[n] == b;
        forall i | 0 <= i < |s|
          ensures s[i] == b
        {
          if i < n {
            assert s[i] == p[i];
          }
        }
      }
    }
  }

  /** Appending one entry adds it to the sum. */
  lemma SumSnoc(s: seq<nat>, x: nat)
    ensures Sum(s + [x]) == Sum(s) + x
  {
    assert (s + [x])[..|s|] == s;
  }

  /** Raising one entry by one raises the sum by one. */
  lemma {:induction false} SumIncrement(s: seq<nat>, k: nat)
    requires k < |s|
    ensures Sum(s[k := s[k] + 1]) == Sum(s) + 1
  {
    var t := s[k := s[k] + 1];
    if k < |s| - 1 {
      assert t[..|t| - 1] == s[..|s| - 1][k := s[k] + 1];
      SumIncrement(s[..|s| - 1], k);
    } else {
      assert t[..|t| - 1] == s[..|s| - 1];
    }
  }

  /** A sequence whose entries all equal `c` sums to `|s| * c`. */
  lemma {:induction false} SumConstant(s: seq<nat>, c: nat)
    requires forall i :: 0 <= i < |s| ==> s[i] == c
    ensures Sum(s) == |s| * c
  {
    if s != [] {
      SumConstant(s[..|s| - 1], c);
    }
  }

  function Zeros(n: nat): (r: seq<nat>)
    ensures |r| == n && forall i :: 0 <= i < n ==> r[i] == 0
  {
    seq(n, _ => 0)
  }

  /** Bin `b` of `Histogram(keys, size)` counts the keys equal to `b`. */
  function Histogram(keys: seq<nat>, size: nat): (r: seq<nat>)
    ensures |r| == size
  {
    seq(size, b requires 0 <= b < size => Occurrences(keys, b))
  }

  lemma HistogramAppend(keys: seq<nat>, k: nat, size: nat)
    requires k < size
    ensures Histogram(keys + [k], size) == Histogram(keys, size)[k := Histogram(keys, size)[k] + 1]
  {
    forall b | 0 <= b < size
      ensures Histogram(keys + [k], size)[b] == Histogram(keys, size)[k := Histogram(keys, size)[k] + 1][b]
    {
      OccurrencesAppend(keys, k, b);
    }
  }

  /** When every key names a bin, the bins add up to the number of keys. */
  lemma {:induction false} HistogramSum(keys: seq<nat>, size: nat)
    requires forall i :: 0 <= i < |keys| ==> keys[i] < size
    ensures Sum(Histogram(keys, size)) == |keys|
  {
    if keys == [] {
      ZerosSum(size);
      assert Histogram(keys, size) == Zeros(size);
    } else {
      var p := keys[..|keys| - 1];
      var k := keys[|keys| - 1];
      assert keys == p + [k];
      HistogramSum(p, size);
      HistogramAppend(p, k, size);
      SumIncrement(Histogram(p, size), k);
    }
  }

  lemma ZerosSum(n: nat)
    ensures Sum(Zeros(n)) == 0
  {
    SumConstant(Zeros(n), 0);
  }

  /** A subset has no more elements than its superset. */
  lemma {:induction false} SubsetSize<T>(a: set<T>, b: set<T>)
    requires a <= b
    ensures |a| <= |b|
    decreases |b|
  {
    if a != {} {
      var x :| x in a;
      SubsetSize(a - {x}, b - {x});
    }
  }

  /** The occurrence counts of the distinct elements of `keys`, listed in the order of `ds`. */
  function CountsOf<T(==)>(keys: seq<T>, ds: seq<T>): (r: seq<nat>)
    ensures |r| == |ds|
  {
    seq(|ds|, i requires 0 <= i < |ds| => Occurrences(keys, ds[i]))
  }

  /** Summing the count of a fresh element that does not occur gives nothing new;
      summing over distinct elements not equal to `x` ignores a trailing `x`. */
  lemma {:induction false} SumCountsAppendOther<T>(keys: seq<T>, ds: seq<T>, x: T)
    requires x !in ds
    ensures Sum(CountsOf(keys + [x], ds)) == Sum(CountsOf(keys, ds))
  {
    if ds != [] {
      var ds' := ds[..|ds| - 1];
      assert CountsOf(keys + [x], ds)[..|ds| - 1] == CountsOf(keys + [x], ds');
      assert CountsOf(keys, ds)[..|ds| - 1] == CountsOf(keys, ds');
      assert (keys + [x])[..|keys + [x]| - 1] == keys;
      SumCountsAppendOther(keys, ds', x);
    }
  }

  lemma {:induction false} SumCountsAppendMember<T>(keys: seq<T>, ds: seq<T>, x: T)
    requires NoDuplicates(ds) && x in ds
    ensures Sum(CountsOf(keys + [x], ds)) == Sum(CountsOf(keys, ds)) + 1
  {
    var ds' := ds[..|ds| - 1];
    var last := ds[|ds| - 1];
    assert CountsOf(keys + [x], ds)[..|ds| - 1] == CountsOf(keys + [x], ds');
    assert CountsOf(keys, ds)[..|ds| - 1] == CountsOf(keys, ds');
    assert (keys + [x])[..|keys + [x]| - 1] == keys;
    if last == x {
      assert x !in ds' by {
        forall k | 0 <= k < |ds'| ensures ds'[k] != x { assert ds[k] != ds[|ds| - 1]; }
      }
      SumCountsAppendOther(keys, ds', x);
    } else {
      assert x in ds' by { var k :| 0 <= k < |ds| && ds[k] == x; assert k < |ds| - 1; assert ds'[k] == x; }
      SumCountsAppendMember(keys, ds', x);
    }
  }

  /** Counting every distinct element accounts for every position exactly once. */
  lemma {:induction false} SumOfDistinctCounts<T>(keys: seq<T>)
    ensures Sum(CountsOf(keys, Dedup(keys))) == |keys|
  {
    if keys != [] {
      var p := keys[..|keys| - 1];
      var x := keys[|keys| - 1];
      assert keys == p + [x];
      SumOfDistinctCounts(p);
      DedupSpec(p);
      if x in Dedup(p) {
        SumCountsAppendMember(p, Dedup(p), x);
      } else {
        var d := Dedup(p);
        SumCountsAppendOther(p, d, x);
        assert CountsOf(keys, d + [x]) == CountsOf(keys, d) + [Occurrences(keys, x)];
        SumAppend(CountsOf(keys, d), [Occurrences(keys, x)]);
        assert Sum([Occurrences(keys, x)]) == Occurrences(keys, x);
        OccurrencesPositive(p, x);
        assert Occurrences(keys, x) == 1;
      }
    }
  }

  // ---------------------------------------------------------------------
  // Stable insertion sort

  /** Inserts `x` after every element it is not less than, as a stable sort does
      when it places the later of two equal elements second. */
  function InsertBy<T>(s: seq<T>, x: T, lt: (T, T) -> bool): (r: seq<T>)
    ensures |r| == |s| + 1
  {
    if s == [] || !lt(x, s[|s| - 1]) then s + [x]
    else
      assert s == s[..|s| - 1] + [s[|s| - 1]];
      InsertBy(s[..|s| - 1], x, lt) + [s[|s| - 1]]
  }

  /** Stable sort: the order a comparator sort gives when it keeps equal elements in input order. */
  function SortBy<T>(s: seq<T>, lt: (T, T) -> bool): (r: seq<T>)
    ensures |r| == |s|
  {
    if s == [] then []
    else
      assert s == s[..|s| - 1] + [s[|s| - 1]];
      InsertBy(SortBy(s[..|s| - 1], lt), s[|s| - 1], lt)
  }

  /** Inserting with two comparators that agree between the new element and
      every present one gives the same sequence. */
  lemma {:induction false} InsertByAgree<T>(s: seq<T>, x: T, lt1: (T, T) -> bool, lt2: (T, T) -> bool)
    requires forall b :: b in s ==> lt1(x, b) == lt2(x, b)
    ensures InsertBy(s, x, lt1) == InsertBy(s, x, lt2)
  {
    if s != [] {
      var p := s[..|s| - 1];
      assert s[|s| - 1] in s;
      forall b | b in p ensures lt1(x, b) == lt2(x, b) {
        var k :| 0 <= k < |p| && p[k] == b;
        assert s[k] == b;
      }
      InsertByAgree(p, x, lt1, lt2);
    }
  }

  /** Two comparators that agree on every pair of elements sort alike. */
  lemma {:induction false} SortByAgree<T>(s: seq<T>, lt1: (T, T) -> bool, lt2: (T, T) -> bool)
    requires forall a, b :: a in s && b in s ==> lt1(a, b) == lt2(a, b)
    ensures SortBy(s, lt1) == SortBy(s, lt2)
  {
    if s != [] {
      var p, x := s[..|s| - 1], s[|s| - 1];
      assert forall a :: a in p ==> a in s by {
        forall a | a in p ensures a in s {
          var k :| 0 <= k < |p| && p[k] == a;
          assert s[k] == a;
        }
      }
      SortByAgree(p, lt1, lt2);
      var q := SortBy(p, lt2);
      SortByPermutes(p, lt2);
      forall b | b in q ensures lt1(x, b) == lt2(x, b) {
        assert b in multiset(q);
        assert b in p;
      }
      InsertByAgree(q, x, lt1, lt2);
    }
  }

  /** Inserting adds exactly the inserted element. */
  lemma {:induction false} InsertByPermutes<T>(s: seq<T>, x: T, lt: (T, T) -> bool)
    ensures multiset(InsertBy(s, x, lt)) == multiset(s) + multiset{x}
  {
    if s != [] && lt(x, s[|s| - 1]) {
      var p := s[..|s| - 1];
      assert s == p + [s[|s| - 1]];
      InsertByPermutes(p, x, lt);
    }
  }

  /** The stable sort is a permutation of its input. */
  lemma {:induction false} SortByPermutes<T>(s: seq<T>, lt: (T, T) -> bool)
    ensures multiset(SortBy(s, lt)) == multiset(s)
  {
    if s != [] {
      var p := s[..|s| - 1];
      assert s == p + [s[|s| - 1]];
      SortByPermutes(p, lt);
      InsertByPermutes(SortBy(p, lt), s[|s| - 1], lt);
    }
  }

  ghost predicate SortedByKey<T>(s: seq<T>, key: T -> int) {
    forall i, j :: 0 <= i < j < |s| ==> key(s[i]) <= key(s[j])
  }

  lemma {:induction false} InsertSorted<T>(s: seq<T>, x: T, lt: (T, T) -> bool, key: T -> int)
    requires forall a, b :: lt(a, b) <==> key(a) < key(b)
    requires SortedByKey(s, key)
    ensures SortedByKey(InsertBy(s, x, lt), key)
    ensures forall y :: y in InsertBy(s, x, lt) ==> y == x || y in s
  {
    if s == [] || !lt(x, s[|s| - 1]) {
    } else {
      var p := s[..|s| - 1];
      InsertSorted(p, x, lt, key);
      var r := InsertBy(p, x, lt);
      assert forall y :: y in r ==> y == x || y in p;
      assert forall y :: y in p ==> key(y) <= key(s[|s| - 1]);
      assert forall k :: 0 <= k < |r| ==> key(r[k]) <= key(s[|s| - 1]) by {
        forall k | 0 <= k < |r| ensures key(r[k]) <= key(s[|s| - 1]) {
          assert r[k] in r;
        }
      }
    }
  }

  /** With a key-based order, the stable sort is ascending in the key. */
  lemma {:induction false} SortBySorted<T>(s: seq<T>, lt: (T, T) -> bool, key: T -> int)
    requires forall a, b :: lt(a, b) <==> key(a) < key(b)
    ensures SortedByKey(SortBy(s, lt), key)
  {
    if s != [] {
      SortBySorted(s[..|s| - 1], lt, key);
      InsertSorted(SortBy(s[..|s| - 1], lt), s[|s| - 1], lt, key);
    }
  }

  /** A sequence already in order (no element less than its predecessor) is left as it is. */
  lemma {:induction false} SortByOrdered<T>(s: seq<T>, lt: (T, T) -> bool)
    requires forall i, j :: 0 <= i && j == i + 1 && j < |s| ==> !lt(s[j], s[i])
    ensures SortBy(s, lt) == s
  {
    if s != [] {
      var n := |s| - 1;
      var p, x := s[..n], s[n];
      forall i, j | 0 <= i && j == i + 1 && j < |p|
        ensures !lt(p[j], p[i])
      {
        assert p[i] == s[i] && p[j] == s[j];
      }
      SortByOrdered(p, lt);
      if n > 0 {
        assert !lt(s[n], s[n - 1]);
      }
      assert SortBy(s, lt) == InsertBy(p, x, lt);
      assert s == p + [x];
    }
  }

  lemma SortPair<T>(x: T, y: T, lt: (T, T) -> bool)
    requires lt(y, x)
    ensures SortBy([x, y], lt) == [y, x]
  {
    assert [x, y][..1] == [x];
    assert SortBy([x], lt) == [x] by {
      assert [x][..0] == [];
      assert InsertBy([], x, lt) == [x];
    }
    assert InsertBy([], y, lt) == [y];
    assert InsertBy([x], y, lt) == InsertBy([], y, lt) + [x];
  }

  lemma SortTriple<T>(x: T, y: T, z: T, lt: (T, T) -> bool)
    requires lt(y, x) && lt(z, x) && !lt(z, y)
    ensures SortBy([x, y, z], lt) == [y, z, x]
  {
    assert [x, y, z][..2] == [x, y];
    SortPair(x, y, lt);
    assert [y, x][..1] == [y];
    assert InsertBy([y], z, lt) == [y, z] by {
      assert [y][..0] == [];
    }
    assert InsertBy([y, x], z, lt) == InsertBy([y], z, lt) + [x];
  }

  /** Any permutation of a sequence sorted by a key starts at a minimum and ends at a maximum. */
  lemma SortedEnds<T>(s: seq<T>, t: seq<T>, key: T -> int)
    requires multiset(s) == multiset(t) && |s| > 0
    requires SortedByKey(s, key)
    ensures forall x :: x in t ==> key(s[0]) <= key(x) <= key(s[|s| - 1])
    ensures s[0] in t && s[|s| - 1] in t
  {
    forall x | x in t ensures key(s[0]) <= key(x) <= key(s[|s| - 1]) {
      assert x in multiset(t);
      assert x in s;
      var k :| 0 <= k < |s| && s[k] == x;
    }
    assert s[0] in multiset(s);
    assert s[|s| - 1] in multiset(s);
  }
}
