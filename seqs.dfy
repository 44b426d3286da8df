/** Sequence operations that the pandas calls of the pipeline reduce to:
    boolean-mask selection (`df[mask]`), filtering (`dropna`), keeping the
    first occurrence of each element (`drop_duplicates`), and counting. */
module Seqs {

  predicate Distinct<T(==,!new)>(s: seq<T>) {
    forall i, j :: 0 <= i < j < |s| ==> s[i] != s[j]
  }

  /** The elements of `s` that satisfy `p`, in their original order. */
  function Filter<T(==,!new)>(s: seq<T>, p: T -> bool): (r: seq<T>)
    ensures |r| <= |s|
    ensures forall x :: x in r <==> x in s && p(x)
    ensures forall x {:trigger multiset(r)[x]} :: multiset(r)[x] == if p(x) then multiset(s)[x] else 0
    decreases |s|
  {
    if s == [] then []
    else
      var init, last := s[..|s| - 1], s[|s| - 1];
      assert s == init + [last];
      assert multiset(s) == multiset(init) + multiset{last};
      if p(last) then Filter(init, p) + [last] else Filter(init, p)
  }

  /** The first occurrence of every element of `s`, in their original order. */
  function Dedup<T(==,!new)>(s: seq<T>): (r: seq<T>)
    ensures |r| <= |s|
    ensures Distinct(r)
    ensures forall x :: x in r <==> x in s
    decreases |s|
  {
    if s == [] then []
    else
      var init, last := s[..|s| - 1], s[|s| - 1];
      assert s == init + [last];
      if last in init then Dedup(init) else Dedup(init) + [last]
  }

  /** Index of the first occurrence of `x` in `s`, or `|s|` when `x` is absent. */
  function Position<T(==,!new)>(s: seq<T>, x: T): (i: nat)
    ensures i <= |s|
    ensures i < |s| <==> x in s
    ensures i < |s| ==> s[i] == x
    ensures x !in s[..i]
  {
    if s == [] then 0
    else if s[0] == x then 0
    else
      var i := 1 + Position(s[1..], x);
      assert s[..i] == [s[0]] + s[1..][..i - 1];
      i
  }

  /** Index of the first `true` in `flags`, or `|flags|` when there is none. */
  function FirstTrue(flags: seq<bool>): (k: nat)
    ensures k <= |flags|
    ensures k < |flags| ==> flags[k]
    ensures forall i :: 0 <= i < k ==> !flags[i]
  {
    if flags == [] then 0
    else if flags[0] then 0
    else 1 + FirstTrue(flags[1..])
  }

  /** Number of `true` entries in `flags`. */
  function CountTrue(flags: seq<bool>): (n: nat)
    ensures n <= |flags|
    ensures n == 0 <==> forall i :: 0 <= i < |flags| ==> !flags[i]
    decreases |flags|
  {
    if flags == [] then 0
    else
      var init := flags[..|flags| - 1];
      assert forall i :: 0 <= i < |init| ==> init[i] == flags[i];
      CountTrue(init) + (if flags[|flags| - 1] then 1 else 0)
  }

  /** Boolean indexing: the elements of `s` at the positions where `mask` is true. */
  function Select<T>(s: seq<T>, mask: seq<bool>): (r: seq<T>)
    requires |mask| == |s|
    ensures |r| == CountTrue(mask)
    decreases |s|
  {
    if s == [] then []
    else
      var init := Select(s[..|s| - 1], mask[..|mask| - 1]);
      if mask[|mask| - 1] then init + [s[|s| - 1]] else init
  }

  lemma {:induction false} CountTruePrefix(flags: seq<bool>, j: nat)
    requires j < |flags|
    ensures CountTrue(flags[..j + 1]) == CountTrue(flags[..j]) + (if flags[j] then 1 else 0)
  {
    assert flags[..j + 1][..j] == flags[..j];
  }

  /** A mask computed from each element by `p` selects exactly `Filter(s, p)`. */
  lemma {:induction false} SelectIsFilter<T(!new)>(s: seq<T>, mask: seq<bool>, p: T -> bool)
    requires |mask| == |s|
    requires forall i :: 0 <= i < |s| ==> mask[i] == p(s[i])
    ensures Select(s, mask) == Filter(s, p)
    decreases |s|
  {
    if s != [] {
      SelectIsFilter(s[..|s| - 1], mask[..|mask| - 1], p);
    }
  }

  /** Every element a filter keeps passes it. */
  lemma FilterPasses<T(!new)>(s: seq<T>, p: T -> bool)
    ensures forall i :: 0 <= i < |Filter(s, p)| ==> p(Filter(s, p)[i])
  {
    var r := Filter(s, p);
    forall i | 0 <= i < |r| ensures p(r[i]) {
      assert r[i] in r;
    }
  }

  /** A filter that every element passes keeps the whole sequence. */
  lemma {:induction false} FilterKeepsAll<T(!new)>(s: seq<T>, p: T -> bool)
    requires forall i :: 0 <= i < |s| ==> p(s[i])
    ensures Filter(s, p) == s
    decreases |s|
  {
    if s != [] {
      var init := s[..|s| - 1];
      FilterKeepsAll(init, p);
      assert Filter(s, p) == Filter(init, p) + [s[|s| - 1]];
    }
  }

  lemma {:induction false} FilterAppendOne<T(!new)>(s: seq<T>, x: T, p: T -> bool)
    ensures Filter(s + [x], p) == if p(x) then Filter(s, p) + [x] else Filter(s, p)
  {
    assert (s + [x])[..|s|] == s;
  }

  lemma {:induction false} DedupAppendOne<T(!new)>(s: seq<T>, x: T)
    ensures Dedup(s + [x]) == if x in s then Dedup(s) else Dedup(s) + [x]
  {
    assert (s + [x])[..|s|] == s;
  }

  /** Filtering keeps the relative order of the elements it keeps. */
  lemma {:induction false} FilterKeepsPositionOrder<T(!new)>(s: seq<T>, p: T -> bool, t: seq<T>)
    requires forall i, j :: 0 <= i < j < |s| ==> Position(t, s[i]) < Position(t, s[j])
    ensures forall i, j :: 0 <= i < j < |Filter(s, p)| ==> Position(t, Filter(s, p)[i]) < Position(t, Filter(s, p)[j])
    decreases |s|
  {
    if s != [] {
      var init, last := s[..|s| - 1], s[|s| - 1];
      assert s == init + [last];
      FilterKeepsPositionOrder(init, p, t);
      FilterAppendOne(init, last, p);
      var f, f0 := Filter(s, p), Filter(init, p);
      forall i, j | 0 <= i < j < |f|
        ensures Position(t, f[i]) < Position(t, f[j])
      {
        assert f[i] == f0[i];
        if p(last) && j == |f0| {
          assert f0[i] in f0;
          var k :| 0 <= k < |init| && init[k] == f0[i];
          assert s[k] == f[i] && s[|s| - 1] == f[j];
        } else {
          assert f[j] == f0[j];
        }
      }
    }
  }

  lemma {:induction false} PositionExtend<T(!new)>(s: seq<T>, x: T, y: T)
    requires y in s
    ensures Position(s + [x], y) == Position(s, y)
  {
    var i := Position(s, y);
    assert (s + [x])[i] == y;
    assert (s + [x])[..i] == s[..i];
  }

  /** `Dedup` lists the elements of `s` by increasing index of first occurrence. */
  lemma {:induction false} DedupKeepsFirstOccurrenceOrder<T(!new)>(s: seq<T>)
    ensures forall i, j :: 0 <= i < j < |Dedup(s)| ==> Position(s, Dedup(s)[i]) < Position(s, Dedup(s)[j])
    decreases |s|
  {
    if s != [] {
      var init, last := s[..|s| - 1], s[|s| - 1];
      assert s == init + [last];
      DedupKeepsFirstOccurrenceOrder(init);
      DedupAppendOne(init, last);
      var d, d0 := Dedup(s), Dedup(init);
      forall y | y in d0 ensures Position(s, y) == Position(init, y) {
        PositionExtend(init, last, y);
      }
      forall i, j | 0 <= i < j < |d|
        ensures Position(s, d[i]) < Position(s, d[j])
      {
        if last !in init && j == |d| - 1 {
          assert d[i] == d0[i];
          assert Position(s, last) == |init|;
        } else {
          assert d[i] == d0[i] && d[j] == d0[j];
        }
      }
    }
  }

  /** Removing duplicates and filtering commute when the filter looks at the element alone. */
  lemma {:induction false} FilterDedupCommute<T(!new)>(s: seq<T>, p: T -> bool)
    ensures Filter(Dedup(s), p) == Dedup(Filter(s, p))
    decreases |s|
  {
    if s != [] {
      var init, last := s[..|s| - 1], s[|s| - 1];
      assert s == init + [last];
      FilterDedupCommute(init, p);
      DedupAppendOne(init, last);
      FilterAppendOne(init, last, p);
      FilterAppendOne(Dedup(init), last, p);
      if p(last) {
        DedupAppendOne(Filter(init, p), last);
      }
    }
  }

  /** Removing duplicates from a sequence without repetitions changes nothing. */
  lemma {:induction false} DedupOfDistinct<T(!new)>(s: seq<T>)
    requires Distinct(s)
    ensures Dedup(s) == s
    decreases |s|
  {
    if s != [] {
      var init, last := s[..|s| - 1], s[|s| - 1];
      assert s == init + [last];
      DedupOfDistinct(init);
      DedupAppendOne(init, last);
    }
  }

  /** Filtering a sequence without repetitions gives one without repetitions. */
  lemma {:induction false} FilterKeepsDistinct<T(!new)>(s: seq<T>, p: T -> bool)
    requires Distinct(s)
    ensures Distinct(Filter(s, p))
    decreases |s|
  {
    if s != [] {
      var init, last := s[..|s| - 1], s[|s| - 1];
      assert s == init + [last];
      FilterKeepsDistinct(init, p);
      FilterAppendOne(init, last, p);
    }
  }

  /** A sequence without repetitions has as many elements as the set of its elements. */
  lemma {:induction false} DistinctCardinality<T(!new)>(s: seq<T>)
    requires Distinct(s)
    ensures |set x | x in s| == |s|
    decreases |s|
  {
    if s != [] {
      var init, last := s[..|s| - 1], s[|s| - 1];
      assert s == init + [last];
      DistinctCardinality(init);
      assert last !in init;
      assert (set x | x in s) == (set x | x in init) + {last};
    }
  }

  lemma {:induction false} FilterAppend<T(!new)>(a: seq<T>, b: seq<T>, p: T -> bool)
    ensures Filter(a + b, p) == Filter(a, p) + Filter(b, p)
    decreases |b|
  {
    if b == [] {
      assert a + b == a;
    } else {
      var init, last := b[..|b| - 1], b[|b| - 1];
      assert b == init + [last];
      assert a + b == (a + init) + [last];
      FilterAppend(a, init, p);
      FilterAppendOne(a + init, last, p);
      FilterAppendOne(init, last, p);
      if p(last) {
        calc {
          Filter(a + b, p);
          Filter(a + init, p) + [last];
          (Filter(a, p) + Filter(init, p)) + [last];
          Filter(a, p) + (Filter(init, p) + [last]);
          Filter(a, p) + Filter(b, p);
        }
      }
    }
  }

  /** How many elements pass a filter does not depend on their order. */
  lemma {:induction false} FilterCountPermutation<T(!new)>(a: seq<T>, b: seq<T>, p: T -> bool)
    requires multiset(a) == multiset(b)
    ensures |Filter(a, p)| == |Filter(b, p)|
  {
    var fa, fb := Filter(a, p), Filter(b, p);
    forall x ensures multiset(fa)[x] == multiset(fb)[x] {
    }
    assert multiset(fa) == multiset(fb);
    calc {
      |fa|;
      |multiset(fa)|;
      |multiset(fb)|;
      |fb|;
    }
  }

  /** If the first `t` elements pass, at least `t` elements pass. */
  lemma FilterCountsPrefix<T(!new)>(s: seq<T>, p: T -> bool, t: nat)
    requires t <= |s|
    requires forall i :: 0 <= i < t ==> p(s[i])
    ensures |Filter(s, p)| >= t
  {
    assert s == s[..t] + s[t..];
    FilterAppend(s[..t], s[t..], p);
    FilterKeepsAll(s[..t], p);
  }

  /** If the elements from index `t` on pass, at least `|s| - t` elements pass. */
  lemma FilterCountsSuffix<T(!new)>(s: seq<T>, p: T -> bool, t: nat)
    requires t <= |s|
    requires forall i :: t <= i < |s| ==> p(s[i])
    ensures |Filter(s, p)| >= |s| - t
  {
    assert s == s[..t] + s[t..];
    FilterAppend(s[..t], s[t..], p);
    FilterKeepsAll(s[t..], p);
  }
}
