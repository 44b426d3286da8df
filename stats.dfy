/** The column statistics of the impute and outlier stages, on exact reals:
    quartiles by linear interpolation (`Series.quantile`), the median
    (`Series.median`), the mode (`Series.mode()[0]`) and the IQR fences. */
module Stats {
  import opened Seqs
  import opened Table

  predicate Sorted(s: seq<real>) {
    forall i, j :: 0 <= i < j < |s| ==> s[i] <= s[j]
  }

  function Insert(x: real, s: seq<real>): (r: seq<real>)
    requires Sorted(s)
    ensures Sorted(r)
    ensures multiset(r) == multiset(s) + multiset{x}
  {
    if s == [] || x <= s[0] then [x] + s
    else
      var t := Insert(x, s[1..]);
      LowerBoundKept(s[0], x, s[1..], t);
      assert s == [s[0]] + s[1..];
      [s[0]] + t
  }

  lemma LowerBoundKept(lo: real, x: real, s: seq<real>, t: seq<real>)
    requires lo <= x && forall y :: y in s ==> lo <= y
    requires multiset(t) == multiset(s) + multiset{x}
    ensures forall i :: 0 <= i < |t| ==> lo <= t[i]
  {
    forall i | 0 <= i < |t| ensures lo <= t[i] {
      assert t[i] in multiset(t);
      assert t[i] == x || t[i] in multiset(s);
      assert t[i] == x || t[i] in s;
    }
  }

  /** The values in ascending order. */
  function Sort(s: seq<real>): (r: seq<real>)
    ensures Sorted(r)
    ensures multiset(r) == multiset(s)
    ensures |r| == |s|
  {
    if s == [] then []
    else
      assert s == [s[0]] + s[1..];
      var r := Insert(s[0], Sort(s[1..]));
      assert |r| == |multiset(r)| == |multiset(s)|;
      r
  }

  /** Two sorted arrangements of the same values are the same sequence. */
  lemma {:induction false} SortedPermutationUnique(a: seq<real>, b: seq<real>)
    requires Sorted(a) && Sorted(b) && multiset(a) == multiset(b)
    ensures a == b
    decreases |a|
  {
    if a == [] {
      assert |b| == |multiset(b)| == 0;
    } else {
      assert |b| == |multiset(b)| == |a|;
      assert b[0] in multiset(b) && a[0] in multiset(a);
      HeadIsLeast(a, b[0]);
      HeadIsLeast(b, a[0]);
      TailSameValues(a, b);
      TailSorted(a);
      TailSorted(b);
      SortedPermutationUnique(a[1..], b[1..]);
      assert a == [a[0]] + a[1..] && b == [b[0]] + b[1..];
    }
  }

  lemma TailSorted(s: seq<real>)
    requires s != [] && Sorted(s)
    ensures Sorted(s[1..])
  {
  }

  lemma TailSameValues(a: seq<real>, b: seq<real>)
    requires a != [] && b != [] && a[0] == b[0] && multiset(a) == multiset(b)
    ensures multiset(a[1..]) == multiset(b[1..])
  {
    assert a == [a[0]] + a[1..];
    assert b == [b[0]] + b[1..];
    calc {
      multiset(a[1..]);
      (multiset{a[0]} + multiset(a[1..])) - multiset{a[0]};
      multiset(a) - multiset{a[0]};
      multiset(b) - multiset{b[0]};
      (multiset{b[0]} + multiset(b[1..])) - multiset{b[0]};
      multiset(b[1..]);
    }
  }

  lemma HeadIsLeast(s: seq<real>, x: real)
    requires Sorted(s) && x in multiset(s)
    ensures s[0] <= x
  {
    var i :| 0 <= i < |s| && s[i] == x;
  }

  lemma ScaleBetween(d: real, f: real)
    requires 0.0 <= d && 0.0 <= f <= 1.0
    ensures 0.0 <= d * f <= d
  {
  }

  lemma ScaleMonotone(d: real, f: real, g: real)
    requires 0.0 <= d && f <= g
    ensures d * f <= d * g
  {
    assert d * g - d * f == d * (g - f);
  }

  lemma FloorBounds(pos: real)
    ensures pos.Floor as real <= pos < pos.Floor as real + 1.0
  {
  }

  /** `a + (b - a) * t`: the point a fraction `t` of the way from `a` to `b`. */
  function Lerp(a: real, b: real, t: real): (r: real)
    requires a <= b && 0.0 <= t <= 1.0
    ensures a <= r <= b
  {
    var d := b - a;
    ScaleBetween(d, t);
    var e := d * t;
    assert 0.0 <= e <= d;
    a + e
  }

  lemma LerpMonotone(a: real, b: real, t: real, u: real)
    requires a <= b && 0.0 <= t <= u <= 1.0
    ensures Lerp(a, b, t) <= Lerp(a, b, u)
  {
    var d := b - a;
    ScaleMonotone(d, t, u);
    var e, f := d * t, d * u;
    assert e <= f;
  }

  /** Linear interpolation between the two order statistics around position `pos`. */
  function Interpolate(s: seq<real>, pos: real): (r: real)
    requires Sorted(s) && 0.0 <= pos <= (|s| - 1) as real
    ensures 0 <= pos.Floor < |s|
    ensures s[pos.Floor] <= r
    ensures pos.Floor + 1 < |s| ==> r <= s[pos.Floor + 1]
    ensures r <= s[|s| - 1]
  {
    FloorBounds(pos);
    var lo := pos.Floor;
    if lo + 1 < |s| then Lerp(s[lo], s[lo + 1], pos - lo as real) else s[lo]
  }

  /** Where the `q`-quantile sits among `n` sorted values: `(n - 1) * q`. */
  function QuantilePosition(n: nat, q: real): (pos: real)
    requires n > 0 && 0.0 <= q <= 1.0
    ensures 0.0 <= pos <= (n - 1) as real
  {
    var m := (n - 1) as real;
    ScaleBetween(m, q);
    var pos := m * q;
    assert 0.0 <= pos <= m;
    pos
  }

  /** The `q`-quantile of sorted values (numpy's default 'linear' method). */
  function Quantile(s: seq<real>, q: real): (r: real)
    requires s != [] && Sorted(s) && 0.0 <= q <= 1.0
    ensures s[0] <= r <= s[|s| - 1]
  {
    Interpolate(s, QuantilePosition(|s|, q))
  }

  lemma {:induction false} InterpolateMonotone(s: seq<real>, a: real, b: real)
    requires Sorted(s) && 0.0 <= a <= b <= (|s| - 1) as real
    ensures Interpolate(s, a) <= Interpolate(s, b)
  {
    FloorBounds(a);
    FloorBounds(b);
    var fa, fb := a.Floor, b.Floor;
    if fa == fb {
      if fa + 1 < |s| {
        LerpMonotone(s[fa], s[fa + 1], a - fa as real, b - fb as real);
      }
    } else {
      assert fa < fb;
      assert s[fa + 1] <= s[fb];
    }
  }

  lemma QuantilePositionMonotone(n: nat, p: real, q: real)
    requires n > 0 && 0.0 <= p <= q <= 1.0
    ensures QuantilePosition(n, p) <= QuantilePosition(n, q)
  {
    var m := (n - 1) as real;
    ScaleMonotone(m, p, q);
    var a, b := m * p, m * q;
    assert a <= b;
  }

  /** A larger `q` never gives a smaller quantile. */
  lemma QuantileMonotone(s: seq<real>, p: real, q: real)
    requires s != [] && Sorted(s) && 0.0 <= p <= q <= 1.0
    ensures Quantile(s, p) <= Quantile(s, q)
  {
    QuantilePositionMonotone(|s|, p, q);
    InterpolateMonotone(s, QuantilePosition(|s|, p), QuantilePosition(|s|, q));
  }

  /** numpy's median of sorted values: the middle one, or the mean of the two middle ones. */
  function MiddleValue(s: seq<real>): real
    requires s != []
  {
    var h := |s| / 2;
    if |s| % 2 == 1 then s[h] else (s[h - 1] + s[h]) / 2.0
  }

  /** `Series.median()` of the present values: it lies between two of them. */
  function Median(xs: seq<real>): (m: real)
    requires xs != []
    ensures exists lo, hi :: lo in xs && hi in xs && lo <= m <= hi
  {
    var s := Sort(xs);
    MiddleBoundsLower(s);
    MiddleBoundsUpper(s);
    SortedEndsAreValues(xs);
    assert s[0] <= MiddleValue(s) <= s[|s| - 1];
    MiddleValue(s)
  }

  lemma FloorOf(k: int, f: real)
    requires 0.0 <= f < 1.0
    ensures (k as real + f).Floor == k
  {
    FloorBounds(k as real + f);
  }

  /** A quantile whose position has integer part `k` and fraction `f`. */
  lemma QuantileAt(s: seq<real>, q: real, k: nat, f: real)
    requires s != [] && Sorted(s) && 0.0 <= q <= 1.0
    requires 0.0 <= f < 1.0 && k + 1 < |s| && QuantilePosition(|s|, q) == k as real + f
    ensures Quantile(s, q) == s[k] + (s[k + 1] - s[k]) * f
  {
    FloorOf(k, f);
  }

  lemma MiddleIsHalfQuantile(s: seq<real>)
    requires s != [] && Sorted(s)
    ensures MiddleValue(s) == Quantile(s, 0.5)
  {
    var n, h := |s|, |s| / 2;
    var pos := QuantilePosition(n, 0.5);
    assert pos == (n - 1) as real * 0.5;
    if n % 2 == 1 {
      assert pos == h as real + 0.0;
      FloorOf(h, 0.0);
    } else {
      assert pos == (h - 1) as real + 0.5;
      FloorOf(h - 1, 0.5);
    }
  }

  /** The median is the 0.5-quantile. */
  lemma MedianIsHalfQuantile(xs: seq<real>)
    requires xs != []
    ensures Median(xs) == Quantile(Sort(xs), 0.5)
  {
    MiddleIsHalfQuantile(Sort(xs));
  }

  function AtMost(m: real): real -> bool {
    x => x <= m
  }

  function AtLeast(m: real): real -> bool {
    x => x >= m
  }

  /** At least half of the values lie at or below the median, and at least half at or above it. */
  lemma MedianSplitsInHalves(xs: seq<real>)
    requires xs != []
    ensures 2 * |Filter(xs, AtMost(Median(xs)))| >= |xs|
    ensures 2 * |Filter(xs, AtLeast(Median(xs)))| >= |xs|
  {
    var s := Sort(xs);
    var m := MiddleValue(s);
    FilterCountPermutation(s, xs, AtMost(m));
    FilterCountPermutation(s, xs, AtLeast(m));
    MiddleSplitsInHalves(s);
  }

  lemma MiddleSplitsInHalves(s: seq<real>)
    requires s != [] && Sorted(s)
    ensures 2 * |Filter(s, AtMost(MiddleValue(s)))| >= |s|
    ensures 2 * |Filter(s, AtLeast(MiddleValue(s)))| >= |s|
  {
    var m := MiddleValue(s);
    var n, h := |s|, |s| / 2;
    var lo := if n % 2 == 1 then h + 1 else h;
    assert forall i :: 0 <= i < lo ==> AtMost(m)(s[i]) by {
      MiddleBoundsLower(s);
    }
    assert forall i :: h <= i < n ==> AtLeast(m)(s[i]) by {
      MiddleBoundsUpper(s);
    }
    FilterCountsPrefix(s, AtMost(m), lo);
    FilterCountsSuffix(s, AtLeast(m), h);
  }

  /** The values up to the middle lie at or below the middle value. */
  lemma MiddleBoundsLower(s: seq<real>)
    requires s != [] && Sorted(s)
    ensures forall i :: 0 <= i < (if |s| % 2 == 1 then |s| / 2 + 1 else |s| / 2) ==> s[i] <= MiddleValue(s)
  {
  }

  /** The values from the middle on lie at or above the middle value. */
  lemma MiddleBoundsUpper(s: seq<real>)
    requires s != [] && Sorted(s)
    ensures forall i :: |s| / 2 <= i < |s| ==> s[i] >= MiddleValue(s)
  {
  }

  lemma SortedEndsAreValues(xs: seq<real>)
    requires xs != []
    ensures Sort(xs)[0] in xs && Sort(xs)[|xs| - 1] in xs
  {
    var s := Sort(xs);
    assert s[0] in multiset(s) && s[|s| - 1] in multiset(s);
  }

  /** Python's `<=` on `str`: lexicographic by code point, a prefix first. */
  predicate StringLe(a: string, b: string) {
    a == [] || (b != [] && (a[0] < b[0] || (a[0] == b[0] && StringLe(a[1..], b[1..]))))
  }

  lemma {:induction false} StringLeTotal(a: string, b: string)
    ensures StringLe(a, b) || StringLe(b, a)
  {
    if a != [] && b != [] && a[0] == b[0] {
      StringLeTotal(a[1..], b[1..]);
    }
  }

  lemma {:induction false} StringLeAntisymmetric(a: string, b: string)
    requires StringLe(a, b) && StringLe(b, a)
    ensures a == b
  {
    if a != [] && b != [] {
      StringLeAntisymmetric(a[1..], b[1..]);
      assert a == [a[0]] + a[1..] && b == [b[0]] + b[1..];
    }
  }

  lemma {:induction false} StringLeTransitive(a: string, b: string, c: string)
    requires StringLe(a, b) && StringLe(b, c)
    ensures StringLe(a, c)
  {
    if a != [] && a[0] == b[0] && b[0] == c[0] {
      StringLeTransitive(a[1..], b[1..], c[1..]);
    }
  }

  /** The order in which the mode's tie-break picks a value: numbers before text. */
  predicate CellLe(a: Cell, b: Cell) {
    match (a, b)
    case (Missing, _) => true
    case (Num(x), Num(y)) => x <= y
    case (Num(_), Text(_)) => true
    case (Text(s), Text(t)) => StringLe(s, t)
    case _ => false
  }

  lemma CellLeTotal(a: Cell, b: Cell)
    ensures CellLe(a, b) || CellLe(b, a)
  {
    if a.Text? && b.Text? {
      StringLeTotal(a.text, b.text);
    }
  }

  lemma CellLeAntisymmetric(a: Cell, b: Cell)
    requires CellLe(a, b) && CellLe(b, a)
    ensures a == b
  {
    if a.Text? && b.Text? {
      StringLeAntisymmetric(a.text, b.text);
    }
  }

  lemma CellLeTransitive(a: Cell, b: Cell, c: Cell)
    requires CellLe(a, b) && CellLe(b, c)
    ensures CellLe(a, c)
  {
    if a.Text? && b.Text? && c.Text? {
      StringLeTransitive(a.text, b.text, c.text);
    }
  }

  /** How often `v` occurs in `vals`. */
  function Freq(vals: seq<Cell>, v: Cell): nat {
    multiset(vals)[v]
  }

  /** `v` occurs in `vals` as often as any value, and is the smallest value that does. */
  predicate IsSmallestMostFrequent(v: Cell, vals: seq<Cell>) {
    && v in vals
    && forall u :: u in vals ==> Freq(vals, u) <= Freq(vals, v) && (Freq(vals, u) == Freq(vals, v) ==> CellLe(v, u))
  }

  /** The candidate that occurs most often in `vals`, the smallest one on a tie. */
  function MostFrequent(cands: seq<Cell>, vals: seq<Cell>): (r: Cell)
    requires cands != []
    ensures r in cands
  {
    if |cands| == 1 then cands[0]
    else
      var b := MostFrequent(cands[1..], vals);
      var f, g := Freq(vals, cands[0]), Freq(vals, b);
      if f > g || (f == g && CellLe(cands[0], b)) then cands[0] else b
  }

  /** `Series.mode()[0]` over the present values: `None` when there are none. */
  function Mode(vals: seq<Cell>): (r: Option<Cell>)
    ensures r.Some? <==> vals != []
    ensures r.Some? ==> r.value in vals
  {
    if vals == [] then None else Some(MostFrequent(vals, vals))
  }

  lemma {:induction false} MostFrequentIsBest(cands: seq<Cell>, vals: seq<Cell>)
    requires cands != []
    ensures forall u :: u in cands ==>
      Freq(vals, u) <= Freq(vals, MostFrequent(cands, vals))
      && (Freq(vals, u) == Freq(vals, MostFrequent(cands, vals)) ==> CellLe(MostFrequent(cands, vals), u))
  {
    var r := MostFrequent(cands, vals);
    if |cands| == 1 {
      assert forall u :: u in cands ==> u == cands[0];
      CellLeTotal(r, r);
    } else {
      var rest := cands[1..];
      assert cands == [cands[0]] + rest;
      MostFrequentIsBest(rest, vals);
      var b := MostFrequent(rest, vals);
      forall u | u in cands
        ensures Freq(vals, u) <= Freq(vals, r)
        ensures Freq(vals, u) == Freq(vals, r) ==> CellLe(r, u)
      {
        CellLeTotal(cands[0], b);
        CellLeTotal(u, u);
        if u in rest && r == cands[0] && Freq(vals, u) == Freq(vals, r) && Freq(vals, b) == Freq(vals, r) {
          CellLeTransitive(r, b, u);
        }
      }
    }
  }

  /** `Mode` returns exactly the smallest most frequent value. */
  lemma ModeIsSmallestMostFrequent(vals: seq<Cell>, v: Cell)
    ensures Mode(vals) == Some(v) <==> IsSmallestMostFrequent(v, vals)
  {
    if vals != [] {
      var m := MostFrequent(vals, vals);
      MostFrequentIsBest(vals, vals);
      if IsSmallestMostFrequent(v, vals) {
        CellLeAntisymmetric(m, v);
      }
    }
  }

  /** The IQR fences of a column, `Q1 - t*IQR` and `Q3 + t*IQR`. */
  datatype Bounds = Bounds(lower: real, upper: real)

  function FirstQuartile(xs: seq<real>): real
    requires xs != []
  {
    Quantile(Sort(xs), 0.25)
  }

  function ThirdQuartile(xs: seq<real>): real
    requires xs != []
  {
    Quantile(Sort(xs), 0.75)
  }

  /** The fences a column's values are checked against; `None` when the column is
      skipped: the IQR is 0, or (no present value) it is NaN and every comparison fails. */
  function IqrBounds(xs: seq<real>, threshold: real): (b: Option<Bounds>)
    ensures b.None? <==> xs == [] || FirstQuartile(xs) == ThirdQuartile(xs)
  {
    if xs == [] then None
    else
      var q1, q3 := FirstQuartile(xs), ThirdQuartile(xs);
      var iqr := q3 - q1;
      if iqr == 0.0 then None else Some(Bounds(q1 - threshold * iqr, q3 + threshold * iqr))
  }

  /** With a non-negative multiplier the fences enclose both quartiles, so the
      lower fence is below the upper one. */
  lemma IqrBoundsEncloseQuartiles(xs: seq<real>, threshold: real)
    requires threshold >= 0.0 && IqrBounds(xs, threshold).Some?
    ensures IqrBounds(xs, threshold).value.lower <= FirstQuartile(xs) < ThirdQuartile(xs) <= IqrBounds(xs, threshold).value.upper
  {
    QuantileMonotone(Sort(xs), 0.25, 0.75);
    ProductNonNegative(threshold, ThirdQuartile(xs) - FirstQuartile(xs));
  }

  lemma ProductNonNegative(a: real, b: real)
    requires a >= 0.0 && b >= 0.0
    ensures a * b >= 0.0
  {
  }
}
