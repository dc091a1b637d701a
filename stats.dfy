/** The two pandas aggregates the pass network relies on: `Series.mode().iloc[0]`
    (the most frequent value, the smallest one on a tie, since `mode()` returns its
    values sorted) and `Series.median()` (the middle value, or the mean of the two
    middle values when the count is even). */
module Stats {
  import opened Common

  /** `a` comes no later than `b` in `mode()`'s answer for `s`: it is strictly more
      frequent, or equally frequent and not larger. */
  predicate Precedes(s: seq<int>, a: int, b: int)
  {
    multiset(s)[a] > multiset(s)[b] || (multiset(s)[a] == multiset(s)[b] && a <= b)
  }

  /** The value among `candidates` that `mode()` would list first for `s`. */
  function ModeAmong(s: seq<int>, candidates: seq<int>): (m: int)
    requires |candidates| > 0
    ensures m in candidates
    ensures forall v :: v in candidates ==> Precedes(s, m, v)
  {
    if |candidates| == 1 then candidates[0]
    else
      var rest := ModeAmong(s, candidates[1..]);
      assert candidates == [candidates[0]] + candidates[1..];
      if Precedes(s, candidates[0], rest) then candidates[0] else rest
  }

  /** `s.mode().iloc[0]`: a most frequent value of `s`, the smallest of them on a tie. */
  function Mode(s: seq<int>): (m: int)
    requires |s| > 0
    ensures m in s
    ensures forall v :: v in s ==> multiset(s)[v] <= multiset(s)[m]
    ensures forall v :: v in s && multiset(s)[v] == multiset(s)[m] ==> m <= v
  {
    ModeAmong(s, s)
  }

  function Identity(v: real): real { v }

  /** `s.median()` for a non-empty column of numbers. */
  function Median(vals: seq<real>): real
    requires |vals| > 0
  {
    Middle(SortBy(vals, Identity))
  }

  /** The middle of an ordered column: its middle value, or the mean of its two middle values. */
  function Middle(s: seq<real>): real
    requires |s| > 0
  {
    var n := |s|;
    if n % 2 == 1 then s[n / 2] else (s[n / 2 - 1] + s[n / 2]) / 2.0
  }

  /** Number of values not above `m`. */
  function CountAtMost(vals: seq<real>, m: real): nat
  {
    if vals == [] then 0 else (if vals[0] <= m then 1 else 0) + CountAtMost(vals[1..], m)
  }

  /** Number of values not below `m`. */
  function CountAtLeast(vals: seq<real>, m: real): nat
  {
    if vals == [] then 0 else (if vals[0] >= m then 1 else 0) + CountAtLeast(vals[1..], m)
  }

  /** `m` is a median of `vals`: at least half the values lie on each side of it. */
  predicate IsMedian(vals: seq<real>, m: real)
  {
    2 * CountAtMost(vals, m) >= |vals| && 2 * CountAtLeast(vals, m) >= |vals|
  }

  /** What `Median` returns splits the values in half, and lies between two of them. */
  lemma {:induction false} MedianSplits(vals: seq<real>)
    requires |vals| > 0
    ensures IsMedian(vals, Median(vals))
    ensures exists i, j :: 0 <= i < |vals| && 0 <= j < |vals| && vals[i] <= Median(vals) <= vals[j]
  {
    var s := SortBy(vals, Identity);
    var m := Middle(s);
    CountsIgnoreOrder(vals, m);
    MiddleSplits(s);
    assert s[0] in multiset(vals) && s[|s| - 1] in multiset(vals) by {
      assert s[0] in multiset(s) && s[|s| - 1] in multiset(s);
    }
    var i :| 0 <= i < |vals| && vals[i] == s[0];
    var j :| 0 <= j < |vals| && vals[j] == s[|s| - 1];
    assert vals[i] <= m <= vals[j];
  }

  /** The tail of an ordered column is ordered. */
  lemma SortedTail(s: seq<real>)
    requires s != [] && SortedBy(s, Identity)
    ensures SortedBy(s[1..], Identity)
  {
    forall i, j | 0 <= i < j < |s[1..]| ensures Identity(s[1..][i]) <= Identity(s[1..][j]) {
      assert Identity(s[i + 1]) <= Identity(s[j + 1]);
    }
  }

  /** The head of an ordered column is its least value. */
  lemma SortedHeadIsLeast(s: seq<real>, v: real)
    requires SortedBy(s, Identity) && v in multiset(s)
    ensures s[0] <= v
  {
    var k :| 0 <= k < |s| && s[k] == v;
    assert Identity(s[0]) <= Identity(s[k]);
  }

  /** Removing an equal head from two arrangements of the same values leaves arrangements
      of the same values. */
  lemma SameTails(a: seq<real>, b: seq<real>)
    requires a != [] && b != [] && a[0] == b[0] && multiset(a) == multiset(b)
    ensures multiset(a[1..]) == multiset(b[1..])
  {
    assert a == [a[0]] + a[1..] && b == [b[0]] + b[1..];
    assert multiset(a) == multiset{a[0]} + multiset(a[1..]);
    assert multiset(b) == multiset{a[0]} + multiset(b[1..]);
    assert multiset(a[1..]) == multiset(a) - multiset{a[0]};
    assert multiset(b[1..]) == multiset(b) - multiset{a[0]};
  }

  /** Two ordered arrangements of the same values are the same sequence. */
  lemma {:induction false} SortedUnique(a: seq<real>, b: seq<real>)
    requires SortedBy(a, Identity) && SortedBy(b, Identity) && multiset(a) == multiset(b)
    ensures a == b
  {
    assert |a| == |multiset(a)| == |multiset(b)| == |b|;
    if a != [] {
      assert a[0] in multiset(a) && b[0] in multiset(b);
      SortedHeadIsLeast(a, b[0]);
      SortedHeadIsLeast(b, a[0]);
      SameTails(a, b);
      SortedTail(a);
      SortedTail(b);
      SortedUnique(a[1..], b[1..]);
    }
  }

  /** pandas' rule: sort the column (in any way) and take its middle value, or the mean of
      its two middle values when the count is even. */
  lemma MedianIsSortedMiddle(vals: seq<real>, sorted: seq<real>)
    requires |vals| > 0
    requires SortedBy(sorted, Identity) && multiset(sorted) == multiset(vals)
    ensures |sorted| == |vals|
    ensures |vals| % 2 == 1 ==> Median(vals) == sorted[|vals| / 2]
    ensures |vals| % 2 == 0 ==> Median(vals) == (sorted[|vals| / 2 - 1] + sorted[|vals| / 2]) / 2.0
  {
    assert |sorted| == |multiset(sorted)| == |multiset(vals)| == |vals|;
    SortedUnique(sorted, SortBy(vals, Identity));
  }

  /** The median of a column whose values are all `v` is `v`. */
  lemma MedianOfConstant(vals: seq<real>, v: real)
    requires |vals| > 0
    requires forall i :: 0 <= i < |vals| ==> vals[i] == v
    ensures Median(vals) == v
  {
    MedianSplits(vals);
  }

  /** The middle of an ordered column splits it in half and lies between its ends. */
  lemma MiddleSplits(s: seq<real>)
    requires |s| > 0 && SortedBy(s, Identity)
    ensures IsMedian(s, Middle(s))
    ensures s[0] <= Middle(s) <= s[|s| - 1]
  {
    var n := |s|;
    var m := Middle(s);
    var lo := if n % 2 == 1 then n / 2 else n / 2 - 1;
    assert Identity(s[lo]) <= Identity(s[n / 2]);
    assert s[lo] <= m <= s[n / 2];
    forall i | 0 <= i <= lo ensures s[i] <= m {
      if i < lo { assert Identity(s[i]) <= Identity(s[lo]); }
    }
    forall i | n / 2 <= i < n ensures s[i] >= m {
      if i > n / 2 { assert Identity(s[n / 2]) <= Identity(s[i]); }
    }
    PrefixAtMost(s, m, lo + 1);
    SuffixAtLeast(s, m, n / 2);
  }

  /** A prefix of `k` values not above `m` puts at least `k` values at or below it. */
  lemma {:induction false} PrefixAtMost(s: seq<real>, m: real, k: nat)
    requires k <= |s|
    requires forall i :: 0 <= i < k ==> s[i] <= m
    ensures CountAtMost(s, m) >= k
  {
    if k > 0 {
      PrefixAtMost(s[1..], m, k - 1);
    }
  }

  /** A suffix from index `j` of values not below `m` puts at least `|s| - j` values at or above it. */
  lemma {:induction false} SuffixAtLeast(s: seq<real>, m: real, j: nat)
    requires j <= |s|
    requires forall i :: j <= i < |s| ==> s[i] >= m
    ensures CountAtLeast(s, m) >= |s| - j
  {
    if s != [] {
      SuffixAtLeast(s[1..], m, if j > 0 then j - 1 else 0);
    }
  }

  /** Inserting one value changes each count by that value's contribution alone. */
  lemma {:induction false} CountsOfInsert(x: real, s: seq<real>, m: real)
    ensures CountAtMost(Insert(x, s, Identity), m) == CountAtMost(s, m) + (if x <= m then 1 else 0)
    ensures CountAtLeast(Insert(x, s, Identity), m) == CountAtLeast(s, m) + (if x >= m then 1 else 0)
  {
    if s != [] && Identity(x) > Identity(s[0]) {
      CountsOfInsert(x, s[1..], m);
      assert Insert(x, s, Identity) == [s[0]] + Insert(x, s[1..], Identity);
    }
  }

  /** Sorting does not change how many values lie on either side of `m`. */
  lemma {:induction false} CountsIgnoreOrder(vals: seq<real>, m: real)
    ensures CountAtMost(SortBy(vals, Identity), m) == CountAtMost(vals, m)
    ensures CountAtLeast(SortBy(vals, Identity), m) == CountAtLeast(vals, m)
  {
    if vals != [] {
      CountsIgnoreOrder(vals[1..], m);
      CountsOfInsert(vals[0], SortBy(vals[1..], Identity), m);
    }
  }
}
