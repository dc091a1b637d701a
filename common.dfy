/** Values and sequence operations shared by the model of the plotting module's data logic:
    optional values (a pandas cell that may be NaN), row filters (boolean masks),
    sorting by a key (`sort_values`), group counts (`value_counts` / `groupby().size()`)
    and Python's `int(float(x))` truncation. */
module Common {

  /** A table cell that may be missing (NaN / NA after `to_numeric(errors="coerce")`). */
  datatype Option<T> = None | Some(value: T)

  /** The rows of `s` for which the mask `f` holds, in their original order. */
  function Filter<T(!new)>(s: seq<T>, f: T -> bool): (r: seq<T>)
    ensures |r| <= |s|
    ensures forall x :: x in r <==> x in s && f(x)
  {
    if s == [] then []
    else if f(s[0]) then [s[0]] + Filter(s[1..], f)
    else Filter(s[1..], f)
  }

  /** A row the mask keeps appears as often as in the input; the others not at all. */
  lemma {:induction false} FilterCount<T(!new)>(s: seq<T>, f: T -> bool, x: T)
    ensures multiset(Filter(s, f))[x] == if f(x) then multiset(s)[x] else 0
  {
    if s != [] {
      FilterCount(s[1..], f, x);
      assert s == [s[0]] + s[1..];
    }
  }

  /** The first row a mask keeps is the first row of the input the mask holds for. */
  lemma {:induction false} FilterHead<T(!new)>(s: seq<T>, f: T -> bool)
    requires Filter(s, f) != []
    ensures exists k :: 0 <= k < |s| && s[k] == Filter(s, f)[0] && f(s[k]) && forall j :: 0 <= j < k ==> !f(s[j])
  {
    if !f(s[0]) {
      FilterHead(s[1..], f);
      var k :| 0 <= k < |s[1..]| && s[1..][k] == Filter(s[1..], f)[0] && f(s[1..][k])
        && forall j :: 0 <= j < k ==> !f(s[1..][j]);
      assert s[k + 1] == Filter(s, f)[0];
      forall j | 0 <= j < k + 1 ensures !f(s[j]) {
        if j > 0 { assert s[j] == s[1..][j - 1]; }
      }
    }
  }

  /** Masking two tables one after the other is masking their concatenation. */
  lemma {:induction false} FilterConcat<T(!new)>(a: seq<T>, b: seq<T>, f: T -> bool)
    ensures Filter(a + b, f) == Filter(a, f) + Filter(b, f)
  {
    if a != [] {
      FilterConcat(a[1..], b, f);
      assert (a + b)[0] == a[0] && (a + b)[1..] == a[1..] + b;
      if f(a[0]) {
        assert Filter(a + b, f) == [a[0]] + Filter(a[1..] + b, f);
        assert Filter(a, f) == [a[0]] + Filter(a[1..], f);
      }
    } else {
      assert a + b == b;
    }
  }

  /** Filtering everything-passing rows returns the rows unchanged. */
  lemma {:induction false} FilterAll<T(!new)>(s: seq<T>, f: T -> bool)
    requires forall x :: x in s ==> f(x)
    ensures Filter(s, f) == s
  {
    if s != [] {
      assert s[0] in s;
      forall x | x in s[1..] ensures f(x) {
        assert x in s;
      }
      FilterAll(s[1..], f);
      assert s == [s[0]] + s[1..];
    }
  }

  /** `key` never decreases along `s`. */
  predicate SortedBy<T>(s: seq<T>, key: T -> real)
  {
    forall i, j :: 0 <= i < j < |s| ==> key(s[i]) <= key(s[j])
  }

  /** A filter of a sorted sequence is sorted: masking a sorted table keeps its order. */
  lemma {:induction false} FilterKeepsSorted<T(!new)>(s: seq<T>, f: T -> bool, key: T -> real)
    requires SortedBy(s, key)
    ensures SortedBy(Filter(s, f), key)
  {
    if s != [] {
      var tail := Filter(s[1..], f);
      assert SortedBy(s[1..], key) by {
        forall i, j | 0 <= i < j < |s[1..]| ensures key(s[1..][i]) <= key(s[1..][j]) {
          assert s[1..][i] == s[i + 1] && s[1..][j] == s[j + 1];
        }
      }
      FilterKeepsSorted(s[1..], f, key);
      if f(s[0]) {
        forall k | 0 <= k < |tail| ensures key(s[0]) <= key(tail[k]) {
          assert tail[k] in tail;
          var j :| 0 <= j < |s[1..]| && s[1..][j] == tail[k];
          assert s[j + 1] == tail[k];
        }
        var r := [s[0]] + tail;
        forall i, j | 0 <= i < j < |r| ensures key(r[i]) <= key(r[j]) {
          if i > 0 {
            assert r[i] == tail[i - 1] && r[j] == tail[j - 1];
          } else {
            assert r[j] == tail[j - 1];
          }
        }
      }
    }
  }

  /** In a sorted sequence the first element has the smallest key. */
  lemma FirstIsEarliest<T>(s: seq<T>, key: T -> real)
    requires SortedBy(s, key) && s != []
    ensures forall x :: x in s ==> key(s[0]) <= key(x)
  {
    forall x | x in s ensures key(s[0]) <= key(x) {
      var k :| 0 <= k < |s| && s[k] == x;
      if k > 0 {
        assert key(s[0]) <= key(s[k]);
      }
    }
  }

  /** Inserts `x` into `s` before the first element whose key is not smaller. */
  function Insert<T>(x: T, s: seq<T>, key: T -> real): (r: seq<T>)
    ensures |r| == |s| + 1
    ensures multiset(r) == multiset(s) + multiset{x}
    ensures SortedBy(s, key) ==> SortedBy(r, key)
  {
    if s == [] || key(x) <= key(s[0]) then [x] + s
    else
      var rest := Insert(x, s[1..], key);
      assert s == [s[0]] + s[1..];
      InsertSortedStep(x, s, key, rest);
      [s[0]] + rest
  }

  /** The sortedness step of `Insert` when `x` goes after `s[0]`. */
  lemma InsertSortedStep<T>(x: T, s: seq<T>, key: T -> real, rest: seq<T>)
    requires s != [] && key(s[0]) < key(x)
    requires multiset(rest) == multiset(s[1..]) + multiset{x}
    requires SortedBy(s[1..], key) ==> SortedBy(rest, key)
    ensures SortedBy(s, key) ==> SortedBy([s[0]] + rest, key)
  {
    if SortedBy(s, key) {
      assert SortedBy(s[1..], key) by {
        forall i, j | 0 <= i < j < |s[1..]| ensures key(s[1..][i]) <= key(s[1..][j]) {
          assert s[1..][i] == s[i + 1] && s[1..][j] == s[j + 1];
        }
      }
      var r := [s[0]] + rest;
      forall j | 0 <= j < |rest| ensures key(s[0]) <= key(rest[j]) {
        assert rest[j] in multiset(rest);
        if rest[j] != x {
          assert rest[j] in multiset(s[1..]);
          var k :| 0 <= k < |s[1..]| && s[1..][k] == rest[j];
          assert s[k + 1] == rest[j];
        }
      }
      forall i, j | 0 <= i < j < |r| ensures key(r[i]) <= key(r[j]) {
        if i > 0 {
          assert r[i] == rest[i - 1] && r[j] == rest[j - 1];
        } else {
          assert r[j] == rest[j - 1];
        }
      }
    }
  }

  /** Insertion sort by `key`: a permutation of `s` in non-decreasing key order. Rows with
      equal keys come out in one fixed order; pandas' `sort_values` leaves that order open. */
  function SortBy<T>(s: seq<T>, key: T -> real): (r: seq<T>)
    ensures |r| == |s|
    ensures multiset(r) == multiset(s)
    ensures SortedBy(r, key)
  {
    if s == [] then []
    else
      assert s == [s[0]] + s[1..];
      Insert(s[0], SortBy(s[1..], key), key)
  }

  /** Group sizes of a key column (`value_counts`, `groupby(...).size()`): a key is present
      exactly when it occurs, and maps to its number of occurrences. */
  function Tally<K(==,!new)>(ks: seq<K>): (m: map<K, nat>)
    ensures forall k :: k in m <==> k in ks
    ensures forall k :: k in m ==> m[k] == multiset(ks)[k]
  {
    if ks == [] then map[]
    else
      var init := ks[..|ks| - 1];
      var k := ks[|ks| - 1];
      assert ks == init + [k];
      var m := Tally(init);
      m[k := if k in m then m[k] + 1 else 1]
  }

  /** Python's `int(float(v))`: truncation toward zero. */
  function TruncToInt(v: real): (t: int)
    ensures 0.0 <= v ==> t as real <= v < t as real + 1.0
    ensures v < 0.0 ==> t as real - 1.0 < v <= t as real
  {
    if v >= 0.0 then v.Floor else -((-v).Floor)
  }

  /** `int(float(arg))` inside `try`: `None` stands for an argument that is missing or that
      `float()` rejects, and the result is `None` exactly then. */
  function ParseId(arg: Option<real>): (r: Option<int>)
    ensures r.Some? <==> arg.Some?
    ensures r.Some? && 0.0 <= arg.value ==> r.value as real <= arg.value < r.value as real + 1.0
    ensures r.Some? && arg.value < 0.0 ==> r.value as real - 1.0 < arg.value <= r.value as real
  {
    match arg
    case None => None
    case Some(v) => Some(TruncToInt(v))
  }

  /** `fillna(0)` for a numeric cell. */
  function OrZero(v: Option<real>): real
  {
    if v.Some? then v.value else 0.0
  }
}
