/**
 * Sequence helpers the evaluator is built from: Ruby's `sort` by a key,
 * `uniq` by a key, `flatten`, and the arithmetic of runs of consecutive
 * integers used by straight detection.
 */
module Seqs {

  ghost predicate SortedDescBy<T>(s: seq<T>, key: T -> int)
  {
    forall i, j :: 0 <= i < j < |s| ==> key(s[i]) >= key(s[j])
  }

  ghost predicate StrictlyDescBy<T>(s: seq<T>, key: T -> int)
  {
    forall i, j :: 0 <= i < j < |s| ==> key(s[i]) > key(s[j])
  }

  /** Inserts `x` into a sequence sorted by descending key. */
  function InsertDescBy<T>(x: T, s: seq<T>, key: T -> int): (r: seq<T>)
    requires SortedDescBy(s, key)
    ensures multiset(r) == multiset(s) + multiset{x}
    ensures SortedDescBy(r, key)
  {
    if |s| == 0 || key(x) >= key(s[0]) then
      [x] + s
    else
      var tail := InsertDescBy(x, s[1..], key);
      assert s == [s[0]] + s[1..];
      InsertedTailBelowHead(x, s, tail, key);
      [s[0]] + tail
  }

  lemma InsertedTailBelowHead<T>(x: T, s: seq<T>, tail: seq<T>, key: T -> int)
    requires |s| > 0 && key(x) < key(s[0])
    requires SortedDescBy(s, key) && SortedDescBy(tail, key)
    requires multiset(tail) == multiset(s[1..]) + multiset{x}
    ensures SortedDescBy([s[0]] + tail, key)
  {
    var r := [s[0]] + tail;
    forall j | 0 < j < |r| ensures key(r[0]) >= key(r[j]) {
      var y := tail[j - 1];
      assert y in multiset(tail);
      if y != x {
        assert y in s[1..];
        var k :| 0 <= k < |s[1..]| && s[1..][k] == y;
        assert s[k + 1] == y;
      }
    }
  }

  /**
   * Ruby's `sort` followed by `reverse`, for a key whose ties the source
   * leaves in no particular order: a permutation sorted by descending key.
   */
  function SortDescBy<T>(s: seq<T>, key: T -> int): (r: seq<T>)
    ensures multiset(r) == multiset(s)
    ensures |r| == |s|
    ensures SortedDescBy(r, key)
  {
    if |s| == 0 then
      []
    else
      assert s == [s[0]] + s[1..];
      InsertDescBy(s[0], SortDescBy(s[1..], key), key)
  }

  /** The set of keys of the elements of `s`. */
  ghost function KeysOf<T, K>(s: seq<T>, key: T -> K): set<K>
  {
    set x | x in s :: key(x)
  }

  /** Ruby's `uniq` with a block: keeps the first element of each key, in order. */
  function UniqBy<T, K(==)>(s: seq<T>, key: T -> K): (u: seq<T>)
    ensures forall i, j :: 0 <= i < j < |u| ==> key(u[i]) != key(u[j])
    ensures forall x :: x in u ==> x in s
    ensures KeysOf(u, key) == KeysOf(s, key)
    ensures |u| <= |s|
  {
    if |s| == 0 then
      []
    else
      var init := s[..|s| - 1];
      var last := s[|s| - 1];
      var u := UniqBy(init, key);
      assert s == init + [last];
      assert KeysOf(s, key) == KeysOf(init, key) + {key(last)};
      if exists i :: 0 <= i < |u| && key(u[i]) == key(last) then
        u
      else
        assert KeysOf(u + [last], key) == KeysOf(u, key) + {key(last)};
        u + [last]
  }

  /** No element before index `i` has the key of `s[i]`. */
  ghost predicate IsFirstOfKey<T, K>(s: seq<T>, key: T -> K, i: int)
    requires 0 <= i < |s|
  {
    forall m :: 0 <= m < i ==> key(s[m]) != key(s[i])
  }

  /** The elements of `s` that are the first of their key, in the order of `s`. */
  ghost function FirstsOfKeys<T, K>(s: seq<T>, key: T -> K): seq<T>
  {
    if |s| == 0 then
      []
    else
      FirstsOfKeys(s[..|s| - 1], key) + (if IsFirstOfKey(s, key, |s| - 1) then [s[|s| - 1]] else [])
  }

  /** `UniqBy` keeps exactly the first element of each key, in the order of `s`. */
  lemma {:induction false} UniqByKeepsFirsts<T, K>(s: seq<T>, key: T -> K)
    ensures UniqBy(s, key) == FirstsOfKeys(s, key)
  {
    if |s| > 0 {
      var init := s[..|s| - 1];
      var last := s[|s| - 1];
      var u := UniqBy(init, key);
      UniqByKeepsFirsts(init, key);
      if exists i :: 0 <= i < |u| && key(u[i]) == key(last) {
        var i :| 0 <= i < |u| && key(u[i]) == key(last);
        assert key(u[i]) in KeysOf(init, key);
        var m :| 0 <= m < |init| && key(init[m]) == key(last);
        assert key(s[m]) == key(s[|s| - 1]);
        assert !IsFirstOfKey(s, key, |s| - 1);
      } else {
        forall m | 0 <= m < |s| - 1 ensures key(s[m]) != key(last) {
          assert s[m] == init[m];
          assert key(init[m]) in KeysOf(u, key);
        }
        assert IsFirstOfKey(s, key, |s| - 1);
      }
    }
  }

  /**
   * Keeping first occurrences of a sequence sorted by a value that
   * determines the key leaves it strictly decreasing in that value.
   */
  lemma {:induction false} UniqBySorted<T, K>(s: seq<T>, key: T -> K, val: T -> int)
    requires SortedDescBy(s, val)
    requires forall x, y :: x in s && y in s && key(x) != key(y) ==> val(x) != val(y)
    ensures StrictlyDescBy(UniqBy(s, key), val)
  {
    if |s| > 0 {
      var init := s[..|s| - 1];
      var last := s[|s| - 1];
      UniqBySorted(init, key, val);
      var u := UniqBy(init, key);
      if !exists i :: 0 <= i < |u| && key(u[i]) == key(last) {
        assert UniqBy(s, key) == u + [last];
        forall i | 0 <= i < |u| ensures val(u[i]) > val(last) {
          AboveLast(s, key, val, u[i]);
        }
      }
    }
  }

  /** An earlier element of a sorted sequence with a different key has a greater value than the last. */
  lemma AboveLast<T, K>(s: seq<T>, key: T -> K, val: T -> int, x: T)
    requires SortedDescBy(s, val) && |s| > 0
    requires forall x, y :: x in s && y in s && key(x) != key(y) ==> val(x) != val(y)
    requires x in s[..|s| - 1] && key(x) != key(s[|s| - 1])
    ensures val(x) > val(s[|s| - 1])
  {
    var k :| 0 <= k < |s| - 1 && s[..|s| - 1][k] == x;
    assert s[k] == x;
  }

  /** Ruby's `flatten` of an array of arrays. */
  function Flatten<T>(gs: seq<seq<T>>): seq<T>
  {
    if |gs| == 0 then [] else gs[0] + Flatten(gs[1..])
  }

  lemma {:induction false} FlattenAppend<T>(gs: seq<seq<T>>, g: seq<T>)
    ensures Flatten(gs + [g]) == Flatten(gs) + g
  {
    if |gs| > 0 {
      assert (gs + [g])[1..] == gs[1..] + [g];
      FlattenAppend(gs[1..], g);
    } else {
      assert gs + [g] == [g];
    }
  }

  // ---- Runs of consecutive integers ----

  ghost predicate StrictlyDecreasing(a: seq<int>)
  {
    forall i, j :: 0 <= i < j < |a| ==> a[i] > a[j]
  }

  /** The `k` neighbours from position `i` span exactly `k - 1`. */
  predicate WindowSpans(a: seq<int>, k: int, i: int)
    requires k >= 1 && 0 <= i && i + k <= |a|
  {
    a[i] - a[i + k - 1] == k - 1
  }

  /** Ruby's `each_cons(k).any?`: some window of `k` neighbours spans exactly `k - 1`. */
  predicate WindowRun(a: seq<int>, k: int)
    requires k >= 1
  {
    exists i :: 0 <= i && i + k <= |a| && WindowSpans(a, k, i)
  }

  /** Every one of the `k` integers ending at `t` (t - k + 1 .. t) occurs in `a`. */
  ghost predicate RunTopAt(a: seq<int>, t: int, k: int)
  {
    forall v :: t - k < v <= t ==> v in a
  }

  /** Neighbours in a strictly decreasing sequence differ by at least their distance. */
  lemma {:induction false} DecreasingGap(a: seq<int>, i: int, j: int)
    requires StrictlyDecreasing(a)
    requires 0 <= i <= j < |a|
    ensures a[i] - a[j] >= j - i
    decreases j - i
  {
    if i < j {
      DecreasingGap(a, i + 1, j);
    }
  }

  /**
   * In a strictly decreasing sequence that holds every integer of a run,
   * the run sits at consecutive positions starting where its top is.
   */
  lemma {:induction false} RunPositions(a: seq<int>, t: int, k: int, p: int, j: int)
    requires StrictlyDecreasing(a)
    requires RunTopAt(a, t, k)
    requires 0 <= p < |a| && a[p] == t
    requires 0 <= j < k
    ensures p + j < |a| && a[p + j] == t - j
  {
    if j > 0 {
      RunPositions(a, t, k, p, j - 1);
      assert t - j in a;
      var q :| 0 <= q < |a| && a[q] == t - j;
      assert q > p + j - 1;
      assert a[p + j] >= a[q];
      assert a[p + j] < a[p + j - 1];
    }
  }

  /** A window run in a strictly decreasing sequence is exactly a run of consecutive integers present in it. */
  lemma WindowRunIff(a: seq<int>, k: int)
    requires StrictlyDecreasing(a)
    requires k >= 1
    ensures WindowRun(a, k) <==> exists t :: RunTopAt(a, t, k)
  {
    if WindowRun(a, k) {
      var i :| 0 <= i && i + k <= |a| && WindowSpans(a, k, i);
      WindowIsRun(a, k, i);
    }
    if exists t :: RunTopAt(a, t, k) {
      var t :| RunTopAt(a, t, k);
      RunIsWindow(a, k, t);
    }
  }

  lemma WindowIsRun(a: seq<int>, k: int, i: int)
    requires StrictlyDecreasing(a)
    requires k >= 1 && 0 <= i && i + k <= |a| && a[i] - a[i + k - 1] == k - 1
    ensures RunTopAt(a, a[i], k)
  {
    var t := a[i];
    forall v | t - k < v <= t ensures v in a {
      var j := t - v;
      DecreasingGap(a, i, i + j);
      DecreasingGap(a, i + j, i + k - 1);
      assert a[i + j] == v;
    }
  }

  lemma RunIsWindow(a: seq<int>, k: int, t: int)
    requires StrictlyDecreasing(a)
    requires k >= 1 && RunTopAt(a, t, k)
    ensures WindowRun(a, k)
  {
    assert t in a;
    var p :| 0 <= p < |a| && a[p] == t;
    RunPositions(a, t, k, p, k - 1);
    assert WindowSpans(a, k, p);
  }

  /**
   * A strictly decreasing sequence with no element below `lo` that holds
   * every integer of `lo .. lo + m - 1` ends with exactly those integers,
   * in decreasing order.
   */
  lemma LowestRunIsSuffix(a: seq<int>, lo: int, m: int, j: int)
    requires StrictlyDecreasing(a)
    requires forall i :: 0 <= i < |a| ==> a[i] >= lo
    requires RunTopAt(a, lo + m - 1, m)
    requires 0 <= j < m
    ensures m <= |a| && a[|a| - m + j] == lo + m - 1 - j
  {
    var t := lo + m - 1;
    assert t in a;
    var p :| 0 <= p < |a| && a[p] == t;
    RunPositions(a, t, m, p, m - 1);
    assert a[|a| - 1] >= lo;
    assert p + m == |a|;
    RunPositions(a, t, m, p, j);
  }

  /**
   * The first window of a strictly decreasing sequence that spans
   * `k - 1` holds consecutive integers and has the highest top of any run.
   */
  lemma FirstWindowIsHighest(a: seq<int>, k: int, j: int)
    requires StrictlyDecreasing(a)
    requires k >= 1 && 0 <= j && j + k <= |a| && WindowSpans(a, k, j)
    requires forall i :: 0 <= i < j ==> !WindowSpans(a, k, i)
    ensures forall i :: j <= i < j + k ==> a[i] == a[j] - (i - j)
    ensures RunTopAt(a, a[j], k)
    ensures forall t :: RunTopAt(a, t, k) ==> t <= a[j]
  {
    forall i | j <= i < j + k ensures a[i] == a[j] - (i - j) {
      DecreasingGap(a, j, i);
      DecreasingGap(a, i, j + k - 1);
    }
    WindowIsRun(a, k, j);
    forall t | RunTopAt(a, t, k) ensures t <= a[j] {
      assert t in a;
      var p :| 0 <= p < |a| && a[p] == t;
      RunPositions(a, t, k, p, k - 1);
      assert WindowSpans(a, k, p);
      DecreasingGap(a, j, p);
    }
  }

  /** Distinct keys: as many keys as elements. */
  lemma {:induction false} DistinctKeysCount<T, K>(u: seq<T>, key: T -> K)
    requires forall i, j :: 0 <= i < j < |u| ==> key(u[i]) != key(u[j])
    ensures |KeysOf(u, key)| == |u|
  {
    if |u| > 0 {
      var init := u[..|u| - 1];
      assert u == init + [u[|u| - 1]];
      DistinctKeysCount(init, key);
      assert KeysOf(u, key) == KeysOf(init, key) + {key(u[|u| - 1])};
      assert key(u[|u| - 1]) !in KeysOf(init, key);
    }
  }
}
