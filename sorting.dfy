/**
 * A stable sort by an integer key.
 *
 * The tree builder depends on JavaScript's built-in sort order:
 * `nodes.sort((a, b) => a.frequency - b.frequency)`.  The same sort, by key
 * rank, also serves to define the own-key order that `Object.entries`
 * reports, which is not itself a call to `sort`.  Since ES2019,
 * `Array.prototype.sort` must be stable, and for a comparator of the form
 * `key(a) - key(b)` a stable sort has exactly one possible result.  The
 * module defines that result as an insertion sort and proves it is the only
 * sorted, stable rearrangement of its input (`SortUnique`), so whatever
 * algorithm an engine uses, it produces `Sort`.
 */
module Sorting {

  /** Keys never decrease from left to right. */
  ghost predicate SortedBy<T>(s: seq<T>, key: T -> int) {
    forall i, j :: 0 <= i < j < |s| ==> key(s[i]) <= key(s[j])
  }

  /** No two elements of `s` agree on `g`. */
  ghost predicate DistinctBy<T, U>(s: seq<T>, g: T -> U) {
    forall i, j :: 0 <= i < j < |s| ==> g(s[i]) != g(s[j])
  }

  /** Places `x` before the first element whose key is not smaller than its own. */
  function Insert<T>(x: T, s: seq<T>, key: T -> int): (r: seq<T>)
    ensures |r| == |s| + 1
    ensures multiset(r) == multiset(s) + multiset{x}
  {
    if s == [] then [x]
    else if key(x) <= key(s[0]) then [x] + s
    else
      assert s == [s[0]] + s[1..];
      [s[0]] + Insert(x, s[1..], key)
  }

  /** Stable sort: the earlier of two elements with equal keys stays first. */
  function Sort<T>(s: seq<T>, key: T -> int): (r: seq<T>)
    ensures |r| == |s|
    ensures multiset(r) == multiset(s)
  {
    if s == [] then []
    else
      assert s == [s[0]] + s[1..];
      Insert(s[0], Sort(s[1..], key), key)
  }

  /** The elements of `s` whose key is `v`, in their order in `s`. */
  function Filter<T>(s: seq<T>, key: T -> int, v: int): seq<T> {
    if s == [] then [] else (if key(s[0]) == v then [s[0]] else []) + Filter(s[1..], key, v)
  }

  lemma {:induction false} FilterMember<T>(s: seq<T>, key: T -> int, v: int, x: T)
    requires x in Filter(s, key, v)
    ensures x in s && key(x) == v
  {
    if s != [] && !(key(s[0]) == v && x == s[0]) {
      FilterMember(s[1..], key, v, x);
    }
  }

  lemma {:induction false} InsertSorted<T>(x: T, s: seq<T>, key: T -> int)
    requires SortedBy(s, key)
    ensures SortedBy(Insert(x, s, key), key)
  {
    if s != [] && key(x) > key(s[0]) {
      InsertSorted(x, s[1..], key);
      var r := Insert(x, s, key);
      forall i, j | 0 <= i < j < |r| ensures key(r[i]) <= key(r[j]) {
        if i == 0 {
          assert r[j] in multiset(Insert(x, s[1..], key));
          assert r[j] == x || r[j] in s[1..];
        }
      }
    }
  }

  /** `Sort` orders its result by key. */
  lemma {:induction false} SortSorted<T>(s: seq<T>, key: T -> int)
    ensures SortedBy(Sort(s, key), key)
  {
    if s != [] {
      SortSorted(s[1..], key);
      InsertSorted(s[0], Sort(s[1..], key), key);
    }
  }

  lemma FilterCons<T>(y: T, r: seq<T>, key: T -> int, v: int)
    ensures Filter([y] + r, key, v) == (if key(y) == v then [y] else []) + Filter(r, key, v)
  {
    assert ([y] + r)[0] == y && ([y] + r)[1..] == r;
  }

  lemma {:induction false} InsertFilter<T>(x: T, s: seq<T>, key: T -> int, v: int)
    ensures Filter(Insert(x, s, key), key, v) == (if key(x) == v then [x] else []) + Filter(s, key, v)
  {
    var xs := if key(x) == v then [x] else [];
    if s == [] {
      assert Insert(x, s, key) == [x] + [] by {}
      FilterCons(x, [], key, v);
    } else if key(x) > key(s[0]) {
      var hs := if key(s[0]) == v then [s[0]] else [];
      var r, t := Insert(x, s[1..], key), s[1..];
      InsertFilter(x, t, key, v);
      calc {
        Filter(Insert(x, s, key), key, v);
        { assert Insert(x, s, key) == [s[0]] + r; }
        Filter([s[0]] + r, key, v);
        { FilterCons(s[0], r, key, v); }
        hs + Filter(r, key, v);
        hs + (xs + Filter(t, key, v));
        { assert xs == [] || hs == []; }
        xs + (hs + Filter(t, key, v));
        { FilterCons(s[0], t, key, v); assert s == [s[0]] + t; }
        xs + Filter(s, key, v);
      }
    } else {
      assert Insert(x, s, key) == [x] + s by {}
      FilterCons(x, s, key, v);
    }
  }

  /** `Sort` is stable: among equal keys the input order survives. */
  lemma {:induction false} SortStable<T>(s: seq<T>, key: T -> int)
    ensures forall v :: Filter(Sort(s, key), key, v) == Filter(s, key, v)
  {
    if s != [] {
      SortStable(s[1..], key);
      forall v ensures Filter(Sort(s, key), key, v) == Filter(s, key, v) {
        InsertFilter(s[0], Sort(s[1..], key), key, v);
      }
    }
  }

  lemma FilterOfFirst<T>(s: seq<T>, key: T -> int)
    ensures s == [] || Filter(s, key, key(s[0])) == [s[0]] + Filter(s[1..], key, key(s[0]))
  {
  }

  lemma {:induction false} SortedFiltersDetermine<T>(t: seq<T>, u: seq<T>, key: T -> int)
    requires SortedBy(t, key) && SortedBy(u, key)
    requires forall v :: Filter(t, key, v) == Filter(u, key, v)
    ensures t == u
  {
    FilterOfFirst(u, key);
    if t == [] {
    } else {
      var m := key(t[0]);
      assert Filter(t, key, m)[0] == t[0];
      assert u != [] by {
        assert Filter(u, key, m) != [];
      }
      var m' := key(u[0]);
      assert Filter(u, key, m')[0] == u[0];
      FilterMember(t, key, m', Filter(t, key, m')[0]);
      FilterMember(u, key, m, Filter(u, key, m)[0]);
      assert m == m';
      assert t[0] == u[0];
      forall v ensures Filter(t[1..], key, v) == Filter(u[1..], key, v) {
        assert Filter(t, key, v) == Filter(u, key, v);
        if v == m {
          assert Filter(t, key, v) == [t[0]] + Filter(t[1..], key, v);
          assert Filter(u, key, v) == [u[0]] + Filter(u[1..], key, v);
          assert Filter(t[1..], key, v) == Filter(t, key, v)[1..];
          assert Filter(u[1..], key, v) == Filter(u, key, v)[1..];
        } else {
          assert Filter(t, key, v) == Filter(t[1..], key, v);
          assert Filter(u, key, v) == Filter(u[1..], key, v);
        }
      }
      SortedFiltersDetermine(t[1..], u[1..], key);
      assert t == [t[0]] + t[1..] && u == [u[0]] + u[1..];
    }
  }

  /**
   * The sort result is unique: any sorted sequence that keeps the order of
   * equal-keyed elements of `s` is `Sort(s, key)`.
   */
  lemma SortUnique<T>(s: seq<T>, t: seq<T>, key: T -> int)
    requires SortedBy(t, key)
    requires forall v :: Filter(t, key, v) == Filter(s, key, v)
    ensures t == Sort(s, key)
  {
    SortSorted(s, key);
    SortStable(s, key);
    SortedFiltersDetermine(t, Sort(s, key), key);
  }

  /** Sorting an already sorted sequence changes nothing. */
  lemma SortOfSorted<T>(s: seq<T>, key: T -> int)
    requires SortedBy(s, key)
    ensures Sort(s, key) == s
  {
    SortUnique(s, s, key);
  }

  lemma RemoveAt<T>(a: seq<T>, k: nat)
    requires k < |a|
    ensures multiset(a[..k] + a[k + 1..]) == multiset(a) - multiset{a[k]}
  {
    assert a == a[..k] + [a[k]] + a[k + 1..];
    assert multiset(a) == multiset(a[..k]) + multiset{a[k]} + multiset(a[k + 1..]);
  }

  lemma RemoveAtDistinct<T, U>(a: seq<T>, k: nat, g: T -> U)
    requires k < |a| && DistinctBy(a, g)
    ensures DistinctBy(a[..k] + a[k + 1..], g)
    ensures forall x :: x in a[..k] + a[k + 1..] ==> g(x) != g(a[k])
  {
    var a' := a[..k] + a[k + 1..];
    forall i, j | 0 <= i < j < |a'| ensures g(a'[i]) != g(a'[j]) {
      var i' := if i < k then i else i + 1;
      var j' := if j < k then j else j + 1;
      assert a'[i] == a[i'] && a'[j] == a[j'];
    }
    forall x | x in a' ensures g(x) != g(a[k]) {
      var m :| 0 <= m < |a'| && a'[m] == x;
      var m' := if m < k then m else m + 1;
      assert a'[m] == a[m'] && m' != k;
    }
  }

  /** A rearrangement keeps the property that no two elements agree on `g`. */
  lemma {:induction false} PermutationKeepsDistinct<T, U>(a: seq<T>, b: seq<T>, g: T -> U)
    requires multiset(a) == multiset(b)
    requires DistinctBy(a, g)
    ensures DistinctBy(b, g)
  {
    if b != [] {
      assert b[0] in multiset(a);
      var k :| 0 <= k < |a| && a[k] == b[0];
      var a', b' := a[..k] + a[k + 1..], b[1..];
      assert multiset(a') == multiset(b') by {
        RemoveAt(a, k);
        assert b == [b[0]] + b';
        assert multiset(b) == multiset{b[0]} + multiset(b');
      }
      assert DistinctBy(a', g) && forall x :: x in a' ==> g(x) != g(b[0]) by {
        RemoveAtDistinct(a, k, g);
      }
      PermutationKeepsDistinct(a', b', g);
      forall i, j | 0 <= i < j < |b| ensures g(b[i]) != g(b[j]) {
        assert b[j] == b'[j - 1];
        if i == 0 {
          assert b[j] in multiset(a');
        } else {
          assert b[i] == b'[i - 1];
        }
      }
    }
  }
}
