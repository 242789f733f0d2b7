/** The stable sort behind sortItems: Array.prototype.sort with a comparator
    that subtracts two numeric keys, modelled as an insertion sort. ECMA-262
    requires the sort to be stable (section 23.1.3.30 of the 2023 edition),
    and it fixes the result whenever the comparator is consistent; the
    insertion sort is one such sort. A result that is NaN counts as 0. */
module Sorting {
  import opened Numbers

  /** The comparator `(a, b) => key(a) - key(b)`, or `key(b) - key(a)` when descending. */
  function Cmp<T>(key: T -> ExtNum, descending: bool, a: T, b: T): int {
    if descending then Compare(key(b), key(a)) else Compare(key(a), key(b))
  }

  /** Places x after every element that does not compare greater than it,
      scanning from the end of an already sorted sequence. */
  function Insert<T>(sorted: seq<T>, x: T, key: T -> ExtNum, descending: bool): (r: seq<T>)
    ensures |r| == |sorted| + 1
  {
    if sorted == [] then [x]
    else
      var last := sorted[|sorted| - 1];
      if Cmp(key, descending, last, x) > 0 then Insert(sorted[..|sorted| - 1], x, key, descending) + [last]
      else sorted + [x]
  }

  function SortBy<T>(s: seq<T>, key: T -> ExtNum, descending: bool): (r: seq<T>)
    ensures |r| == |s|
  {
    if s == [] then [] else Insert(SortBy(s[..|s| - 1], key, descending), s[|s| - 1], key, descending)
  }

  // ---------------------------------------------------------------------
  // A permutation.

  lemma {:induction false} InsertPermutes<T>(sorted: seq<T>, x: T, key: T -> ExtNum, descending: bool)
    ensures multiset(Insert(sorted, x, key, descending)) == multiset(sorted) + multiset{x}
  {
    if sorted != [] {
      var init := sorted[..|sorted| - 1];
      var last := sorted[|sorted| - 1];
      assert sorted == init + [last];
      if Cmp(key, descending, last, x) > 0 {
        InsertPermutes(init, x, key, descending);
      }
    }
  }

  /** The sorted sequence holds the same elements, as often, as the input. */
  lemma {:induction false} SortPermutes<T>(s: seq<T>, key: T -> ExtNum, descending: bool)
    ensures multiset(SortBy(s, key, descending)) == multiset(s)
  {
    if s != [] {
      var init := s[..|s| - 1];
      SortPermutes(init, key, descending);
      InsertPermutes(SortBy(init, key, descending), s[|s| - 1], key, descending);
      assert s == init + [s[|s| - 1]];
    }
  }

  // ---------------------------------------------------------------------
  // Stable: elements with equal keys keep their order, for every input.

  /** The elements whose key is k. */
  function WithKey<T>(s: seq<T>, key: T -> ExtNum, k: ExtNum): seq<T> {
    if s == [] then []
    else WithKey(s[..|s| - 1], key, k) + (if key(s[|s| - 1]) == k then [s[|s| - 1]] else [])
  }

  lemma WithKeyAppend<T>(a: seq<T>, b: seq<T>, key: T -> ExtNum, k: ExtNum)
    requires |b| <= 1
    ensures WithKey(a + b, key, k) == WithKey(a, key, k) + WithKey(b, key, k)
  {
    if b == [] {
      assert a + b == a;
    } else {
      assert (a + b)[..|a + b| - 1] == a;
      assert b[..0] == [];
    }
  }

  lemma {:induction false} InsertStable<T>(sorted: seq<T>, x: T, key: T -> ExtNum, descending: bool, k: ExtNum)
    ensures WithKey(Insert(sorted, x, key, descending), key, k) == WithKey(sorted, key, k) + WithKey([x], key, k)
  {
    if sorted == [] {
      assert [x][..0] == [];
    } else {
      var init := sorted[..|sorted| - 1];
      var last := sorted[|sorted| - 1];
      assert sorted == init + [last];
      if Cmp(key, descending, last, x) > 0 {
        var r0 := Insert(init, x, key, descending);
        assert Insert(sorted, x, key, descending) == r0 + [last];
        InsertStable(init, x, key, descending, k);
        CmpPositiveDistinct(key, descending, last, x);
        MovedPast(init, r0, last, x, key, k);
      } else {
        assert Insert(sorted, x, key, descending) == sorted + [x];
        WithKeyAppend(sorted, [x], key, k);
      }
    }
  }

  lemma CmpPositiveDistinct<T>(key: T -> ExtNum, descending: bool, a: T, b: T)
    requires Cmp(key, descending, a, b) > 0
    ensures key(a) != key(b)
  {
    CompareReflexive(key(a));
  }

  /** Moving an element with another key past x keeps the key-k elements in order. */
  lemma MovedPast<T>(init: seq<T>, r0: seq<T>, last: T, x: T, key: T -> ExtNum, k: ExtNum)
    requires key(last) != key(x)
    requires WithKey(r0, key, k) == WithKey(init, key, k) + WithKey([x], key, k)
    ensures WithKey(r0 + [last], key, k) == WithKey(init + [last], key, k) + WithKey([x], key, k)
  {
    WithKeyAppend(r0, [last], key, k);
    WithKeyAppend(init, [last], key, k);
    WithKeySingle(x, key, k);
    WithKeySingle(last, key, k);
    var w := WithKey(init, key, k);
    if key(last) == k {
      assert WithKey([x], key, k) == [];
      assert WithKey(r0 + [last], key, k) == w + [] + [last];
      assert WithKey(init + [last], key, k) + [] == w + [last];
    } else {
      assert WithKey([last], key, k) == [];
      assert WithKey(r0 + [last], key, k) == WithKey(r0, key, k) + [];
      assert WithKey(init + [last], key, k) == w + [];
    }
  }

  lemma WithKeySingle<T>(x: T, key: T -> ExtNum, k: ExtNum)
    ensures WithKey([x], key, k) == if key(x) == k then [x] else []
  {
    assert [x][..0] == [];
  }

  /** For every key value, the elements with that key appear in the sorted
      sequence in the order they had in the input. */
  lemma {:induction false} SortStable<T>(s: seq<T>, key: T -> ExtNum, descending: bool, k: ExtNum)
    ensures WithKey(SortBy(s, key, descending), key, k) == WithKey(s, key, k)
  {
    if s != [] {
      var init := s[..|s| - 1];
      SortStable(init, key, descending, k);
      InsertStable(SortBy(init, key, descending), s[|s| - 1], key, descending, k);
      WithKeyAppend(init, [s[|s| - 1]], key, k);
      assert s == init + [s[|s| - 1]];
    }
  }

  // ---------------------------------------------------------------------
  // Sorted when no key is NaN.

  predicate NoNaN<T>(s: seq<T>, key: T -> ExtNum) {
    forall i :: 0 <= i < |s| ==> !key(s[i]).NaN?
  }

  /** No element is placed after one it compares greater than. */
  predicate Sorted<T>(s: seq<T>, key: T -> ExtNum, descending: bool) {
    forall i, j :: 0 <= i < j < |s| ==> Cmp(key, descending, s[i], s[j]) <= 0
  }

  lemma CmpTransitive<T>(key: T -> ExtNum, descending: bool, a: T, b: T, c: T)
    requires !key(a).NaN? && !key(b).NaN? && !key(c).NaN?
    requires Cmp(key, descending, a, b) <= 0 && Cmp(key, descending, b, c) <= 0
    ensures Cmp(key, descending, a, c) <= 0
  {
    if descending {
      CompareTransitive(key(c), key(b), key(a));
    } else {
      CompareTransitive(key(a), key(b), key(c));
    }
  }

  lemma CmpFlip<T>(key: T -> ExtNum, descending: bool, a: T, b: T)
    ensures Cmp(key, descending, a, b) == -Cmp(key, descending, b, a)
  {
    CompareAntisymmetric(key(a), key(b));
  }

  /** Appending an element that no earlier element exceeds keeps a sequence sorted. */
  lemma SortedSnoc<T>(s: seq<T>, y: T, key: T -> ExtNum, descending: bool)
    requires Sorted(s, key, descending)
    requires forall i :: 0 <= i < |s| ==> Cmp(key, descending, s[i], y) <= 0
    ensures Sorted(s + [y], key, descending)
  {
  }

  /** An upper bound of a sorted sequence and of x bounds everything Insert returns. */
  lemma {:induction false} InsertBounded<T>(sorted: seq<T>, x: T, key: T -> ExtNum, descending: bool, y: T)
    requires forall i :: 0 <= i < |sorted| ==> Cmp(key, descending, sorted[i], y) <= 0
    requires Cmp(key, descending, x, y) <= 0
    ensures forall i :: 0 <= i < |Insert(sorted, x, key, descending)| ==>
      Cmp(key, descending, Insert(sorted, x, key, descending)[i], y) <= 0
  {
    if sorted != [] {
      var init := sorted[..|sorted| - 1];
      if Cmp(key, descending, sorted[|sorted| - 1], x) > 0 {
        InsertBounded(init, x, key, descending, y);
      }
    }
  }

  /** Insert introduces no key that was not there. */
  lemma {:induction false} InsertNoNaN<T>(sorted: seq<T>, x: T, key: T -> ExtNum, descending: bool)
    requires NoNaN(sorted, key) && !key(x).NaN?
    ensures NoNaN(Insert(sorted, x, key, descending), key)
  {
    if sorted != [] {
      var init := sorted[..|sorted| - 1];
      if Cmp(key, descending, sorted[|sorted| - 1], x) > 0 {
        InsertNoNaN(init, x, key, descending);
      }
    }
  }

  lemma {:induction false} InsertSorted<T>(sorted: seq<T>, x: T, key: T -> ExtNum, descending: bool)
    requires Sorted(sorted, key, descending) && NoNaN(sorted, key) && !key(x).NaN?
    ensures Sorted(Insert(sorted, x, key, descending), key, descending)
  {
    if sorted != [] {
      var init := sorted[..|sorted| - 1];
      var last := sorted[|sorted| - 1];
      if Cmp(key, descending, last, x) > 0 {
        InsertSorted(init, x, key, descending);
        CmpFlip(key, descending, last, x);
        InsertBounded(init, x, key, descending, last);
        SortedSnoc(Insert(init, x, key, descending), last, key, descending);
      } else {
        forall i | 0 <= i < |sorted|
          ensures Cmp(key, descending, sorted[i], x) <= 0
        {
          if i < |sorted| - 1 {
            CmpTransitive(key, descending, sorted[i], last, x);
          }
        }
        SortedSnoc(sorted, x, key, descending);
      }
    }
  }

  /** With no NaN key the result is in comparator order: ascending keys, or
      descending when asked. */
  lemma {:induction false} SortSorted<T>(s: seq<T>, key: T -> ExtNum, descending: bool)
    requires NoNaN(s, key)
    ensures Sorted(SortBy(s, key, descending), key, descending)
  {
    if s != [] {
      var init := s[..|s| - 1];
      SortSorted(init, key, descending);
      var t := SortBy(init, key, descending);
      SortNoNaN(init, key, descending);
      InsertSorted(t, s[|s| - 1], key, descending);
    }
  }

  lemma {:induction false} SortNoNaN<T>(s: seq<T>, key: T -> ExtNum, descending: bool)
    requires NoNaN(s, key)
    ensures NoNaN(SortBy(s, key, descending), key)
  {
    if s != [] {
      SortNoNaN(s[..|s| - 1], key, descending);
      InsertNoNaN(SortBy(s[..|s| - 1], key, descending), s[|s| - 1], key, descending);
    }
  }
}
