/**
 Swift's `sorted(by:)` with a strict "is in increasing order" comparator, as a stable
 insertion sort, and the fact that makes sorted lists good fingerprints: under a comparator
 that is total on the elements, two sorted lists are equal exactly when they hold the same
 multiset of elements.
 */
module Sorting {

  /** `lt` is a strict weak order: asymmetric, and incomparability is transitive. */
  ghost predicate StrictWeakOrder<T(!new)>(lt: (T, T) -> bool) {
    && (forall x, y :: lt(x, y) ==> !lt(y, x))
    && (forall x, y, z :: lt(x, z) ==> lt(x, y) || lt(y, z))
  }

  /** Any two distinct elements of `s` are comparable under `lt`. */
  ghost predicate TotalOn<T>(lt: (T, T) -> bool, s: seq<T>) {
    forall i, j :: 0 <= i < |s| && 0 <= j < |s| && s[i] != s[j] ==> lt(s[i], s[j]) || lt(s[j], s[i])
  }

  /** No later element is strictly smaller than an earlier one. */
  ghost predicate Sorted<T>(s: seq<T>, lt: (T, T) -> bool) {
    forall i, j :: 0 <= i < j < |s| ==> !lt(s[j], s[i])
  }

  /** Inserts `x` before the first element that is not smaller than it. */
  function Insert<T>(x: T, s: seq<T>, lt: (T, T) -> bool): (r: seq<T>)
    ensures multiset(r) == multiset(s) + multiset{x}
    ensures |r| == |s| + 1
  {
    if |s| == 0 || !lt(s[0], x) then [x] + s
    else
      assert s == [s[0]] + s[1..];
      [s[0]] + Insert(x, s[1..], lt)
  }

  /** `s.sorted(by: lt)`. */
  function Sort<T>(s: seq<T>, lt: (T, T) -> bool): (r: seq<T>)
    ensures multiset(r) == multiset(s)
    ensures |r| == |s|
  {
    if |s| == 0 then []
    else
      assert s == [s[0]] + s[1..];
      Insert(s[0], Sort(s[1..], lt), lt)
  }

  lemma {:induction false} InsertSorted<T(!new)>(x: T, s: seq<T>, lt: (T, T) -> bool)
    requires StrictWeakOrder(lt) && Sorted(s, lt)
    ensures Sorted(Insert(x, s, lt), lt)
  {
    if |s| == 0 || !lt(s[0], x) {
      var r := [x] + s;
      forall i, j | 0 <= i < j < |r| ensures !lt(r[j], r[i]) {
        if i == 0 {
          // r[j] is not below s[0], and s[0] is not below x
          if j > 1 {
            assert !lt(s[j - 1], s[0]);
          }
        }
      }
    } else {
      InsertSorted(x, s[1..], lt);
      var t := Insert(x, s[1..], lt);
      var r := [s[0]] + t;
      forall i, j | 0 <= i < j < |r| ensures !lt(r[j], r[i]) {
        if i == 0 {
          assert r[j] in multiset(t);
          assert r[j] in multiset(s[1..]) || r[j] == x;
          if r[j] != x {
            var k :| 0 <= k < |s[1..]| && s[1..][k] == r[j];
            assert !lt(s[k + 1], s[0]);
          }
        }
      }
    }
  }

  /** `Sort` returns a sorted list when `lt` is a strict weak order. */
  lemma {:induction false} SortSorted<T(!new)>(s: seq<T>, lt: (T, T) -> bool)
    requires StrictWeakOrder(lt)
    ensures Sorted(Sort(s, lt), lt)
  {
    if |s| > 0 {
      SortSorted(s[1..], lt);
      InsertSorted(s[0], Sort(s[1..], lt), lt);
    }
  }

  /** Both sorted lists start with the one element nothing is smaller than. */
  lemma SortedHeadsEqual<T>(a: seq<T>, b: seq<T>, lt: (T, T) -> bool)
    requires Sorted(a, lt) && Sorted(b, lt)
    requires multiset(a) == multiset(b) && |a| > 0
    requires TotalOn(lt, a)
    ensures |b| > 0 && a[0] == b[0]
  {
    assert a[0] in multiset(b);
    var j :| 0 <= j < |b| && b[j] == a[0];
    assert b[0] in multiset(a);
    var i :| 0 <= i < |a| && a[i] == b[0];
    if i > 0 {
      assert !lt(a[i], a[0]);
    }
    if j > 0 {
      assert !lt(b[j], b[0]);
    }
  }

  /** Totality on the elements does not depend on their order. */
  lemma TotalOnPermutation<T>(lt: (T, T) -> bool, a: seq<T>, b: seq<T>)
    requires multiset(a) == multiset(b) && TotalOn(lt, a)
    ensures TotalOn(lt, b)
  {
    forall i, j | 0 <= i < |b| && 0 <= j < |b| && b[i] != b[j]
      ensures lt(b[i], b[j]) || lt(b[j], b[i])
    {
      assert b[i] in multiset(a) && b[j] in multiset(a);
      var i' :| 0 <= i' < |a| && a[i'] == b[i];
      var j' :| 0 <= j' < |a| && a[j'] == b[j];
    }
  }

  lemma TailKeepsOrder<T>(a: seq<T>, lt: (T, T) -> bool)
    requires |a| > 0 && Sorted(a, lt) && TotalOn(lt, a)
    ensures Sorted(a[1..], lt) && TotalOn(lt, a[1..])
  {
    forall i, j | 0 <= i < |a[1..]| && 0 <= j < |a[1..]| && a[1..][i] != a[1..][j]
      ensures lt(a[1..][i], a[1..][j]) || lt(a[1..][j], a[1..][i])
    {
      assert a[1..][i] == a[i + 1] && a[1..][j] == a[j + 1];
    }
  }

  /**
   Two sorted lists with the same elements are equal when `lt` is total on those elements.
   */
  lemma {:induction false} SortedUnique<T>(a: seq<T>, b: seq<T>, lt: (T, T) -> bool)
    requires Sorted(a, lt) && Sorted(b, lt)
    requires multiset(a) == multiset(b)
    requires TotalOn(lt, a)
    ensures a == b
  {
    if |a| == 0 {
      assert |b| == |multiset(b)| == 0;
    } else {
      SortedHeadsEqual(a, b, lt);
      assert a == [a[0]] + a[1..] && b == [b[0]] + b[1..];
      assert multiset(a[1..]) == multiset(a) - multiset{a[0]};
      assert multiset(b[1..]) == multiset(b) - multiset{b[0]};
      TailKeepsOrder(a, lt);
      SortedUnique(a[1..], b[1..], lt);
    }
  }

  /**
   Sorting under a strict weak order that is total on the elements forgets the input order
   and nothing else: the sorted lists agree exactly when the inputs are permutations of each other.
   */
  lemma SortEqualIffPermutation<T(!new)>(a: seq<T>, b: seq<T>, lt: (T, T) -> bool)
    requires StrictWeakOrder(lt)
    requires TotalOn(lt, a)
    ensures Sort(a, lt) == Sort(b, lt) <==> multiset(a) == multiset(b)
  {
    if multiset(a) == multiset(b) {
      SortSorted(a, lt);
      SortSorted(b, lt);
      TotalOnPermutation(lt, a, Sort(a, lt));
      SortedUnique(Sort(a, lt), Sort(b, lt), lt);
    }
  }

  /** A strict total order: asymmetric, transitive, and any two distinct values are comparable. */
  ghost predicate StrictTotalOrder<T(!new)>(lt: (T, T) -> bool) {
    && (forall x, y :: lt(x, y) ==> !lt(y, x))
    && (forall x, y, z :: lt(x, y) && lt(y, z) ==> lt(x, z))
    && (forall x, y :: x != y ==> lt(x, y) || lt(y, x))
  }

  /** A strict total order is a strict weak order that is total on every list. */
  lemma StrictTotalIsWeak<T(!new)>(lt: (T, T) -> bool, s: seq<T>)
    requires StrictTotalOrder(lt)
    ensures StrictWeakOrder(lt) && TotalOn(lt, s)
  {
  }
}
