/** Three scans over lists: `arrayOverlap`, `arrayInArray` and
    `most_frequent`. */
module Scans {

  import opened Wrappers

  /** Some element of `a` is also in `b`. */
  predicate Overlaps<T(==)>(a: seq<T>, b: seq<T>) {
    exists i | 0 <= i < |a| :: a[i] in b
  }

  /** `arrayOverlap(a, b)` */
  method ArrayOverlap<T(==)>(a: seq<T>, b: seq<T>) returns (r: bool)
    ensures r <==> Overlaps(a, b)
  {
    for i := 0 to |a|
      invariant forall k | 0 <= k < i :: a[k] !in b
    {
      if a[i] in b {
        return true;
      }
    }
    return false;
  }

  /** Overlap does not depend on the order of the two lists. */
  lemma OverlapsSymmetric<T>(a: seq<T>, b: seq<T>)
    ensures Overlaps(a, b) <==> Overlaps(b, a)
  {
    if Overlaps(a, b) {
      var i :| 0 <= i < |a| && a[i] in b;
      var j :| 0 <= j < |b| && b[j] == a[i];
      assert b[j] in a;
    }
    if Overlaps(b, a) {
      var j :| 0 <= j < |b| && b[j] in a;
      var i :| 0 <= i < |a| && a[i] == b[j];
      assert a[i] in b;
    }
  }

  /** `a` occurs in `b` as a contiguous run starting at `i`. */
  predicate OccursAt<T(==)>(a: seq<T>, b: seq<T>, i: nat) {
    i + |a| <= |b| && b[i..i + |a|] == a
  }

  /** `a` occurs somewhere in `b` as a contiguous run. */
  predicate IsSlice<T(==)>(a: seq<T>, b: seq<T>) {
    exists i: nat | i + |a| <= |b| :: OccursAt(a, b, i)
  }

  /** The inner loop of `arrayInArray`: every element of `a` matches
      `b` from `i` on. */
  method MatchesAt<T(==)>(a: seq<T>, b: seq<T>, i: nat) returns (passed: bool)
    requires i + |a| <= |b|
    ensures passed <==> OccursAt(a, b, i)
  {
    for j := 0 to |a|
      invariant forall k | 0 <= k < j :: a[k] == b[i + k]
    {
      if a[j] != b[i + j] {
        assert b[i..i + |a|][j] != a[j];
        return false;
      }
    }
    assert b[i..i + |a|] == a;
    return true;
  }

  /** `arrayInArray(a, b)`: every start position in turn, the first that
      matches answers `true`; there is none when `a` is longer than `b`. */
  method ArrayInArray<T(==)>(a: seq<T>, b: seq<T>) returns (r: bool)
    ensures r <==> IsSlice(a, b)
  {
    var i: nat := 0;
    while i + |a| <= |b|
      invariant forall k: nat | k < i :: !OccursAt(a, b, k)
    {
      var passed := MatchesAt(a, b, i);
      if passed {
        return true;
      }
      i := i + 1;
    }
    return false;
  }

  /** The empty list occurs in every list, the longer never in the shorter. */
  lemma SliceLengths<T>(a: seq<T>, b: seq<T>)
    ensures a == [] ==> IsSlice(a, b)
    ensures |a| > |b| ==> !IsSlice(a, b)
  {
    if a == [] {
      assert OccursAt(a, b, 0);
    }
  }

  /** A list occurs in anything built around it. */
  lemma SliceOfConcat<T>(p: seq<T>, a: seq<T>, q: seq<T>)
    ensures IsSlice(a, p + a + q)
  {
    assert (p + a + q)[|p|..|p| + |a|] == a;
    assert OccursAt(a, p + a + q, |p|);
  }

  /** A slice of a slice is a slice. */
  lemma SliceTransitive<T>(a: seq<T>, b: seq<T>, c: seq<T>)
    requires IsSlice(a, b) && IsSlice(b, c)
    ensures IsSlice(a, c)
  {
    var i: nat :| i + |a| <= |b| && OccursAt(a, b, i);
    var j: nat :| j + |b| <= |c| && OccursAt(b, c, j);
    forall k | 0 <= k < |a| ensures c[j + i + k] == a[k] {
      assert b[i + k] == a[k];
      assert c[j + (i + k)] == b[i + k];
    }
    assert c[j + i..j + i + |a|] == a;
    assert OccursAt(a, c, j + i);
  }

  /** `most_frequent(arr)`: an element with the largest number of
      occurrences, the first such in list order, and that number; `None`
      where the empty list raises IndexError. */
  method MostFrequent<T(==)>(arr: seq<T>) returns (r: Option<(T, nat)>)
    ensures r.None? <==> arr == []
    ensures r.Some? ==> r.value.0 in arr && r.value.1 == multiset(arr)[r.value.0]
    ensures r.Some? ==> forall x | x in arr :: multiset(arr)[x] <= r.value.1
    ensures r.Some? ==> exists at | 0 <= at < |arr| ::
      arr[at] == r.value.0 && forall l | 0 <= l < at :: multiset(arr)[arr[l]] < r.value.1
  {
    if arr == [] {
      return None;
    }
    var counter: nat := 0;
    var elem := arr[0];
    ghost var at := 0;
    for i := 0 to |arr|
      invariant 0 <= at < |arr| && arr[at] == elem
      invariant i == 0 ==> counter == 0 && at == 0
      invariant i > 0 ==> at < i && counter == multiset(arr)[elem]
      invariant forall l | 0 <= l < i :: multiset(arr)[arr[l]] <= counter
      invariant forall l | 0 <= l < at :: multiset(arr)[arr[l]] < counter
    {
      var current := multiset(arr)[arr[i]];
      if current > counter {
        counter := current;
        elem := arr[i];
        at := i;
      }
    }
    forall x | x in arr ensures multiset(arr)[x] <= counter {
      var l :| 0 <= l < |arr| && arr[l] == x;
    }
    return Some((elem, counter));
  }
}
